/**
 What AsciiProtocol promises: a message written and read back is the same message,
 in whatever order its pairs arrive.
 */
module AsciiRoundTrip {
  import opened AsciiText
  import opened AsciiMessages

  // ----- key=value pairs

  /** No separators and no outer blanks. */
  predicate Clean(t: string) { ',' !in t && '=' !in t && NoOuterSpace(t) }

  lemma NamesAreKeys(k: Key)
    ensures LowerKey(Name(k)) && ',' !in Name(k) && '=' !in Name(k) && NoOuterSpace(Name(k)) && ' ' !in Name(k)
    ensures !PunctOrSpace(Name(k)[|Name(k)| - 1])
  {
  }

  /** Length and two letters tell the keys apart. */
  lemma NamesDistinct(a: Key, b: Key)
    requires Name(a) == Name(b)
    ensures a == b
  {
  }

  lemma {:induction false} FindsItself(keys: seq<Key>, k: Key)
    requires k in keys
    ensures FindKey(keys, Name(k)) == Found(k)
  {
    hide Name, Iequals, LowerKey;
    NamesAreKeys(k);
    NamesAreKeys(keys[0]);
    LowerKeysCompareExactly(Name(k), Name(keys[0]));
    if Name(k) == Name(keys[0]) {
      NamesDistinct(k, keys[0]);
    } else {
      FindsItself(keys[1..], k);
    }
  }

  /** Split at its one equals sign, a pair gives its two sides. */
  lemma PairSplits(k: string, v: string)
    requires '=' !in k && '=' !in v
    ensures Split(k + "=" + v, '=') == [k, v]
  {
    hide Split, Run, Before;
    var rest := ['='] + v;
    assert k + "=" + v == k + rest;
    SplitOnce(k, rest, '=');
    RunOfOne(v, '=');
    SplitWithout(v, '=');
  }

  lemma RunOfOne(s: string, c: char)
    requires c !in s
    ensures Run([c] + s, c) == 1 && ([c] + s)[1..] == s
  {
  }

  /** A pair splits into its key and its text; a trailing newline makes no difference. */
  lemma TokenResolves(e: Entry, tail: string)
    requires Clean(e.text) && (tail == "" || tail == "\n")
    ensures var kv := ResolveKv(Token(e) + tail);
            && kv.ok == (e.text != "")
            && (kv.ok ==> kv.keyword == Name(e.key) && kv.value == e.text)
  {
    hide Name, Split, Trim, NoOuterSpace;
    var k, v := Name(e.key), e.text + tail;
    NamesAreKeys(e.key);
    TrimClean(k);
    TrimClean(e.text);
    assert e.text + "" == e.text;
    assert Token(e) + tail == k + "=" + v;
    PairSplits(k, v);
  }

  /** A key without a value assigns nothing. */
  lemma BareKeyResolves(k: Key)
    ensures !ResolveKv(Name(k) + "\n").ok
  {
    hide Name;
    NamesAreKeys(k);
    SplitWithout(Name(k) + "\n", '=');
  }

  // ----- what any arrangement of a message's pairs assigns

  /** t carries entry e: as written, at the end of the text, or trimmed to its bare key. */
  predicate Carries(t: string, e: Entry) {
    t == Token(e) || t == Token(e) + "\n" || (e.text == "" && t == Name(e.key) + "\n")
  }

  ghost predicate GoodEntries(keys: seq<Key>, es: seq<Entry>) {
    && (forall i :: 0 <= i < |es| ==> es[i].key in keys && Clean(es[i].text))
    && (forall i, j :: 0 <= i < j < |es| ==> es[i].key != es[j].key)
  }

  ghost predicate CarriesOneOf(t: string, es: seq<Entry>) { exists i :: 0 <= i < |es| && Carries(t, es[i]) }

  ghost predicate CarriedByOneOf(e: Entry, ts: seq<string>) { exists j :: 0 <= j < |ts| && Carries(ts[j], e) }

  /** ts is an arrangement of the pairs es: each token carries one of them and each is carried. */
  ghost predicate Arranges(ts: seq<string>, es: seq<Entry>) {
    && (forall j :: 0 <= j < |ts| ==> CarriesOneOf(ts[j], es))
    && (forall i :: 0 <= i < |es| ==> CarriedByOneOf(es[i], ts))
  }

  lemma CarriedResolves(t: string, e: Entry, keys: seq<Key>)
    requires Carries(t, e) && Clean(e.text) && e.key in keys
    ensures var kv := ResolveKv(t);
            && kv.ok == (e.text != "")
            && (kv.ok ==> kv.value == e.text && FindKey(keys, kv.keyword) == Found(e.key))
  {
    hide Name, ResolveKv, Token, FindKey;
    FindsItself(keys, e.key);
    if t == Token(e) {
      assert t + "" == t;
      TokenResolves(e, "");
    } else if t == Token(e) + "\n" {
      TokenResolves(e, "\n");
    } else {
      BareKeyResolves(e.key);
    }
  }

  /** Only a carried entry is ever assigned. */
  lemma {:induction false} CollectSound(keys: seq<Key>, ts: seq<string>, es: seq<Entry>, k: Key)
    requires GoodEntries(keys, es) && k in Collect(keys, ts)
    requires forall j :: 0 <= j < |ts| ==> CarriesOneOf(ts[j], es)
    ensures exists i :: 0 <= i < |es| && es[i].key == k && es[i].text != "" && Collect(keys, ts)[k] == es[i].text
  {
    hide ResolveKv, FindKey, Carries, Clean;
    var n := |ts| - 1;
    var i :| 0 <= i < |es| && Carries(ts[n], es[i]);
    CarriedResolves(ts[n], es[i], keys);
    if es[i].text == "" || es[i].key != k { CollectSound(keys, ts[..n], es, k); }
  }

  lemma {:induction false} CollectComplete(keys: seq<Key>, ts: seq<string>, e: Entry, j: int)
    requires 0 <= j < |ts| && Carries(ts[j], e) && Clean(e.text) && e.key in keys && e.text != ""
    ensures e.key in Collect(keys, ts)
  {
    hide ResolveKv, FindKey, Carries, Clean;
    if j == |ts| - 1 { CarriedResolves(ts[j], e, keys); } else { CollectComplete(keys, ts[..|ts| - 1], e, j); }
  }

  /** Whatever the arrangement, each key gets the text of its entry, or nothing when that is empty. */
  lemma ArrangementCollects(keys: seq<Key>, ts: seq<string>, es: seq<Entry>, i: int)
    requires GoodEntries(keys, es) && Arranges(ts, es) && 0 <= i < |es|
    ensures var m, e := Collect(keys, ts), es[i];
            if e.text == "" then e.key !in m else e.key in m && m[e.key] == e.text
  {
    hide Carries, Clean;
    var m, e := Collect(keys, ts), es[i];
    if e.text != "" {
      var j :| 0 <= j < |ts| && Carries(ts[j], e);
      CollectComplete(keys, ts, e, j);
    }
    if e.key in m { CollectSound(keys, ts, es, e.key); }
  }

  lemma AbsentKey(keys: seq<Key>, ts: seq<string>, es: seq<Entry>, k: Key)
    requires GoodEntries(keys, es) && Arranges(ts, es) && forall i :: 0 <= i < |es| ==> es[i].key != k
    ensures k !in Collect(keys, ts)
  {
    if k in Collect(keys, ts) { CollectSound(keys, ts, es, k); }
  }

  /** show and atof carry v through its text, which is a clean word not ending in punctuation. */
  predicate Printable(v: real, show: real -> string, atof: string -> real) {
    show(v) != "" && Clean(show(v)) && !PunctOrSpace(show(v)[|show(v)| - 1]) && atof(show(v)) == v
  }

  ghost predicate PrintableNumbers(p: Proto, show: real -> string, atof: string -> real) {
    && Printable(p.voltage, show, atof) && Printable(p.current, show, atof)
    && (p.Cooler? ==> Printable(p.hotend, show, atof) && Printable(p.coolget, show, atof) && Printable(p.coolset, show, atof))
  }

  predicate CleanStrings(p: Proto) {
    && Clean(p.utc) && Clean(p.gid) && Clean(p.uid) && Clean(p.cid)
    && (p.Vacuum? ==> Clean(p.pressure))
  }

  ghost predicate Sendable(p: Proto, show: real -> string, atof: string -> real) {
    CleanStrings(p) && PrintableNumbers(p, show, atof)
  }

  /** A key's place in the writing order. */
  function Rank(k: Key): nat {
    match k
    case Time => 0 case GroupId => 1 case UnitId => 2 case CamId => 3 case Voltage => 4 case Current => 5
    case Hotend => 6 case Coolget => 7 case Coolset => 8 case Pressure => 6
  }

  lemma EntryRank(p: Proto, show: real -> string, i: int)
    requires 0 <= i < |Entries(p, show)|
    ensures Rank(Entries(p, show)[i].key) == if p.utc == "" then i + 1 else i
  {
  }

  lemma EntryKey(p: Proto, show: real -> string, i: int)
    requires 0 <= i < |Entries(p, show)|
    ensures Entries(p, show)[i].key in Keys(KindOf(p))
  {
  }

  lemma EntryTexts(p: Proto, show: real -> string, atof: string -> real, i: int)
    requires Sendable(p, show, atof) && 0 <= i < |Entries(p, show)|
    ensures Clean(Entries(p, show)[i].text)
  {
    hide Clean;
  }

  lemma EntriesAreGood(p: Proto, show: real -> string, atof: string -> real)
    requires Sendable(p, show, atof)
    ensures GoodEntries(Keys(KindOf(p)), Entries(p, show))
  {
    hide Clean, Entries, Sendable, Keys, Rank;
    var es := Entries(p, show);
    forall i | 0 <= i < |es| ensures es[i].key in Keys(KindOf(p)) && Clean(es[i].text) {
      EntryKey(p, show, i);
      EntryTexts(p, show, atof, i);
    }
    forall i, j | 0 <= i < j < |es| ensures es[i].key != es[j].key {
      EntryRank(p, show, i);
      EntryRank(p, show, j);
    }
  }

  /** m gives key k exactly the text t, or nothing when t is empty. */
  ghost predicate Gives(m: map<Key, string>, k: Key, t: string) {
    if t == "" then k !in m else k in m && m[k] == t
  }

  lemma EntryGiven(keys: seq<Key>, ts: seq<string>, es: seq<Entry>, e: Entry)
    requires GoodEntries(keys, es) && Arranges(ts, es) && e in es
    ensures Gives(Collect(keys, ts), e.key, e.text)
  {
    hide Clean, Carries, Collect;
    var i :| 0 <= i < |es| && es[i] == e;
    ArrangementCollects(keys, ts, es, i);
  }

  lemma CommonEntries(p: Proto, show: real -> string)
    ensures var es := Entries(p, show);
            && Entry(GroupId, p.gid) in es && Entry(UnitId, p.uid) in es && Entry(CamId, p.cid) in es
            && Entry(Voltage, show(p.voltage)) in es && Entry(Current, show(p.current)) in es
  {
  }

  lemma TimeEntry(p: Proto, show: real -> string)
    ensures var es := Entries(p, show);
            && (p.utc != "" ==> Entry(Time, p.utc) in es)
            && (p.utc == "" ==> forall i :: 0 <= i < |es| ==> es[i].key != Time)
  {
  }

  lemma OwnEntries(p: Proto, show: real -> string)
    ensures p.Cooler? ==>
              var es := Entries(p, show);
              Entry(Hotend, show(p.hotend)) in es && Entry(Coolget, show(p.coolget)) in es && Entry(Coolset, show(p.coolset)) in es
    ensures p.Vacuum? ==> Entry(Pressure, p.pressure) in Entries(p, show)
  {
  }

  /** Every arrangement of a message's pairs reads back as the message. */
  lemma ArrangementReadsBack(p: Proto, show: real -> string, atof: string -> real, ts: seq<string>)
    requires Sendable(p, show, atof) && Arranges(ts, Entries(p, show))
    ensures ProtoOf(KindOf(p), Collect(Keys(KindOf(p)), ts), atof) == p
  {
    hide Clean, Collect, Entries, Arranges, GoodEntries, Keys;
    var keys, es := Keys(KindOf(p)), Entries(p, show);
    EntriesAreGood(p, show, atof);
    CommonEntries(p, show);
    TimeEntry(p, show);
    OwnEntries(p, show);
    if p.utc == "" { AbsentKey(keys, ts, es, Time); } else { EntryGiven(keys, ts, es, Entry(Time, p.utc)); }
    EntryGiven(keys, ts, es, Entry(GroupId, p.gid));
    EntryGiven(keys, ts, es, Entry(UnitId, p.uid));
    EntryGiven(keys, ts, es, Entry(CamId, p.cid));
    EntryGiven(keys, ts, es, Entry(Voltage, show(p.voltage)));
    EntryGiven(keys, ts, es, Entry(Current, show(p.current)));
    if p.Cooler? {
      EntryGiven(keys, ts, es, Entry(Hotend, show(p.hotend)));
      EntryGiven(keys, ts, es, Entry(Coolget, show(p.coolget)));
      EntryGiven(keys, ts, es, Entry(Coolset, show(p.coolset)));
    } else {
      EntryGiven(keys, ts, es, Entry(Pressure, p.pressure));
    }
  }

  // ----- the text

  function PlainTokens(es: seq<Entry>): (ts: seq<string>)
    ensures |ts| == |es| && forall i :: 0 <= i < |es| ==> ts[i] == Token(es[i])
  {
    if es == [] then [] else [Token(es[0])] + PlainTokens(es[1..])
  }

  /** The text of the pairs is their tokens joined with commas, with one comma more. */
  lemma {:induction false} BodyIsJoin(es: seq<Entry>)
    requires es != []
    ensures Body(es) == Join(PlainTokens(es), ',') + ","
  {
    hide Token;
    var t, rest := Token(es[0]), es[1..];
    if rest == [] {
      assert Body(rest) == "" && PlainTokens(es) == [t];
    } else {
      BodyIsJoin(rest);
      var ts, joined := PlainTokens(es), Join(PlainTokens(rest), ',');
      assert ts[1..] == PlainTokens(rest);
      assert t + "," + (joined + ",") == (t + [','] + joined) + ",";
    }
  }

  /** The last pair after trimming: its text without final punctuation, or the bare key. */
  function LastToken(e: Entry): string {
    var t := TrimRight(e.text, PunctOrSpace);
    if t == "" then Name(e.key) else Name(e.key) + "=" + t
  }

  lemma PairTrims(e: Entry)
    ensures TrimRight(Token(e) + ",", PunctOrSpace) == LastToken(e)
  {
    hide Name, PunctOrSpace, TrimRight, LowerKey, NoOuterSpace;
    var k, t := Name(e.key), TrimRight(e.text, PunctOrSpace);
    NamesAreKeys(e.key);
    KeptWhole(k);
    ValueTrims(e.text);
    TrimRightConcat(k, "=" + (e.text + ","), PunctOrSpace);
    Regroup(k, "=", e.text, ",");
    assert k + "=" + t == k + ("=" + t);
  }

  lemma KeptWhole(s: string)
    requires s != "" && !PunctOrSpace(s[|s| - 1])
    ensures TrimRight(s, PunctOrSpace) == s
  {
  }

  lemma ValueTrims(v: string)
    ensures var t := TrimRight(v, PunctOrSpace);
            TrimRight("=" + (v + ","), PunctOrSpace) == if t == "" then "" else "=" + t
  {
    hide TrimRight;
    SeparatorsTrim();
    TrimRightConcat(v, ",", PunctOrSpace);
    TrimRightConcat("=", v + ",", PunctOrSpace);
  }

  lemma SeparatorsTrim()
    ensures TrimRight(",", PunctOrSpace) == "" && TrimRight("=", PunctOrSpace) == ""
  {
  }

  lemma Regroup(a: string, b: string, c: string, d: string)
    ensures a + b + c + d == a + (b + (c + d)) && a + ((b + c) + d) == (a + b) + (c + d)
    ensures ((a + b) + c) + d == a + (b + (c + d))
  {
  }

  /** The tokens of the text sent for p: the last one trimmed and carrying the newline. */
  function SentTokens(es: seq<Entry>): seq<string>
    requires es != []
  {
    PlainTokens(es[..|es| - 1]) + [LastToken(es[|es| - 1]) + "\n"]
  }

  lemma CompactText(p: Proto, show: real -> string)
    ensures Compact(p, show) == TypeName(KindOf(p)) + " " + Join(SentTokens(Entries(p, show)), ',')
  {
    hide TrimRight, Entries, Token, Body, TypeName, LastToken, Join;
    var head, es := TypeName(KindOf(p)) + " ", Entries(p, show);
    var n := |es| - 1;
    var parts, last := PlainTokens(es[..n]), es[n];
    BodyIsJoin(es);
    assert PlainTokens(es) == parts + [Token(last)];
    LastTrims(head, parts, last);
  }

  /** Trimming the whole text trims its last pair only. */
  lemma LastTrims(head: string, parts: seq<string>, last: Entry)
    ensures TrimRight(head + (Join(parts + [Token(last)], ',') + ","), PunctOrSpace) + "\n"
         == head + Join(parts + [LastToken(last) + "\n"], ',')
  {
    hide TrimRight, Token, Join, LastToken, PunctOrSpace;
    var before, t, cut := Join(parts + [""], ','), Token(last), LastToken(last);
    PairTrims(last);
    LastTokenNonempty(last);
    JoinEnds(parts, t);
    JoinEnds(parts, cut + "\n");
    TrimRightConcat(head + before, t + ",", PunctOrSpace);
    Regroup(head, before, t, ",");
    Regroup(head, before, cut, "\n");
  }

  lemma JoinEnds(parts: seq<string>, last: string)
    ensures Join(parts + [last], ',') == Join(parts + [""], ',') + last
  {
    JoinTail(parts, "", last, ',');
    assert "" + last == last;
  }

  lemma LastTokenNonempty(e: Entry)
    ensures LastToken(e) != ""
  {
  }

  /** Reading a type and joined tokens collects what the tokens say. */
  lemma ResolveJoined(kind: Kind, ts: seq<string>, atof: string -> real)
    requires ts != [] && forall j :: 0 <= j < |ts| ==> ts[j] != "" && ',' !in ts[j] && ts[j][0] != ' '
    ensures Resolve(TypeName(kind) + " " + Join(ts, ','), atof) == Message(ProtoOf(kind, Collect(Keys(kind), ts), atof))
  {
    hide Join, Split, Collect, ProtoOf, Keys, Before, Run;
    var t, joined := TypeName(kind), Join(ts, ',');
    SplitJoin(ts, ',');
    var rest := [' '] + joined;
    var text := t + " " + joined;
    assert text == t + rest;
    TypeNameWord(kind);
    BeforeConcat(t, rest, ' ');
    OneSeparator(joined, ' ');
    assert rest[0] == ' ';
    assert Before(rest, ' ') == 0 by { BeforeHead(rest, ' '); }
    assert text[|t|..] == rest && text[..|t|] == t;
    assert MessageType(text) == t && Payload(text) == joined && Tokens(text) == ts;
    TypeNamesRead(kind);
  }

  lemma BeforeHead(s: string, c: char)
    requires s != "" && s[0] == c
    ensures Before(s, c) == 0
  {
  }

  lemma TypeNameWord(kind: Kind)
    ensures ' ' !in TypeName(kind)
  {
  }

  lemma TypeNamesRead(kind: Kind)
    ensures var t := TypeName(kind);
            if kind == CoolerKind then t != "" && t[0] == 'c' && Iequals(t, "cooler")
            else t != "" && t[0] != 'c' && t[0] == 'v' && Iequals(t, "vacuum")
  {
  }

  lemma CarriedToken(t: string, e: Entry)
    requires Carries(t, e) && Clean(e.text)
    ensures t != "" && ',' !in t && t[0] != ' '
  {
    hide Name;
    NamesAreKeys(e.key);
    var k := Name(e.key);
    assert t[0] == k[0] && k[0] in k;
  }

  /** Any arrangement of a message's pairs reads back as the message. */
  lemma ArrangementResolves(p: Proto, show: real -> string, atof: string -> real, ts: seq<string>)
    requires Sendable(p, show, atof) && Arranges(ts, Entries(p, show))
    ensures Resolve(TypeName(KindOf(p)) + " " + Join(ts, ','), atof) == Message(p)
  {
    hide Carries, Clean, Entries, Keys, Join, Resolve, Sendable;
    var es := Entries(p, show);
    EntriesAreGood(p, show, atof);
    forall j | 0 <= j < |ts| ensures ts[j] != "" && ',' !in ts[j] && ts[j][0] != ' ' {
      var i :| 0 <= i < |es| && Carries(ts[j], es[i]);
      CarriedToken(ts[j], es[i]);
    }
    assert ts != [] by { var j :| 0 <= j < |ts| && Carries(ts[j], es[0]); }
    ResolveJoined(KindOf(p), ts, atof);
    ArrangementReadsBack(p, show, atof, ts);
  }

  // ----- the promises

  /** What arrives of p: a vacuum loses the punctuation its pressure ends in, because pressure is written last. */
  function Received(p: Proto): Proto {
    if p.Vacuum? then p.(pressure := TrimRight(p.pressure, PunctOrSpace)) else p
  }

  lemma ReceivedEntries(p: Proto, show: real -> string, atof: string -> real)
    requires Sendable(p, show, atof)
    ensures var es, last := Entries(p, show), Entries(p, show)[|Entries(p, show)| - 1];
            Entries(Received(p), show) == es[..|es| - 1] + [Entry(last.key, TrimRight(last.text, PunctOrSpace))]
  {
    hide Clean, PunctOrSpace;
  }

  lemma ReceivedSendable(p: Proto, show: real -> string, atof: string -> real)
    requires Sendable(p, show, atof)
    ensures Sendable(Received(p), show, atof)
  {
  }

  lemma LastCarried(e: Entry)
    ensures Carries(LastToken(e) + "\n", Entry(e.key, TrimRight(e.text, PunctOrSpace)))
  {
  }

  lemma PlainCarried(e: Entry)
    ensures Carries(Token(e), e) && Carries(Token(e) + "\n", e)
  {
  }

  lemma SentTokensArrange(es: seq<Entry>, got: seq<Entry>)
    requires es != []
    requires var last := es[|es| - 1]; got == es[..|es| - 1] + [Entry(last.key, TrimRight(last.text, PunctOrSpace))]
    ensures Arranges(SentTokens(es), got)
  {
    hide TrimRight, LastToken, Token, Name, Carries, Arranges;
    var ts, n := SentTokens(es), |es| - 1;
    LastCarried(es[n]);
    forall i | 0 <= i < |es| ensures Carries(ts[i], got[i]) {
      if i < n {
        assert ts[i] == Token(es[..n][i]);
        PlainCarried(got[i]);
      }
    }
    OneForOne(ts, got);
  }

  lemma OneForOne(ts: seq<string>, es: seq<Entry>)
    requires |ts| == |es| && forall i :: 0 <= i < |es| ==> Carries(ts[i], es[i])
    ensures Arranges(ts, es)
  {
  }

  /** A message written and read back arrives as Received says. */
  lemma ReadsBack(p: Proto, show: real -> string, atof: string -> real)
    requires Sendable(p, show, atof)
    ensures Resolve(Compact(p, show), atof) == Message(Received(p))
  {
    hide Resolve, Compact, Entries, Join, TypeName, Sendable, Arranges, SentTokens, TrimRight;
    CompactText(p, show);
    ReceivedEntries(p, show, atof);
    ReceivedSendable(p, show, atof);
    SentTokensArrange(Entries(p, show), Entries(Received(p), show));
    ArrangementResolves(Received(p), show, atof, SentTokens(Entries(p, show)));
  }

  // ----- whatever is read back is clean

  lemma ValueClean(kv: string)
    requires ',' !in kv
    ensures Clean(ResolveKv(kv).value)
  {
    hide Split, Trim;
    var tokens := Split(kv, '=');
    if |tokens| > 1 {
      PartsOfSplit(kv, '=', tokens[1]);
      TrimmedNoOuterSpace(tokens[1]);
    }
  }

  lemma {:induction false} CollectedClean(keys: seq<Key>, ts: seq<string>, k: Key)
    requires k in Collect(keys, ts) && forall j :: 0 <= j < |ts| ==> ',' !in ts[j]
    ensures Clean(Collect(keys, ts)[k])
  {
    hide ResolveKv, FindKey, Clean;
    var n := |ts| - 1;
    ValueClean(ts[n]);
    var kv := ResolveKv(ts[n]);
    if !(kv.ok && FindKey(keys, kv.keyword) == Found(k)) { CollectedClean(keys, ts[..n], k); }
  }

  lemma TextClean(keys: seq<Key>, ts: seq<string>, k: Key)
    requires forall j :: 0 <= j < |ts| ==> ',' !in ts[j]
    ensures Clean(TextAt(Collect(keys, ts), k))
  {
    if k in Collect(keys, ts) { CollectedClean(keys, ts, k); }
  }

  /** The strings of a message read from any text are clean. */
  lemma ReadIsClean(text: string, atof: string -> real)
    ensures var r := Resolve(text, atof); r.Message? ==> CleanStrings(r.p)
  {
    hide Split, Collect, Clean, Keys, Payload, MessageType, Iequals, TextAt, NumberAt;
    var ts := Tokens(text);
    forall j | 0 <= j < |ts| ensures ',' !in ts[j] { PartsOfSplit(Payload(text), ',', ts[j]); }
    forall kind, k ensures Clean(TextAt(Collect(Keys(kind), ts), k)) { TextClean(Keys(kind), ts, k); }
  }

  /** The code's own condition, for all strings: coolers come back whole exactly when their strings are clean, vacuums
      when moreover the pressure does not end in punctuation. */
  lemma RoundTripIff(p: Proto, show: real -> string, atof: string -> real)
    requires PrintableNumbers(p, show, atof)
    ensures Resolve(Compact(p, show), atof) == Message(p)
            <==> CleanStrings(p) && (p.Cooler? || p.pressure == "" || !IsPunct(p.pressure[|p.pressure| - 1]))
  {
    hide Resolve, Compact, CleanStrings, PrintableNumbers;
    ReadIsClean(Compact(p, show), atof);
    if CleanStrings(p) {
      ReadsBack(p, show, atof);
      TrimKeepsIff(p);
    }
  }

  lemma TrimKeepsIff(p: Proto)
    requires CleanStrings(p)
    ensures Received(p) == p <==> p.Cooler? || p.pressure == "" || !IsPunct(p.pressure[|p.pressure| - 1])
  {
  }

  /** The tokens in any order arrange the pairs, the newline on whichever is last. */
  lemma PermutedArranges(es: seq<Entry>, ts: seq<string>)
    requires es != [] && ts != [] && multiset(ts) == multiset(PlainTokens(es))
    ensures Arranges(ts[..|ts| - 1] + [ts[|ts| - 1] + "\n"], es)
  {
    hide Token, PlainTokens, Carries;
    var sent := ts[..|ts| - 1] + [ts[|ts| - 1] + "\n"];
    forall j | 0 <= j < |sent| ensures CarriesOneOf(sent[j], es) {
      var i := SamePlace(ts, PlainTokens(es), j);
      PlainCarried(es[i]);
      assert Carries(sent[j], es[i]);
    }
    forall i | 0 <= i < |es| ensures CarriedByOneOf(es[i], sent) {
      var j := SamePlace(PlainTokens(es), ts, i);
      PlainCarried(es[i]);
      assert Carries(sent[j], es[i]);
    }
  }

  lemma SamePlace(a: seq<string>, b: seq<string>, j: nat) returns (i: nat)
    requires multiset(a) == multiset(b) && j < |a|
    ensures i < |b| && b[i] == a[j]
  {
    assert a[j] in multiset(b);
    i :| 0 <= i < |b| && b[i] == a[j];
  }

  /** The order of the pairs does not matter. */
  lemma OrderIrrelevant(p: Proto, show: real -> string, atof: string -> real, ts: seq<string>)
    requires Sendable(p, show, atof) && multiset(ts) == multiset(PlainTokens(Entries(p, show)))
    ensures Resolve(TypeName(KindOf(p)) + " " + Join(ts, ',') + "\n", atof) == Message(p)
  {
    hide Resolve, Entries, Join, TypeName, Sendable, Token, Arranges, PlainTokens;
    var es := Entries(p, show);
    assert |multiset(ts)| == |multiset(PlainTokens(es))|;
    var head, n := TypeName(KindOf(p)) + " ", |ts| - 1;
    PermutedArranges(es, ts);
    JoinTail(ts[..n], ts[n], "\n", ',');
    assert ts[..n] + [ts[n]] == ts;
    ArrangementResolves(p, show, atof, ts[..n] + [ts[n] + "\n"]);
    assert (head + Join(ts, ',')) + "\n" == head + (Join(ts, ',') + "\n");
  }

  // ----- what stands on the wire

  /** The text of a message before trimming, key by key. */
  lemma TextLayout(p: Proto, show: real -> string)
    ensures TypeName(KindOf(p)) == if p.Cooler? then "cooler" else "vacuum"
    ensures Body(Entries(p, show)) ==
            (if p.utc == "" then "" else "time=" + p.utc + ",")
            + (("group_id=" + p.gid + ",") + ("unit_id=" + p.uid + ",") + ("cam_id=" + p.cid + ",")
               + ("voltage=" + show(p.voltage) + ",") + ("current=" + show(p.current) + ","))
            + (if p.Cooler?
               then ("hotend=" + show(p.hotend) + ",") + ("coolget=" + show(p.coolget) + ",") + ("coolset=" + show(p.coolset) + ",")
               else "pressure=" + p.pressure + ",")
  {
    var time := if p.utc == "" then [] else [Entry(Time, p.utc)];
    var common := [Entry(GroupId, p.gid), Entry(UnitId, p.uid), Entry(CamId, p.cid),
                   Entry(Voltage, show(p.voltage)), Entry(Current, show(p.current))];
    var own := if p.Cooler? then [Entry(Hotend, show(p.hotend)), Entry(Coolget, show(p.coolget)), Entry(Coolset, show(p.coolset))]
               else [Entry(Pressure, p.pressure)];
    assert Entries(p, show) == time + common + own;
    BodyAppend(time, common);
    BodyAppend(time + common, own);
    TimeText(p.utc);
    CommonText(p.gid, p.uid, p.cid, show(p.voltage), show(p.current));
    if p.Cooler? { CoolerText(show(p.hotend), show(p.coolget), show(p.coolset)); } else { PressureText(p.pressure); }
  }

  /** The text sent is one line: the text before trimming without the punctuation and blanks it ends in, and a newline. */
  lemma CompactIsLine(p: Proto, show: real -> string)
    ensures var text, line := TypeName(KindOf(p)) + " " + Body(Entries(p, show)), Compact(p, show);
      && line != "" && line[|line| - 1] == '\n' && line[..|line| - 1] <= text
      && (|line| > 1 ==> !IsPunct(line[|line| - 2]) && !IsSpace(line[|line| - 2]))
      && forall i :: |line| - 1 <= i < |text| ==> IsPunct(text[i]) || IsSpace(text[i])
  {
    hide Entries, Body, TypeName, TrimRight, IsPunct, IsSpace;
    var text := TypeName(KindOf(p)) + " " + Body(Entries(p, show));
    var t := TrimRight(text, PunctOrSpace);
    TrimmedAway(text, PunctOrSpace);
    assert Compact(p, show) == t + "\n" && (t + "\n")[..|t|] == t;
    assert forall i :: |t| <= i < |text| ==> PunctOrSpace(text[i]);
    assert t != "" ==> !PunctOrSpace(t[|t| - 1]) && (t + "\n")[|t| - 1] == t[|t| - 1];
  }

  lemma {:induction false} TrimmedAway(s: string, p: char -> bool)
    ensures var t := TrimRight(s, p); t <= s && (t != "" ==> !p(t[|t| - 1])) && forall i :: |t| <= i < |s| ==> p(s[i])
  {
    if s != "" && p(s[|s| - 1]) { TrimmedAway(s[..|s| - 1], p); }
  }

  lemma {:induction false} BodyAppend(a: seq<Entry>, b: seq<Entry>)
    ensures Body(a + b) == Body(a) + Body(b)
  {
    hide Token;
    if a == [] {
      assert a + b == b && "" + Body(b) == Body(b);
    } else {
      assert (a + b)[1..] == a[1..] + b;
      BodyAppend(a[1..], b);
      var t, x, y := Token(a[0]) + ",", Body(a[1..]), Body(b);
      assert t + (x + y) == (t + x) + y;
    }
  }

  /** One more pair in front. */
  lemma BodyFirst(k: Key, name: string, text: string, es: seq<Entry>, rest: string)
    requires Name(k) + "=" == name && Body(es) == rest
    ensures Body([Entry(k, text)] + es) == name + text + "," + rest
  {
    hide Name;
    assert ([Entry(k, text)] + es)[1..] == es;
  }

  lemma TimeText(utc: string)
    ensures Body([Entry(Time, utc)]) == "time=" + utc + "," && Body([]) == ""
  {
    BodyFirst(Time, "time=", utc, [], "");
    assert [Entry(Time, utc)] + [] == [Entry(Time, utc)];
    assert "time=" + utc + "," + "" == "time=" + utc + ",";
  }

  lemma PressureText(pressure: string)
    ensures Body([Entry(Pressure, pressure)]) == "pressure=" + pressure + ","
  {
    BodyFirst(Pressure, "pressure=", pressure, [], "");
    assert [Entry(Pressure, pressure)] + [] == [Entry(Pressure, pressure)];
    assert "pressure=" + pressure + "," + "" == "pressure=" + pressure + ",";
  }

  lemma CoolerText(h: string, g: string, s: string)
    ensures Body([Entry(Hotend, h), Entry(Coolget, g), Entry(Coolset, s)]) ==
            ("hotend=" + h + ",") + ("coolget=" + g + ",") + ("coolset=" + s + ",")
  {
    hide Body;
    var r0 := "coolset=" + s + ",";
    SetText(s);
    BodyFirst(Coolget, "coolget=", g, [Entry(Coolset, s)], r0);
    var r1 := "coolget=" + g + "," + r0;
    assert [Entry(Coolget, g)] + [Entry(Coolset, s)] == [Entry(Coolget, g), Entry(Coolset, s)];
    BodyFirst(Hotend, "hotend=", h, [Entry(Coolget, g), Entry(Coolset, s)], r1);
    assert [Entry(Hotend, h)] + [Entry(Coolget, g), Entry(Coolset, s)] == [Entry(Hotend, h), Entry(Coolget, g), Entry(Coolset, s)];
    Flat("hotend=" + h + ",", "coolget=" + g + ",", r0, "", "");
    assert r0 + ("" + "") == r0 && ("hotend=" + h + ",") + ("coolget=" + g + ",") + r0 + "" + "" == ("hotend=" + h + ",") + ("coolget=" + g + ",") + r0;
  }

  lemma SetText(s: string)
    ensures Body([Entry(Coolset, s)]) == "coolset=" + s + ","
  {
    BodyFirst(Coolset, "coolset=", s, [], "");
    assert [Entry(Coolset, s)] + [] == [Entry(Coolset, s)];
    assert "coolset=" + s + "," + "" == "coolset=" + s + ",";
  }

  lemma CommonText(g: string, u: string, c: string, v: string, r: string)
    ensures Body([Entry(GroupId, g), Entry(UnitId, u), Entry(CamId, c), Entry(Voltage, v), Entry(Current, r)]) ==
            ("group_id=" + g + ",") + ("unit_id=" + u + ",") + ("cam_id=" + c + ",") + ("voltage=" + v + ",") + ("current=" + r + ",")
  {
    hide Body;
    var e0, e1, e2, e3, e4 := Entry(GroupId, g), Entry(UnitId, u), Entry(CamId, c), Entry(Voltage, v), Entry(Current, r);
    CurrentText(r);
    var r0 := "current=" + r + ",";
    BodyFirst(Voltage, "voltage=", v, [e4], r0);
    assert [e3] + [e4] == [e3, e4];
    var r1 := "voltage=" + v + "," + r0;
    BodyFirst(CamId, "cam_id=", c, [e3, e4], r1);
    assert [e2] + [e3, e4] == [e2, e3, e4];
    var r2 := "cam_id=" + c + "," + r1;
    BodyFirst(UnitId, "unit_id=", u, [e2, e3, e4], r2);
    assert [e1] + [e2, e3, e4] == [e1, e2, e3, e4];
    var r3 := "unit_id=" + u + "," + r2;
    BodyFirst(GroupId, "group_id=", g, [e1, e2, e3, e4], r3);
    assert [e0] + [e1, e2, e3, e4] == [e0, e1, e2, e3, e4];
    Flat("group_id=" + g + ",", "unit_id=" + u + ",", "cam_id=" + c + ",", "voltage=" + v + ",", r0);
  }

  lemma Flat(a: string, b: string, c: string, d: string, e: string)
    ensures a + (b + (c + (d + e))) == a + b + c + d + e
  {
    assert (a + b) + (c + (d + e)) == a + (b + (c + (d + e)));
  }

  lemma CurrentText(r: string)
    ensures Body([Entry(Current, r)]) == "current=" + r + ","
  {
    BodyFirst(Current, "current=", r, [], "");
    assert [Entry(Current, r)] + [] == [Entry(Current, r)];
    assert "current=" + r + "," + "" == "current=" + r + ",";
  }

  /** Of two pairs with one key the later counts, and a pair concerns its own key only. */
  lemma LaterPairCounts(keys: seq<Key>, ts: seq<string>, e: Entry, k: Key)
    requires Clean(e.text) && e.text != "" && e.key in keys
    ensures var m, m' := Collect(keys, ts), Collect(keys, ts + [Token(e)]);
            if k == e.key then k in m' && m'[k] == e.text else (k in m' <==> k in m) && (k in m' ==> m'[k] == m[k])
  {
    hide ResolveKv, FindKey, Token, Clean;
    var t := Token(e);
    assert (ts + [t])[..|ts + [t]| - 1] == ts;
    PlainCarried(e);
    CarriedResolves(t, e, keys);
  }

  /** Of several values behind one key the first is read. */
  lemma FirstValueRead(k: Key, v: string, w: string)
    requires Clean(v) && v != ""
    ensures ResolveKv(Name(k) + "=" + v + "=" + w) == Pair(true, Name(k), v)
  {
    hide Name, Split, Trim, NoOuterSpace;
    NamesAreKeys(k);
    TrimClean(Name(k));
    TrimClean(v);
    assert v[0] in v && Name(k)[0] in Name(k);
    var rest := v + "=" + w;
    assert Name(k) + "=" + v + "=" + w == Name(k) + "=" + rest;
    SplitRuns(Name(k), "=", rest, '=');
    SplitOnce(v, "=" + w, '=');
    assert v + ("=" + w) == rest;
  }

  /** A key is read in any mixture of cases. */
  lemma {:induction false} AnyCaseFinds(keys: seq<Key>, k: Key, keyword: string)
    requires k in keys && |keyword| == |Name(k)| && forall i :: 0 <= i < |keyword| ==> Lower(keyword[i]) == Name(k)[i]
    ensures FindKey(keys, keyword) == Found(k)
  {
    NamesAreLower(k);
    IequalsIsLower(keyword, Name(k));
    SameSearch(keys, keyword, Name(k));
    FindsItself(keys, k);
  }

  lemma NamesAreLower(k: Key)
    ensures forall i :: 0 <= i < |Name(k)| ==> Lower(Name(k)[i]) == Name(k)[i]
  {
  }

  lemma {:induction false} SameSearch(keys: seq<Key>, a: string, b: string)
    requires Iequals(a, b)
    ensures FindKey(keys, a) == FindKey(keys, b)
  {
    hide Name;
    if keys != [] { SameSearch(keys[1..], a, b); }
  }

  /** Any number of blanks may stand between the type and the pairs. */
  lemma BlanksSeparate(kind: string, blanks: string, pairs: string)
    requires ' ' !in kind && blanks != "" && (forall i :: 0 <= i < |blanks| ==> blanks[i] == ' ') && (pairs == "" || pairs[0] != ' ')
    ensures MessageType(kind + blanks + pairs) == kind && Payload(kind + blanks + pairs) == pairs
  {
    hide Before, Run;
    var rest := blanks + pairs;
    assert kind + blanks + pairs == kind + rest && rest[0] == ' ';
    BeforeConcat(kind, rest, ' ');
    BeforeHead(rest, ' ');
    RunOfAll(blanks, pairs, ' ');
    assert (kind + rest)[|kind|..] == rest && (kind + rest)[..|kind|] == kind && rest[|blanks|..] == pairs;
  }

  /** Which types are read: "cooler" and "vacuum", in any case after a lower-case first letter. */
  lemma TypesRead(text: string, atof: string -> real)
    ensures var t := MessageType(text); var r := Resolve(text, atof);
      && (r.Message? && r.p.Cooler? <==> |t| == 6 && t[0] == 'c' && forall i :: 0 < i < 6 ==> Lower(t[i]) == "cooler"[i])
      && (r.Message? && r.p.Vacuum? <==> |t| == 6 && t[0] == 'v' && forall i :: 0 < i < 6 ==> Lower(t[i]) == "vacuum"[i])
  {
    hide MessageType, Collect, Keys, Tokens, Iequals, TextAt, NumberAt;
    var t := MessageType(text);
    LowerWord(t, "cooler");
    LowerWord(t, "vacuum");
  }

  lemma LowerWord(t: string, word: string)
    requires word in ["cooler", "vacuum"]
    ensures |t| > 0 && t[0] == word[0] ==> (Iequals(t, word) <==> |t| == 6 && forall i :: 0 < i < 6 ==> Lower(t[i]) == word[i])
  {
    IequalsIsLower(t, word);
    assert forall i :: 0 <= i < 6 ==> Lower(word[i]) == word[i];
  }

  /** Members that no pair sets keep what the constructor gave them: empty strings and 2 to the power -126. */
  lemma UnsetMembers(atof: string -> real)
    ensures Resolve("cooler", atof) == Message(Cooler("", "", "", "", FLT_MIN, FLT_MIN, FLT_MIN, FLT_MIN, FLT_MIN))
    ensures Resolve("vacuum", atof) == Message(Vacuum("", "", "", "", FLT_MIN, FLT_MIN, ""))
    ensures FLT_MIN * 85070591730234615865843651857942052864.0 == 1.0
  {
    hide Before, Run, Keys;
    BareType(CoolerKind);
    BareType(VacuumKind);
    TypeNamesRead(CoolerKind);
    TypeNamesRead(VacuumKind);
  }

  lemma BareType(kind: Kind)
    ensures MessageType(TypeName(kind)) == TypeName(kind) && Tokens(TypeName(kind)) == []
  {
    hide Before, TypeName;
    var t := TypeName(kind);
    TypeNameWord(kind);
    BeforeConcat(t, "", ' ');
    assert t + "" == t && Before("", ' ') == 0;
  }

  // ----- the slots

  function Ahead(i: nat, k: nat, n: nat): (j: nat)
    requires i < n && k < n
    ensures j < n
  {
    if i + k < n then i + k else i + k - n
  }

  /** The slot k places ahead of i is not written before k more texts have gone out. */
  lemma {:induction false} SlotWaits(slots: seq<string>, i: nat, texts: seq<string>, k: nat)
    requires i < |slots| && |texts| <= k < |slots|
    ensures Stored(slots, i, texts)[Ahead(i, k, |slots|)] == slots[Ahead(i, k, |slots|)]
    decreases |texts|
  {
    if texts != [] {
      SlotWaits(slots[i := texts[0]], NextSlot(i, |slots|), texts[1..], k - 1);
    }
  }

  /** A text handed out stays in its slot while the next nine go out. */
  lemma TextSurvives(slots: seq<string>, i: nat, text: string, later: seq<string>)
    requires i < |slots| == 10 && |later| < 10
    ensures Stored(slots, i, [text] + later)[i] == text
  {
    assert ([text] + later)[1..] == later;
    SlotWaits(slots[i := text], NextSlot(i, 10), later, 9);
  }
}
