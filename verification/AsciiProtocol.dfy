/**
 The text protocol: messages of a type and key=value pairs, written by CompactCooler and
 CompactVacuum and read back by Resolve. Numbers go through a pair show/atof of functions.
 */
module AsciiMessages {
  import opened AsciiText

  datatype Key = Time | GroupId | UnitId | CamId | Voltage | Current | Hotend | Coolget | Coolset | Pressure

  function Name(k: Key): string {
    match k
    case Time => "time" case GroupId => "group_id" case UnitId => "unit_id" case CamId => "cam_id"
    case Voltage => "voltage" case Current => "current" case Hotend => "hotend"
    case Coolget => "coolget" case Coolset => "coolset" case Pressure => "pressure"
  }

  datatype Kind = CoolerKind | VacuumKind

  function TypeName(kind: Kind): string { if kind == CoolerKind then "cooler" else "vacuum" }

  /** The keys a message type knows, in the order they are compared. */
  function Keys(kind: Kind): seq<Key> {
    if kind == CoolerKind then [GroupId, UnitId, CamId, Voltage, Current, Hotend, Coolget, Coolset, Time]
    else [GroupId, UnitId, CamId, Voltage, Current, Pressure, Time]
  }

  /** FLT_MIN, what an unset number holds: 2 to the power -126. */
  const FLT_MIN: real := 1.0 / 85070591730234615865843651857942052864.0

  datatype Proto =
    | Cooler(utc: string, gid: string, uid: string, cid: string,
             voltage: real, current: real, hotend: real, coolget: real, coolset: real)
    | Vacuum(utc: string, gid: string, uid: string, cid: string, voltage: real, current: real, pressure: string)

  function Blank(kind: Kind): Proto {
    if kind == CoolerKind then Cooler("", "", "", "", FLT_MIN, FLT_MIN, FLT_MIN, FLT_MIN, FLT_MIN)
    else Vacuum("", "", "", "", FLT_MIN, FLT_MIN, "")
  }

  function KindOf(p: Proto): Kind { if p.Cooler? then CoolerKind else VacuumKind }

  // ----- writing

  datatype Entry = Entry(key: Key, text: string)

  function Token(e: Entry): string { Name(e.key) + "=" + e.text }

  /** The pairs of a message in the order they are written; the time is left out when empty. */
  function Entries(p: Proto, show: real -> string): (es: seq<Entry>)
    ensures |es| >= 6 && es[|es| - 1] == if p.Cooler? then Entry(Coolset, show(p.coolset)) else Entry(Pressure, p.pressure)
  {
    (if p.utc == "" then [] else [Entry(Time, p.utc)])
    + [Entry(GroupId, p.gid), Entry(UnitId, p.uid), Entry(CamId, p.cid),
       Entry(Voltage, show(p.voltage)), Entry(Current, show(p.current))]
    + (match p
       case Cooler(_, _, _, _, _, _, hotend, coolget, coolset) =>
         [Entry(Hotend, show(hotend)), Entry(Coolget, show(coolget)), Entry(Coolset, show(coolset))]
       case Vacuum(_, _, _, _, _, _, pressure) =>
         [Entry(Pressure, pressure)])
  }

  function Body(es: seq<Entry>): string {
    if es == [] then "" else Token(es[0]) + "," + Body(es[1..])
  }

  /** The text sent for p: the pairs, right-trimmed of punctuation and blanks, and a newline. */
  function Compact(p: Proto, show: real -> string): string {
    TrimRight(TypeName(KindOf(p)) + " " + Body(Entries(p, show)), PunctOrSpace) + "\n"
  }

  // ----- reading

  datatype Pair = Pair(ok: bool, keyword: string, value: string)

  function ResolveKv(kv: string): Pair {
    var tokens := Split(kv, '=');
    var keyword := Trim(tokens[0]);
    var value := if |tokens| > 1 then Trim(tokens[1]) else "";
    Pair(keyword != "" && value != "", keyword, value)
  }

  datatype Match = NoKey | Found(key: Key)

  /** The first known key that keyword equals without regard to case. */
  function FindKey(keys: seq<Key>, keyword: string): (m: Match)
    ensures m.Found? ==> m.key in keys && Iequals(keyword, Name(m.key))
  {
    if keys == [] then NoKey
    else if Iequals(keyword, Name(keys[0])) then Found(keys[0])
    else FindKey(keys[1..], keyword)
  }

  /** Assigns the member a key stands for; keys of the other type are never found. */
  function Assign(p: Proto, k: Key, value: string, atof: string -> real): (q: Proto)
    ensures KindOf(q) == KindOf(p)
  {
    match k
    case Time => p.(utc := value)
    case GroupId => p.(gid := value)
    case UnitId => p.(uid := value)
    case CamId => p.(cid := value)
    case Voltage => p.(voltage := atof(value))
    case Current => p.(current := atof(value))
    case Hotend => if p.Cooler? then p.(hotend := atof(value)) else p
    case Coolget => if p.Cooler? then p.(coolget := atof(value)) else p
    case Coolset => if p.Cooler? then p.(coolset := atof(value)) else p
    case Pressure => if p.Vacuum? then p.(pressure := value) else p
  }

  /** What the tokens assign, key by key; a later token overrides an earlier one. */
  function Collect(keys: seq<Key>, ts: seq<string>): (m: map<Key, string>)
    ensures forall k :: k in m ==> k in keys
  {
    if ts == [] then map[]
    else
      var m, kv := Collect(keys, ts[..|ts| - 1]), ResolveKv(ts[|ts| - 1]);
      var f := FindKey(keys, kv.keyword);
      if kv.ok && f.Found? then m[f.key := kv.value] else m
  }

  function TextAt(m: map<Key, string>, k: Key): string { if k in m then m[k] else "" }

  function NumberAt(m: map<Key, string>, k: Key, atof: string -> real): real {
    if k in m then atof(m[k]) else FLT_MIN
  }

  function ProtoOf(kind: Kind, m: map<Key, string>, atof: string -> real): Proto {
    if kind == CoolerKind then
      Cooler(TextAt(m, Time), TextAt(m, GroupId), TextAt(m, UnitId), TextAt(m, CamId),
             NumberAt(m, Voltage, atof), NumberAt(m, Current, atof), NumberAt(m, Hotend, atof),
             NumberAt(m, Coolget, atof), NumberAt(m, Coolset, atof))
    else
      Vacuum(TextAt(m, Time), TextAt(m, GroupId), TextAt(m, UnitId), TextAt(m, CamId),
             NumberAt(m, Voltage, atof), NumberAt(m, Current, atof), TextAt(m, Pressure))
  }

  datatype Resolved = Nothing | Message(p: Proto)

  function MessageType(text: string): string { text[..Before(text, ' ')] }

  function Payload(text: string): string {
    var rest := text[Before(text, ' ')..];
    rest[Run(rest, ' ')..]
  }

  function Tokens(text: string): seq<string> {
    if Payload(text) == "" then [] else Split(Payload(text), ',')
  }

  function Resolve(text: string, atof: string -> real): Resolved {
    var t := MessageType(text);
    if t != "" && t[0] == 'c' && Iequals(t, "cooler") then Message(ProtoOf(CoolerKind, Collect(Keys(CoolerKind), Tokens(text)), atof))
    else if t != "" && t[0] == 'v' && Iequals(t, "vacuum") then Message(ProtoOf(VacuumKind, Collect(Keys(VacuumKind), Tokens(text)), atof))
    else Nothing
  }

  // ----- the methods

  method ResolveTokens(kind: Kind, tokens: seq<string>, atof: string -> real) returns (p: Proto)
    ensures p == ProtoOf(kind, Collect(Keys(kind), tokens), atof)
  {
    hide ResolveKv, FindKey, Keys;
    p := Blank(kind);
    for i := 0 to |tokens|
      invariant p == ProtoOf(kind, Collect(Keys(kind), tokens[..i]), atof)
    {
      assert tokens[..i + 1][..i] == tokens[..i];
      var kv := ResolveKv(tokens[i]);
      if !kv.ok { continue; }
      var f := FindKey(Keys(kind), kv.keyword);
      if f.Found? {
        AssignIsUpdate(kind, Collect(Keys(kind), tokens[..i]), f.key, kv.value, atof);
        p := Assign(p, f.key, kv.value, atof);
      }
    }
    assert tokens[..|tokens|] == tokens;
  }

  lemma AssignIsUpdate(kind: Kind, m: map<Key, string>, k: Key, value: string, atof: string -> real)
    ensures Assign(ProtoOf(kind, m, atof), k, value, atof) == ProtoOf(kind, m[k := value], atof)
  {
  }

  method ResolveText(rcvd: string, atof: string -> real) returns (r: Resolved)
    ensures r == Resolve(rcvd, atof)
  {
    hide Split, Keys, Collect, ProtoOf;
    var i := 0;
    while i < |rcvd| && rcvd[i] != ' '
      invariant 0 <= i <= |rcvd| && i + Before(rcvd[i..], ' ') == Before(rcvd, ' ')
    {
      i := i + 1;
    }
    var kind := rcvd[..i];
    var n := SkipRun(rcvd[i..], ' ');
    var payload := rcvd[i..][n..];
    var tokens := [];
    if payload != "" { tokens := SplitBy(payload, ','); }
    assert tokens == Tokens(rcvd) && kind == MessageType(rcvd);
    r := Nothing;
    if kind != "" && kind[0] == 'c' && Iequals(kind, "cooler") {
      var p := ResolveTokens(CoolerKind, tokens, atof);
      r := Message(p);
    } else if kind != "" && kind[0] == 'v' && Iequals(kind, "vacuum") {
      var p := ResolveTokens(VacuumKind, tokens, atof);
      r := Message(p);
    }
  }

  /** The text before trimming, built with join_kv. */
  method BuildOutput(p: Proto, show: real -> string) returns (output: string)
    ensures output == TypeName(KindOf(p)) + " " + Body(Entries(p, show))
  {
    hide Entries, Token, Body, TypeName;
    output := TypeName(KindOf(p)) + " ";
    ghost var head := output;
    var es := Entries(p, show);
    for i := 0 to |es|
      invariant output + Body(es[i..]) == head + Body(es)
    {
      BodyStep(output, es, i);
      output := output + Name(es[i].key) + "=" + es[i].text + ",";
    }
    EmptyBody(output, es[|es|..]);
  }

  lemma EmptyBody(output: string, es: seq<Entry>)
    requires es == []
    ensures output + Body(es) == output
  {
  }

  lemma BodyStep(output: string, es: seq<Entry>, i: int)
    requires 0 <= i < |es|
    ensures output + Name(es[i].key) + "=" + es[i].text + "," + Body(es[i + 1..]) == output + Body(es[i..])
  {
  }

  const SLOTS := 10
  const SLOT_SIZE := 1024

  /** The slot after slot i of n, going round. */
  function NextSlot(i: nat, n: nat): (j: nat)
    requires i < n
    ensures j < n
  {
    if i + 1 == n then 0 else i + 1
  }

  /** The slots after the given texts have gone out in turn, the first into slot i. */
  function Stored(slots: seq<string>, i: nat, texts: seq<string>): (r: seq<string>)
    requires i < |slots|
    ensures |r| == |slots|
    decreases |texts|
  {
    if texts == [] then slots else Stored(slots[i := texts[0]], NextSlot(i, |slots|), texts[1..])
  }

  class AsciiProtocol {
    var ibuf: nat
    const buff: array<string>

    ghost predicate Valid()
      reads this
    {
      ibuf < buff.Length == 10
    }

    constructor ()
      ensures Valid() && ibuf == 0 && fresh(buff)
    {
      ibuf := 0;
      buff := new string[SLOTS](_ => "");
    }

    /** Trims output and stores it, with a newline, in the next slot; false where sprintf would run past the slot's end. */
    method OutputCompacted(output: string) returns (ok: bool, slot: nat, n: nat)
      requires Valid()
      modifies this, buff
      ensures Valid() && slot == old(ibuf) && ibuf == NextSlot(old(ibuf), 10)
      ensures ok <==> |TrimRight(output, PunctOrSpace)| + 2 <= 1024
      ensures buff[..] == if ok then Stored(old(buff[..]), old(ibuf), [TrimRight(output, PunctOrSpace) + "\n"]) else old(buff[..])
      ensures ok ==> n == |buff[slot]|
    {
      slot, n := ibuf, 0;
      ibuf := ibuf + 1;
      if ibuf == SLOTS { ibuf := 0; }
      var trimmed := TrimRightIf(output, PunctOrSpace);
      ok := |trimmed| + 2 <= SLOT_SIZE;
      if ok {
        buff[slot] := trimmed + "\n";
        n := |buff[slot]|;
      }
    }

    /** CompactCooler and CompactVacuum. */
    method CompactProto(p: Proto, show: real -> string) returns (ok: bool, slot: nat, n: nat)
      requires Valid()
      modifies this, buff
      ensures Valid() && slot == old(ibuf) && ibuf == NextSlot(old(ibuf), 10)
      ensures ok <==> |Compact(p, show)| < 1024
      ensures buff[..] == if ok then Stored(old(buff[..]), old(ibuf), [Compact(p, show)]) else old(buff[..])
      ensures ok ==> buff[slot] == Compact(p, show) && n == |Compact(p, show)|
    {
      hide TrimRight, Entries, Body, TypeName;
      var output := BuildOutput(p, show);
      ok, slot, n := OutputCompacted(output);
    }
  }
}
