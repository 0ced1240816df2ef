/**
 The string operations AsciiProtocol takes from its library: trimming, splitting with
 adjacent separators merged, and comparison without case.
 */
module AsciiText {

  predicate IsSpace(c: char) { c == ' ' || ('\t' <= c && c <= '\r') }

  predicate IsPunct(c: char) {
    ('!' <= c && c <= '/') || (':' <= c && c <= '@') || ('[' <= c && c <= '`') || ('{' <= c && c <= '~')
  }

  predicate PunctOrSpace(c: char) { IsPunct(c) || IsSpace(c) }

  function TrimRight(s: string, p: char -> bool): (t: string)
    ensures t <= s && (t != "" ==> !p(t[|t| - 1]))
  {
    if s != "" && p(s[|s| - 1]) then TrimRight(s[..|s| - 1], p) else s
  }

  function TrimLeft(s: string, p: char -> bool): (t: string)
    ensures |t| <= |s|
  {
    if s != "" && p(s[0]) then TrimLeft(s[1..], p) else s
  }

  function Trim(s: string): string {
    TrimLeft(TrimRight(s, IsSpace), IsSpace)
  }

  /** Neither end is a blank. */
  predicate NoOuterSpace(s: string) {
    s == "" || (!IsSpace(s[0]) && !IsSpace(s[|s| - 1]))
  }

  /** The character classes of the C locale, by code. */
  lemma CharacterClasses(c: char)
    ensures IsSpace(c) <==> c as int == 32 || 9 <= c as int <= 13
    ensures IsPunct(c) <==> 33 <= c as int <= 126 && !(48 <= c as int <= 57) && !(65 <= c as int <= 90) && !(97 <= c as int <= 122)
  {
  }

  /** Trimming takes away blanks on both sides, and nothing else. */
  lemma TrimPads(l: string, s: string, r: string)
    requires NoOuterSpace(s) && s != ""
    requires (forall i :: 0 <= i < |l| ==> IsSpace(l[i])) && (forall i :: 0 <= i < |r| ==> IsSpace(r[i]))
    ensures Trim(l + s + r) == s
  {
    hide IsSpace;
    TrimAllRight(r, IsSpace);
    TrimRightConcat(l + s, r, IsSpace);
    assert (l + s)[|l + s| - 1] == s[|s| - 1];
    TrimAllLeft(l, s, IsSpace);
  }

  lemma {:induction false} TrimAllRight(r: string, p: char -> bool)
    requires forall i :: 0 <= i < |r| ==> p(r[i])
    ensures TrimRight(r, p) == ""
  {
    if r != "" { TrimAllRight(r[..|r| - 1], p); }
  }

  lemma {:induction false} TrimAllLeft(l: string, s: string, p: char -> bool)
    requires (forall i :: 0 <= i < |l| ==> p(l[i])) && s != "" && !p(s[0])
    ensures TrimLeft(l + s, p) == s
  {
    if l == "" {
      assert l + s == s;
    } else {
      assert (l + s)[1..] == l[1..] + s && (l + s)[0] == l[0];
      TrimAllLeft(l[1..], s, p);
    }
  }

  lemma {:induction false} TrimLeftIsSuffix(s: string, p: char -> bool)
    ensures var t := TrimLeft(s, p); t == s[|s| - |t|..] && (t != "" ==> !p(t[0]))
  {
    if s != "" && p(s[0]) { TrimLeftIsSuffix(s[1..], p); }
  }

  lemma TrimmedNoOuterSpace(s: string)
    ensures NoOuterSpace(Trim(s)) && forall c :: c in Trim(s) ==> c in s
  {
    var r := TrimRight(s, IsSpace);
    TrimLeftIsSuffix(r, IsSpace);
  }

  lemma TrimClean(s: string)
    requires NoOuterSpace(s)
    ensures Trim(s) == s && Trim(s + "\n") == s
  {
  }

  /** Trimming a concatenation trims its second part, and the first only when nothing of the second is left. */
  lemma {:induction false} TrimRightConcat(a: string, b: string, p: char -> bool)
    ensures TrimRight(a + b, p) == if TrimRight(b, p) == "" then TrimRight(a, p) else a + TrimRight(b, p)
  {
    if b == "" {
      assert a + b == a;
    } else {
      assert (a + b)[..|a + b| - 1] == a + b[..|b| - 1];
      if p(b[|b| - 1]) { TrimRightConcat(a, b[..|b| - 1], p); }
    }
  }

  method TrimRightIf(s: string, p: char -> bool) returns (t: string)
    ensures t == TrimRight(s, p)
  {
    t := s;
    while |t| > 0 && p(t[|t| - 1])
      invariant TrimRight(t, p) == TrimRight(s, p)
      decreases |t|
    {
      t := t[..|t| - 1];
    }
  }

  // ----- splitting

  /** Length of the longest prefix without c. */
  function Before(s: string, c: char): (n: nat)
    ensures n <= |s| && c !in s[..n] && (n < |s| ==> s[n] == c)
  {
    if s == "" || s[0] == c then 0
    else
      var n := Before(s[1..], c);
      assert s[..n + 1] == [s[0]] + s[1..][..n];
      1 + n
  }

  /** Length of the longest prefix made of c. */
  function Run(s: string, c: char): (n: nat)
    ensures n <= |s| && (s != "" && s[0] == c ==> n > 0) && (n < |s| ==> s[n] != c)
  {
    if s == "" || s[0] != c then 0 else 1 + Run(s[1..], c)
  }

  /** The parts of s between runs of c; a run at either end leaves an empty part there. */
  function Split(s: string, c: char): (parts: seq<string>)
    ensures parts != []
    decreases |s|
  {
    var n := Before(s, c);
    if n == |s| then [s] else [s[..n]] + Split(s[n..][Run(s[n..], c)..], c)
  }

  lemma {:induction false} BeforeConcat(a: string, b: string, c: char)
    requires c !in a
    ensures Before(a + b, c) == |a| + Before(b, c)
  {
    if a == "" {
      assert a + b == b;
    } else {
      assert a[0] in a && (a + b)[1..] == a[1..] + b;
      BeforeConcat(a[1..], b, c);
    }
  }

  method SkipRun(s: string, c: char) returns (n: nat)
    ensures n == Run(s, c)
  {
    n := 0;
    while n < |s| && s[n] == c
      invariant 0 <= n <= |s| && n + Run(s[n..], c) == Run(s, c)
    {
      n := n + 1;
    }
  }

  method SplitBy(s: string, c: char) returns (parts: seq<string>)
    ensures parts == Split(s, c)
  {
    hide Split, Before, Run;
    parts := [];
    var rest, part := s, "";
    ghost var open := s;
    while |rest| > 0
      invariant parts + Split(open, c) == Split(s, c)
      invariant open == part + rest && c !in part
      decreases |rest|
    {
      if rest[0] != c {
        assert part + rest == (part + [rest[0]]) + rest[1..];
        part, rest := part + [rest[0]], rest[1..];
      } else {
        SplitOnce(part, rest, c);
        var n := SkipRun(rest, c);
        assert (parts + [part]) + Split(rest[n..], c) == parts + ([part] + Split(rest[n..], c));
        parts := parts + [part];
        rest := rest[n..];
        part, open := "", rest;
        assert open == part + rest;
      }
    }
    assert open == part;
    SplitWithout(open, c);
    parts := parts + [part];
  }

  /** One part, its separators, and the rest. */
  lemma SplitOnce(part: string, rest: string, c: char)
    requires c !in part && rest != "" && rest[0] == c
    ensures Split(part + rest, c) == [part] + Split(rest[Run(rest, c)..], c)
  {
    var s := part + rest;
    BeforeConcat(part, rest, c);
    assert s[|part|..] == rest && s[..|part|] == part;
  }

  /** Adjacent separators count as one, wherever they stand. */
  lemma SplitRuns(part: string, seps: string, rest: string, c: char)
    requires c !in part && seps != "" && (forall i :: 0 <= i < |seps| ==> seps[i] == c) && (rest == "" || rest[0] != c)
    ensures Split(part + seps + rest, c) == [part] + Split(rest, c)
  {
    hide Split;
    RunOfAll(seps, rest, c);
    assert part + seps + rest == part + (seps + rest) && (seps + rest)[|seps|..] == rest;
    SplitOnce(part, seps + rest, c);
  }

  lemma {:induction false} RunOfAll(seps: string, rest: string, c: char)
    requires (forall i :: 0 <= i < |seps| ==> seps[i] == c) && (rest == "" || rest[0] != c)
    ensures Run(seps + rest, c) == |seps|
  {
    if seps == "" {
      assert seps + rest == rest;
    } else {
      assert (seps + rest)[1..] == seps[1..] + rest;
      RunOfAll(seps[1..], rest, c);
    }
  }

  lemma SplitWithout(s: string, c: char)
    requires c !in s
    ensures Split(s, c) == [s]
  {
  }

  /** No part holds the separator, and each is made of the text's characters. */
  lemma {:induction false} PartsOfSplit(s: string, c: char, part: string)
    requires part in Split(s, c)
    ensures c !in part && forall d :: d in part ==> d in s
    decreases |s|
  {
    var n := Before(s, c);
    if n == |s| {
      assert s[..n] == s;
    } else if part != s[..n] {
      PartsOfSplit(s[n..][Run(s[n..], c)..], c, part);
    }
  }

  /** The parts joined with one separator between each two. */
  function Join(parts: seq<string>, c: char): string {
    if parts == [] then "" else if |parts| == 1 then parts[0] else parts[0] + [c] + Join(parts[1..], c)
  }

  /** Splitting undoes joining for parts that are nonempty and free of the separator. */
  lemma {:induction false} SplitJoin(parts: seq<string>, c: char)
    requires parts != [] && forall i :: 0 <= i < |parts| ==> parts[i] != "" && c !in parts[i]
    ensures Split(Join(parts, c), c) == parts
    ensures Join(parts, c) != "" && Join(parts, c)[0] == parts[0][0]
  {
    hide Split, Run;
    if |parts| == 1 {
      SplitWithout(parts[0], c);
    } else {
      SplitJoin(parts[1..], c);
      JoinSplits(parts[0], Join(parts[1..], c), c) by { assert parts[1][0] in parts[1]; }
      assert [parts[0]] + parts[1..] == parts;
    }
  }

  lemma JoinSplits(part: string, joined: string, c: char)
    requires part != "" && c !in part && joined != "" && joined[0] != c
    ensures Split(part + [c] + joined, c) == [part] + Split(joined, c)
    ensures (part + [c] + joined)[0] == part[0]
  {
    hide Split, Run;
    var rest := [c] + joined;
    assert part + [c] + joined == part + rest;
    OneSeparator(joined, c);
    SplitOnce(part, rest, c);
  }

  lemma OneSeparator(s: string, c: char)
    requires s != "" && s[0] != c
    ensures Run([c] + s, c) == 1 && ([c] + s)[1..] == s
  {
    assert ([c] + s)[1..] == s;
  }

  /** What follows the last part may be written onto it. */
  lemma {:induction false} JoinTail(parts: seq<string>, last: string, tail: string, c: char)
    ensures Join(parts + [last], c) + tail == Join(parts + [last + tail], c)
  {
    if parts != [] {
      assert (parts + [last])[1..] == parts[1..] + [last];
      assert (parts + [last + tail])[1..] == parts[1..] + [last + tail];
      JoinTail(parts[1..], last, tail, c);
      var a, b := parts[0] + [c], Join(parts[1..] + [last], c);
      assert (a + b) + tail == a + (b + tail);
    }
  }

  // ----- comparison without case

  function Upper(c: char): char {
    if 'a' <= c && c <= 'z' then (c as int - 32) as char else c
  }

  predicate Iequals(a: string, b: string) {
    |a| == |b| && forall i :: 0 <= i < |a| ==> Upper(a[i]) == Upper(b[i])
  }

  predicate LowerKey(k: string) {
    k != "" && forall i :: 0 <= i < |k| ==> k[i] == '_' || ('a' <= k[i] && k[i] <= 'z')
  }

  lemma LowerKeysCompareExactly(a: string, b: string)
    requires LowerKey(a) && LowerKey(b)
    ensures Iequals(a, b) <==> a == b
  {
    if Iequals(a, b) {
      forall i | 0 <= i < |a| ensures a[i] == b[i] { assert Upper(a[i]) == Upper(b[i]); }
    }
  }

  function Lower(c: char): char {
    if 'A' <= c && c <= 'Z' then (c as int + 32) as char else c
  }

  /** The comparison is equality of the lower-cased texts. */
  lemma IequalsIsLower(a: string, b: string)
    ensures Iequals(a, b) <==> |a| == |b| && forall i :: 0 <= i < |a| ==> Lower(a[i]) == Lower(b[i])
  {
    forall c: char, d: char ensures Upper(c) == Upper(d) <==> Lower(c) == Lower(d) { SameLetter(c, d); }
  }

  lemma SameLetter(c: char, d: char)
    ensures Upper(c) == Upper(d) <==> Lower(c) == Lower(d)
  {
  }
}
