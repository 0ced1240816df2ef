/**
 The frames CoolerCtl exchanges with its devices: ':' , device and function number,
 data, checksum and CR LF, every byte as two hexadecimal digits. The style is that of
 section 2.5.2 of "MODBUS over Serial Line Specification and Implementation Guide V1.02",
 but the checksum also covers the colon and CR LF.
 */
module CoolerCodec {
  import opened Bytes

  const COLON: byte := 0x3A
  const CR: byte := 0x0D
  const LF: byte := 0x0A

  /** The data bytes, two characters each. */
  function DataPart(value: seq<byte>): (s: seq<byte>)
    ensures |s| == 2 * |value|
  {
    if value == [] then [] else DataHex(value[0]) + DataPart(value[1..])
  }

  function Head(idd: byte, idf: byte): seq<byte> {
    [COLON] + Hex(idd) + Hex(idf)
  }

  /** The frame before its checksum is known. */
  function Unsealed(idd: byte, idf: byte, value: seq<byte>): seq<byte> {
    Head(idd, idf) + DataPart(value) + [0, 0, CR, LF]
  }

  /** Sum of bytes in eight-bit arithmetic. */
  function SumBytes(s: seq<byte>): byte {
    if s == [] then 0 else ToByte(SumBytes(s[..|s| - 1]) + s[|s| - 1])
  }

  /** The sum without a bound. */
  function PlainSum(s: seq<byte>): nat {
    if s == [] then 0 else PlainSum(s[..|s| - 1]) + s[|s| - 1]
  }

  lemma {:induction false} SumIsModulo(s: seq<byte>)
    ensures SumBytes(s) == PlainSum(s) % 256
  {
    if s != [] {
      SumIsModulo(s[..|s| - 1]);
      Wraps(PlainSum(s[..|s| - 1]), s[|s| - 1]);
    }
  }

  /** The two's complement of the sum. */
  function Checksum(s: seq<byte>): byte { ToByte(256 - SumBytes(s)) }

  function Frame(idd: byte, idf: byte, value: seq<byte>): (f: seq<byte>)
    ensures |f| == 9 + 2 * |value|
  {
    Head(idd, idf) + DataPart(value) + Hex(Checksum(Unsealed(idd, idf, value))) + [CR, LF]
  }

  lemma ComplementCloses(s: seq<byte>)
    ensures (PlainSum(s) + Checksum(s)) % 256 == 0
  {
    SumIsModulo(s);
    Wraps(PlainSum(s), Checksum(s));
  }

  // ----- encoding

  /** The line redundancy check: sums in a loop, then complements. */
  method LRC(data: array<byte>, n: int) returns (lrc: byte)
    requires 0 <= n <= data.Length
    ensures lrc == Checksum(data[..n]) && (PlainSum(data[..n]) + lrc) % 256 == 0
  {
    ComplementCloses(data[..n]);
    var sum: byte := 0;
    for i := 0 to n
      invariant sum == SumBytes(data[..i])
    {
      assert data[..i + 1][..i] == data[..i];
      sum := ToByte(sum + data[i]);
    }
    lrc := ToByte((255 - sum) + 1);
    assert (255 - sum) + 1 == 256 - sum;
  }

  lemma {:induction false} DataPartAppend(value: seq<byte>, b: byte)
    ensures DataPart(value + [b]) == DataPart(value) + DataHex(b)
  {
    if value == [] {
      assert value + [b] == [b];
      assert [b][1..] == [];
    } else {
      assert (value + [b])[1..] == value[1..] + [b];
      DataPartAppend(value[1..], b);
    }
  }

  /** Appends the data part after position i0. */
  method EncodeBytes(value: seq<byte>, output: array<byte>, i0: int) returns (i: int)
    requires 0 <= i0 && i0 + 2 * |value| < output.Length
    modifies output
    ensures i == i0 + 2 * |value|
    ensures output[..i + 1] == old(output[..i0 + 1]) + DataPart(value)
  {
    hide DataHex, Digit, ToByte, TruncDiv, TruncMod;
    i := i0;
    for j := 0 to |value|
      invariant i == i0 + 2 * j
      invariant output[..i + 1] == old(output[..i0 + 1]) + DataPart(value[..j])
    {
      ghost var done := output[..i + 1];
      i := i + 1;
      output[i] := DataHex(value[j])[0];
      i := i + 1;
      output[i] := DataHex(value[j])[1];
      TwoMore(done, output[..i + 1], value[j]);
      assert value[..j + 1] == value[..j] + [value[j]];
      DataPartAppend(value[..j], value[j]);
    }
    assert value[..|value|] == value;
  }

  lemma TwoMore(done: seq<byte>, now: seq<byte>, b: byte)
    requires |now| == |done| + 2 && now[..|done|] == done && now[|done|] == DataHex(b)[0] && now[|done| + 1] == DataHex(b)[1]
    ensures now == done + DataHex(b)
  {
  }

  /** Writes the frame into output, followed by a terminating zero, and returns its length. */
  method EncodeData(idd: byte, idf: byte, value: seq<byte>, output: array<byte>) returns (i: int)
    requires output.Length >= 10 + 2 * |value|
    modifies output
    ensures i == 9 + 2 * |value|
    ensures output[..i] == Frame(idd, idf, value) && output[i] == 0
  {
    hide Hex, DataPart, SumBytes, Checksum;
    output[0] := COLON;
    output[1], output[2] := Hex(idd)[0], Hex(idd)[1];
    output[3], output[4] := Hex(idf)[0], Hex(idf)[1];
    assert output[..5] == Head(idd, idf);
    i := EncodeBytes(value, output, 4);
    ghost var done := output[..i + 1];
    output[i + 1], output[i + 2], output[i + 3], output[i + 4] := 0, 0, CR, LF;
    output[i + 5] := 0;
    i := i + 5;
    assert output[..i] == done + [0, 0, CR, LF];
    var lrc := LRC(output, i);
    assert lrc == Checksum(Unsealed(idd, idf, value));
    ghost var s: seq<byte> := output[..i];
    Patched(done, Hex(lrc));
    output[i - 4], output[i - 3] := Hex(lrc)[0], Hex(lrc)[1];
    assert output[..i] == s[i - 4 := Hex(lrc)[0]][i - 3 := Hex(lrc)[1]];
  }

  lemma Patched(done: seq<byte>, h: seq<byte>)
    requires |h| == 2
    ensures var s: seq<byte> := done + [0, 0, CR, LF];
            s[|done| := h[0]][|done| + 1 := h[1]] == done + h + [CR, LF]
  {
  }

  // ----- what a frame contains

  /** Where the parts of a frame stand. */
  lemma FrameLayout(idd: byte, idf: byte, value: seq<byte>)
    ensures var f, n := Frame(idd, idf, value), |value|;
      && f[0] == COLON && f[1..3] == Hex(idd) && f[3..5] == Hex(idf)
      && f[5..5 + 2 * n] == DataPart(value)
      && f[5 + 2 * n..7 + 2 * n] == Hex(Checksum(Unsealed(idd, idf, value)))
      && f[7 + 2 * n] == CR && f[8 + 2 * n] == LF
  {
    hide *;
    var a, b, c, d, e, g := [COLON], Hex(idd), Hex(idf), DataPart(value), Hex(Checksum(Unsealed(idd, idf, value))), [CR, LF];
    FrameParts(idd, idf, value);
    PartsOf(a, b, c, d, e, g, 2 * |value|);
  }

  lemma FrameParts(idd: byte, idf: byte, value: seq<byte>)
    ensures Frame(idd, idf, value) == [COLON] + Hex(idd) + Hex(idf) + DataPart(value) + Hex(Checksum(Unsealed(idd, idf, value))) + [CR, LF]
  {
  }

  lemma PartsOf(a: seq<byte>, b: seq<byte>, c: seq<byte>, d: seq<byte>, e: seq<byte>, g: seq<byte>, n: int)
    requires |a| == 1 && |b| == 2 && |c| == 2 && |d| == n && |e| == 2 && |g| == 2
    ensures var f := a + b + c + d + e + g;
      f[0] == a[0] && f[1..3] == b && f[3..5] == c && f[5..5 + n] == d && f[5 + n..7 + n] == e && f[7 + n] == g[0] && f[8 + n] == g[1]
  {
  }

  lemma {:induction false} DataPartAt(value: seq<byte>, j: int)
    requires 0 <= j < |value|
    ensures DataPart(value)[2 * j] == DataHex(value[j])[0] && DataPart(value)[2 * j + 1] == DataHex(value[j])[1]
  {
    hide DataHex;
    var rest := DataPart(value[1..]);
    assert DataPart(value) == DataHex(value[0]) + rest;
    if j > 0 {
      DataPartAt(value[1..], j - 1);
      assert DataPart(value)[2 * j] == rest[2 * (j - 1)] && DataPart(value)[2 * j + 1] == rest[2 * (j - 1) + 1];
    }
  }

  /** Between the colon and the closing CR LF there is no colon, no CR and no LF. */
  lemma BodyClean(idd: byte, idf: byte, value: seq<byte>, k: int)
    requires 0 < k < 7 + 2 * |value|
    ensures var b := Frame(idd, idf, value)[k]; b != COLON && b != CR && b != LF
  {
    var f, c := Frame(idd, idf, value), Checksum(Unsealed(idd, idf, value));
    FrameLayout(idd, idf, value);
    HexDecodes(idd);
    HexDecodes(idf);
    HexDecodes(c);
    if k < 3 {
      assert f[k] == f[1..3][k - 1];
    } else if k < 5 {
      assert f[k] == f[3..5][k - 3];
    } else if k < 5 + 2 * |value| {
      var j := (k - 5) / 2;
      DataPartAt(value, j);
      DataHexClean(value[j]);
      assert f[k] == f[5..5 + 2 * |value|][k - 5];
      assert k - 5 == 2 * j || k - 5 == 2 * j + 1;
    } else {
      assert f[k] == f[5 + 2 * |value|..7 + 2 * |value|][k - 5 - 2 * |value|];
    }
  }

  // ----- decoding

  /** The data bytes as decode_data collects them from positions first, first + 2, ..., up to last. */
  function Collected(s: seq<byte>, first: int, last: int): seq<byte>
    requires 0 <= first && last + 1 < |s|
    decreases last - first
  {
    if first > last then [] else [DecodeUint8(s[first], s[first + 1])] + Collected(s, first + 2, last)
  }

  lemma {:induction false} CollectedAppend(s: seq<byte>, first: int, last: int)
    requires 0 <= first <= last && last + 1 < |s| && (last - first) % 2 == 0
    ensures Collected(s, first, last) == Collected(s, first, last - 2) + [DecodeUint8(s[last], s[last + 1])]
    decreases last - first
  {
    if first < last { CollectedAppend(s, first + 2, last); }
  }

  lemma {:induction false} CollectedFrom(s: seq<byte>, value: seq<byte>, first: int, last: int)
    requires 0 <= first && last + 1 < |s| && first + 2 * |value| - 2 <= last < first + 2 * |value| && first + 2 * |value| <= |s|
    requires s[first..first + 2 * |value|] == DataPart(value)
    ensures |Collected(s, first, last)| == |value|
    ensures Collected(s, first, last) == value <==> forall j :: 0 <= j < |value| ==> value[j] < 128
  {
    if value != [] {
      var t, d := s[first..first + 2 * |value|], value[1..];
      DataHexDecodesIff(value[0]);
      assert t[0] == DataHex(value[0])[0] && t[1] == DataHex(value[0])[1];
      assert t[2..] == DataPart(d) && s[first + 2..first + 2 + 2 * |d|] == t[2..];
      CollectedFrom(s, d, first + 2, last);
      var rest := Collected(s, first + 2, last);
      assert Collected(s, first, last) == [DecodeUint8(t[0], t[1])] + rest;
      if Collected(s, first, last) == value {
        assert rest == d;
        assert value[0] == DecodeUint8(t[0], t[1]);
        forall j | 0 <= j < |value| ensures value[j] < 128 { if j > 0 { assert value[j] == d[j - 1]; } }
      }
      if forall j :: 0 <= j < |value| ==> value[j] < 128 {
        assert forall j :: 0 <= j < |d| ==> d[j] == value[j + 1] < 128;
        assert rest == d && value == [value[0]] + d;
      }
    } else {
      assert first > last;
    }
  }

  /**
   Decoding what was encoded: both numbers always come back; the data comes back whole
   exactly when every byte of it is seven-bit.
   */
  lemma RoundTrip(idd: byte, idf: byte, value: seq<byte>)
    ensures var f := Frame(idd, idf, value);
      && DecodeUint8(f[1], f[2]) == idd
      && DecodeUint8(f[3], f[4]) == idf
      && |Collected(f, 5, |f| - 5)| == |value|
      && (Collected(f, 5, |f| - 5) == value <==> forall j :: 0 <= j < |value| ==> value[j] < 128)
  {
    var f := Frame(idd, idf, value);
    FrameLayout(idd, idf, value);
    HexDecodes(idd);
    HexDecodes(idf);
    assert f[1] == f[1..3][0] && f[2] == f[1..3][1] && f[3] == f[3..5][0] && f[4] == f[3..5][1];
    CollectedToLast(f, value);
  }

  /** The scan to |f| - 5 stops at the same byte as one to the end of the data. */
  lemma CollectedToLast(f: seq<byte>, value: seq<byte>)
    requires |f| == 9 + 2 * |value| && f[5..5 + 2 * |value|] == DataPart(value)
    ensures |Collected(f, 5, |f| - 5)| == |value|
    ensures Collected(f, 5, |f| - 5) == value <==> forall j :: 0 <= j < |value| ==> value[j] < 128
  {
    CollectedFrom(f, value, 5, |f| - 5);
  }

  lemma {:induction false} SumAppend(s: seq<byte>, t: seq<byte>)
    ensures SumBytes(s + t) == ToByte(SumBytes(s) + SumBytes(t))
  {
    if t == [] {
      assert s + t == s;
    } else {
      assert (s + t)[..|s + t| - 1] == s + t[..|t| - 1];
      SumAppend(s, t[..|t| - 1]);
    }
  }

  /**
   The receiver's check: every byte of the frame except the two checksum digits, plus the
   checksum those digits decode to, adds up to zero.
   */
  lemma ChecksumCloses(idd: byte, idf: byte, value: seq<byte>)
    ensures var f, n := Frame(idd, idf, value), |value|;
      (PlainSum(f[..5 + 2 * n]) + PlainSum(f[7 + 2 * n..]) + DecodeUint8(f[5 + 2 * n], f[6 + 2 * n])) % 256 == 0
  {
    hide Digit, DataPart, SumBytes, PlainSum, ToByte;
    var f, n, u := Frame(idd, idf, value), |value|, Unsealed(idd, idf, value);
    var body := Head(idd, idf) + DataPart(value);
    FrameLayout(idd, idf, value);
    HexDecodes(Checksum(u));
    assert f[..5 + 2 * n] == body && f[7 + 2 * n..] == [CR, LF];
    assert u == body + ([0, 0] + [CR, LF]);
    SumAppend(body, [0, 0] + [CR, LF]);
    SumAppend([0, 0], [CR, LF]);
    SumOfZeros();
    assert f[5 + 2 * n] == f[5 + 2 * n..7 + 2 * n][0] && f[6 + 2 * n] == f[5 + 2 * n..7 + 2 * n][1];
    Closes(SumBytes(body), SumBytes([CR, LF]), SumBytes(u), Checksum(u));
    SumIsModulo(body);
    SumIsModulo([CR, LF]);
    ModuloAddsUp(PlainSum(body), PlainSum([CR, LF]), Checksum(u));
  }

  lemma ModuloAddsUp(a: nat, c: nat, lrc: byte)
    requires ToByte(a % 256 + c % 256 + lrc) == 0
    ensures (a + c + lrc) % 256 == 0
  {
    assert a == 256 * (a / 256) + a % 256 && c == 256 * (c / 256) + c % 256;
  }

  lemma Closes(a: byte, c: byte, s: byte, lrc: byte)
    requires s == ToByte(a + ToByte(0 + c)) && lrc == ToByte(256 - s)
    ensures ToByte(a + c + lrc) == 0
  {
  }

  lemma SumOfZeros()
    ensures SumBytes([0, 0]) == 0
  {
  }
}
