/** Bytes and the two-digit hexadecimal coding both serial protocols use. */
module Bytes {

  type byte = b: int | 0 <= b < 256

  /** Conversion to an unsigned eight-bit integer. */
  function ToByte(x: int): (b: byte)
    ensures 0 <= x < 256 ==> b == x
    ensures 256 <= x < 512 ==> b == x - 256
    ensures 512 <= x < 768 ==> b == x - 512
    ensures -256 <= x < 0 ==> b == x + 256
  {
    x % 256
  }

  /** The source's digit for a nibble t: 0-9, then A-F. */
  function Digit(t: byte): byte {
    ToByte(if t >= 10 then t + 0x37 else t + 0x30)
  }

  /** decode_uint8 for one digit; anything but 0-9 and A-F passes unchanged. */
  function Undigit(b: byte): byte {
    if 0x30 <= b <= 0x39 then b - 0x30 else if 0x41 <= b <= 0x46 then b - 0x37 else b
  }

  /** decode_uint8, in eight-bit arithmetic. */
  function DecodeUint8(b1: byte, b2: byte): byte {
    ToByte(ToByte(Undigit(b1) * 16) + Undigit(b2))
  }

  predicate IsDigit(b: byte) {
    0x30 <= b <= 0x39 || 0x41 <= b <= 0x46
  }

  /** The two digits of an unsigned byte. */
  function Hex(b: byte): (d: seq<byte>)
    ensures |d| == 2
  {
    [Digit(b / 16), Digit(b % 16)]
  }

  lemma DigitInverse(t: byte)
    requires t < 16
    ensures Undigit(Digit(t)) == t && IsDigit(Digit(t))
  {
  }

  lemma HexDecodes(b: byte)
    ensures DecodeUint8(Hex(b)[0], Hex(b)[1]) == b
    ensures IsDigit(Hex(b)[0]) && IsDigit(Hex(b)[1])
  {
    hide Digit, Undigit, IsDigit, ToByte;
    var h, l := b / 16, b % 16;
    assert b == 16 * h + l;
    DigitInverse(h);
    DigitInverse(l);
  }

  /** A plain char is signed on the target: bytes from 128 on are negative. */
  function Signed(b: byte): int { if b < 128 then b else b - 256 }

  /** Division and remainder that truncate toward zero, as in C. */
  function TruncDiv(a: int, d: int): int
    requires d > 0
  {
    if a >= 0 then a / d else -((-a) / d)
  }

  function TruncMod(a: int, d: int): int
    requires d > 0
  {
    a - d * TruncDiv(a, d)
  }

  /** The two characters written for a data byte, whose value is a signed char. */
  function DataHex(b: byte): (d: seq<byte>)
    ensures |d| == 2
  {
    [Digit(ToByte(TruncDiv(Signed(b), 16))), Digit(ToByte(TruncMod(Signed(b), 16)))]
  }

  /** The two nibbles of a negative char are negative, and their digits fall short of the letters. */
  lemma NegativeData(b: byte)
    requires b >= 128
    ensures var m := 256 - b; var q, r := m / 16, m % 16;
      && m == 16 * q + r && 0 <= q <= 8 && 0 <= r < 16
      && DataHex(b)[0] == (if q == 0 then 48 else 55 - q)
      && DataHex(b)[1] == (if r == 0 then 48 else 55 - r)
  {
    var m := 256 - b;
    var q, r := m / 16, m % 16;
    assert m == 16 * q + r && 0 <= q <= 8 && 0 <= r < 16;
    assert TruncDiv(Signed(b), 16) == -q;
    assert TruncMod(Signed(b), 16) == -r;
    hide TruncDiv, TruncMod, ToByte;
    DigitOfNegative(q);
    DigitOfNegative(r);
  }

  lemma DigitOfNegative(q: int)
    requires 0 <= q < 16
    ensures Digit(ToByte(-q)) == if q == 0 then 48 else 55 - q
  {
    hide ToByte;
    assert ToByte(-q) == if q == 0 then 0 else 256 - q;
    assert q > 0 ==> ToByte(256 - q + 0x37) == 55 - q;
  }

  lemma PositiveData(b: byte)
    requires b < 128
    ensures DataHex(b) == Hex(b)
  {
  }

  /** A data byte survives coding and decoding exactly when it is seven-bit. */
  lemma DataHexDecodesIff(b: byte)
    ensures DecodeUint8(DataHex(b)[0], DataHex(b)[1]) == b <==> b < 128
  {
    if b < 128 {
      PositiveData(b);
      HexDecodes(b);
    } else {
      NegativeData(b);
      var m := 256 - b;
      NegativeDecode(b, m / 16, m % 16, DataHex(b)[0], DataHex(b)[1]);
    }
  }

  lemma NegativeDecode(b: byte, q: int, r: int, d1: byte, d2: byte)
    requires b >= 128 && 256 - b == 16 * q + r && 0 <= q <= 8 && 0 <= r < 16
    requires d1 == (if q == 0 then 48 else 55 - q) && d2 == (if r == 0 then 48 else 55 - r)
    ensures DecodeUint8(d1, d2) != b
  {
    var h: int, l: int := Undigit(d1), Undigit(d2);
    assert h == if q == 0 then 0 else if q == 8 then 47 else 7 - q;
    assert l == if r == 0 then 0 else if r > 7 then 55 - r else 7 - r;
    assert ToByte(h * 16) == if h == 47 then 240 else 16 * h;
  }

  /** No data byte is ever written as a colon, a carriage return or a line feed. */
  lemma DataHexClean(b: byte)
    ensures forall i :: 0 <= i < 2 ==> DataHex(b)[i] != 0x3A && DataHex(b)[i] != 0x0D && DataHex(b)[i] != 0x0A
  {
    if b < 128 {
      PositiveData(b);
      HexDecodes(b);
    } else {
      NegativeData(b);
    }
  }

  /** What decode_uint8 makes of any two bytes: a byte that is no digit counts with its own value. */
  lemma AnyPairDecodes(b1: byte, b2: byte)
    ensures forall b: byte :: Undigit(b) == if 48 <= b <= 57 then b - 48 else if 65 <= b <= 70 then b - 55 else b
    ensures DecodeUint8(b1, b2) == (16 * Undigit(b1) + Undigit(b2)) % 256
  {
    hide Undigit;
    var u: int := Undigit(b1);
    assert ToByte(u * 16) == (16 * u) % 256;
    Wraps(16 * u, Undigit(b2));
    assert forall b: byte :: Undigit(b) == if 48 <= b <= 57 then b - 48 else if 65 <= b <= 70 then b - 55 else b by { UndigitValues(); }
  }

  lemma UndigitValues()
    ensures forall b: byte :: Undigit(b) == if 48 <= b <= 57 then b - 48 else if 65 <= b <= 70 then b - 55 else b
  {
  }

  lemma Wraps(a: int, b: int)
    ensures (a % 256 + b) % 256 == (a + b) % 256
  {
    assert a == 256 * (a / 256) + a % 256;
  }
}
