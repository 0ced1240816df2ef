/**
 ControllerBase with its two overrides: the directive list, the device records, and
 what the cycle thread, the respond thread and the serial callback do to them. Effects
 are first given on values (Core), then by the methods of the class.
 */
module Controllers {
  import opened Bytes
  import opened CoolerCodec
  import opened SerialPort

  /** Which override is in use: CoolerCtl or VacuumCtl. */
  datatype Kind = Cooler | Vacuum

  /** One line of the directive list: a function number and the message to send. */
  datatype Directive = Directive(idf: byte, msg: seq<byte>)

  datatype Value = Number(n: real) | Text(t: seq<byte>)

  /** A device record; fields maps the function number that reads a quantity to its last value. */
  datatype Record = Record(dirty: bool, idd: byte, fields: map<byte, Value>)

  datatype Core = Core(kind: Kind, allDev: seq<byte>, drct: seq<Directive>, data: seq<Record>,
                       signal: bool, sent: seq<Directive>)

  // cooler: voltage, current, detector temperature, hot end, set point; vacuum: current, pressure, voltage
  function Monitor(kind: Kind): seq<byte> {
    if kind == Cooler then [0x22, 0x21, 0x23, 0x24, 0x15] else [0x0A, 0x0B, 0x0C]
  }

  const READ_PRESSURE: byte := 0x0B

  // ----- messages

  /** The vacuum message: "~ dd ff cc" and CR; its checksum is the plain sum from the first blank on. */
  function VacuumMessage(idd: byte, idf: byte): seq<byte> {
    var body: seq<byte> := [0x20] + Hex(idd) + [0x20] + Hex(idf) + [0x20];
    [0x7E] + body + Hex(SumBytes(body)) + [CR]
  }

  function Message(kind: Kind, idd: byte, idf: byte, value: seq<byte>): seq<byte> {
    if kind == Cooler then Frame(idd, idf, value) else VacuumMessage(idd, idf)
  }

  /** Writes the vacuum message into output, summing as it goes, and returns its length. */
  method EncodeVacuum(idd: byte, idf: byte, output: array<byte>) returns (i: int)
    requires output.Length >= 12
    modifies output
    ensures i == 11 && output[..i] == VacuumMessage(idd, idf) && output[i] == 0
  {
    hide Hex, SumBytes, ToByte;
    ghost var body: seq<byte> := [0x20] + Hex(idd) + [0x20] + Hex(idf) + [0x20];
    var text := [0x20, Hex(idd)[0], Hex(idd)[1], 0x20, Hex(idf)[0], Hex(idf)[1], 0x20];
    assert text == body;
    output[0] := 0x7E;
    var lrc: byte := 0;
    EmptySum();
    for k := 0 to 7
      invariant output[0] == 0x7E && output[1..k + 1] == body[..k]
      invariant lrc == SumBytes(body[..k])
    {
      output[k + 1] := text[k];
      SumOneMore(body, k);
      lrc := ToByte(lrc + output[k + 1]);
    }
    assert body[..7] == body;
    output[8], output[9], output[10], output[11] := Hex(lrc)[0], Hex(lrc)[1], CR, 0;
    i := 11;
    assert output[..i] == [0x7E] + body + Hex(lrc) + [CR];
  }

  lemma EmptySum()
    ensures SumBytes([]) == 0
  {
  }

  lemma SumOneMore(s: seq<byte>, k: int)
    requires 0 <= k < |s|
    ensures SumBytes(s[..k + 1]) == ToByte(SumBytes(s[..k]) + s[k])
  {
    assert s[..k + 1][..k] == s[..k];
  }

  /** Where everything stands in a vacuum message, and what its checksum covers. */
  lemma VacuumLayout(idd: byte, idf: byte)
    ensures var m := VacuumMessage(idd, idf);
      && |m| == 11 && m[0] == 0x7E && m[1] == m[4] == m[7] == 0x20 && m[10] == 0x0D
      && DecodeUint8(m[2], m[3]) == idd && DecodeUint8(m[5], m[6]) == idf
      && DecodeUint8(m[8], m[9]) == PlainSum(m[1..8]) % 256
  {
    hide Hex, SumBytes, PlainSum, DecodeUint8;
    var m := VacuumMessage(idd, idf);
    var body: seq<byte> := [0x20] + Hex(idd) + [0x20] + Hex(idf) + [0x20];
    assert m[1..8] == body;
    HexDecodes(idd);
    HexDecodes(idf);
    HexDecodes(SumBytes(body));
    SumIsModulo(body);
  }

  /** The size of a directive's message buffer: room for ten data bytes and the terminating zero. */
  const MESSAGE_SIZE := 30

  /** What a directive can carry: ten characters for a cooler; a vacuum message does not carry its value at all. */
  predicate Fits(kind: Kind, value: seq<byte>) {
    kind == Vacuum || |value| <= 10
  }

  /** A message and its terminating zero stay within the buffer exactly for such values. */
  lemma FitsIff(kind: Kind, idd: byte, idf: byte, value: seq<byte>)
    ensures |Message(kind, idd, idf, value)| + 1 <= MESSAGE_SIZE <==> Fits(kind, value)
  {
    hide Hex, DataPart, SumBytes, Checksum;
  }

  /** An integer as "%d" writes it. */
  function Decimal(v: int): (s: seq<byte>) {
    if v < 0 then [0x2D] + Digits(-v) else Digits(v)
  }

  function Digits(n: nat): (s: seq<byte>) {
    (if n < 10 then [] else Digits(n / 10)) + [0x30 + (n % 10) as byte]
  }

  function Power10(k: nat): (p: nat)
    ensures p >= 1
  {
    if k == 0 then 1 else 10 * Power10(k - 1)
  }

  lemma {:induction false} DigitsLength(n: nat, k: nat)
    requires k >= 1
    ensures |Digits(n)| <= k <==> n < Power10(k)
  {
    if n >= 10 {
      if k == 1 {
        assert |Digits(n / 10)| >= 1;
      } else {
        DigitsLength(n / 10, k - 1);
        assert n / 10 < Power10(k - 1) <==> n < 10 * Power10(k - 1);
      }
    }
  }

  /** The integer a decimal text denotes. */
  function Denoted(s: seq<byte>): int {
    if s != [] && s[0] == 0x2D then -Counted(s[1..]) else Counted(s)
  }

  function Counted(s: seq<byte>): int {
    if s == [] then 0 else 10 * Counted(s[..|s| - 1]) + (s[|s| - 1] as int - 0x30)
  }

  /** The text of an integer denotes it. */
  lemma DecimalDenotes(v: int)
    ensures Denoted(Decimal(v)) == v
    ensures forall i :: 0 <= i < |Decimal(v)| ==> 0x30 <= Decimal(v)[i] <= 0x39 || (i == 0 && Decimal(v)[i] == 0x2D)
  {
    hide Digits, Counted;
    var d := Digits(if v < 0 then -v else v);
    DigitsDenote(if v < 0 then -v else v);
    if v < 0 { assert ([0x2D] + d)[1..] == d; }
  }

  lemma {:induction false} DigitsDenote(n: nat)
    ensures Digits(n) != [] && Counted(Digits(n)) == n && forall i :: 0 <= i < |Digits(n)| ==> 0x30 <= Digits(n)[i] <= 0x39
  {
    var d := Digits(n);
    if n >= 10 {
      DigitsDenote(n / 10);
      assert d[..|d| - 1] == Digits(n / 10);
    }
  }

  /** Of the integers, those with more than ten characters do not fit; -1000000000 is the first of them. */
  lemma IntegerFitsIff(v: int)
    ensures Fits(Cooler, Decimal(v)) <==> -1000000000 < v < 10000000000
  {
    assert Power10(3) == 1000 && Power10(6) == 1000 * Power10(3) && Power10(9) == 1000 * Power10(6);
    if v < 0 { DigitsLength(-v, 9); } else { DigitsLength(v, 10); }
  }

  /** encode_data of either override, into a directive's own buffer. */
  method EncodeMessage(kind: Kind, idd: byte, idf: byte, value: seq<byte>) returns (msg: seq<byte>)
    requires Fits(kind, value)
    ensures msg == Message(kind, idd, idf, value)
  {
    hide Frame, VacuumMessage;
    var output := new byte[MESSAGE_SIZE];
    var len;
    if kind == Cooler {
      len := EncodeData(idd, idf, value, output);
    } else {
      len := EncodeVacuum(idd, idf, output);
    }
    msg := output[..len];
  }

  /** The device a message addresses. */
  function Target(kind: Kind, msg: seq<byte>): byte
  {
    if |msg| < 4 then 0
    else if kind == Cooler then DecodeUint8(msg[1], msg[2]) else DecodeUint8(msg[2], msg[3])
  }

  lemma MessageTarget(kind: Kind, idd: byte, idf: byte, value: seq<byte>)
    ensures Target(kind, Message(kind, idd, idf, value)) == idd
  {
    if kind == Cooler {
      RoundTrip(idd, idf, value);
    } else {
      HexDecodes(idd);
      var m := VacuumMessage(idd, idf);
      assert m[2] == Hex(idd)[0] && m[3] == Hex(idd)[1];
    }
  }

  /** The function number a message carries. */
  function FunctionOf(kind: Kind, msg: seq<byte>): byte {
    if |msg| < 7 then 0
    else if kind == Cooler then DecodeUint8(msg[3], msg[4]) else DecodeUint8(msg[5], msg[6])
  }

  lemma MessageFunction(kind: Kind, idd: byte, idf: byte, value: seq<byte>)
    ensures FunctionOf(kind, Message(kind, idd, idf, value)) == idf
  {
    if kind == Cooler { RoundTrip(idd, idf, value); } else { VacuumLayout(idd, idf); }
  }

  /** What generate_directive appends for one device. */
  function DirectivesFor(kind: Kind, idd: byte, fs: seq<byte>): (ds: seq<Directive>)
    ensures |ds| == |fs|
    ensures forall i :: 0 <= i < |fs| ==> ds[i] == Directive(fs[i], Message(kind, idd, fs[i], []))
  {
    if fs == [] then []
    else DirectivesFor(kind, idd, fs[..|fs| - 1]) + [Directive(fs[|fs| - 1], Message(kind, idd, fs[|fs| - 1], []))]
  }

  /** A whole round: the monitor list of every device, device by device. */
  function Generated(kind: Kind, devs: seq<byte>): seq<Directive> {
    if devs == [] then []
    else Generated(kind, devs[..|devs| - 1]) + DirectivesFor(kind, devs[|devs| - 1], Monitor(kind))
  }

  lemma {:induction false} GeneratedLength(kind: Kind, devs: seq<byte>)
    ensures |Generated(kind, devs)| == |devs| * |Monitor(kind)|
  {
    if devs != [] {
      hide DirectivesFor, Monitor;
      var n, m := |devs| - 1, |Monitor(kind)|;
      var a, b := Generated(kind, devs[..n]), DirectivesFor(kind, devs[n], Monitor(kind));
      assert Generated(kind, devs) == a + b;
      GeneratedLength(kind, devs[..n]);
      OneMore(n, m);
    }
  }

  /** The round goes device by device, and through the monitor list for each. */
  lemma {:induction false} GeneratedAt(kind: Kind, devs: seq<byte>, i: int, j: int)
    requires 0 <= i < |devs| && 0 <= j < |Monitor(kind)|
    ensures var g, k, f := Generated(kind, devs), i * |Monitor(kind)| + j, Monitor(kind)[j];
            0 <= k < |g| && g[k] == Directive(f, Message(kind, devs[i], f, []))
  {
    hide Message, Monitor;
    var n, m := |devs| - 1, |Monitor(kind)|;
    var a, b := Generated(kind, devs[..n]), DirectivesFor(kind, devs[n], Monitor(kind));
    assert Generated(kind, devs) == a + b;
    GeneratedLength(kind, devs[..n]);
    if i < n { GeneratedAt(kind, devs[..n], i, j); } else { assert (a + b)[n * m + j] == b[j]; }
  }

  /**
   What a round asks on the wire, device by device: a cooler for voltage, current, detector, hot end and
   set point, a vacuum for current, pressure and voltage.
   */
  lemma RoundOnWire(kind: Kind, devs: seq<byte>, i: int, j: int)
    requires 0 <= i < |devs| && 0 <= j < (if kind == Cooler then 5 else 3)
    ensures var g := Generated(kind, devs); var k := if kind == Cooler then 5 * i + j else 3 * i + j;
      && |g| == (if kind == Cooler then 5 else 3) * |devs|
      && 0 <= k < |g| && Target(kind, g[k].msg) == devs[i]
      && FunctionOf(kind, g[k].msg) == if kind == Cooler then [0x22, 0x21, 0x23, 0x24, 0x15][j] else [0x0A, 0x0B, 0x0C][j]
  {
    hide Message, Generated, Target, FunctionOf;
    GeneratedLength(kind, devs);
    GeneratedAt(kind, devs, i, j);
    MessageTarget(kind, devs[i], Monitor(kind)[j], []);
    MessageFunction(kind, devs[i], Monitor(kind)[j], []);
  }

  lemma OneMore(n: int, m: int)
    ensures (n + 1) * m == n * m + m
  {
  }

  // ----- device records

  function SetField(r: Record, f: byte, v: Value): Record {
    if f in r.fields && r.fields[f] == v then r else r.(fields := r.fields[f := v], dirty := true)
  }

  /** What a reply's text means for function f. */
  function Meaning(kind: Kind, f: byte, text: seq<byte>, atof: seq<byte> -> real): Value {
    if kind == Vacuum && f == READ_PRESSURE then Text(text) else Number(atof(text))
  }

  /** Index of the first record of device idd, or the number of records. */
  function DeviceIndex(data: seq<Record>, idd: byte): (i: nat)
    ensures i <= |data| && (i < |data| ==> data[i].idd == idd)
    ensures forall k :: 0 <= k < i ==> data[k].idd != idd
  {
    if data == [] then 0 else if data[0].idd == idd then 0 else 1 + DeviceIndex(data[1..], idd)
  }

  /** The monitored field f of device idd takes value v; unknown devices and other functions change nothing. */
  function Updated(kind: Kind, data: seq<Record>, idd: byte, f: byte, v: Value): (r: seq<Record>)
    ensures |r| == |data| && forall i :: 0 <= i < |data| ==> r[i].idd == data[i].idd
  {
    var i := DeviceIndex(data, idd);
    if i < |data| && f in Monitor(kind) then data[i := SetField(data[i], f, v)] else data
  }

  /** check_data: one record per device, renumbered only when the count changed. */
  function CheckData(data: seq<Record>, devs: seq<byte>): (r: seq<Record>)
    ensures |r| == |devs|
  {
    if |data| == |devs| then data
    else seq(|devs|, i requires 0 <= i < |devs| =>
               if i < |data| then data[i].(idd := devs[i]) else Record(false, devs[i], map[]))
  }

  /** A reply changes one field of the first record of its device, and marks it exactly when the value is a new one. */
  lemma UpdatedExactly(kind: Kind, data: seq<Record>, idd: byte, f: byte, v: Value, i: int)
    requires 0 <= i < |data|
    ensures var r, r' := data[i], Updated(kind, data, idd, f, v)[i];
      if i == DeviceIndex(data, idd) && f in Monitor(kind) then
        && r'.idd == r.idd && r'.fields == r.fields[f := v]
        && (r'.dirty <==> r.dirty || f !in r.fields || r.fields[f] != v)
      else r' == r
  {
    hide Monitor;
    assert f in data[i].fields && data[i].fields[f] == v ==> data[i].fields == data[i].fields[f := v];
  }

  /** Pressure is stored as its text, everything else as the number the text denotes. */
  lemma MeaningIff(kind: Kind, f: byte, text: seq<byte>, atof: seq<byte> -> real)
    ensures kind == Vacuum && f == 0x0B ==> Meaning(kind, f, text, atof) == Text(text)
    ensures kind == Cooler || f != 0x0B ==> Meaning(kind, f, text, atof) == Number(atof(text))
  {
  }

  /** More devices: earlier records keep their readings and marks, new ones start without; the same number: nothing changes. */
  lemma CheckDataKeeps(data: seq<Record>, devs: seq<byte>)
    ensures var r := CheckData(data, devs);
      && (|data| == |devs| ==> r == data)
      && (|data| < |devs| ==>
            && (forall i :: 0 <= i < |data| ==> r[i] == data[i].(idd := devs[i]))
            && (forall i :: |data| <= i < |devs| ==> r[i] == Record(false, devs[i], map[])))
  {
  }

  // ----- effects on values

  function Send(c: Core): Core
    requires c.drct != []
  {
    c.(sent := c.sent + [c.drct[0]])
  }

  /** One body of thread_cycle. */
  function CycleCore(c: Core): Core
    requires c.allDev != []
  {
    if c.drct != [] then c
    else
      var g := Generated(c.kind, c.allDev);
      NonemptyRound(c.kind, c.allDev);
      Send(c.(data := CheckData(c.data, c.allDev), drct := g))
  }

  lemma NonemptyRound(kind: Kind, devs: seq<byte>)
    requires devs != []
    ensures Generated(kind, devs) != []
  {
  }

  /** write_log clears every mark. */
  function Logged(data: seq<Record>): (r: seq<Record>)
    ensures |r| == |data|
    ensures forall i :: 0 <= i < |data| ==> r[i] == data[i].(dirty := false)
  {
    if data == [] then [] else Logged(data[..|data| - 1]) + [data[|data| - 1].(dirty := false)]
  }

  /** One body of thread_respond, after its wait; an empty list afterwards means a report. */
  function RespondCore(c: Core): Core
    requires c.drct != []
  {
    var d := c.(signal := false, drct := c.drct[1..]);
    if d.drct != [] then Send(d) else d.(data := Logged(d.data))
  }

  /** The step that reports leaves no mark, and keeps the readings; the others leave the records alone. */
  lemma ReportClearsMarks(c: Core, i: int)
    requires c.drct != [] && 0 <= i < |c.data|
    ensures var d := RespondCore(c);
      && |d.data| == |c.data| && d.data[i].fields == c.data[i].fields && d.data[i].idd == c.data[i].idd
      && (|c.drct| == 1 ==> !d.data[i].dirty)
      && (|c.drct| > 1 ==> d.data == c.data)
  {
  }

  /** An accepted reply: the record is updated and the respond thread notified. */
  function ReplyCore(c: Core, idd: byte, f: byte, v: Value): Core {
    c.(data := Updated(c.kind, c.data, idd, f, v), signal := true)
  }

  /** What a reply stores: a cooler frame without data leaves the value to an uninitialised variable. */
  function ReplyValue(kind: Kind, f: byte, text: seq<byte>, atof: seq<byte> -> real, junk: real): Value {
    if kind == Cooler && text == [] then Number(junk) else Meaning(kind, f, text, atof)
  }

  datatype Decoded = Refused(code: int) | Accepted(idd: byte, idf: byte, value: Value)

  /**
   decode_data. A cooler frame names its function itself; a vacuum reply does not, and takes
   it from the front of the directive list. A cooler frame without data stores whatever the
   uninitialised variable holds.
   */
  function Decode(kind: Kind, s: seq<byte>, drct: seq<Directive>, atof: seq<byte> -> real, junk: real): (d: Decoded)
    requires kind == Vacuum && |s| >= 12 ==> drct != []
    ensures d.Refused? ==> d.code < 0
    ensures |s| < 9 ==> d.Refused?
  {
    match kind
    case Cooler =>
      if |s| < 9 then Refused(-1)
      else if (|s| - 9) % 2 != 0 then Refused(-2)
      else
        var idf := DecodeUint8(s[3], s[4]);
        Accepted(DecodeUint8(s[1], s[2]), idf,
                 if |s| > 9 then Meaning(Cooler, idf, Collected(s, 5, |s| - 5), atof) else Number(junk))
    case Vacuum =>
      if |s| < 12 then Refused(-1)
      else Accepted(DecodeUint8(s[0], s[1]), drct[0].idf, Meaning(Vacuum, drct[0].idf, Collected(s, 6, |s| - 5), atof))
  }

  function DecodeCore(c: Core, s: seq<byte>, atof: seq<byte> -> real, junk: real): (d: Core)
    requires c.kind == Vacuum && |s| >= 12 ==> c.drct != []
    ensures d.kind == c.kind && d.drct == c.drct
  {
    match Decode(c.kind, s, c.drct, atof, junk)
    case Refused(_) => c
    case Accepted(idd, idf, v) => ReplyCore(c, idd, idf, v)
  }

  /** The callback notifies exactly when the decoder returns 0. */
  lemma NotifiedOnSuccess(c: Core, s: seq<byte>, atof: seq<byte> -> real, junk: real, code: int)
    requires c.kind == Vacuum && |s| >= 12 ==> c.drct != []
    requires match Decode(c.kind, s, c.drct, atof, junk)
             case Refused(n) => code == n
             case Accepted(_, _, _) => code == 0
    ensures var d := DecodeCore(c, s, atof, junk); d == d.(signal := if code == 0 then true else c.signal)
    ensures |s| < 9 ==> DecodeCore(c, s, atof, junk) == c
  {
    hide Collected, Updated;
  }

  /** A cooler device's frame is decoded into the reply step, with or without data. */
  lemma CoolerFrameIsReply(c: Core, idd: byte, idf: byte, text: seq<byte>, atof: seq<byte> -> real, junk: real)
    requires c.kind == Cooler && forall j :: 0 <= j < |text| ==> text[j] < 128
    ensures DecodeCore(c, Frame(idd, idf, text), atof, junk) == ReplyCore(c, idd, idf, ReplyValue(Cooler, idf, text, atof, junk))
  {
    hide Frame, Collected, DecodeUint8, Updated;
    RoundTrip(idd, idf, text);
  }

  /** Which received lengths are refused, and how. */
  lemma RefusedLengths(s: seq<byte>, drct: seq<Directive>, atof: seq<byte> -> real, junk: real)
    ensures Decode(Cooler, s, drct, atof, junk) == Refused(-1) <==> |s| <= 8
    ensures Decode(Cooler, s, drct, atof, junk) == Refused(-2) <==> |s| > 8 && |s| % 2 == 0
    ensures Decode(Cooler, s, drct, atof, junk).Accepted? <==> |s| > 8 && |s| % 2 == 1
    ensures drct != [] ==> (Decode(Vacuum, s, drct, atof, junk) == Refused(-1) <==> |s| <= 11)
    ensures drct != [] ==> (Decode(Vacuum, s, drct, atof, junk).Accepted? <==> |s| > 11)
  {
    hide Collected, DecodeUint8, Meaning;
  }

  /**
   A vacuum reply: device number, four bytes that are not looked at, the text, and three bytes
   that are not looked at, the last a carriage return. Its text is read back when it is seven-bit.
   */
  lemma VacuumReplyText(c: Core, idd: byte, four: seq<byte>, text: seq<byte>, three: seq<byte>, atof: seq<byte> -> real, junk: real)
    requires c.kind == Vacuum && c.drct != [] && |four| == 4 && |text| >= 2 && |three| == 3
    requires forall j :: 0 <= j < |text| ==> text[j] < 128
    ensures DecodeCore(c, Hex(idd) + four + DataPart(text) + three, atof, junk) ==
            ReplyCore(c, idd, c.drct[0].idf, Meaning(Vacuum, c.drct[0].idf, text, atof))
  {
    hide Hex, DataPart, Meaning, ReplyCore, DecodeCore, Collected;
    var s := Hex(idd) + four + DataPart(text) + three;
    PartsOfFour(Hex(idd), four, DataPart(text), three);
    CollectedFrom(s, text, 6, |s| - 5);
    VacuumReplyIsReply(c, idd, s, atof, junk);
  }

  lemma PartsOfFour(a: seq<byte>, b: seq<byte>, c: seq<byte>, d: seq<byte>)
    ensures var s := a + b + c + d; s[..|a|] == a && s[|a| + |b|..|a| + |b| + |c|] == c
  {
  }

  /** A vacuum reply is decoded into the reply step of the directive at the front of the list. */
  lemma VacuumReplyIsReply(c: Core, idd: byte, s: seq<byte>, atof: seq<byte> -> real, junk: real)
    requires c.kind == Vacuum && c.drct != [] && |s| >= 12 && s[..2] == Hex(idd)
    ensures DecodeCore(c, s, atof, junk) ==
            ReplyCore(c, idd, c.drct[0].idf, Meaning(Vacuum, c.drct[0].idf, Collected(s, 6, |s| - 5), atof))
  {
    hide Collected, Updated;
    HexDecodes(idd);
    assert s[0] == s[..2][0] && s[1] == s[..2][1];
  }

  // ----- framing

  function HeadMark(kind: Kind): seq<byte> { if kind == Cooler then [COLON] else [] }
  function TailMark(kind: Kind): seq<byte> { if kind == Cooler then [CR, LF] else [CR] }

  /** First position from from on where flag stands, or -1. */
  function Find(s: seq<byte>, flag: seq<byte>, from: nat): (r: int)
    ensures FirstAt(s, flag, from, r)
    decreases |s| + |flag| + 1 - from
  {
    if from + |flag| > |s| then -1
    else if At(s, flag, from) then from
    else Find(s, flag, from + 1)
  }

  lemma FindUnique(s: seq<byte>, flag: seq<byte>, from: nat, r: int)
    requires FirstAt(s, flag, from, r)
    ensures r == Find(s, flag, from)
  {
  }

  datatype Reception = Waiting | Received(from: nat, to: nat)

  /** Which stretch of the receive buffer one callback takes as a frame. */
  function Receive(kind: Kind, buf: seq<byte>): (r: Reception)
    ensures r.Received? ==> r.from < r.to <= |buf|
  {
    var ihead := if kind == Cooler then Find(buf, HeadMark(kind), 0) else 0;
    var itail := if ihead >= 0 then Find(buf, TailMark(kind), ihead) else 0;
    if ihead >= 0 && itail > ihead then Received(ihead, itail + |TailMark(kind)|) else Waiting
  }

  /** How a callback ends: normally, at a frame too long for bufrcv, or at a reply nothing was asked for. */
  datatype Outcome = Handled | Overrun | NoDirective

  function OutcomeOf(c: Core, buf: seq<byte>): (o: Outcome)
    ensures o == Handled && Receive(c.kind, buf).Received? ==>
              var r := Receive(c.kind, buf); r.to - r.from <= CHUNK_SIZE && (c.kind == Vacuum && r.to - r.from >= 12 ==> c.drct != [])
  {
    match Receive(c.kind, buf)
    case Waiting => Handled
    case Received(from, to) =>
      if to - from > CHUNK_SIZE then Overrun
      else if c.kind == Vacuum && to - from >= 12 && c.drct == [] then NoDirective
      else Handled
  }

  class Controller {
    const kind: Kind
    const serial: SerialComm
    const bufrcv: array<byte>
    const atof: seq<byte> -> real
    var allDev: seq<byte>
    var drct: seq<Directive>
    var data: seq<Record>
    var signal: bool
    ghost var sent: seq<Directive>

    /** The state the threads share. */
    ghost function Abs(): Core
      reads this
    {
      Core(kind, allDev, drct, data, signal, sent)
    }

    constructor (kind: Kind, atof: seq<byte> -> real)
      ensures Abs() == Core(kind, [], [], [], false, [])
      ensures this.kind == kind && this.atof == atof && serial.crcrcv == [] && bufrcv.Length == CHUNK_SIZE
      ensures fresh(serial) && fresh(bufrcv)
    {
      this.kind, this.atof := kind, atof;
      serial := new SerialComm();
      bufrcv := new byte[CHUNK_SIZE];
      allDev, drct, data, signal, sent := [], [], [], false, [];
    }

    method AddDevice(idd: byte)
      modifies this
      ensures Abs() == old(Abs()).(allDev := if idd in old(allDev) then old(allDev) else old(allDev) + [idd])
    {
      var n, i := |allDev|, 0;
      while i < n && idd != allDev[i]
        invariant 0 <= i <= n && idd !in allDev[..i]
      {
        i := i + 1;
      }
      if i == n { allDev := allDev + [idd]; }
    }

    method AppendDirective(d: Directive)
      modifies this
      ensures Abs() == old(Abs()).(drct := old(drct) + [d])
    {
      drct := drct + [d];
    }

    /**
     The public Write of a formatted value: it appends, and leaves sending to the round in progress.
     It returns false where the source would write past the message buffer.
     */
    method Write(idd: byte, idf: byte, value: seq<byte>) returns (ok: bool)
      modifies this
      ensures ok <==> Fits(kind, value)
      ensures Abs() == if ok then old(Abs()).(drct := old(drct) + [Directive(idf, Message(kind, idd, idf, value))]) else old(Abs())
    {
      ok := kind == Vacuum || |value| <= 10;
      if ok {
        var msg := EncodeMessage(kind, idd, idf, value);
        AppendDirective(Directive(idf, msg));
      }
    }

    /** The public Write of an integer. */
    method WriteInteger(idd: byte, idf: byte, v: int) returns (ok: bool)
      modifies this
      ensures ok <==> kind == Vacuum || -1000000000 < v < 10000000000
      ensures Abs() == if ok then old(Abs()).(drct := old(drct) + [Directive(idf, Message(kind, idd, idf, Decimal(v)))]) else old(Abs())
    {
      IntegerFitsIff(v);
      ok := Write(idd, idf, Decimal(v));
    }

    method FirstSend()
      requires drct != []
      modifies this
      ensures Abs() == Send(old(Abs()))
    {
      sent := sent + [drct[0]];
    }

    method GenerateDirective(idd: byte)
      modifies this
      ensures Abs() == old(Abs()).(drct := old(drct) + DirectivesFor(kind, idd, Monitor(kind)))
    {
      hide Message;
      var fs := Monitor(kind);
      for i := 0 to |fs|
        invariant Abs() == old(Abs()).(drct := old(drct) + DirectivesFor(kind, idd, fs[..i]))
      {
        assert fs[..i + 1][..i] == fs[..i];
        var msg := EncodeMessage(kind, idd, fs[i], []);
        AppendDirective(Directive(fs[i], msg));
      }
      assert fs[..|fs|] == fs;
    }

    method CheckRecords()
      modifies this
      ensures Abs() == old(Abs()).(data := CheckData(old(data), allDev))
    {
      if |allDev| != |data| {
        var before := data;
        var resized := [];
        for i := 0 to |allDev|
          invariant Abs() == old(Abs()) && |resized| == i
          invariant forall k :: 0 <= k < i ==> resized[k] == if k < |before| then before[k].(idd := allDev[k]) else Record(false, allDev[k], map[])
        {
          resized := resized + [if i < |before| then before[i].(idd := allDev[i]) else Record(false, allDev[i], map[])];
        }
        data := resized;
      }
    }

    method ThreadCycle()
      requires allDev != []
      modifies this
      ensures Abs() == CycleCore(old(Abs()))
    {
      hide Message;
      if |drct| == 0 {
        CheckRecords();
        for i := 0 to |allDev|
          invariant allDev == old(allDev)
          invariant Abs() == old(Abs()).(data := CheckData(old(data), old(allDev)), drct := Generated(kind, allDev[..i]))
        {
          assert allDev[..i + 1][..i] == allDev[..i];
          GenerateDirective(allDev[i]);
        }
        assert allDev[..|allDev|] == allDev;
        NonemptyRound(kind, allDev);
        FirstSend();
      }
    }

    method WriteLog()
      modifies this
      ensures Abs() == old(Abs()).(data := Logged(old(data)))
    {
      for i := 0 to |data|
        invariant |data| == |old(data)| && Abs() == old(Abs()).(data := data)
        invariant forall k :: 0 <= k < |data| ==> data[k] == if k < i then old(data)[k].(dirty := false) else old(data)[k]
      {
        if data[i].dirty { data := data[i := data[i].(dirty := false)]; }
      }
      assert data == Logged(old(data));
    }

    /** The body that follows the wait; it reports when the list has run empty. */
    method ThreadRespond() returns (reported: bool)
      requires drct != []
      modifies this
      ensures Abs() == RespondCore(old(Abs())) && reported == (drct == [])
    {
      signal := false;
      drct := drct[1..];
      if |drct| != 0 {
        FirstSend();
        reported := false;
      } else {
        WriteLog();
        reported := true;
      }
    }

    method FindDevice(idd: byte) returns (i: int)
      ensures i == DeviceIndex(data, idd)
    {
      var n := |data|;
      i := 0;
      while i < n && data[i].idd != idd
        invariant 0 <= i <= n && forall k :: 0 <= k < i ==> data[k].idd != idd
      {
        i := i + 1;
      }
    }

    /** The text of a reply: the pairs of digits from first to last. */
    method CollectText(len: int, first: int) returns (text: seq<byte>)
      requires 0 <= first && len <= bufrcv.Length && first + 6 <= len
      ensures text == Collected(bufrcv[..len], first, len - 5)
    {
      ghost var s := bufrcv[..len];
      var last := len - 5;
      text := [];
      var i := first;
      while i <= last
        invariant first <= i <= last + 2
        invariant text + Collected(s, i, last) == Collected(s, first, last)
      {
        text := text + [DecodeUint8(bufrcv[i], bufrcv[i + 1])];
        i := i + 2;
      }
    }

    /** Decodes the first len received bytes; junk is what the uninitialised value happens to hold. */
    method DecodeData(len: int, junk: real) returns (code: int)
      requires 0 <= len <= bufrcv.Length && (kind == Vacuum && len >= 12 ==> drct != [])
      modifies this
      ensures Abs() == DecodeCore(old(Abs()), bufrcv[..len], atof, junk).(signal := old(signal))
      ensures match Decode(kind, bufrcv[..len], old(drct), atof, junk)
              case Refused(c) => code == c
              case Accepted(_, _, _) => code == 0
    {
      hide Collected, DecodeUint8, SetField;
      ghost var s := bufrcv[..len];
      var idd, idf, v;
      match kind {
        case Cooler =>
          if len < 9 { return -1; }
          if (len - 9) % 2 != 0 { return -2; }
          idd, idf := DecodeUint8(bufrcv[1], bufrcv[2]), DecodeUint8(bufrcv[3], bufrcv[4]);
          v := Number(junk);
          if len > 9 {
            var text := CollectText(len, 5);
            v := Meaning(Cooler, idf, text, atof);
          }
        case Vacuum =>
          if len < 12 { return -1; }
          idd, idf := DecodeUint8(bufrcv[0], bufrcv[1]), drct[0].idf;
          var text := CollectText(len, 6);
          v := Meaning(Vacuum, idf, text, atof);
      }
      assert Decode(kind, s, drct, atof, junk) == Accepted(idd, idf, v);
      var i := FindDevice(idd);
      if i < |data| && idf in Monitor(kind) {
        data := data[i := SetField(data[i], idf, v)];
      }
      code := 0;
    }

    /**
     The serial callback: takes at most one frame out of the receive buffer and decodes it. It
     stops where the source would copy a frame past the end of bufrcv, and where it would take
     the front of an empty list.
     */
    method SerialRead(junk: real) returns (o: Outcome)
      requires bufrcv.Length == CHUNK_SIZE
      modifies this, serial, bufrcv
      ensures o == OutcomeOf(old(Abs()), old(serial.crcrcv))
      ensures o == Overrun <==> match Receive(kind, old(serial.crcrcv)) case Waiting => false case Received(from, to) => to - from > 512
      ensures o == NoDirective <==> match Receive(kind, old(serial.crcrcv))
                                    case Waiting => false
                                    case Received(from, to) => kind == Vacuum && old(drct) == [] && 12 <= to - from <= 512
      ensures match Receive(kind, old(serial.crcrcv))
              case Waiting => serial.crcrcv == old(serial.crcrcv) && Abs() == old(Abs())
              case Received(from, to) =>
                && serial.crcrcv == (if o == Overrun then old(serial.crcrcv) else old(serial.crcrcv)[to..])
                && Abs() == if o == Handled then DecodeCore(old(Abs()), old(serial.crcrcv)[from..to], atof, junk) else old(Abs())
    {
      hide Find, Decode, DecodeCore, Collected;
      ghost var buf, c := serial.crcrcv, Abs();
      var ihead, itail := FindFrame();
      o := Handled;
      if itail > ihead {
        var len := itail - ihead + |TailMark(kind)|;
        if len > CHUNK_SIZE { return Overrun; }
        var n := serial.Read(bufrcv, len, ihead);
        if kind == Vacuum && len >= 12 && drct == [] { return NoDirective; }
        if ihead >= 0 { assert bufrcv[..len] == buf[ihead..ihead + len]; }
        var code := DecodeData(len, junk);
        NotifiedOnSuccess(c, bufrcv[..len], atof, junk, code);
        if code == 0 { signal := true; }
      }
    }

    /** The two searches; without a head mark in the buffer the second is not made and itail stays 0. */
    method FindFrame() returns (ihead: int, itail: int)
      ensures ihead == if kind == Cooler then Find(serial.crcrcv, HeadMark(kind), 0) else 0
      ensures itail == if ihead >= 0 then Find(serial.crcrcv, TailMark(kind), ihead) else 0
    {
      ihead, itail := 0, 0;
      if |HeadMark(kind)| != 0 {
        ihead := serial.Lookup(HeadMark(kind), 0);
        FindUnique(serial.crcrcv, HeadMark(kind), 0, ihead);
      }
      if ihead >= 0 {
        itail := serial.Lookup(TailMark(kind), ihead);
        FindUnique(serial.crcrcv, TailMark(kind), ihead, itail);
      }
    }
  }
}
