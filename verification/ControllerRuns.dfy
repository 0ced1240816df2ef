/**
 The cycle thread, the respond thread, the serial callback and the public calls as one
 step system, and what holds on every run of it. One body of a thread loop is one step;
 the condition variable is the retained flag Core.signal.
 */
module ControllerRuns {
  import opened Bytes
  import opened CoolerCodec
  import opened Controllers

  datatype Event =
    | Cycle
    | Respond
    | Reply(idd: byte, idf: byte, text: seq<byte>, junk: real)
    | Write(idd: byte, idf: byte, value: seq<byte>)
    | AddDevice(idd: byte)

  /** A reply as it was understood, with the directive it was sent for. */
  datatype Answer = Answer(d: Directive, v: Value)

  /** What a report had in front of it: the records, the round's answers, and what the round had to ask. */
  datatype Report = Report(data: seq<Record>, answers: seq<Answer>, devices: seq<byte>, extra: seq<Directive>)

  /**
   queued lists every directive ever appended; answers every accepted reply; round is the
   number of answers before the current round, devices its devices and extra the directives
   written into it. fault marks a front or pop of an empty list.
   */
  datatype State = State(core: Core, queued: seq<Directive>, answers: seq<Answer>, round: nat,
                         devices: seq<byte>, extra: seq<Directive>, reports: seq<Report>, fault: bool)

  function Init(kind: Kind): State {
    State(Core(kind, [], [], [], false, []), [], [], 0, [], [], [], false)
  }

  /** A command has been sent and its reply not yet accepted. */
  predicate InFlight(s: State) { |s.core.sent| == |s.answers| + 1 }

  /**
   The environment: at least one device before the first cycle; a device answers each command
   once, for itself and, in the cooler's frames, for the commanded function; a vacuum reply
   carries data. Write and AddDevice may be called at any time.
   */
  predicate Enabled(s: State, e: Event) {
    match e
    case Cycle => s.core.allDev != []
    case Respond => s.core.signal
    case Reply(idd, idf, text, _) =>
      && InFlight(s) && (s.core.kind == Vacuum ==> text != [])
      && idd == Target(s.core.kind, s.core.sent[|s.answers|].msg)
      && (s.core.kind == Cooler ==> idf == s.core.sent[|s.answers|].idf)
    case Write(_, _, _) => true
    case AddDevice(_) => true
  }

  /** A Write outside a round: it leaves a nonempty list with nothing in flight. */
  predicate Stray(s: State, e: Event) { e.Write? && s.core.drct == [] }

  function RoundAnswers(s: State): seq<Answer> {
    if s.round <= |s.answers| then s.answers[s.round..] else []
  }

  function Step(s: State, e: Event, atof: seq<byte> -> real): State
    requires Enabled(s, e)
  {
    match e
    case Cycle =>
      if s.core.drct != [] then s
      else s.(core := CycleCore(s.core), queued := s.queued + Generated(s.core.kind, s.core.allDev),
              round := |s.answers|, devices := s.core.allDev, extra := [])
    case Respond =>
      if s.core.drct == [] then s.(fault := true)
      else
        var t := s.(core := RespondCore(s.core));
        if t.core.drct != [] then t
        else t.(reports := s.reports + [Report(s.core.data, RoundAnswers(s), s.devices, s.extra)])
    case Reply(idd, idf, text, junk) =>
      if s.core.kind == Vacuum && s.core.drct == [] then s.(fault := true)
      else
        var f := if s.core.kind == Vacuum then s.core.drct[0].idf else idf;
        var v := ReplyValue(s.core.kind, f, text, atof, junk);
        s.(core := ReplyCore(s.core, idd, f, v), answers := s.answers + [Answer(s.core.sent[|s.answers|], v)])
    case Write(idd, idf, value) =>
      var d := Directive(idf, Message(s.core.kind, idd, idf, value));
      s.(core := s.core.(drct := s.core.drct + [d]), queued := s.queued + [d], extra := s.extra + [d])
    case AddDevice(idd) =>
      if idd in s.core.allDev then s else s.(core := s.core.(allDev := s.core.allDev + [idd]))
  }

  /** A run: every state follows from the one before by an enabled event. */
  ghost predicate Run(kind: Kind, atof: seq<byte> -> real, states: seq<State>, events: seq<Event>) {
    && |states| == |events| + 1 && states[0] == Init(kind)
    && forall i :: 0 <= i < |events| ==> Enabled(states[i], events[i]) && states[i + 1] == Step(states[i], events[i], atof)
  }

  lemma RunStep(kind: Kind, atof: seq<byte> -> real, states: seq<State>, events: seq<Event>, i: int)
    requires Run(kind, atof, states, events) && 0 <= i < |events|
    ensures Enabled(states[i], events[i]) && states[i + 1] == Step(states[i], events[i], atof)
  {
    hide Enabled, Step;
  }

  // ----- the invariant

  /** The list is nonempty exactly when one command is in flight or one answer waits to be processed, and it is the front. */
  ghost predicate FrontIsBusy(s: State) {
    var c := s.core;
    && |s.answers| <= |c.sent| <= |s.answers| + 1
    && (c.drct == [] ==> !InFlight(s) && !c.signal)
    && (c.drct != [] ==> InFlight(s) != c.signal && c.sent != [] && c.sent[|c.sent| - 1] == c.drct[0])
  }

  /** What was sent, then what still waits, is what was queued. */
  ghost predicate SentInOrder(s: State) {
    s.queued == if s.core.drct == [] then s.core.sent else s.core.sent + s.core.drct[1..]
  }

  ghost predicate AnswersMatch(s: State) {
    |s.answers| <= |s.core.sent| && forall i :: 0 <= i < |s.answers| ==> s.answers[i].d == s.core.sent[i]
  }

  ghost predicate Distinct(d: seq<byte>) {
    forall i, j :: 0 <= i < j < |d| ==> d[i] != d[j]
  }

  ghost predicate RecordsNumbered(data: seq<Record>, devs: seq<byte>) {
    |data| <= |devs| && forall i :: 0 <= i < |data| ==> data[i].idd == devs[i]
  }

  ghost predicate Devices(s: State) {
    && Distinct(s.core.allDev) && RecordsNumbered(s.core.data, s.core.allDev)
    && |s.devices| == |s.core.data| && s.devices <= s.core.allDev
  }

  /** The round's commands: those sent since it began, then those waiting, are the monitor lists and what was written. */
  ghost predicate RoundPlan(s: State) {
    && s.round <= |s.answers|
    && (s.core.drct != [] ==>
          s.round <= |s.core.sent| &&
          s.core.sent[s.round..] + s.core.drct[1..] == Generated(s.core.kind, s.devices) + s.extra)
  }

  datatype Latest = Never | Last(v: Value)

  /** The last value answered for function f of device idd. */
  ghost function LatestOf(kind: Kind, a: seq<Answer>, idd: byte, f: byte): Latest {
    if a == [] then Never
    else
      var x := a[|a| - 1];
      if Target(kind, x.d.msg) == idd && x.d.idf == f then Last(x.v) else LatestOf(kind, a[..|a| - 1], idd, f)
  }

  /** Every monitored field that was answered holds its last answer. */
  ghost predicate FieldsCurrent(kind: Kind, data: seq<Record>, a: seq<Answer>) {
    forall i, f :: 0 <= i < |data| && f in Monitor(kind) && LatestOf(kind, a, data[i].idd, f).Last? ==>
      f in data[i].fields && data[i].fields[f] == LatestOf(kind, a, data[i].idd, f).v
  }

  function Commands(a: seq<Answer>): (ds: seq<Directive>)
    ensures |ds| == |a| && forall i :: 0 <= i < |a| ==> ds[i] == a[i].d
  {
    seq(|a|, i requires 0 <= i < |a| => a[i].d)
  }

  /** A report comes after exactly the round's commands, and every monitored field holds its value from the round. */
  ghost predicate GoodReport(kind: Kind, r: Report) {
    && Commands(r.answers) == Generated(kind, r.devices) + r.extra
    && |r.answers| == |r.devices| * |Monitor(kind)| + |r.extra|
    && RecordsNumbered(r.data, r.devices) && |r.data| == |r.devices|
    && forall i, f :: 0 <= i < |r.data| && f in Monitor(kind) ==>
         var l := LatestOf(kind, r.answers, r.devices[i], f);
         l.Last? && f in r.data[i].fields && r.data[i].fields[f] == l.v
  }

  /** The parts of the invariant about the list, the commands sent and the answers. */
  ghost predicate Queue(s: State) {
    FrontIsBusy(s) && SentInOrder(s) && AnswersMatch(s) && RoundPlan(s)
  }

  ghost predicate ReportsGood(s: State) {
    forall i :: 0 <= i < |s.reports| ==> GoodReport(s.core.kind, s.reports[i])
  }

  ghost predicate Current(s: State) {
    FieldsCurrent(s.core.kind, s.core.data, RoundAnswers(s))
  }

  ghost predicate Inv(s: State) {
    !s.fault && Queue(s) && Devices(s) && Current(s) && ReportsGood(s)
  }

  lemma InitInv(kind: Kind)
    ensures Inv(Init(kind))
  {
  }

  // ----- each step keeps the invariant

  lemma CycleKeeps(s: State, atof: seq<byte> -> real)
    requires Inv(s) && Enabled(s, Cycle)
    ensures Inv(Step(s, Cycle, atof))
  {
    if s.core.drct == [] {
      hide Generated, Queue, Devices, Current, ReportsGood, CheckData;
      var t := Step(s, Cycle, atof);
      CycleNumbersDevices(s, t);
      CycleStartsRound(s, t);
      CycleForgetsAnswers(t);
      ReportsKept(s, t);
    }
  }

  lemma ReportsKept(s: State, t: State)
    requires ReportsGood(s) && t.reports == s.reports && t.core.kind == s.core.kind
    ensures ReportsGood(t)
  {
  }

  lemma CycleNumbersDevices(s: State, t: State)
    requires Devices(s) && t.core.allDev == s.core.allDev && t.devices == s.core.allDev
    requires t.core.data == CheckData(s.core.data, s.core.allDev)
    ensures Devices(t)
  {
  }

  lemma CycleStartsRound(s: State, t: State)
    requires Queue(s) && s.core.drct == [] && s.core.allDev != []
    requires var g := Generated(s.core.kind, s.core.allDev);
      && t.queued == s.queued + g && t.answers == s.answers && t.round == |s.answers|
      && t.devices == s.core.allDev && t.extra == [] && t.core.kind == s.core.kind
      && (g != [] ==> t.core.drct == g && t.core.sent == s.core.sent + [g[0]] && t.core.signal == s.core.signal)
    ensures Queue(t)
  {
    hide Generated;
    NonemptyRound(s.core.kind, s.core.allDev);
    FirstOfRound(s.core.sent, Generated(s.core.kind, s.core.allDev));
  }

  lemma FirstOfRound(sent: seq<Directive>, g: seq<Directive>)
    requires g != []
    ensures (sent + [g[0]])[|sent|..] + g[1..] == g + []
    ensures sent + g == (sent + [g[0]]) + g[1..]
  {
  }

  lemma CycleForgetsAnswers(t: State)
    requires t.round == |t.answers|
    ensures Current(t)
  {
  }

  lemma AddDeviceKeeps(s: State, idd: byte, atof: seq<byte> -> real)
    requires Inv(s)
    ensures Inv(Step(s, AddDevice(idd), atof))
  {
    hide Queue, Devices, Current, ReportsGood;
    var t := Step(s, AddDevice(idd), atof);
    NewDevice(s, t, idd);
    SameQueue(s, t);
    SameFields(s, t);
    ReportsKept(s, t);
  }

  lemma NewDevice(s: State, t: State, idd: byte)
    requires Devices(s) && t.core.data == s.core.data && t.devices == s.devices
    requires t.core.allDev == if idd in s.core.allDev then s.core.allDev else s.core.allDev + [idd]
    ensures Devices(t)
  {
  }

  lemma SameQueue(s: State, t: State)
    requires Queue(s) && t == s.(core := t.core)
    requires t.core == s.core.(allDev := t.core.allDev)
    ensures Queue(t)
  {
  }

  lemma SameFields(s: State, t: State)
    requires Current(s) && t.core.kind == s.core.kind && t.core.data == s.core.data
    requires t.answers == s.answers && t.round == s.round
    ensures Current(t)
  {
  }

  lemma WriteKeeps(s: State, idd: byte, idf: byte, value: seq<byte>, atof: seq<byte> -> real)
    requires Inv(s) && !Stray(s, Write(idd, idf, value))
    ensures Inv(Step(s, Write(idd, idf, value), atof))
  {
    hide Queue, Devices, Current, ReportsGood, Message;
    var t := Step(s, Write(idd, idf, value), atof);
    WriteQueues(s, t, Directive(idf, Message(s.core.kind, idd, idf, value)));
    SameDevices(s, t);
    SameFields(s, t);
    ReportsKept(s, t);
  }

  lemma SameDevices(s: State, t: State)
    requires Devices(s) && t.core.allDev == s.core.allDev && t.core.data == s.core.data && t.devices == s.devices
    ensures Devices(t)
  {
  }

  lemma WriteQueues(s: State, t: State, d: Directive)
    requires Queue(s) && s.core.drct != []
    requires t == s.(core := s.core.(drct := s.core.drct + [d]), queued := s.queued + [d], extra := s.extra + [d])
    ensures Queue(t)
  {
    hide Generated;
    assert t.core.drct[1..] == s.core.drct[1..] + [d];
    var g := Generated(s.core.kind, s.devices);
    assert (g + s.extra) + [d] == g + (s.extra + [d]);
  }

  lemma ReplyKeeps(s: State, idd: byte, idf: byte, text: seq<byte>, junk: real, atof: seq<byte> -> real)
    requires Inv(s) && Enabled(s, Reply(idd, idf, text, junk))
    ensures Inv(Step(s, Reply(idd, idf, text, junk), atof))
  {
    hide RoundPlan, SentInOrder, AnswersMatch, Devices, Current, ReportsGood, ReplyValue, Target, Updated;
    var kind := s.core.kind;
    var t := Step(s, Reply(idd, idf, text, junk), atof);
    var d := s.core.sent[|s.answers|];
    assert s.core.drct != [] && d == s.core.drct[0];
    var v := ReplyValue(kind, d.idf, text, atof, junk);
    assert t == s.(core := ReplyCore(s.core, idd, d.idf, v), answers := s.answers + [Answer(d, v)]);
    ReplyQueue(s, t, d, v);
    ReplyDevices(s, t, idd, d.idf, v);
    ReplyFields(s, t, d, v);
    ReportsKept(s, t);
  }

  lemma ReplyQueue(s: State, t: State, d: Directive, v: Value)
    requires Queue(s) && InFlight(s) && d == s.core.sent[|s.answers|]
    requires t.answers == s.answers + [Answer(d, v)] && t == s.(core := t.core, answers := t.answers)
    requires t.core == s.core.(data := t.core.data, signal := true)
    ensures Queue(t)
  {
    hide Generated;
  }

  lemma ReplyDevices(s: State, t: State, idd: byte, f: byte, v: Value)
    requires Devices(s) && t.core.allDev == s.core.allDev && t.devices == s.devices
    requires t.core.data == Updated(s.core.kind, s.core.data, idd, f, v)
    ensures Devices(t)
  {
    hide Updated;
  }

  lemma ReplyFields(s: State, t: State, d: Directive, v: Value)
    requires Current(s) && Devices(s) && Queue(s)
    requires t.core.kind == s.core.kind && t.round == s.round && t.answers == s.answers + [Answer(d, v)]
    requires t.core.data == Updated(s.core.kind, s.core.data, Target(s.core.kind, d.msg), d.idf, v)
    ensures Current(t)
  {
    hide FieldsCurrent, Updated, Target, FrontIsBusy, SentInOrder, AnswersMatch, Generated;
    assert RoundAnswers(t) == RoundAnswers(s) + [Answer(d, v)];
    UpdateKeepsCurrent(s.core.kind, s.core.data, s.core.allDev, RoundAnswers(s), d, v);
  }

  /** Storing an answer in its device's record brings that field, and no other, up to date. */
  lemma UpdateKeepsCurrent(kind: Kind, data: seq<Record>, devs: seq<byte>, a: seq<Answer>, d: Directive, v: Value)
    requires FieldsCurrent(kind, data, a) && Distinct(devs) && RecordsNumbered(data, devs)
    ensures FieldsCurrent(kind, Updated(kind, data, Target(kind, d.msg), d.idf, v), a + [Answer(d, v)])
  {
    hide Target, Monitor;
    var idd := Target(kind, d.msg);
    var b, u := a + [Answer(d, v)], Updated(kind, data, idd, d.idf, v);
    assert b[..|b| - 1] == a;
    forall i, f | 0 <= i < |u| && f in Monitor(kind) && LatestOf(kind, b, u[i].idd, f).Last?
      ensures f in u[i].fields && u[i].fields[f] == LatestOf(kind, b, u[i].idd, f).v
    {
      if idd == u[i].idd {
        assert DeviceIndex(data, idd) == i;
      }
    }
  }

  lemma RespondKeeps(s: State, atof: seq<byte> -> real)
    requires Inv(s) && Enabled(s, Respond)
    ensures Inv(Step(s, Respond, atof))
  {
    if |s.core.drct| > 1 { RespondSends(s, atof); } else { RespondReports(s, atof); }
  }

  lemma RespondSends(s: State, atof: seq<byte> -> real)
    requires Inv(s) && Enabled(s, Respond) && |s.core.drct| > 1
    ensures Inv(Step(s, Respond, atof))
  {
    hide Queue, Devices, Current, ReportsGood;
    var t := Step(s, Respond, atof);
    NextSent(s, t);
    SameDevices(s, t);
    SameFields(s, t);
    ReportsKept(s, t);
  }

  /** Moving the next directive from the waiting part to the sent part. */
  lemma NextSent(s: State, t: State)
    requires Queue(s) && s.core.signal && |s.core.drct| > 1
    requires t == s.(core := s.core.(signal := false, drct := s.core.drct[1..], sent := s.core.sent + [s.core.drct[1]]))
    ensures Queue(t)
  {
    hide Generated;
    MoveOne(s.core.sent, s.core.drct, s.round);
  }

  lemma MoveOne(sent: seq<Directive>, d: seq<Directive>, round: int)
    requires |d| > 1 && 0 <= round <= |sent|
    ensures sent + d[1..] == (sent + [d[1]]) + d[1..][1..]
    ensures sent[round..] + d[1..] == (sent + [d[1]])[round..] + d[1..][1..]
  {
  }

  lemma RespondReports(s: State, atof: seq<byte> -> real)
    requires Inv(s) && Enabled(s, Respond) && |s.core.drct| <= 1
    ensures Inv(Step(s, Respond, atof))
  {
    hide SentInOrder, AnswersMatch, RoundPlan, Devices, Current, ReportsGood, Logged;
    var t := Step(s, Respond, atof);
    assert s.core.drct[1..] == [];
    LastAnswered(s, t);
    LoggedKeepsDevices(s, t);
    LoggedKeepsCurrent(s, t);
    ReportAdded(s, t);
  }

  lemma LastAnswered(s: State, t: State)
    requires Queue(s) && s.core.signal && |s.core.drct| == 1
    requires t.core == s.core.(signal := false, drct := [], data := t.core.data)
    requires t.queued == s.queued && t.answers == s.answers && t.round == s.round
    ensures Queue(t)
  {
  }

  lemma LoggedKeepsDevices(s: State, t: State)
    requires Devices(s) && t.core.allDev == s.core.allDev && t.devices == s.devices && t.core.data == Logged(s.core.data)
    ensures Devices(t)
  {
  }

  lemma LoggedKeepsCurrent(s: State, t: State)
    requires Current(s) && t.core.kind == s.core.kind && t.answers == s.answers && t.round == s.round
    requires t.core.data == Logged(s.core.data)
    ensures Current(t)
  {
  }

  lemma ReportAdded(s: State, t: State)
    requires Inv(s) && s.core.signal && |s.core.drct| == 1 && t.core.kind == s.core.kind
    requires t.reports == s.reports + [Report(s.core.data, RoundAnswers(s), s.devices, s.extra)]
    ensures ReportsGood(t)
  {
    hide GoodReport, Queue, Devices, Current;
    ReportIsGood(s);
  }

  /** When the list is about to run empty the round's answers are all there. */
  lemma ReportIsGood(s: State)
    requires Inv(s) && s.core.signal && |s.core.drct| == 1
    ensures GoodReport(s.core.kind, Report(s.core.data, RoundAnswers(s), s.devices, s.extra))
  {
    var kind, a, g := s.core.kind, RoundAnswers(s), Generated(s.core.kind, s.devices);
    PlanAnswered(s);
    GeneratedLength(kind, s.devices);
    forall i, f | 0 <= i < |s.core.data| && f in Monitor(kind)
      ensures s.devices[i] == s.core.data[i].idd && LatestOf(kind, a, s.devices[i], f).Last?
    {
      var k := GeneratedAsks(kind, s.devices, i, f);
      assert a[k].d == Commands(a)[k] == g[k];
      AnsweredHasLatest(kind, a, k);
    }
  }

  lemma PlanAnswered(s: State)
    requires FrontIsBusy(s) && AnswersMatch(s) && RoundPlan(s) && s.core.signal && |s.core.drct| == 1
    ensures Commands(RoundAnswers(s)) == Generated(s.core.kind, s.devices) + s.extra
  {
  }

  lemma {:induction false} AnsweredHasLatest(kind: Kind, a: seq<Answer>, k: int)
    requires 0 <= k < |a|
    ensures LatestOf(kind, a, Target(kind, a[k].d.msg), a[k].d.idf).Last?
  {
    if k < |a| - 1 { AnsweredHasLatest(kind, a[..|a| - 1], k); }
  }

  /** The round asks every device for every monitored function. */
  lemma {:induction false} GeneratedAsks(kind: Kind, devs: seq<byte>, i: int, f: byte) returns (k: int)
    requires 0 <= i < |devs| && f in Monitor(kind)
    ensures var g := Generated(kind, devs); 0 <= k < |g| && g[k].idf == f && Target(kind, g[k].msg) == devs[i]
  {
    hide Target, Message, Monitor;
    var n := |devs| - 1;
    var a, b := Generated(kind, devs[..n]), DirectivesFor(kind, devs[n], Monitor(kind));
    assert Generated(kind, devs) == a + b;
    if i < n {
      k := GeneratedAsks(kind, devs[..n], i, f);
    } else {
      var j :| 0 <= j < |Monitor(kind)| && Monitor(kind)[j] == f;
      MessageTarget(kind, devs[n], f, []);
      k := |a| + j;
      assert (a + b)[k] == b[j];
    }
  }

  lemma StepKeeps(s: State, e: Event, atof: seq<byte> -> real)
    requires Inv(s) && Enabled(s, e) && !Stray(s, e)
    ensures Inv(Step(s, e, atof))
  {
    hide Inv, Step, Enabled, Stray;
    match e
    case Cycle => CycleKeeps(s, atof);
    case Respond => RespondKeeps(s, atof);
    case Reply(idd, idf, text, junk) => ReplyKeeps(s, idd, idf, text, junk, atof);
    case Write(idd, idf, value) => WriteKeeps(s, idd, idf, value, atof);
    case AddDevice(idd) => AddDeviceKeeps(s, idd, atof);
  }

  // ----- after a stray Write

  /** The list is not empty, so no cycle starts; nothing is in flight, so no answer ever empties it. */
  ghost predicate Stalled(s: State) {
    && s.core.drct != [] && !s.core.signal && !s.fault
    && |s.answers| == |s.core.sent| && s.queued == s.core.sent + s.core.drct
    && ReportsGood(s)
  }

  lemma StrayStalls(s: State, e: Event, atof: seq<byte> -> real)
    requires Inv(s) && Stray(s, e)
    ensures Stalled(Step(s, e, atof))
  {
    hide Devices, Current, RoundPlan, Message, GoodReport;
  }

  /** Nothing but the list and the devices ever changes again. */
  lemma StalledKeeps(s: State, e: Event, atof: seq<byte> -> real)
    requires Stalled(s) && Enabled(s, e)
    ensures var t := Step(s, e, atof);
      && Stalled(t)
      && t == s.(core := s.core.(drct := t.core.drct, allDev := t.core.allDev), queued := t.queued, extra := t.extra)
  {
    hide Message, GoodReport;
    match e
    case Write(idd, idf, value) =>
      var d := Directive(idf, Message(s.core.kind, idd, idf, value));
      assert s.core.sent + (s.core.drct + [d]) == (s.core.sent + s.core.drct) + [d];
    case Cycle =>
    case Respond =>
    case Reply(_, _, _, _) =>
    case AddDevice(_) =>
  }

  // ----- every run

  /** One of the first i events was a stray Write. */
  ghost predicate Strayed(states: seq<State>, events: seq<Event>, i: int)
    requires |states| == |events| + 1
  {
    exists k :: 0 <= k < i && k < |events| && Stray(states[k], events[k])
  }

  lemma {:induction false} RunInv(kind: Kind, atof: seq<byte> -> real, states: seq<State>, events: seq<Event>, i: int)
    requires Run(kind, atof, states, events) && 0 <= i < |states|
    ensures if Strayed(states, events, i) then Stalled(states[i]) else Inv(states[i])
    ensures states[i].core.kind == kind
    decreases i
  {
    hide Inv, Stalled, Stray;
    if i == 0 {
      InitInv(kind);
    } else {
      var s, e := states[i - 1], events[i - 1];
      RunInv(kind, atof, states, events, i - 1);
      assert states[i - 1 + 1] == Step(s, e, atof);
      if Strayed(states, events, i - 1) {
        StalledKeeps(s, e, atof);
      } else if Stray(s, e) {
        StrayStalls(s, e, atof);
      } else {
        StepKeeps(s, e, atof);
      }
    }
  }

  /** A nonempty list means one command in flight or one answer waiting, never both, and that command is the front. */
  ghost predicate OneCommand(s: State) {
    && (s.core.drct != [] <==> InFlight(s) || s.core.signal)
    && !(InFlight(s) && s.core.signal)
    && (s.core.drct != [] ==> s.core.sent != [] && s.core.sent[|s.core.sent| - 1] == s.core.drct[0])
  }

  /** On every run, no front or pop ever meets an empty list; and one command is handled at a time exactly until a stray Write. */
  lemma OneCommandAtATime(kind: Kind, atof: seq<byte> -> real, states: seq<State>, events: seq<Event>, i: int)
    requires Run(kind, atof, states, events) && 0 <= i < |states|
    ensures !states[i].fault
    ensures OneCommand(states[i]) <==> !Strayed(states, events, i)
  {
    RunInv(kind, atof, states, events, i);
  }

  /** After a stray Write nothing is sent, answered or reported any more, whatever happens. */
  lemma {:induction false} StrayWriteIsFinal(kind: Kind, atof: seq<byte> -> real, states: seq<State>, events: seq<Event>, i: int, j: int)
    requires |states| == |events| + 1 && Run(kind, atof, states, events) && 0 <= i <= j < |states| && Strayed(states, events, i)
    ensures SamePast(states[i], states[j])
    decreases j
  {
    hide Run, Strayed;
    if i < j {
      StaysStrayed(states, events, i, j - 1);
      StrayWriteIsFinal(kind, atof, states, events, i, j - 1);
      StrayedStep(kind, atof, states, events, j - 1);
    }
  }

  /** What is past: the commands sent, the answers to them, and the reports. */
  ghost predicate SamePast(s: State, t: State) {
    t.core.sent == s.core.sent && t.answers == s.answers && t.reports == s.reports
  }

  lemma StrayedStep(kind: Kind, atof: seq<byte> -> real, states: seq<State>, events: seq<Event>, k: int)
    requires |states| == |events| + 1 && Run(kind, atof, states, events) && 0 <= k < |events| && Strayed(states, events, k)
    ensures SamePast(states[k], states[k + 1])
  {
    hide Run, Strayed, Stalled, Inv, Step, Enabled;
    RunInv(kind, atof, states, events, k);
    RunStep(kind, atof, states, events, k);
    StalledKeeps(states[k], events[k], atof);
  }

  lemma StaysStrayed(states: seq<State>, events: seq<Event>, i: int, j: int)
    requires |states| == |events| + 1 && i <= j && Strayed(states, events, i)
    ensures Strayed(states, events, j)
  {
    hide Stray;
    var k :| 0 <= k < i && k < |events| && Stray(states[k], events[k]);
  }

  /** On every run, what has been sent is the first part of what has been queued: each directive at most once, in order. */
  lemma SentOnceInOrder(kind: Kind, atof: seq<byte> -> real, states: seq<State>, events: seq<Event>, i: int)
    requires Run(kind, atof, states, events) && 0 <= i < |states|
    ensures var s := states[i];
      && s.core.sent <= s.queued
      && |s.queued| == |s.core.sent| + |s.core.drct| - (if s.core.drct == [] || Strayed(states, events, i) then 0 else 1)
      && (s.core.drct == [] ==> s.core.sent == s.queued && Commands(s.answers) == s.queued)
  {
    RunInv(kind, atof, states, events, i);
  }

  // ----- what goes over the wire

  /** Every message carries the function number of its directive. */
  ghost predicate Wired(kind: Kind, ds: seq<Directive>) {
    forall k :: 0 <= k < |ds| ==> FunctionOf(kind, ds[k].msg) == ds[k].idf
  }

  ghost predicate WireInv(s: State) {
    && Wired(s.core.kind, s.queued) && Wired(s.core.kind, s.extra)
    && forall i :: 0 <= i < |s.reports| ==> Wired(s.core.kind, s.reports[i].extra)
  }

  lemma {:induction false} GeneratedIsWired(kind: Kind, devs: seq<byte>)
    ensures Wired(kind, Generated(kind, devs))
  {
    hide FunctionOf, Message, Monitor;
    if devs != [] {
      var n := |devs| - 1;
      var a, b := Generated(kind, devs[..n]), DirectivesFor(kind, devs[n], Monitor(kind));
      GeneratedIsWired(kind, devs[..n]);
      forall k | 0 <= k < |b| ensures FunctionOf(kind, b[k].msg) == b[k].idf { MessageFunction(kind, devs[n], Monitor(kind)[k], []); }
      assert Generated(kind, devs) == a + b;
    }
  }

  lemma WireKept(s: State, e: Event, atof: seq<byte> -> real)
    requires WireInv(s) && Enabled(s, e)
    ensures WireInv(Step(s, e, atof)) && Step(s, e, atof).core.kind == s.core.kind
  {
    hide FunctionOf, Message, Generated, Updated, ReplyValue;
    match e
    case Cycle => GeneratedIsWired(s.core.kind, s.core.allDev);
    case Write(idd, idf, value) => MessageFunction(s.core.kind, idd, idf, value);
    case _ =>
  }

  lemma {:induction false} RunWired(kind: Kind, atof: seq<byte> -> real, states: seq<State>, events: seq<Event>, i: int)
    requires Run(kind, atof, states, events) && 0 <= i < |states|
    ensures WireInv(states[i]) && states[i].core.kind == kind
    decreases i
  {
    hide WireInv, Run, Step, Enabled, Init;
    RunStart(kind, atof, states, events);
    if i == 0 {
      NothingOnWire(kind);
    } else {
      RunWired(kind, atof, states, events, i - 1);
      RunStep(kind, atof, states, events, i - 1);
      WireKept(states[i - 1], events[i - 1], atof);
    }
  }

  lemma RunStart(kind: Kind, atof: seq<byte> -> real, states: seq<State>, events: seq<Event>)
    requires Run(kind, atof, states, events)
    ensures |states| == |events| + 1 && states[0] == Init(kind)
  {
    hide Step, Enabled;
  }

  lemma NothingOnWire(kind: Kind)
    ensures WireInv(Init(kind)) && Init(kind).core.kind == kind
  {
  }

  /** On every run, every message queued, and so every message sent, asks for the function its directive names. */
  lemma CommandsOnWire(kind: Kind, atof: seq<byte> -> real, states: seq<State>, events: seq<Event>, i: int, k: int)
    requires Run(kind, atof, states, events) && 0 <= i < |states|
    ensures 0 <= k < |states[i].queued| ==> FunctionOf(kind, states[i].queued[k].msg) == states[i].queued[k].idf
    ensures 0 <= k < |states[i].core.sent| ==> FunctionOf(kind, states[i].core.sent[k].msg) == states[i].core.sent[k].idf
  {
    hide FunctionOf, Run, Inv, Stalled, Strayed;
    RunWired(kind, atof, states, events, i);
    SentOnceInOrder(kind, atof, states, events, i);
  }

  /**
   On every run, an accepted reply is stored under the function number of the command that
   caused it, although a vacuum reply carries none.
   */
  lemma ReplyAttributed(kind: Kind, atof: seq<byte> -> real, states: seq<State>, events: seq<Event>, i: int)
    requires Run(kind, atof, states, events) && 0 <= i < |events| && events[i].Reply?
    ensures StoredAsCommanded(kind, atof, states[i], states[i + 1], events[i].text, events[i].junk)
  {
    hide Step, StoredAsCommanded, Inv;
    RunInv(kind, atof, states, events, i);
    CommandsOnWire(kind, atof, states, events, i, |states[i].answers|);
    OneReplyAttributed(states[i], events[i], atof);
  }

  /** The step from s to t stored the reply under the device and the function that the message in flight carries. */
  ghost predicate StoredAsCommanded(kind: Kind, atof: seq<byte> -> real, s: State, t: State, text: seq<byte>, junk: real) {
    && |s.core.sent| == |s.answers| + 1
    && var m := s.core.sent[|s.answers|].msg; var f := FunctionOf(kind, m);
       t.core.data == Updated(kind, s.core.data, Target(kind, m), f, ReplyValue(kind, f, text, atof, junk))
  }

  lemma OneReplyAttributed(s: State, e: Event, atof: seq<byte> -> real)
    requires Inv(s) && e.Reply? && Enabled(s, e)
    requires var d := s.core.sent[|s.answers|]; FunctionOf(s.core.kind, d.msg) == d.idf
    ensures StoredAsCommanded(s.core.kind, atof, s, Step(s, e, atof), e.text, e.junk)
  {
    hide Target, FunctionOf, Updated, ReplyValue, ReportsGood, Current, RoundPlan, Devices;
    assert s.core.drct[0] == s.core.sent[|s.answers|];
  }

  /** On every run, every report is good. */
  lemma ReportsAreGood(kind: Kind, atof: seq<byte> -> real, states: seq<State>, events: seq<Event>, i: int, r: int)
    requires Run(kind, atof, states, events) && 0 <= i < |states| && 0 <= r < |states[i].reports|
    ensures GoodReport(kind, states[i].reports[r]) && Wired(kind, Commands(states[i].reports[r].answers))
  {
    hide FunctionOf, Run, Queue, Devices, Current;
    RunInv(kind, atof, states, events, i);
    RunWired(kind, atof, states, events, i);
    GeneratedIsWired(kind, states[i].reports[r].devices);
  }
}
