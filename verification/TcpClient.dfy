/**
 The buffered send side of TCPClient: Write appends to a bounded buffer and starts an
 asynchronous write when the buffer was empty; each completion drops what was sent and
 starts the next.
 */
module TcpSend {
  import opened Bytes

  /** TCP_PACK_SIZE * 10. */
  const CAPACITY := 15000

  /**
   pending is the send buffer, inflight the asynchronous writes started and not completed with
   the bytes each was given, accepted and transferred all bytes taken in and sent out so far.
   */
  datatype Pipe = Pipe(pending: seq<byte>, inflight: seq<seq<byte>>, accepted: seq<byte>, transferred: seq<byte>)

  function Empty(): Pipe { Pipe([], [], [], []) }

  function Start(p: Pipe): Pipe {
    if p.pending == [] then p else p.(inflight := p.inflight + [p.pending])
  }

  /** How many of the given bytes fit. */
  function Room(p: Pipe, data: seq<byte>): int {
    if CAPACITY - |p.pending| > |data| then |data| else CAPACITY - |p.pending|
  }

  /** Everything is taken when it fits; otherwise the buffer is filled to its 15000 bytes. */
  lemma RoomFills(p: Pipe, data: seq<byte>)
    requires |p.pending| <= 15000
    ensures |p.pending| + |data| <= 15000 ==> Room(p, data) == |data|
    ensures |p.pending| + |data| > 15000 ==> |p.pending| + Room(p, data) == 15000
  {
  }

  function Written(p: Pipe, data: seq<byte>): Pipe
    requires |p.pending| <= CAPACITY
  {
    if data == [] then p
    else
      var n := Room(p, data);
      var q := p.(pending := p.pending + data[..n], accepted := p.accepted + data[..n]);
      if p.pending == [] && n != 0 then Start(q) else q
  }

  /** The oldest asynchronous write has sent its first n bytes. */
  function Completed(p: Pipe, n: nat): Pipe
    requires p.inflight != [] && n <= |p.inflight[0]| && n <= |p.pending|
  {
    Start(p.(pending := p.pending[n..], inflight := p.inflight[1..], transferred := p.transferred + p.inflight[0][..n]))
  }

  /** The oldest asynchronous write has failed; the handler does nothing. */
  function Failed(p: Pipe): Pipe
    requires p.inflight != []
  {
    p.(inflight := p.inflight[1..])
  }

  class TCPClient {
    var crcsnd: seq<byte>
    ghost var inflight: seq<seq<byte>>
    ghost var accepted: seq<byte>
    ghost var transferred: seq<byte>

    ghost function Abs(): Pipe
      reads this
    {
      Pipe(crcsnd, inflight, accepted, transferred)
    }

    constructor ()
      ensures Abs() == Empty()
    {
      crcsnd, inflight, accepted, transferred := [], [], [], [];
    }

    method StartWrite()
      modifies this
      ensures Abs() == Start(old(Abs()))
    {
      if |crcsnd| != 0 { inflight := inflight + [crcsnd]; }
    }

    /** Takes in as much as fits and returns how much that was. */
    method Write(buff: seq<byte>) returns (n: int)
      requires |crcsnd| <= CAPACITY
      modifies this
      ensures Abs() == Written(old(Abs()), buff) && n == Room(old(Abs()), buff)
      ensures n == if |old(crcsnd)| + |buff| <= 15000 then |buff| else 15000 - |old(crcsnd)|
      ensures crcsnd == old(crcsnd) + buff[..n]
    {
      if |buff| <= 0 { return 0; }
      var n0 := |crcsnd|;
      n := CAPACITY - n0;
      if n > |buff| { n := |buff|; }
      for i := 0 to n
        invariant crcsnd == old(crcsnd) + buff[..i]
        invariant inflight == old(inflight) && accepted == old(accepted) && transferred == old(transferred)
      {
        crcsnd := crcsnd + [buff[i]];
      }
      accepted := accepted + buff[..n];
      if n0 == 0 && n != 0 { StartWrite(); }
    }

    method HandleWrite(error: bool, n: nat)
      requires inflight != [] && n <= |inflight[0]| && n <= |crcsnd|
      modifies this
      ensures Abs() == if error then Failed(old(Abs())) else Completed(old(Abs()), n)
    {
      ghost var w := inflight[0];
      inflight := inflight[1..];
      if !error {
        transferred := transferred + w[..n];
        crcsnd := crcsnd[n..];
        StartWrite();
      }
    }
  }

  // ----- every interleaving

  datatype Event = Write(data: seq<byte>) | Complete(n: nat) | Fail

  predicate Enabled(p: Pipe, e: Event) {
    match e
    case Write(_) => |p.pending| <= CAPACITY
    case Complete(n) => p.inflight != [] && n <= |p.inflight[0]| && n <= |p.pending|
    case Fail => p.inflight != []
  }

  function Step(p: Pipe, e: Event): Pipe
    requires Enabled(p, e)
  {
    match e
    case Write(data) => Written(p, data)
    case Complete(n) => Completed(p, n)
    case Fail => Failed(p)
  }

  ghost predicate Run(states: seq<Pipe>, events: seq<Event>) {
    && |states| == |events| + 1 && states[0] == Empty()
    && forall i :: 0 <= i < |events| ==> Enabled(states[i], events[i]) && states[i + 1] == Step(states[i], events[i])
  }

  predicate Failing(events: seq<Event>) { Fail in events }

  /** Nothing is lost, duplicated or reordered, nothing overflows, and at most one write is outstanding, offering the oldest pending bytes. */
  ghost predicate Conserved(p: Pipe) {
    && p.transferred + p.pending == p.accepted
    && |p.pending| <= 15000
    && |p.inflight| <= 1
    && (p.inflight != [] ==> p.inflight[0] <= p.pending && p.pending != [])
  }

  ghost predicate Inv(p: Pipe, failed: bool) {
    && Conserved(p)
    && (p.pending != [] || !failed)
    && (p.inflight != [] <==> p.pending != [] && !failed)
  }

  lemma StepKeeps(p: Pipe, e: Event, failed: bool)
    requires Inv(p, failed) && Enabled(p, e)
    ensures Inv(Step(p, e), failed || e == Fail)
  {
    match e {
      case Write(data) =>
        if data != [] {
          var d := data[..Room(p, data)];
          assert p.transferred + (p.pending + d) == (p.transferred + p.pending) + d;
        }
      case Complete(n) =>
        assert p.inflight[0][..n] == p.pending[..n];
        assert p.pending == p.pending[..n] + p.pending[n..];
        assert (p.transferred + p.pending[..n]) + p.pending[n..] == p.transferred + p.pending;
      case Fail =>
    }
  }

  lemma {:induction false} RunInv(states: seq<Pipe>, events: seq<Event>, i: int)
    requires Run(states, events) && 0 <= i < |states|
    ensures Inv(states[i], Failing(events[..i]))
    decreases i
  {
    if i > 0 {
      hide Inv, Step;
      RunInv(states, events, i - 1);
      assert states[i - 1 + 1] == Step(states[i - 1], events[i - 1]);
      StepKeeps(states[i - 1], events[i - 1], Failing(events[..i - 1]));
      assert events[..i] == events[..i - 1] + [events[i - 1]];
    } else {
      assert events[..0] == [];
    }
  }

  /**
   On every interleaving of writes and completions, failed ones included, the bytes sent and the
   bytes pending together are the bytes accepted, in order; the buffer never overflows; and at
   most one asynchronous write is outstanding.
   */
  lemma BytesConserved(states: seq<Pipe>, events: seq<Event>, i: int)
    requires Run(states, events) && 0 <= i < |states|
    ensures Conserved(states[i])
  {
    RunInv(states, events, i);
  }

  /**
   A write is outstanding exactly when something is pending, precisely on the runs without a
   failed completion: after a failure the buffer stays nonempty and no write is ever started again.
   */
  lemma KeepsSendingIffNoFailure(states: seq<Pipe>, events: seq<Event>, i: int)
    requires Run(states, events) && 0 <= i < |states|
    ensures (states[i].inflight != [] <==> states[i].pending != []) <==> !Failing(events[..i])
  {
    RunInv(states, events, i);
  }

  /** On every run a handler may be called whenever its write has completed: what is sent is still in the buffer. */
  lemma CompletionsFit(states: seq<Pipe>, events: seq<Event>, i: int, data: seq<byte>, n: nat)
    requires Run(states, events) && 0 <= i < |states|
    ensures Enabled(states[i], Write(data))
    ensures Enabled(states[i], Complete(n)) <==> states[i].inflight != [] && n <= |states[i].inflight[0]|
  {
    RunInv(states, events, i);
  }

  /** On every run, a write that is started offers everything that is pending at the time. */
  lemma EverythingOffered(states: seq<Pipe>, events: seq<Event>, i: int)
    requires Run(states, events) && 0 <= i < |events|
    ensures var p, q := states[i], states[i + 1];
      && (events[i].Complete? ==> q.inflight == if q.pending == [] then [] else [q.pending])
      && (events[i].Write? && p.pending == [] && events[i].data != [] ==> q.inflight == [q.pending] && q.pending != [])
      && (events[i].Write? && p.pending != [] ==> q.inflight == p.inflight)
  {
    RunInv(states, events, i);
    assert states[i + 1] == Step(states[i], events[i]);
  }
}
