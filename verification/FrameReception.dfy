/**
 Frames arriving in arbitrary pieces: the receive buffer, the two searches and the
 decoder, callback by callback.
 */
module FrameReception {
  import opened Bytes
  import opened CoolerCodec
  import opened SerialPort
  import opened Controllers

  /** The receive buffer, the controller, and the frames decoded so far. */
  datatype Port = Port(buf: seq<byte>, core: Core, decoded: seq<seq<byte>>)

  /** A vacuum reply takes its function from the front of the list, so there must be one. */
  predicate Listening(c: Core) { c.kind == Vacuum ==> c.drct != [] }

  /** One read completion with its callback. */
  function Callback(p: Port, chunk: seq<byte>, atof: seq<byte> -> real, uninit: real): (q: Port)
    requires Listening(p.core)
    ensures q.core.kind == p.core.kind && Listening(q.core)
  {
    var buf := Kept(p.buf + chunk);
    match Receive(p.core.kind, buf)
    case Waiting => p.(buf := buf)
    case Received(from, to) =>
      Port(buf[to..], DecodeCore(p.core, buf[from..to], atof, uninit), p.decoded + [buf[from..to]])
  }

  function Deliver(p: Port, chunks: seq<seq<byte>>, atof: seq<byte> -> real, uninit: real): (q: Port)
    requires Listening(p.core)
    ensures q.core.kind == p.core.kind && Listening(q.core)
  {
    if chunks == [] then p
    else Callback(Deliver(p, chunks[..|chunks| - 1], atof, uninit), chunks[|chunks| - 1], atof, uninit)
  }

  function Flatten(chunks: seq<seq<byte>>): seq<byte> {
    if chunks == [] then [] else Flatten(chunks[..|chunks| - 1]) + chunks[|chunks| - 1]
  }

  /** The methods do what Callback says, unless the frame found is longer than the receive array. */
  method HandleChunk(c: Controller, chunk: seq<byte>, uninit: real, ghost decoded: seq<seq<byte>>) returns (o: Outcome)
    requires Listening(c.Abs()) && |chunk| <= CHUNK_SIZE && |c.serial.crcrcv| <= CAPACITY && c.bufrcv.Length == CHUNK_SIZE
    modifies c, c.serial, c.bufrcv
    ensures o == OutcomeOf(old(c.Abs()), Kept(old(c.serial.crcrcv) + chunk))
    ensures o == Handled ==>
              var q := Callback(Port(old(c.serial.crcrcv), old(c.Abs()), decoded), chunk, c.atof, uninit);
              c.serial.crcrcv == q.buf && c.Abs() == q.core
  {
    hide Receive, DecodeCore, Kept;
    c.serial.HandleRead(chunk);
    o := c.SerialRead(uninit);
  }

  ghost predicate NoColon(s: seq<byte>) {
    forall i :: 0 <= i < |s| ==> s[i] != COLON
  }

  lemma AtColon(s: seq<byte>, p: int)
    ensures At(s, [COLON], p) <==> 0 <= p < |s| && s[p] == COLON
  {
    if 0 <= p < |s| { assert s[p..p + 1] == [s[p]]; }
  }

  lemma AtCrLf(s: seq<byte>, p: int)
    ensures At(s, [CR, LF], p) <==> 0 <= p && p + 1 < |s| && s[p] == CR && s[p + 1] == LF
  {
    if 0 <= p && p + 1 < |s| { assert s[p..p + 2] == [s[p], s[p + 1]]; }
  }

  /** s agrees with junk followed by a frame as far as the shorter of the two goes. */
  ghost predicate Agrees(s: seq<byte>, junk: seq<byte>, f: seq<byte>) {
    forall i :: 0 <= i < |s| && i < |junk| + |f| ==> s[i] == (junk + f)[i]
  }

  /** The first colon is the frame's own, once it has arrived. */
  lemma HeadFound(s: seq<byte>, junk: seq<byte>, idd: byte, idf: byte, text: seq<byte>)
    requires NoColon(junk) && Agrees(s, junk, Frame(idd, idf, text))
    ensures Find(s, [COLON], 0) == if |s| <= |junk| then -1 else |junk|
  {
    var f := Frame(idd, idf, text);
    FrameLayout(idd, idf, text);
    var r := if |s| <= |junk| then -1 else |junk|;
    forall p ensures 0 <= p && (r == -1 || p < r) ==> !At(s, [COLON], p) {
      AtColon(s, p);
      if 0 <= p < |s| && p < |junk| { assert s[p] == (junk + f)[p] == junk[p]; }
    }
    AtColon(s, |junk|);
    if r != -1 { assert s[|junk|] == (junk + f)[|junk|] == f[0]; }
    FindUnique(s, [COLON], 0, r);
  }

  /** The first CR LF after it is the frame's last two bytes, once both have arrived. */
  lemma TailFound(s: seq<byte>, junk: seq<byte>, idd: byte, idf: byte, text: seq<byte>)
    requires Agrees(s, junk, Frame(idd, idf, text))
    ensures var f := Frame(idd, idf, text);
            Find(s, [CR, LF], |junk|) == if |s| < |junk| + |f| then -1 else |junk| + |f| - 2
  {
    hide Hex, DataPart, Checksum, Unsealed, Find, At;
    var f := Frame(idd, idf, text);
    var j, n := |junk|, |f|;
    var r := if |s| < j + n then -1 else j + n - 2;
    FrameLayout(idd, idf, text);
    forall p ensures j <= p && (r == -1 || p < r) ==> !At(s, [CR, LF], p) {
      AtCrLf(s, p);
      if j <= p < |s| && p < j + n - 2 {
        assert s[p] == (junk + f)[p] == f[p - j];
        NotCarriageReturn(idd, idf, text, p - j);
      }
    }
    AtCrLf(s, j + n - 2);
    if r != -1 {
      assert s[j + n - 2] == (junk + f)[j + n - 2] == f[n - 2];
      assert s[j + n - 1] == (junk + f)[j + n - 1] == f[n - 1];
    }
    FindUnique(s, [CR, LF], j, r);
  }

  lemma NotCarriageReturn(idd: byte, idf: byte, text: seq<byte>, k: int)
    requires 0 <= k < 7 + 2 * |text|
    ensures Frame(idd, idf, text)[k] != CR
  {
    FrameLayout(idd, idf, text);
    if k > 0 { BodyClean(idd, idf, text, k); }
  }

  /** A callback takes nothing until the frame is complete, and then exactly the frame. */
  lemma ReceptionOf(s: seq<byte>, junk: seq<byte>, idd: byte, idf: byte, text: seq<byte>)
    requires NoColon(junk) && Agrees(s, junk, Frame(idd, idf, text))
    ensures var f := Frame(idd, idf, text);
            Receive(Cooler, s) == if |s| < |junk| + |f| then Waiting else Received(|junk|, |junk| + |f|)
  {
    hide Find, Frame;
    HeadFound(s, junk, idd, idf, text);
    TailFound(s, junk, idd, idf, text);
  }

  /** While the frame is incomplete the buffer only grows and nothing else changes. */
  lemma {:induction false} IncompleteChangesNothing(p: Port, chunks: seq<seq<byte>>, junk: seq<byte>, idd: byte, idf: byte, text: seq<byte>,
                                                    atof: seq<byte> -> real, uninit: real)
    requires p.core.kind == Cooler && p.buf == [] && NoColon(junk)
    requires var all, f := Flatten(chunks), Frame(idd, idf, text);
             |all| < |junk| + |f| && |all| <= 5120 && Agrees(all, junk, f)
    ensures Deliver(p, chunks, atof, uninit) == p.(buf := Flatten(chunks))
  {
    if chunks != [] {
      hide Receive, Frame, DecodeCore;
      var init, all := chunks[..|chunks| - 1], Flatten(chunks);
      assert forall i :: 0 <= i < |Flatten(init)| ==> Flatten(init)[i] == all[i];
      IncompleteChangesNothing(p, init, junk, idd, idf, text, atof, uninit);
      ReceptionOf(all, junk, idd, idf, text);
    }
  }

  /**
   However a stream of colon-free junk, one frame and anything after it is cut,
   nothing is decoded before the callback that brings the frame's last byte. That callback
   decodes exactly the frame, stores its value, and leaves in the buffer only what came with it
   after the frame.
   */
  lemma ChunkIndependence(p: Port, before: seq<seq<byte>>, last: seq<byte>, junk: seq<byte>, suffix: seq<byte>,
                          idd: byte, idf: byte, text: seq<byte>, atof: seq<byte> -> real, uninit: real)
    requires p.core.kind == Cooler && p.buf == [] && NoColon(junk)
    requires forall j :: 0 <= j < |text| ==> text[j] < 128
    requires var f := Frame(idd, idf, text);
      && Flatten(before) + last == junk + f + suffix && |junk + f + suffix| <= 5120
      && |Flatten(before)| < |junk| + |f|
    ensures Deliver(p, before, atof, uninit) == p.(buf := Flatten(before))
    ensures Deliver(p, before + [last], atof, uninit) ==
            Port(suffix, ReplyCore(p.core, idd, idf, ReplyValue(Cooler, idf, text, atof, uninit)), p.decoded + [Frame(idd, idf, text)])
  {
    hide Receive, Frame, DecodeCore, ReplyValue, ReplyCore;
    var f, all := Frame(idd, idf, text), Flatten(before) + last;
    assert forall i :: 0 <= i < |Flatten(before)| ==> Flatten(before)[i] == all[i];
    IncompleteChangesNothing(p, before, junk, idd, idf, text, atof, uninit);
    assert (before + [last])[..|before|] == before;
    ReceptionOf(all, junk, idd, idf, text);
    assert all[|junk|..|junk| + |f|] == f && all[|junk| + |f|..] == suffix;
    CoolerFrameIsReply(p.core, idd, idf, text, atof, uninit);
  }

  // ----- the vacuum side

  /**
   With no head mark the search starts at the front of the buffer, so a vacuum callback takes
   something exactly when there is a carriage return and none in front.
   */
  lemma VacuumTakesIff(buf: seq<byte>)
    ensures Receive(Vacuum, buf).Received? <==> (exists i :: 0 < i < |buf| && buf[i] == CR) && buf[0] != CR
  {
    var r := Find(buf, [CR], 0);
    forall p ensures At(buf, [CR], p) <==> 0 <= p < |buf| && buf[p] == CR {
      if 0 <= p < |buf| { assert buf[p..p + 1] == [buf[p]]; }
    }
    if exists i :: 0 < i < |buf| && buf[i] == CR {
      var i :| 0 < i < |buf| && buf[i] == CR;
      assert At(buf, [CR], i);
      if buf[0] == CR { assert At(buf, [CR], 0); }
    }
  }

  /** What is taken is everything up to the first carriage return, with it. */
  lemma VacuumTakesFirst(buf: seq<byte>, i: nat)
    requires 0 < i < |buf| && buf[i] == CR && forall k :: 0 <= k < i ==> buf[k] != CR
    ensures Receive(Vacuum, buf) == Received(0, i + 1)
  {
    forall p | 0 <= p <= i ensures At(buf, [CR], p) <==> p == i { assert buf[p..p + 1] == [buf[p]]; }
    FindUnique(buf, [CR], 0, i);
  }

  /**
   However a nonempty reply without a carriage return, its carriage return and anything after it
   are cut, nothing is taken before the callback that brings the carriage return. That callback
   decodes exactly the reply with its carriage return and leaves only what came after it.
   */
  lemma VacuumChunkIndependence(p: Port, before: seq<seq<byte>>, last: seq<byte>, reply: seq<byte>, suffix: seq<byte>,
                                atof: seq<byte> -> real, uninit: real)
    requires p.core.kind == Vacuum && p.core.drct != [] && p.buf == []
    requires reply != [] && forall k :: 0 <= k < |reply| ==> reply[k] != CR
    requires Flatten(before) + last == reply + [CR] + suffix && |reply| + 1 + |suffix| <= 5120 && |Flatten(before)| <= |reply|
    ensures Deliver(p, before, atof, uninit) == p.(buf := Flatten(before))
    ensures Deliver(p, before + [last], atof, uninit) ==
            Port(suffix, DecodeCore(p.core, reply + [CR], atof, uninit), p.decoded + [reply + [CR]])
  {
    hide Receive, DecodeCore, Find;
    var n, all := |reply|, Flatten(before) + last;
    forall k | 0 <= k < |Flatten(before)| ensures Flatten(before)[k] != CR { assert Flatten(before)[k] == all[k] == reply[k]; }
    NothingTaken(p, before, atof, uninit);
    assert (before + [last])[..|before|] == before;
    forall k | 0 <= k < n ensures all[k] != CR { assert all[k] == reply[k]; }
    assert all[n] == CR;
    VacuumTakesFirst(all, n);
    assert all[0..n + 1] == reply + [CR] && all[n + 1..] == suffix;
  }

  lemma {:induction false} NothingTaken(p: Port, chunks: seq<seq<byte>>, atof: seq<byte> -> real, uninit: real)
    requires p.core.kind == Vacuum && p.core.drct != [] && p.buf == []
    requires |Flatten(chunks)| <= 5120 && forall k :: 0 <= k < |Flatten(chunks)| ==> Flatten(chunks)[k] != CR
    ensures Deliver(p, chunks, atof, uninit) == p.(buf := Flatten(chunks))
  {
    if chunks != [] {
      hide Callback, Deliver, Flatten;
      var init, c := chunks[..|chunks| - 1], chunks[|chunks| - 1];
      LastChunk(p, chunks, atof, uninit);
      forall k | 0 <= k < |Flatten(init)| ensures Flatten(init)[k] != CR { assert Flatten(init)[k] == Flatten(chunks)[k]; }
      NothingTaken(p, init, atof, uninit);
      WithoutReturn(p.(buf := Flatten(init)), c, atof, uninit);
    }
  }

  lemma WithoutReturn(p: Port, chunk: seq<byte>, atof: seq<byte> -> real, uninit: real)
    requires p.core.kind == Vacuum && p.core.drct != [] && |p.buf| + |chunk| <= 5120
    requires forall k :: 0 <= k < |p.buf + chunk| ==> (p.buf + chunk)[k] != CR
    ensures Callback(p, chunk, atof, uninit) == p.(buf := p.buf + chunk)
  {
    hide Receive, DecodeCore;
    VacuumTakesIff(p.buf + chunk);
  }

  /**
   A carriage return at the head of the vacuum buffer: however the bytes behind it are cut, no
   callback takes anything while they fit in the buffer. Once more than that has arrived the
   oldest bytes are gone, and a callback takes something as VacuumTakesIff says of the rest.
   */
  lemma BlockedUntilOverflow(p: Port, chunks: seq<seq<byte>>, last: seq<byte>, atof: seq<byte> -> real, uninit: real)
    requires p.core.kind == Vacuum && p.core.drct != [] && p.buf != [] && p.buf[0] == CR
    requires |p.buf| + |Flatten(chunks)| <= 5120
    ensures Deliver(p, chunks, atof, uninit) == p.(buf := p.buf + Flatten(chunks))
    ensures var all := p.buf + Flatten(chunks) + last; var rest := Kept(all);
            Deliver(p, chunks + [last], atof, uninit).decoded != p.decoded <==>
            |all| > 5120 && rest[0] != CR && exists i :: 0 < i < |rest| && rest[i] == CR
  {
    hide Receive, DecodeCore;
    Blocked(p, chunks, atof, uninit);
    assert (chunks + [last])[..|chunks|] == chunks;
    VacuumTakesIff(Kept(p.buf + Flatten(chunks) + last));
  }

  lemma {:induction false} Blocked(p: Port, chunks: seq<seq<byte>>, atof: seq<byte> -> real, uninit: real)
    requires p.core.kind == Vacuum && p.core.drct != [] && p.buf != [] && p.buf[0] == CR
    requires |p.buf| + |Flatten(chunks)| <= 5120
    ensures Deliver(p, chunks, atof, uninit) == p.(buf := p.buf + Flatten(chunks))
  {
    if chunks == [] {
      assert p.buf + [] == p.buf;
    } else {
      hide Callback, Deliver, Flatten;
      var init, c := chunks[..|chunks| - 1], chunks[|chunks| - 1];
      LastChunk(p, chunks, atof, uninit);
      Blocked(p, init, atof, uninit);
      var q := p.(buf := p.buf + Flatten(init));
      BlockedOnce(q, c, atof, uninit);
      Regroup(p.buf, Flatten(init), c);
    }
  }

  lemma LastChunk(p: Port, chunks: seq<seq<byte>>, atof: seq<byte> -> real, uninit: real)
    requires Listening(p.core) && chunks != []
    ensures var init, c := chunks[..|chunks| - 1], chunks[|chunks| - 1];
            && Flatten(chunks) == Flatten(init) + c
            && Deliver(p, chunks, atof, uninit) == Callback(Deliver(p, init, atof, uninit), c, atof, uninit)
  {
    hide Callback;
  }

  lemma Regroup(a: seq<byte>, b: seq<byte>, c: seq<byte>)
    ensures a + (b + c) == (a + b) + c
  {
  }

  lemma BlockedOnce(p: Port, chunk: seq<byte>, atof: seq<byte> -> real, uninit: real)
    requires p.core.kind == Vacuum && p.core.drct != [] && p.buf != [] && p.buf[0] == CR
    requires |p.buf| + |chunk| <= 5120
    ensures Callback(p, chunk, atof, uninit) == p.(buf := p.buf + chunk) && (p.buf + chunk)[0] == CR
  {
    hide Receive, DecodeCore;
    VacuumTakesIff(p.buf + chunk);
  }
}
