/**
 The receive side of SerialComm: a circular buffer filled by read completions,
 searched by Lookup and drained by Read.
 */
module SerialPort {
  import opened Bytes

  /** SERIAL_BUFF_SIZE, and the capacity of the circular buffer. */
  const CHUNK_SIZE := 512
  const CAPACITY := 5120

  /** The last CAPACITY bytes: pushing onto a full buffer drops the oldest. */
  function Kept(s: seq<byte>): (r: seq<byte>)
    ensures |r| == (if |s| <= 5120 then |s| else 5120) && r == s[|s| - |r|..]
  {
    if |s| <= CAPACITY then s else s[|s| - CAPACITY..]
  }

  /** The buffer after pushing b: a full one drops its oldest byte. */
  function Pushed(k: seq<byte>, b: byte): seq<byte> {
    (if |k| == CAPACITY then k[1..] else k) + [b]
  }

  /** Dropping the oldest of a full buffer and pushing b keeps the last CAPACITY bytes. */
  lemma KeptPush(s: seq<byte>, b: byte)
    ensures Kept(s + [b]) == Pushed(Kept(s), b)
  {
  }

  lemma KeptStart(s: seq<byte>, chunk: seq<byte>)
    requires |s| <= CAPACITY
    ensures Kept(s + chunk[..0]) == s
  {
    assert s + chunk[..0] == s;
  }

  /** The buffer after i of the chunk's bytes, and after one more. */
  lemma KeptNext(s: seq<byte>, chunk: seq<byte>, i: nat)
    requires i < |chunk|
    ensures Kept(s + chunk[..i + 1]) == Pushed(Kept(s + chunk[..i]), chunk[i])
  {
    hide Kept, Pushed;
    assert s + chunk[..i + 1] == (s + chunk[..i]) + [chunk[i]];
    KeptPush(s + chunk[..i], chunk[i]);
  }

  /** flag stands at position p. */
  predicate At(s: seq<byte>, flag: seq<byte>, p: int) {
    0 <= p && p + |flag| <= |s| && s[p..p + |flag|] == flag
  }

  /** r is the first position from from on where flag stands, or -1. */
  ghost predicate FirstAt(s: seq<byte>, flag: seq<byte>, from: int, r: int) {
    && (forall p :: from <= p && (r == -1 || p < r) ==> !At(s, flag, p))
    && (r != -1 ==> from <= r && At(s, flag, r))
  }

  class SerialComm {
    var crcrcv: seq<byte>

    constructor ()
      ensures crcrcv == []
    {
      crcrcv := [];
    }

    method PushBack(b: byte)
      modifies this
      ensures crcrcv == Pushed(old(crcrcv), b)
    {
      if |crcrcv| == CAPACITY { crcrcv := crcrcv[1..]; }
      crcrcv := crcrcv + [b];
    }

    /** A completed read of the given bytes: they are pushed one by one. */
    method HandleRead(chunk: seq<byte>)
      requires |chunk| <= CHUNK_SIZE && |crcrcv| <= CAPACITY
      modifies this
      ensures crcrcv == Kept(old(crcrcv) + chunk)
    {
      hide Kept, Pushed;
      ghost var s := crcrcv;
      KeptStart(s, chunk);
      for i := 0 to |chunk|
        invariant crcrcv == Kept(s + chunk[..i])
      {
        KeptNext(s, chunk, i);
        PushBack(chunk[i]);
      }
      assert chunk[..|chunk|] == chunk;
    }

    /** The position of the first occurrence of flag at or after from, or -1. */
    method Lookup(flag: seq<byte>, from: int) returns (r: int)
      ensures |flag| == 0 || from < 0 ==> r == -1
      ensures |flag| > 0 && from >= 0 ==> FirstAt(crcrcv, flag, from, r)
    {
      if |flag| <= 0 || from < 0 { return -1; }
      var len := |flag|;
      var n := |crcrcv| - len;
      var pos, i := from, -1;
      while i != len && pos <= n
        invariant from <= pos && -1 <= i <= len
        invariant forall p :: from <= p < pos && (i == len ==> p < pos - 1) ==> !At(crcrcv, flag, p)
        invariant i == len ==> from <= pos - 1 && At(crcrcv, flag, pos - 1)
        decreases if i == len then 0 else 1, n - pos
      {
        i := 0;
        var j := pos;
        while i < len && flag[i] == crcrcv[j]
          invariant 0 <= i <= len && j == pos + i
          invariant crcrcv[pos..j] == flag[..i]
        {
          assert crcrcv[pos..j + 1] == crcrcv[pos..j] + [crcrcv[j]];
          i, j := i + 1, j + 1;
        }
        if i < len { assert crcrcv[pos..pos + len][i] != flag[i]; }
        pos := pos + 1;
      }
      r := if i == len then pos - 1 else -1;
    }

    /** Copies up to len bytes from position from into buff and drops everything up to the last of them. */
    method Read(buff: array<byte>, len: int, from: int) returns (i: int)
      requires len > 0 && from >= 0 ==> len <= buff.Length
      modifies this, buff
      ensures len <= 0 || from < 0 ==> i == 0 && crcrcv == old(crcrcv) && buff[..] == old(buff[..])
      ensures len > 0 && from >= 0 ==>
                var n0 := if |old(crcrcv)| > from + len then from + len else |old(crcrcv)|;
                if from < n0 then i == n0 - from && buff[..i] == old(crcrcv)[from..n0] && crcrcv == old(crcrcv)[n0..]
                else i == 0 && crcrcv == old(crcrcv)
    {
      if len <= 0 || from < 0 { return 0; }
      var n0 := if |crcrcv| > from + len then from + len else |crcrcv|;
      var j := from;
      i := 0;
      while j < n0
        invariant 0 <= i && j == from + i && (j <= n0 || i == 0)
        invariant crcrcv == old(crcrcv)
        invariant forall k :: 0 <= k < i ==> buff[k] == crcrcv[from + k]
      {
        buff[i] := crcrcv[j];
        i, j := i + 1, j + 1;
      }
      if i != 0 { crcrcv := crcrcv[n0..]; }
    }
  }
}
