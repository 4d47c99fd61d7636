/** Properties of whole histories of a buffer: any interleaving of writes,
    closes and reads, each one atomic step of the buffer. */
module BufferLaws {
  import opened Buffers

  /** A seed of zero bytes is all leading zeros. */
  lemma {:induction false} AllZeroTrimsAway(s: seq<byte>)
    requires AllZero(s)
    ensures LeadingZeros(s) == |s|
  {
    if s != [] {
      assert s[0] == 0;
      assert AllZero(s[1..]) by {
        forall k | 0 <= k < |s| - 1 ensures s[1..][k] == 0 { assert s[1..][k] == s[k + 1]; }
      }
      AllZeroTrimsAway(s[1..]);
    }
  }

  /** The trimmed seed is empty exactly when the seed is all zero bytes. */
  lemma TrimZerosEmptyIff(s: seq<byte>)
    ensures TrimZeros(s) == [] <==> AllZero(s)
  {
    if AllZero(s) {
      AllZeroTrimsAway(s);
      assert s[|s|..] == [];
    }
    if TrimZeros(s) == [] {
      assert LeadingZeros(s) == |s|;
      assert s[..|s|] == s;
    }
  }

  /** `newBuffer` on a seed of zero bytes only, such as the 64 zero bytes
      of the tests, starts empty. */
  lemma ZeroSeedGivesEmptyBuffer(n: nat)
    ensures TrimZeros(seq(n, _ => 0 as byte)) == []
  {
    TrimZerosEmptyIff(seq(n, _ => 0 as byte));
  }

  /** Trimming twice is trimming once: an already trimmed seed is kept whole. */
  lemma TrimZerosIdempotent(s: seq<byte>)
    ensures TrimZeros(TrimZeros(s)) == TrimZeros(s)
  {
    TrimmedIsKept(TrimZeros(s));
  }

  /** A seed that neither starts nor ends with a zero byte is not trimmed. */
  lemma TrimmedIsKept(r: seq<byte>)
    requires r == [] || (r[0] != 0 && r[|r| - 1] != 0)
    ensures TrimZeros(r) == r
  {
    assert LeadingZeros(r) == 0;
    assert r[0..] == r;
    assert TrailingZeros(r) == 0;
    assert r[0..|r| - 0] == r;
  }

  /** One call on the buffer; `Read(c)` reads into a slice of length `c`. */
  datatype Op = Write(p: seq<byte>) | Close | Read(capacity: nat)

  /** The end of a history: the final state, every byte the reads returned
      (in order) and every byte the writes put in (in order). */
  datatype Outcome = Outcome(final: BufState, read: seq<byte>, accepted: seq<byte>)

  function Run(s: BufState, ops: seq<Op>): Outcome
    decreases |ops|
  {
    if ops == [] then Outcome(s, [], [])
    else
      match ops[0]
      case Write(p) =>
        var w := WriteStep(s, p);
        var rest := Run(w.next, ops[1..]);
        Outcome(rest.final, rest.read, p[..w.n] + rest.accepted)
      case Close =>
        Run(CloseStep(s).next, ops[1..])
      case Read(c) =>
        var r := ReadStep(s, c);
        var rest := Run(r.next, ops[1..]);
        Outcome(rest.final, r.data + rest.read, rest.accepted)
  }

  /** The bytes of every `Write` that comes before the first `Close`. */
  function WritesBeforeClose(ops: seq<Op>): seq<byte>
    decreases |ops|
  {
    if ops == [] then []
    else
      match ops[0]
      case Write(p) => p + WritesBeforeClose(ops[1..])
      case Close => []
      case Read(_) => WritesBeforeClose(ops[1..])
  }

  /** `n` reads, each into a slice of length `capacity`. */
  function Reads(capacity: nat, n: nat): (ops: seq<Op>)
    ensures |ops| == n
  {
    seq(n, _ => Read(capacity))
  }

  /** Byte conservation and FIFO order: what was read, followed by what is
      still pending, is exactly what was pending at the start followed by
      everything the writes put in. */
  lemma {:induction false} Conservation(s: BufState, ops: seq<Op>)
    ensures Run(s, ops).read + Run(s, ops).final.pending == s.pending + Run(s, ops).accepted
    decreases |ops|
  {
    if ops != [] {
      match ops[0]
      case Write(p) =>
        var w := WriteStep(s, p);
        var rest := Run(w.next, ops[1..]);
        Conservation(w.next, ops[1..]);
        assert Run(s, ops) == Outcome(rest.final, rest.read, p[..w.n] + rest.accepted);
        if s.closed {
          assert p[..w.n] + rest.accepted == rest.accepted;
        } else {
          assert p[..w.n] == p;
          assert (s.pending + p) + rest.accepted == s.pending + (p + rest.accepted);
        }
      case Close =>
        Conservation(CloseStep(s).next, ops[1..]);
      case Read(c) =>
        var r := ReadStep(s, c);
        var rest := Run(r.next, ops[1..]);
        Conservation(r.next, ops[1..]);
        calc {
          Run(s, ops).read + Run(s, ops).final.pending;
          (r.data + rest.read) + rest.final.pending;
          r.data + (rest.read + rest.final.pending);
          r.data + (r.next.pending + rest.accepted);
          (r.data + r.next.pending) + rest.accepted;
        }
    }
  }

  /** An open buffer accepts exactly the writes issued before the first
      close; a closed one accepts nothing and stays closed. */
  lemma {:induction false} AcceptedAreWritesBeforeClose(s: BufState, ops: seq<Op>)
    ensures Run(s, ops).accepted == if s.closed then [] else WritesBeforeClose(ops)
    ensures s.closed ==> Run(s, ops).final.closed
    decreases |ops|
  {
    if ops != [] {
      match ops[0]
      case Write(p) =>
        AcceptedAreWritesBeforeClose(WriteStep(s, p).next, ops[1..]);
      case Close =>
        AcceptedAreWritesBeforeClose(CloseStep(s).next, ops[1..]);
      case Read(c) =>
        AcceptedAreWritesBeforeClose(ReadStep(s, c).next, ops[1..]);
    }
  }

  /** Write after close: the call fails and the pending bytes do not change. */
  lemma WriteAfterCloseChangesNothing(s: BufState, p: seq<byte>)
    ensures var c := CloseStep(s).next;
            WriteStep(c, p).next == c && WriteStep(c, p).next.pending == s.pending
            && WriteStep(c, p).status == ErrClosedWrite && WriteStep(c, p).n == 0
  {
  }

  /** Every single call moves the lifecycle forward or leaves it where it is:
      Open, then ClosedDraining, then Exhausted, never back. */
  lemma StepNeverRegresses(s: BufState, op: Op)
    ensures Rank(Run(s, [op]).final.Phase()) >= Rank(s.Phase())
  {
    assert [op][1..] == [];
  }

  /** Over a whole history the lifecycle never goes back either. */
  lemma {:induction false} RunNeverRegresses(s: BufState, ops: seq<Op>)
    ensures Rank(Run(s, ops).final.Phase()) >= Rank(s.Phase())
    decreases |ops|
  {
    if ops != [] {
      var next := Run(s, [ops[0]]).final;
      assert [ops[0]][1..] == [];
      StepNeverRegresses(s, ops[0]);
      RunNeverRegresses(next, ops[1..]);
      match ops[0] {
        case Write(p) =>
          assert next == WriteStep(s, p).next;
        case Close =>
          assert next == CloseStep(s).next;
        case Read(c) =>
          assert next == ReadStep(s, c).next;
      }
    }
  }

  /** An exhausted buffer is inert: no call changes it, reads return nothing,
      writes are refused. */
  lemma {:induction false} ExhaustedIsFinal(s: BufState, ops: seq<Op>)
    requires s.Phase() == Exhausted
    ensures Run(s, ops) == Outcome(s, [], [])
    decreases |ops|
  {
    if ops != [] {
      match ops[0]
      case Write(p) =>
        ExhaustedIsFinal(WriteStep(s, p).next, ops[1..]);
      case Close =>
        ExhaustedIsFinal(CloseStep(s).next, ops[1..]);
      case Read(c) =>
        ExhaustedIsFinal(ReadStep(s, c).next, ops[1..]);
    }
  }

  /** The thread-safety property: start from `newBuffer(seed)`, run any
      interleaving of writes, closes and reads; once the buffer is exhausted
      (the point at which a read has returned EOF), the reads have returned
      exactly the trimmed seed followed by the bytes written before the
      close, so the byte counts agree too. */
  lemma ReadsUpToEOFReturnEverything(seed: seq<byte>, ops: seq<Op>)
    requires Run(BufState(TrimZeros(seed), false), ops).final.Phase() == Exhausted
    ensures Run(BufState(TrimZeros(seed), false), ops).read == TrimZeros(seed) + WritesBeforeClose(ops)
    ensures |Run(BufState(TrimZeros(seed), false), ops).read| == |TrimZeros(seed)| + |WritesBeforeClose(ops)|
  {
    var s := BufState(TrimZeros(seed), false);
    Conservation(s, ops);
    AcceptedAreWritesBeforeClose(s, ops);
  }

  /** A closed buffer read `n` times into slices of any positive length `c`,
      with `n * c` at least the number of pending bytes, is drained in order
      and is then exhausted: a consumer always observes end-of-stream. */
  lemma {:induction false} DrainReachesEOF(s: BufState, c: nat, n: nat)
    requires s.closed && c > 0 && n * c >= |s.pending|
    ensures var o := Run(s, Reads(c, n));
            o.final == BufState([], true) && o.read == s.pending
    decreases n
  {
    if n > 0 {
      var r := ReadStep(s, c);
      assert (n - 1) * c == n * c - c;
      assert Reads(c, n)[1..] == Reads(c, n - 1);
      DrainReachesEOF(r.next, c, n - 1);
    } else {
      assert s.pending == [];
    }
  }
}
