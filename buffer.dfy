/** The closable, thread-safe in-memory byte buffer that every stream of the
    library is built on: a FIFO of pending bytes plus a closed-for-writing flag.
    The mutex of the original only makes each method atomic, so every method
    here is one atomic step on the object's two fields. */
module Buffers {

  newtype byte = x: int | 0 <= x < 256

  function Min(a: int, b: int): int { if a <= b then a else b }

  /** The `error` values the buffer's methods return; `Nil` is Go's nil. */
  datatype Status =
    | Nil
    | EOF                 // io.EOF: closed and nothing left to read
    | ErrZeroLengthRead   // a non-empty buffer was read into a 0-byte slice
    | ErrClosedWrite      // "cannot write to the closed buffer"
    | ErrAlreadyClosed    // "already closed"

  /** The lifecycle of a buffer, derived from its two fields. */
  datatype Phase = Open | ClosedDraining | Exhausted

  /** The abstract value of a buffer: its unread bytes and whether it is closed. */
  datatype BufState = BufState(pending: seq<byte>, closed: bool) {
    function Phase(): Phase {
      if !closed then Open
      else if pending != [] then ClosedDraining
      else Exhausted
    }
  }

  /** Lifecycle phases in the only order a buffer can pass through them. */
  function Rank(ph: Phase): nat {
    match ph
    case Open => 0
    case ClosedDraining => 1
    case Exhausted => 2
  }

  ghost predicate AllZero(s: seq<byte>) {
    forall k :: 0 <= k < |s| ==> s[k] == 0
  }

  /** The number of leading 0x00 bytes. */
  function LeadingZeros(s: seq<byte>): (n: nat)
    ensures n <= |s| && AllZero(s[..n]) && (n < |s| ==> s[n] != 0)
  {
    if s != [] && s[0] == 0 then
      var m := LeadingZeros(s[1..]);
      assert s[..1 + m] == [s[0]] + s[1..][..m];
      1 + m
    else 0
  }

  /** The number of trailing 0x00 bytes. */
  function TrailingZeros(s: seq<byte>): (n: nat)
    ensures n <= |s| && AllZero(s[|s| - n..]) && (n < |s| ==> s[|s| - n - 1] != 0)
  {
    if s != [] && s[|s| - 1] == 0 then
      var m := TrailingZeros(s[..|s| - 1]);
      assert s[|s| - 1 - m..] == s[..|s| - 1][|s| - 1 - m..] + [s[|s| - 1]];
      m + 1
    else 0
  }

  /** `bytes.Trim(buf, "\x00")`: the seed with its leading and trailing zero
      bytes cut off. What is left is one contiguous slice of the seed, so
      interior zeros are kept; it starts right after the leading zeros and
      neither starts nor ends with a zero. */
  function TrimZeros(s: seq<byte>): (r: seq<byte>)
    ensures r == [] || (r[0] != 0 && r[|r| - 1] != 0)
    ensures var i := LeadingZeros(s);
            i + |r| <= |s| && r == s[i..i + |r|] && AllZero(s[..i]) && AllZero(s[i + |r|..])
  {
    var i := LeadingZeros(s);
    var t := TrailingZeros(s[i..]);
    TrimmedSlice(s, i, t);
    s[i..|s| - t]
  }

  /** Cutting `i` leading zeros and then `t` trailing zeros of what is left
      leaves a slice that neither starts nor ends with a zero and is
      followed in `s` by zeros only. */
  lemma TrimmedSlice(s: seq<byte>, i: nat, t: nat)
    requires i <= |s| && t <= |s| - i
    requires AllZero(s[..i]) && (i < |s| ==> s[i] != 0)
    requires AllZero(s[i..][|s| - i - t..])
    requires t < |s| - i ==> s[i..][|s| - i - t - 1] != 0
    ensures var r := s[i..|s| - t];
            (r == [] || (r[0] != 0 && r[|r| - 1] != 0))
            && 0 <= i <= |s| - |r| && r == s[i..i + |r|]
            && AllZero(s[..i]) && AllZero(s[i + |r|..])
  {
    var r := s[i..|s| - t];
    assert i + |r| == |s| - t;
    assert s[i..][|s| - i - t..] == s[|s| - t..];
    if r != [] {
      assert r[0] == s[i];
      assert r[|r| - 1] == s[i..][|s| - i - t - 1];
    }
  }

  /** What `Read(p)` does with `len(p) == capacity`: the new state, the bytes
      copied into `p` (the returned `n` is their count) and the error. */
  datatype ReadOutcome = ReadOutcome(next: BufState, data: seq<byte>, status: Status)

  function ReadStep(s: BufState, capacity: nat): (r: ReadOutcome)
    // what is returned is taken from the front, in order, and nothing is lost
    ensures r.data + r.next.pending == s.pending
    ensures |r.data| <= capacity
    ensures r.next.closed == s.closed
    // a read with room for bytes takes as many as there are, up to the room
    ensures capacity > 0 ==> |r.data| == Min(capacity, |s.pending|)
    // reading into no room consumes nothing, and is an error when bytes are pending
    ensures capacity == 0 ==> r.next == s
    ensures r.status == ErrZeroLengthRead <==> capacity == 0 && s.pending != []
    // EOF is reported exactly when the read leaves the buffer exhausted
    ensures r.status == EOF <==> r.next.Phase() == Exhausted
    ensures r.status in {Nil, EOF, ErrZeroLengthRead}
  {
    if |s.pending| < 1 then
      ReadOutcome(s, [], if s.closed then EOF else Nil)
    else
      var n := Min(capacity, |s.pending|);
      if n == 0 && capacity == 0 then
        ReadOutcome(s, [], ErrZeroLengthRead)
      else
        var next := BufState(s.pending[n..], s.closed);
        ReadOutcome(next, s.pending[..n], if s.closed && next.pending == [] then EOF else Nil)
  }

  /** What `Write(p)` does: the new state, the count `n` and the error. */
  datatype WriteOutcome = WriteOutcome(next: BufState, n: nat, status: Status)

  function WriteStep(s: BufState, p: seq<byte>): (r: WriteOutcome)
    ensures r.n <= |p|
    ensures r.next.closed == s.closed
    // an open buffer takes all of p, at the end, and reports its length
    ensures !s.closed ==> r.next.pending == s.pending + p && r.n == |p| && r.status == Nil
    // a closed buffer takes nothing
    ensures s.closed ==> r.next == s && r.n == 0 && r.status == ErrClosedWrite
  {
    if s.closed then WriteOutcome(s, 0, ErrClosedWrite)
    else WriteOutcome(BufState(s.pending + p, false), |p|, Nil)
  }

  /** What `Close()` does: the new state and the error. */
  datatype CloseOutcome = CloseOutcome(next: BufState, status: Status)

  function CloseStep(s: BufState): (r: CloseOutcome)
    // close never discards unread bytes and always leaves the buffer closed
    ensures r.next == BufState(s.pending, true)
    // it succeeds once, the first time
    ensures r.status == (if s.closed then ErrAlreadyClosed else Nil)
  {
    if s.closed then CloseOutcome(s, ErrAlreadyClosed)
    else CloseOutcome(BufState(s.pending, true), Nil)
  }

  /** The buffer object. Each method is one atomic step whose effect on
      `View()` is the corresponding step function above. */
  class Buffer {
    var pending: seq<byte>
    var isClosed: bool

    function View(): BufState
      reads this
    {
      BufState(pending, isClosed)
    }

    /** `newBuffer(seed)`: an open buffer holding the trimmed seed. */
    constructor (seed: seq<byte>)
      ensures View() == BufState(TrimZeros(seed), false)
    {
      pending := TrimZeros(seed);
      isClosed := false;
    }

    /** Copies up to `p.Length` pending bytes into `p` and removes them. It
        never blocks: an empty open buffer answers (0, Nil). */
    method Read(p: array<byte>) returns (n: nat, err: Status)
      modifies this, p
      ensures var r := ReadStep(old(View()), p.Length);
              View() == r.next && err == r.status && n == |r.data|
              && p[..n] == r.data && p[n..] == old(p[n..])
    {
      if |pending| < 1 {
        if isClosed {
          return 0, EOF;
        }
        return 0, Nil;
      }

      n := Min(p.Length, |pending|);
      var i := 0;
      while i < n
        invariant 0 <= i <= n
        invariant pending == old(pending) && isClosed == old(isClosed)
        invariant p[..i] == pending[..i]
        invariant p[n..] == old(p[n..])
      {
        p[i] := pending[i];
        i := i + 1;
      }
      pending := pending[n..];

      if n == 0 && p.Length == 0 {
        return 0, ErrZeroLengthRead;
      }

      if isClosed && |pending| == 0 {
        return n, EOF;
      }

      return n, Nil;
    }

    /** Appends `p` while the buffer is open; fails once it is closed. */
    method Write(p: seq<byte>) returns (n: nat, err: Status)
      modifies this
      ensures var r := WriteStep(old(View()), p);
              View() == r.next && n == r.n && err == r.status
    {
      if isClosed {
        return 0, ErrClosedWrite;
      }
      pending := pending + p;
      return |p|, Nil;
    }

    /** Closes the buffer for writing; unread bytes stay readable. */
    method Close() returns (err: Status)
      modifies this
      ensures var r := CloseStep(old(View()));
              View() == r.next && err == r.status
    {
      if isClosed {
        return ErrAlreadyClosed;
      }
      isClosed := true;
      return Nil;
    }
  }
}
