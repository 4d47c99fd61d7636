/** The producers behind `randomReader` and `repeaterStream`. Each producer
    is the body of the background task: it owns the write side of a buffer,
    writes chunks into it and closes it when it finishes. Randomness is an
    input (`noise` for the payload bytes, `draws` for the chunk sizes) and
    the sleeps are summed into a number instead of being slept. */
module Readers {
  import opened Buffers

  /** `randomReader` writes in chunks of this many bytes. */
  const ChunkSize: nat := 8

  /** Which arithmetic a producer follows: the code as it is written, or
      the evidently intended one (the lemmas in ReaderLaws compare them). */
  datatype Variant = AsWritten | Corrected

  function Flatten(chunks: seq<seq<byte>>): seq<byte>
  {
    if chunks == [] then [] else chunks[0] + Flatten(chunks[1..])
  }

  // ---------------------------------------------------------------- randomReader

  /** `noise(i)` is what `rand.Read(b)` leaves in the 8-byte slice `b` on
      pass `i` of the loop. */
  ghost predicate ValidNoise(noise: nat -> seq<byte>)
  {
    forall i :: |noise(i)| == ChunkSize
  }

  /** The chunks the `randomReader` loop writes from pass `i` on: a full
      chunk while at least 8 bytes remain, a tail while some remain, then
      nothing. As written, the tail is the whole 8-byte slice `b`; the
      corrected tail is its first `remaining` bytes. */
  function RandomChunks(v: Variant, size: int, noise: nat -> seq<byte>, i: nat): seq<seq<byte>>
    requires ValidNoise(noise)
    decreases size - ChunkSize * i
  {
    var remaining := size - ChunkSize * i;
    if remaining >= ChunkSize then
      [noise(i)] + RandomChunks(v, size, noise, i + 1)
    else if remaining > 0 then
      [if v == AsWritten then noise(i) else noise(i)[..remaining]] + RandomChunks(v, size, noise, i + 1)
    else
      []
  }

  /** One pass of the `randomReader` loop keeps the producer's relation to
      the whole chunk sequence: the written bytes grow by the pass's chunk
      and the chunks still to come lose it. */
  lemma RandomStep(whole: seq<byte>, before: seq<byte>, after: seq<byte>,
                   chunk: seq<byte>, chunks: seq<seq<byte>>, later: seq<seq<byte>>)
    requires chunks == [chunk] + later
    requires after == before + chunk
    requires whole == before + Flatten(chunks)
    ensures whole == after + Flatten(later)
  {
    assert chunks[0] == chunk && chunks[1..] == later;
    assert before + (chunk + Flatten(later)) == (before + chunk) + Flatten(later);
  }

  /** The background task of `randomReader(size)` for `size >= 1`: the
      loop over `i`, one write per pass while `size - 8*i > 0`, then the
      deferred close. */
  method RandomProducer(v: Variant, wc: Buffer, size: int, noise: nat -> seq<byte>)
    requires ValidNoise(noise) && size >= 1 && !wc.isClosed
    modifies wc
    ensures wc.isClosed
    ensures wc.pending == old(wc.pending) + Flatten(RandomChunks(v, size, noise, 0))
  {
    var b := new byte[ChunkSize];
    var i: nat := 0;
    ghost var whole := old(wc.pending) + Flatten(RandomChunks(v, size, noise, 0));
    while true
      invariant !wc.isClosed
      invariant whole == wc.pending + Flatten(RandomChunks(v, size, noise, i))
      decreases size - ChunkSize * i
    {
      // rand.Read(b)
      forall j | 0 <= j < ChunkSize {
        b[j] := noise(i)[j];
      }
      assert b[..] == noise(i);
      var remaining := size - ChunkSize * i;
      var chunks := RandomChunks(v, size, noise, i);

      if remaining >= ChunkSize {
        var later := RandomChunks(v, size, noise, i + 1);
        assert chunks == [b[..]] + later;
        ghost var before := wc.pending;
        var _, _ := wc.Write(b[..]);
        RandomStep(whole, before, wc.pending, b[..], chunks, later);
        i := i + 1;
        continue;
      }

      if remaining > 0 {
        var tail := if v == AsWritten then b[..] else b[..remaining];
        var later := RandomChunks(v, size, noise, i + 1);
        assert chunks == [tail] + later;
        ghost var before := wc.pending;
        var _, _ := wc.Write(tail);
        RandomStep(whole, before, wc.pending, tail, chunks, later);
        i := i + 1;
        continue;
      }

      break;
    }
    var _ := wc.Close();
  }

  /** `randomReader(size)`: a size below 1 gives an empty buffer that is
      already closed and no producer; otherwise the producer runs to its
      end (the model runs the task to completion before returning). */
  method RandomReader(v: Variant, size: int, noise: nat -> seq<byte>) returns (rwc: Buffer)
    requires ValidNoise(noise)
    ensures fresh(rwc) && rwc.isClosed
    ensures rwc.pending == if size < 1 then [] else Flatten(RandomChunks(v, size, noise, 0))
  {
    rwc := new Buffer([]);
    assert rwc.pending == [];
    if size < 1 {
      var _ := rwc.Close();
      return;
    }
    RandomProducer(v, rwc, size, noise);
  }

  // -------------------------------------------------------------- repeaterStream

  /** Negative sizes and durations count as zero. */
  function Clamp(x: int): (r: nat)
    ensures x >= 0 ==> r == x
    ensures x < 0 ==> r == 0
  {
    if x < 0 then 0 else x
  }

  /** The clamped arguments of `repeaterStream`. */
  datatype Pattern = Pattern(header: byte, headerSize: nat, body: byte, bodySize: nat) {
    function Total(): nat { headerSize + bodySize }
  }

  /** `n` copies of the byte `x`. */
  function Repeat(x: byte, n: nat): (r: seq<byte>)
    ensures |r| == n
  {
    seq(n, _ => x)
  }

  /** The first `e` bytes of the stream the pattern describes: header bytes
      up to `headerSize`, body bytes after that. */
  function Emitted(p: Pattern, e: nat): (s: seq<byte>)
    requires e <= p.Total()
    ensures |s| == e
  {
    if e <= p.headerSize then Repeat(p.header, e)
    else Repeat(p.header, p.headerSize) + Repeat(p.body, e - p.headerSize)
  }

  /** `totalTime / totalBytes` in integer division: the largest per-byte
      delay whose total over all bytes stays within `totalTime`. */
  function DelayTick(totalTime: nat, totalBytes: nat): (tick: nat)
    requires totalBytes >= 1
    ensures tick * totalBytes <= totalTime < (tick + 1) * totalBytes
  {
    totalTime / totalBytes
  }

  /** A draw stands for one `rand.Intn(3) + 1`. */
  type Draw = x: int | 1 <= x <= 3 witness 1

  /** The header bytes one pass of the `repeaterStream` loop sends with
      `remaining` bytes still to send: the draw cut to `remaining`, limited
      to what the header region still needs (`remaining - bodySize`). */
  function HeaderPart(p: Pattern, draw: Draw, remaining: nat): nat
    requires 0 < remaining <= p.Total()
  {
    var toSend := Min(draw, remaining);
    var headerRemaining := remaining - p.bodySize;
    if headerRemaining > 0 then Min(toSend, headerRemaining) else 0
  }

  /** The body bytes the same pass sends: what is left of the cut draw,
      limited as written to `remaining - headerSize` (corrected: to
      `remaining`); none when nothing of the draw is left. */
  function BodyPart(v: Variant, p: Pattern, draw: Draw, remaining: nat): nat
    requires 0 < remaining <= p.Total()
  {
    var left := Min(draw, remaining) - HeaderPart(p, draw, remaining);
    var bodyRemaining := if v == AsWritten then remaining - p.headerSize else remaining;
    if left > 0 && bodyRemaining > 0 then Min(left, bodyRemaining) else 0
  }

  /** The number of bytes the pass hands to `Write`. */
  function ChunkLen(v: Variant, p: Pattern, draw: Draw, remaining: nat): (n: nat)
    requires 0 < remaining <= p.Total()
    // a chunk never exceeds the draw nor what remains
    ensures n <= draw && n <= remaining
  {
    HeaderPart(p, draw, remaining) + BodyPart(v, p, draw, remaining)
  }

  /** Header bytes go out exactly while the header region is unfinished,
      and never past its end. */
  lemma HeaderPartBounds(p: Pattern, draw: Draw, remaining: nat)
    requires 0 < remaining <= p.Total()
    ensures HeaderPart(p, draw, remaining) > 0 <==> remaining > p.bodySize
    ensures HeaderPart(p, draw, remaining) <= Clamp(remaining - p.bodySize)
  {
  }

  /** Body bytes go out only once this pass's header part has finished
      the header region. */
  lemma BodyAfterHeader(v: Variant, p: Pattern, draw: Draw, remaining: nat)
    requires 0 < remaining <= p.Total()
    ensures BodyPart(v, p, draw, remaining) > 0 ==> remaining - HeaderPart(p, draw, remaining) <= p.bodySize
  {
  }

  /** Corrected, every pass sends the whole draw, cut to what remains. */
  lemma CorrectedSendsDraw(p: Pattern, draw: Draw, remaining: nat)
    requires 0 < remaining <= p.Total()
    ensures ChunkLen(Corrected, p, draw, remaining) == Min(draw, remaining)
  {
  }

  /** As written, a pass sends nothing exactly when the header region is
      finished and no more than `headerSize` bytes remain. */
  lemma AsWrittenSendsNothing(p: Pattern, draw: Draw, remaining: nat)
    requires 0 < remaining <= p.Total()
    ensures ChunkLen(AsWritten, p, draw, remaining) == 0
            <==> remaining <= p.bodySize && remaining <= p.headerSize
  {
  }

  /** The bytes one pass hands to `Write`: its header bytes, then its body bytes. */
  function Chunk(v: Variant, p: Pattern, draw: Draw, remaining: nat): (c: seq<byte>)
    requires 0 < remaining <= p.Total()
    ensures |c| == ChunkLen(v, p, draw, remaining)
  {
    Repeat(p.header, HeaderPart(p, draw, remaining)) + Repeat(p.body, BodyPart(v, p, draw, remaining))
  }

  /** Where the loop stands after its passes: bytes still to send and the
      bytes written so far. */
  datatype Progress = Progress(remaining: nat, output: seq<byte>)

  /** The `repeaterStream` loop from `remaining` bytes on, taking draws
      from index `k`, one draw per pass, until nothing remains or the draws
      run out. */
  function RunRepeater(v: Variant, p: Pattern, remaining: nat, draws: seq<Draw>, k: nat): (r: Progress)
    requires remaining <= p.Total()
    ensures r.remaining <= remaining
    ensures |r.output| == remaining - r.remaining
    decreases |draws| - k
  {
    if remaining == 0 || k >= |draws| then Progress(remaining, [])
    else
      var rest := RunRepeater(v, p, remaining - ChunkLen(v, p, draws[k], remaining), draws, k + 1);
      Progress(rest.remaining, Chunk(v, p, draws[k], remaining) + rest.output)
  }

  /** One pass keeps the loop's relation to the whole run: the run from
      `remaining` at draw `k` ends where the run after this pass ends, and
      what was written before the pass plus what the run from there writes
      is what is written after the pass plus what the next run writes. */
  lemma LoopStep(v: Variant, p: Pattern, remaining: nat, n: nat, draws: seq<Draw>, k: nat,
                 remaining': nat, k': nat,
                 whole: Progress, start: seq<byte>, before: seq<byte>, after: seq<byte>)
    requires 0 < remaining <= p.Total() && k < |draws|
    requires n == ChunkLen(v, p, draws[k], remaining)
    requires remaining' == remaining - n && k' == k + 1
    requires after == before + Chunk(v, p, draws[k], remaining)
    requires whole.remaining == RunRepeater(v, p, remaining, draws, k).remaining
    requires start + whole.output == before + RunRepeater(v, p, remaining, draws, k).output
    ensures whole.remaining == RunRepeater(v, p, remaining', draws, k').remaining
    ensures start + whole.output == after + RunRepeater(v, p, remaining', draws, k').output
  {
    AppendAssoc(before, Chunk(v, p, draws[k], remaining), RunRepeater(v, p, remaining - n, draws, k + 1).output);
  }

  lemma AppendAssoc(a: seq<byte>, b: seq<byte>, c: seq<byte>)
    ensures a + (b + c) == (a + b) + c
  {
  }

  /** The time `n` sleeps of `tick` each add up to. */
  function Slept(n: nat, tick: nat): nat
  {
    if n == 0 then 0 else Slept(n - 1, tick) + tick
  }

  /** Sleeping `a` ticks then `b` ticks is sleeping `a + b` ticks. */
  lemma {:induction false} SleptAdd(a: nat, b: nat, tick: nat)
    ensures Slept(a + b, tick) == Slept(a, tick) + Slept(b, tick)
    decreases b
  {
    if b > 0 {
      SleptAdd(a, b - 1, tick);
    }
  }

  /** The sleep total after one more pass of `n` bytes. */
  lemma SleptStep(total: nat, remaining: nat, n: nat, remaining': nat, tick: nat)
    requires n <= remaining <= total && remaining' == remaining - n
    ensures Slept(total - remaining, tick) + Slept(n, tick) == Slept(total - remaining', tick)
  {
    SleptAdd(total - remaining, n, tick);
  }

  /** `n` sleeps of `tick` take `n * tick`. */
  lemma {:induction false} SleptIsProduct(n: nat, tick: nat)
    ensures Slept(n, tick) == n * tick
  {
    if n > 0 {
      SleptIsProduct(n - 1, tick);
    }
  }

  /** `for i := 0; i < n; i++ { time.Sleep(tick) }`: the time slept. */
  method Pace(n: nat, tick: nat) returns (slept: nat)
    ensures slept == Slept(n, tick)
  {
    slept := 0;
    var i := 0;
    while i < n
      invariant 0 <= i <= n
      invariant slept == Slept(i, tick)
    {
      slept := slept + tick;
      i := i + 1;
    }
  }

  /** One pass of the loop body: split the draw, hand the chunk to `Write`
      (the buffer is open, so `n` is the chunk's length). */
  method RepeaterPass(v: Variant, wc: Buffer, p: Pattern, draw: Draw, remaining: nat) returns (n: nat)
    requires 0 < remaining <= p.Total() && !wc.isClosed
    modifies wc
    ensures n == ChunkLen(v, p, draw, remaining)
    ensures wc.pending == old(wc.pending) + Chunk(v, p, draw, remaining)
    ensures !wc.isClosed
  {
    var err;
    n, err := wc.Write(Chunk(v, p, draw, remaining));
  }

  /** The loop of the `repeaterStream` task: one pass per draw while bytes
      remain, each pass writing its chunk and sleeping `delayTick` per byte
      written. */
  method RepeaterLoop(v: Variant, wc: Buffer, p: Pattern, delayTick: nat, draws: seq<Draw>)
    returns (slept: nat, bytesRemaining: nat)
    requires !wc.isClosed && p.Total() >= 1
    modifies wc
    ensures bytesRemaining == RunRepeater(v, p, p.Total(), draws, 0).remaining
    ensures wc.pending == old(wc.pending) + RunRepeater(v, p, p.Total(), draws, 0).output
    ensures !wc.isClosed
    ensures slept == Slept(p.Total() - bytesRemaining, delayTick)
  {
    var totalBytes := p.Total();
    slept := 0;
    bytesRemaining := totalBytes;
    var k := 0;
    ghost var whole := RunRepeater(v, p, totalBytes, draws, 0);
    while bytesRemaining > 0 && k < |draws|
      invariant 0 <= k <= |draws| && bytesRemaining <= totalBytes
      invariant !wc.isClosed
      invariant whole.remaining == RunRepeater(v, p, bytesRemaining, draws, k).remaining
      invariant old(wc.pending) + whole.output == wc.pending + RunRepeater(v, p, bytesRemaining, draws, k).output
      invariant slept == Slept(totalBytes - bytesRemaining, delayTick)
      decreases |draws| - k
    {
      ghost var before := wc.pending;
      var n := RepeaterPass(v, wc, p, draws[k], bytesRemaining);
      var d := Pace(n, delayTick);
      slept := slept + d;

      ghost var R, K := bytesRemaining, k;
      bytesRemaining := bytesRemaining - n;
      k := k + 1;
      SleptStep(totalBytes, R, n, bytesRemaining, delayTick);
      LoopStep(v, p, R, n, draws, K, bytesRemaining, k, whole, old(wc.pending), before, wc.pending);
    }
  }

  /** The background task of `repeaterStream`: clamp the arguments; with no
      bytes to send, sleep `totalTime` and close; otherwise loop, writing
      each chunk and sleeping `delayTick` per byte written, and close once
      nothing remains. When the draws run out first the task is still
      running, so the buffer is still open. `slept` is the total sleep. */
  method RepeaterProducer(v: Variant, wc: Buffer, header: byte, headerSize: int, body: byte,
                          bodySize: int, totalTime: int, draws: seq<Draw>)
    returns (slept: nat, bytesRemaining: nat)
    requires !wc.isClosed
    modifies wc
    ensures var p := Pattern(header, Clamp(headerSize), body, Clamp(bodySize));
            var r := RunRepeater(v, p, p.Total(), draws, 0);
            bytesRemaining == r.remaining
            && wc.pending == old(wc.pending) + r.output
            && (wc.isClosed <==> bytesRemaining == 0)
            && slept == if p.Total() == 0 then Clamp(totalTime)
                        else Slept(p.Total() - bytesRemaining, DelayTick(Clamp(totalTime), p.Total()))
  {
    var p := Pattern(header, Clamp(headerSize), body, Clamp(bodySize));
    var time := Clamp(totalTime);
    var totalBytes := p.Total();
    if totalBytes < 1 {
      slept := time;
      bytesRemaining := 0;
      var _ := wc.Close();
      return;
    }

    var delayTick := DelayTick(time, totalBytes);
    slept, bytesRemaining := RepeaterLoop(v, wc, p, delayTick, draws);
    if bytesRemaining == 0 {
      var _ := wc.Close();
    }
  }

  /** `repeaterStream`: a fresh buffer that the producer fills. */
  method RepeaterStream(v: Variant, header: byte, headerSize: int, body: byte, bodySize: int,
                        totalTime: int, draws: seq<Draw>)
    returns (rwc: Buffer, slept: nat, bytesRemaining: nat)
    ensures fresh(rwc)
    ensures var p := Pattern(header, Clamp(headerSize), body, Clamp(bodySize));
            var r := RunRepeater(v, p, p.Total(), draws, 0);
            bytesRemaining == r.remaining && rwc.pending == r.output
            && (rwc.isClosed <==> bytesRemaining == 0)
  {
    rwc := new Buffer([]);
    slept, bytesRemaining := RepeaterProducer(v, rwc, header, headerSize, body, bodySize, totalTime, draws);
  }
}
