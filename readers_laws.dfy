/** What the producers of `randomReader` and `repeaterStream` write, for the
    code as written and for the corrected arithmetic. */
module ReaderLaws {
  import opened Buffers
  import opened Readers

  // ---------------------------------------------------------------- randomReader

  /** The loop makes one pass per started block of 8 bytes: with `m` the
      number of chunks written from pass `i` on and `r` the bytes still
      asked for, `8 * (m - 1) < r <= 8 * m` when `r > 0`, and no chunk at
      all otherwise. Every chunk but the last is a full 8-byte block. */
  lemma {:induction false} RandomChunkCount(v: Variant, size: int, noise: nat -> seq<byte>, i: nat)
    requires ValidNoise(noise)
    ensures var m := |RandomChunks(v, size, noise, i)|;
            var r := size - ChunkSize * i;
            (r <= 0 ==> m == 0) && (r > 0 ==> ChunkSize * (m - 1) < r <= ChunkSize * m)
    decreases size - ChunkSize * i
  {
    if size - ChunkSize * i > 0 {
      RandomChunkCount(v, size, noise, i + 1);
    }
  }

  /** As written, every chunk, the tail included, is the whole 8-byte slice
      `b`, so the producer writes exactly `8 * m` bytes. */
  lemma {:induction false} AsWrittenChunksAreFull(size: int, noise: nat -> seq<byte>, i: nat)
    requires ValidNoise(noise)
    ensures |Flatten(RandomChunks(AsWritten, size, noise, i))| == ChunkSize * |RandomChunks(AsWritten, size, noise, i)|
    decreases size - ChunkSize * i
  {
    var r := size - ChunkSize * i;
    if r > 0 {
      AsWrittenChunksAreFull(size, noise, i + 1);
      assert |noise(i)| == ChunkSize;
    }
  }

  /** Corrected, the producer writes exactly the bytes still asked for. */
  lemma {:induction false} CorrectedWritesSize(size: int, noise: nat -> seq<byte>, i: nat)
    requires ValidNoise(noise)
    ensures |Flatten(RandomChunks(Corrected, size, noise, i))| == Clamp(size - ChunkSize * i)
    decreases size - ChunkSize * i
  {
    var r := size - ChunkSize * i;
    if r > 0 {
      CorrectedWritesSize(size, noise, i + 1);
      assert |noise(i)| == ChunkSize;
    }
  }

  /** The corrected stream is the as-written stream cut to `size` bytes:
      the two agree on every byte the caller asked for. */
  lemma {:induction false} CorrectedIsPrefix(size: int, noise: nat -> seq<byte>, i: nat)
    requires ValidNoise(noise)
    ensures var asWritten := Flatten(RandomChunks(AsWritten, size, noise, i));
            var corrected := Flatten(RandomChunks(Corrected, size, noise, i));
            |corrected| <= |asWritten| && corrected == asWritten[..|corrected|]
    decreases size - ChunkSize * i
  {
    var r := size - ChunkSize * i;
    if r > 0 {
      CorrectedIsPrefix(size, noise, i + 1);
      assert |noise(i)| == ChunkSize;
      var restA := Flatten(RandomChunks(AsWritten, size, noise, i + 1));
      var restC := Flatten(RandomChunks(Corrected, size, noise, i + 1));
      if r >= ChunkSize {
        assert Flatten(RandomChunks(AsWritten, size, noise, i)) == noise(i) + restA;
        assert Flatten(RandomChunks(Corrected, size, noise, i)) == noise(i) + restC;
        assert (noise(i) + restA)[..|noise(i) + restC|] == noise(i) + restA[..|restC|];
      } else {
        assert RandomChunks(AsWritten, size, noise, i + 1) == [];
        assert RandomChunks(Corrected, size, noise, i + 1) == [];
        assert Flatten(RandomChunks(AsWritten, size, noise, i)) == noise(i) + [];
        assert Flatten(RandomChunks(Corrected, size, noise, i)) == noise(i)[..r] + [];
      }
    }
  }

  /** `randomReader(size)` as written delivers `8 * ceil(size / 8)` bytes:
      the byte count is a multiple of 8 in the window `size <= n < size + 8`,
      and it equals `size` exactly when `size` is a multiple of 8. */
  lemma RandomReaderAsWrittenLength(size: int, noise: nat -> seq<byte>)
    requires ValidNoise(noise) && size >= 1
    ensures var n := |Flatten(RandomChunks(AsWritten, size, noise, 0))|;
            n % ChunkSize == 0 && size <= n < size + ChunkSize
            && (n == size <==> size % ChunkSize == 0)
  {
    RandomChunkCount(AsWritten, size, noise, 0);
    AsWrittenChunksAreFull(size, noise, 0);
    var m := |RandomChunks(AsWritten, size, noise, 0)|;
    if size % ChunkSize == 0 {
      var q := size / ChunkSize;
      assert size == ChunkSize * q;
      assert q == m;
    }
  }

  /** The smallest case that shows it: asked for 1 byte, the reader
      delivers 8. */
  lemma RandomReaderOneByteGivesEight(noise: nat -> seq<byte>)
    requires ValidNoise(noise)
    ensures |Flatten(RandomChunks(AsWritten, 1, noise, 0))| == 8
  {
    RandomReaderAsWrittenLength(1, noise);
  }

  /** The corrected `randomReader(size)` delivers exactly `size` bytes, the
      first `size` bytes of what the code as written delivers. */
  lemma RandomReaderCorrectedLength(size: int, noise: nat -> seq<byte>)
    requires ValidNoise(noise) && size >= 1
    ensures var corrected := Flatten(RandomChunks(Corrected, size, noise, 0));
            var asWritten := Flatten(RandomChunks(AsWritten, size, noise, 0));
            |corrected| == size && size <= |asWritten| && corrected == asWritten[..size]
  {
    CorrectedWritesSize(size, noise, 0);
    RandomReaderAsWrittenLength(size, noise);
    CorrectedIsPrefix(size, noise, 0);
  }

  /** A `randomReader` with a size below 1 is closed and empty: every read
      of it returns nothing together with EOF. */
  lemma EmptyRandomReaderReadsEOF(capacity: nat)
    ensures ReadStep(BufState([], true), capacity) == ReadOutcome(BufState([], true), [], EOF)
  {
  }

  // -------------------------------------------------------------- repeaterStream

  lemma RepeatAdd(x: byte, a: nat, b: nat)
    ensures Repeat(x, a) + Repeat(x, b) == Repeat(x, a + b)
  {
  }

  /** Every pass extends the pattern: the first `e` bytes of the stream,
      followed by the pass's chunk, are the first `e + n` bytes of the
      stream, for the code as written and corrected alike. So header bytes
      never follow body bytes. */
  lemma ChunkExtendsPattern(v: Variant, p: Pattern, draw: Draw, remaining: nat)
    requires 0 < remaining <= p.Total()
    ensures Emitted(p, p.Total() - remaining) + Chunk(v, p, draw, remaining)
            == Emitted(p, p.Total() - (remaining - ChunkLen(v, p, draw, remaining)))
  {
    var e := p.Total() - remaining;
    var hp := HeaderPart(p, draw, remaining);
    var bp := BodyPart(v, p, draw, remaining);
    var H, B := p.header, p.body;
    HeaderPartBounds(p, draw, remaining);
    BodyAfterHeader(v, p, draw, remaining);
    assert Chunk(v, p, draw, remaining) == Repeat(H, hp) + Repeat(B, bp);
    assert ChunkLen(v, p, draw, remaining) == hp + bp;
    if hp == 0 {
      BodyChunk(p, e, bp);
    } else if bp == 0 {
      HeaderChunk(p, e, hp);
    } else {
      HeaderBodyChunk(p, e, hp, bp);
    }
  }

  /** A chunk that starts inside the header region and stays in it. */
  lemma HeaderChunk(p: Pattern, e: nat, hp: nat)
    requires e + hp <= p.headerSize
    ensures Emitted(p, e) + (Repeat(p.header, hp) + Repeat(p.body, 0)) == Emitted(p, e + hp)
  {
    RepeatAdd(p.header, e, hp);
    assert Repeat(p.body, 0) == [];
    assert Repeat(p.header, hp) + [] == Repeat(p.header, hp);
  }

  /** A chunk that finishes the header region and goes on into the body. */
  lemma HeaderBodyChunk(p: Pattern, e: nat, hp: nat, bp: nat)
    requires e + hp == p.headerSize && bp > 0 && e + hp + bp <= p.Total()
    ensures Emitted(p, e) + (Repeat(p.header, hp) + Repeat(p.body, bp)) == Emitted(p, e + hp + bp)
  {
    var H, B := p.header, p.body;
    RepeatAdd(H, e, hp);
    AppendAssoc(Repeat(H, e), Repeat(H, hp), Repeat(B, bp));
    assert e + hp + bp - p.headerSize == bp;
  }

  /** A chunk that starts past the header region holds body bytes only. */
  lemma BodyChunk(p: Pattern, e: nat, bp: nat)
    requires p.headerSize <= e && e + bp <= p.Total()
    ensures Emitted(p, e) + (Repeat(p.header, 0) + Repeat(p.body, bp)) == Emitted(p, e + bp)
  {
    var H, B := p.header, p.body;
    assert Repeat(H, 0) == [];
    assert [] + Repeat(B, bp) == Repeat(B, bp);
    if bp > 0 {
      RepeatAdd(B, e - p.headerSize, bp);
      AppendAssoc(Repeat(H, p.headerSize), Repeat(B, e - p.headerSize), Repeat(B, bp));
      assert e + bp - p.headerSize == e - p.headerSize + bp;
    } else {
      assert Repeat(B, bp) == [];
    }
  }

  lemma ExtendStep(done: seq<byte>, c: seq<byte>, later: seq<byte>, mid: seq<byte>,
                   whole: seq<byte>, out: seq<byte>)
    requires done + c == mid && mid + later == whole && out == c + later
    ensures done + out == whole
  {
    AppendAssoc(done, c, later);
  }

  /** What the loop writes from `remaining` on continues the pattern: the
      stream so far followed by the run's output is the stream up to where
      the run stops. */
  lemma {:induction false} RunExtendsPattern(v: Variant, p: Pattern, remaining: nat, draws: seq<Draw>, k: nat)
    requires remaining <= p.Total()
    ensures var r := RunRepeater(v, p, remaining, draws, k);
            Emitted(p, p.Total() - remaining) + r.output == Emitted(p, p.Total() - r.remaining)
    decreases |draws| - k
  {
    if remaining > 0 && k < |draws| {
      var n := ChunkLen(v, p, draws[k], remaining);
      RunExtendsPattern(v, p, remaining - n, draws, k + 1);
      PassExtendsPattern(v, p, remaining, n, draws, k);
    } else {
      StoppedRunExtendsPattern(v, p, remaining, draws, k);
    }
  }

  /** A run that stops at once writes nothing and so stays on the pattern. */
  lemma StoppedRunExtendsPattern(v: Variant, p: Pattern, remaining: nat, draws: seq<Draw>, k: nat)
    requires remaining <= p.Total()
    requires remaining == 0 || k >= |draws|
    ensures var r := RunRepeater(v, p, remaining, draws, k);
            Emitted(p, p.Total() - remaining) + r.output == Emitted(p, p.Total() - r.remaining)
  {
    var done := Emitted(p, p.Total() - remaining);
    assert RunRepeater(v, p, remaining, draws, k) == Progress(remaining, []);
    assert done + [] == done;
  }

  /** One pass of the loop keeps the run on the pattern, given that the
      rest of the run does. */
  lemma PassExtendsPattern(v: Variant, p: Pattern, remaining: nat, n: nat, draws: seq<Draw>, k: nat)
    requires 0 < remaining <= p.Total() && k < |draws|
    requires n == ChunkLen(v, p, draws[k], remaining)
    requires var rest := RunRepeater(v, p, remaining - n, draws, k + 1);
             Emitted(p, p.Total() - (remaining - n)) + rest.output == Emitted(p, p.Total() - rest.remaining)
    ensures var r := RunRepeater(v, p, remaining, draws, k);
            Emitted(p, p.Total() - remaining) + r.output == Emitted(p, p.Total() - r.remaining)
  {
    var c := Chunk(v, p, draws[k], remaining);
    var here := RunRepeater(v, p, remaining, draws, k);
    var rest := RunRepeater(v, p, remaining - n, draws, k + 1);
    ChunkExtendsPattern(v, p, draws[k], remaining);
    ExtendStep(Emitted(p, p.Total() - remaining), c, rest.output, Emitted(p, p.Total() - (remaining - n)),
               Emitted(p, p.Total() - rest.remaining), here.output);
  }

  /** Nothing sent yet: the stream so far is empty. */
  lemma EmittedNone(p: Pattern)
    ensures Emitted(p, 0) == []
  {
  }

  /** Everything sent: the whole header, then the whole body. */
  lemma EmittedAll(p: Pattern)
    ensures Emitted(p, p.Total()) == Repeat(p.header, p.headerSize) + Repeat(p.body, p.bodySize)
  {
    if p.bodySize == 0 {
      assert Repeat(p.body, 0) == [];
      assert Repeat(p.header, p.headerSize) + [] == Repeat(p.header, p.headerSize);
    }
  }

  /** The whole stream `repeaterStream` produces is a prefix of `headerSize`
      header bytes followed by `bodySize` body bytes; when the loop reaches
      zero it is exactly that. */
  lemma RepeaterOutputShape(v: Variant, p: Pattern, draws: seq<Draw>)
    ensures var r := RunRepeater(v, p, p.Total(), draws, 0);
            r.output == Emitted(p, p.Total() - r.remaining)
            && (r.remaining == 0 ==> r.output == Repeat(p.header, p.headerSize) + Repeat(p.body, p.bodySize))
  {
    var r := RunRepeater(v, p, p.Total(), draws, 0);
    RunExtendsPattern(v, p, p.Total(), draws, 0);
    EmittedNone(p);
    assert [] + r.output == r.output;
    EmittedAll(p);
  }

  /** The first pass always sends the whole draw, cut to the pattern's size,
      as written or corrected. */
  lemma FirstPassSendsDraw(v: Variant, p: Pattern, draw: Draw)
    requires p.Total() >= 1
    ensures ChunkLen(v, p, draw, p.Total()) == Min(draw, p.Total())
  {
  }

  /** As written, once the header region is finished and no more than
      `headerSize` bytes remain (`0 < remaining <= min(headerSize, bodySize)`),
      the loop is stuck: no pass sends anything, whatever the draws, so the
      producer never closes the buffer. */
  lemma {:induction false} AsWrittenStuck(p: Pattern, remaining: nat, draws: seq<Draw>, k: nat)
    requires 0 < remaining <= p.headerSize && remaining <= p.bodySize
    ensures RunRepeater(AsWritten, p, remaining, draws, k) == Progress(remaining, [])
    decreases |draws| - k
  {
    if k < |draws| {
      AsWrittenSendsNothing(p, draws[k], remaining);
      AsWrittenStuck(p, remaining, draws, k + 1);
      assert Chunk(AsWritten, p, draws[k], remaining) == [];
    }
  }

  /** As written, with both regions non-empty, a pass after the first never
      sends the last byte: from `0 < remaining < total` the loop never
      reaches zero. */
  lemma {:induction false} AsWrittenNeverFinishesLater(p: Pattern, remaining: nat, draws: seq<Draw>, k: nat)
    requires p.headerSize > 0 && p.bodySize > 0
    requires 0 < remaining < p.Total()
    ensures RunRepeater(AsWritten, p, remaining, draws, k).remaining > 0
    decreases |draws| - k
  {
    if k < |draws| {
      var n := ChunkLen(AsWritten, p, draws[k], remaining);
      HeaderPartBounds(p, draws[k], remaining);
      AsWrittenBodyBound(p, draws[k], remaining);
      assert n < remaining;
      AsWrittenNeverFinishesLater(p, remaining - n, draws, k + 1);
    }
  }

  /** As written, a body part never reaches past `remaining - headerSize`. */
  lemma AsWrittenBodyBound(p: Pattern, draw: Draw, remaining: nat)
    requires 0 < remaining <= p.Total()
    ensures BodyPart(AsWritten, p, draw, remaining) <= Clamp(remaining - p.headerSize)
  {
  }

  /** As written, with a non-empty header and a non-empty body, the stream
      is completed exactly when the first draw covers the whole pattern,
      which needs `headerSize + bodySize <= 3`; otherwise the producer
      stalls and the buffer is never closed. */
  lemma AsWrittenCompletesIff(p: Pattern, draws: seq<Draw>)
    requires p.headerSize > 0 && p.bodySize > 0
    ensures RunRepeater(AsWritten, p, p.Total(), draws, 0).remaining == 0
            <==> |draws| > 0 && draws[0] >= p.Total()
  {
    var r := RunRepeater(AsWritten, p, p.Total(), draws, 0);
    if |draws| > 0 {
      var n := ChunkLen(AsWritten, p, draws[0], p.Total());
      FirstPassSendsDraw(AsWritten, p, draws[0]);
      assert r.remaining == RunRepeater(AsWritten, p, p.Total() - n, draws, 1).remaining;
      if n < p.Total() {
        AsWrittenNeverFinishesLater(p, p.Total() - n, draws, 1);
      } else {
        assert RunRepeater(AsWritten, p, 0, draws, 1).remaining == 0;
      }
    } else {
      assert r == Progress(p.Total(), []);
    }
  }

  /** The concrete stall: a stream of three header bytes and two body
      bytes is never completed, whatever the draws. */
  lemma ThreeHeaderTwoBodyNeverCompletes(header: byte, body: byte, draws: seq<Draw>)
    ensures RunRepeater(AsWritten, Pattern(header, 3, body, 2), 5, draws, 0).remaining > 0
  {
    AsWrittenCompletesIff(Pattern(header, 3, body, 2), draws);
  }

  /** Every pass sends its whole cut draw in the corrected code, and also in
      the code as written when the header or the body is empty (the two
      regions then cannot overlap). */
  lemma SendsWholeDraw(v: Variant, p: Pattern, draw: Draw, remaining: nat)
    requires 0 < remaining <= p.Total()
    requires v == Corrected || p.headerSize == 0 || p.bodySize == 0
    ensures ChunkLen(v, p, draw, remaining) == Min(draw, remaining)
  {
  }

  /** With at least one draw per remaining byte, a loop that sends every
      cut draw reaches zero. */
  lemma {:induction false} CompletesWithEnoughDraws(v: Variant, p: Pattern, remaining: nat, draws: seq<Draw>, k: nat)
    requires remaining <= p.Total() && k <= |draws|
    requires v == Corrected || p.headerSize == 0 || p.bodySize == 0
    requires |draws| - k >= remaining
    ensures RunRepeater(v, p, remaining, draws, k).remaining == 0
    decreases |draws| - k
  {
    if remaining > 0 {
      SendsWholeDraw(v, p, draws[k], remaining);
      CompletesWithEnoughDraws(v, p, remaining - ChunkLen(v, p, draws[k], remaining), draws, k + 1);
    }
  }

  /** The corrected stream always completes, given at least one draw per
      byte, and is then exactly the header bytes followed by the body bytes. */
  lemma CorrectedRepeaterCompletes(p: Pattern, draws: seq<Draw>)
    requires |draws| >= p.Total()
    ensures var r := RunRepeater(Corrected, p, p.Total(), draws, 0);
            r.remaining == 0 && r.output == Repeat(p.header, p.headerSize) + Repeat(p.body, p.bodySize)
  {
    CompletesWithEnoughDraws(Corrected, p, p.Total(), draws, 0);
    RepeaterOutputShape(Corrected, p, draws);
  }

  /** The pacing stays within the budget: the producer never sleeps more
      than `totalTime`, and once every byte is sent it has slept more than
      `totalTime - totalBytes`. */
  lemma PacingWithinBudget(totalTime: nat, totalBytes: nat, sent: nat)
    requires totalBytes >= 1 && sent <= totalBytes
    ensures Slept(sent, DelayTick(totalTime, totalBytes)) <= totalTime
    ensures sent == totalBytes ==> totalTime < Slept(sent, DelayTick(totalTime, totalBytes)) + totalBytes
  {
    var tick := DelayTick(totalTime, totalBytes);
    SleptIsProduct(sent, tick);
    SleptIsProduct(totalBytes, tick);
    SleptMonotone(sent, totalBytes, tick);
    assert tick * totalBytes == totalBytes * tick;
    assert (tick + 1) * totalBytes == totalBytes * tick + totalBytes;
  }

  /** More bytes sent never means less time slept. */
  lemma {:induction false} SleptMonotone(a: nat, b: nat, tick: nat)
    requires a <= b
    ensures Slept(a, tick) <= Slept(b, tick)
    decreases b
  {
    if a < b {
      SleptMonotone(a, b - 1, tick);
    }
  }
}
