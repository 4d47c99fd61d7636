# MockingBytes core, modelled in Dafny

MockingBytes is a Go test helper that produces fake byte streams: readers whose
contents arrive in chunks, from a background task, over a closable in-memory
buffer. This project models its core:

- **The buffer** (`pkg/mockingbytes/buffer.go`). It is a FIFO of pending bytes
  plus a closed-for-writing flag, with `newBuffer`, `Read`, `Write` and `Close`.
  - It is modelled as the class `Buffers.Buffer`, with the fields `pending` and
    `isClosed`.
  - Each method is proved to move the object's abstract value `View()` exactly
    as a pure step function says: `ReadStep`, `WriteStep` or `CloseStep`.
  - The mutex only makes each method one atomic step, so every interleaving of
    calls is a sequence of steps. `BufferLaws.Run` plays any such sequence.
- **The producers** of `randomReader` and `repeaterStream`
  (`pkg/mockingbytes/readers.go`). These are the background tasks that own the
  write side of a buffer.
  - They are imperative methods: `Readers.RandomProducer` and
    `Readers.RepeaterLoop`/`RepeaterProducer`.
  - Each is proved against a recursive specification: `RandomChunks` for the
    chunks `randomReader` writes, and `RunRepeater` for the passes of the
    `repeaterStream` loop.
  - What those specifications produce is proved in `ReaderLaws`. This covers
    byte counts, the header-then-body shape, pacing, and when the stream
    completes.

Randomness is an input:
- `noise(i)` is what `rand.Read` leaves in the 8-byte slice on pass `i`.
- `draws[k]`, of type `Draw` (1 to 3), is `rand.Intn(3) + 1` on pass `k`.

Sleeps are summed into a number. Both producers take a `Variant`:
- `AsWritten` follows the code.
- `Corrected` follows the evidently intended arithmetic (see "## Findings").

Where the code and its doc comments disagree, the model follows the code.
- `Read`'s comment says an empty buffer answers EOF "unless len(p) is zero".
  The code (buffer.go:32-42) answers EOF for every read of an empty closed
  buffer, whatever `len(p)` is, and `ReadStep` does the same.
- Three places in readers.go do not type-check or would dereference nil against
  buffer.go's `buffer` type:
  - readers.go:11-20 declares a second `buffer` type in the same package.
  - readers.go:73 builds `&buffer{}` with a nil inner buffer.
  - `repeaterStream` declares `rwc` nil at readers.go:126, then closes it at
    readers.go:129 and copies into it at readers.go:170.
- The model uses buffer.go's buffer throughout. `&buffer{}` is an empty open
  buffer. `io.Copy(rwc, buf)` is one `Write` of the chunk into the stream's
  own buffer.

## Model

| member | source | states |
|---|---|---|
| Buffers.LeadingZeros | pkg/mockingbytes/buffer.go:19 | the count `n` of leading zero bytes: `s[..n]` is all zeros and `s[n]`, if any, is not zero |
| Buffers.TrailingZeros | pkg/mockingbytes/buffer.go:19 | the count of trailing zero bytes: that suffix is all zeros and the byte before it, if any, is not zero |
| Buffers.TrimZeros | pkg/mockingbytes/buffer.go:18-24 | `bytes.Trim(buf, "\x00")`: the result is the slice of the seed that starts after its leading zeros, is followed by zeros only, and neither starts nor ends with a zero |
| Buffers.ReadStep | pkg/mockingbytes/buffer.go:28-56 | a read returns bytes from the front, in order, and `data + next.pending == pending` (nothing is lost). With room it takes `min(len(p), pending)` bytes. A zero-length read changes nothing and is an error exactly when bytes are pending. EOF is returned exactly when the read leaves the buffer closed and empty, so an empty open buffer gives (0, nil), an empty closed one gives (0, EOF), and a read that drains a closed buffer returns its bytes with EOF |
| Buffers.WriteStep | pkg/mockingbytes/buffer.go:60-71 | an open buffer appends all of `p` and reports `len(p)` with nil. A closed buffer is unchanged and reports 0 with "cannot write to the closed buffer" |
| Buffers.CloseStep | pkg/mockingbytes/buffer.go:74-85 | close always leaves the buffer closed with its pending bytes kept. It succeeds the first time and answers "already closed" after that |
| Buffers.Buffer.constructor | pkg/mockingbytes/buffer.go:18-24 | `newBuffer(seed)` is open and holds the trimmed seed |
| Buffers.Buffer.Read | pkg/mockingbytes/buffer.go:28-56 | copies into `p` exactly the bytes `ReadStep` returns, leaves the rest of `p` untouched, and moves the object to `ReadStep`'s new state |
| Buffers.Buffer.Write | pkg/mockingbytes/buffer.go:60-71 | moves the object to `WriteStep`'s new state and returns its count and error |
| Buffers.Buffer.Close | pkg/mockingbytes/buffer.go:74-85 | moves the object to `CloseStep`'s new state and returns its error |
| BufferLaws.AllZeroTrimsAway | pkg/mockingbytes/buffer.go:19 | a seed of zero bytes is all leading zeros |
| BufferLaws.TrimZerosEmptyIff | pkg/mockingbytes/buffer.go:18-24 | the trimmed seed is empty if and only if the seed holds only zero bytes |
| BufferLaws.ZeroSeedGivesEmptyBuffer | pkg/mockingbytes/buffer.go:18-24 | `newBuffer` on `n` zero bytes (64 in the tests) starts with nothing pending |
| BufferLaws.TrimZerosIdempotent | pkg/mockingbytes/buffer.go:19 | trimming a trimmed seed changes nothing |
| BufferLaws.TrimmedIsKept | pkg/mockingbytes/buffer.go:19 | a seed that neither starts nor ends with a zero is kept whole |
| BufferLaws.Conservation | pkg/mockingbytes/buffer.go:28-71 | over any history of calls, the bytes read followed by the bytes still pending are the initial pending bytes followed by the bytes the writes accepted (FIFO, nothing lost or duplicated) |
| BufferLaws.AcceptedAreWritesBeforeClose | pkg/mockingbytes/buffer.go:60-85 | an open buffer accepts exactly the writes issued before the first close. A closed buffer accepts nothing and stays closed |
| BufferLaws.WriteAfterCloseChangesNothing | pkg/mockingbytes/buffer.go:64-66 | after a close, a write fails with 0 bytes and leaves the pending bytes as they were before the close |
| BufferLaws.StepNeverRegresses | pkg/mockingbytes/buffer.go:28-85 | no single call moves the buffer back from closed to open, or from exhausted to non-empty |
| BufferLaws.RunNeverRegresses | pkg/mockingbytes/buffer.go:28-85 | over any history the lifecycle Open, ClosedDraining, Exhausted only moves forward |
| BufferLaws.ExhaustedIsFinal | pkg/mockingbytes/buffer.go:32-42 | a closed, empty buffer is inert: every call leaves it as it is, and reads return nothing |
| BufferLaws.ReadsUpToEOFReturnEverything | pkg/mockingbytes/buffer.go:18-85 | starting from `newBuffer(seed)`, once the buffer is exhausted the reads have returned exactly the trimmed seed followed by every byte written before the close |
| BufferLaws.DrainReachesEOF | pkg/mockingbytes/buffer.go:44-53 | `n` reads into slices of length `c > 0` with `n*c >= pending` drain a closed buffer in order and leave it exhausted |
| Readers.RandomProducer | pkg/mockingbytes/readers.go:82-106 | the task writes exactly the chunks `RandomChunks` lists, in order, and then closes the buffer |
| Readers.RandomReader | pkg/mockingbytes/readers.go:71-109 | `size < 1` gives a closed, empty buffer. Otherwise the buffer ends closed and holds the producer's chunks |
| Readers.Clamp | pkg/mockingbytes/readers.go:114-124 | negative sizes and durations become 0, and others are kept |
| Readers.DelayTick | pkg/mockingbytes/readers.go:137 | `tick * totalBytes <= totalTime < (tick + 1) * totalBytes`, which is integer division |
| Readers.ChunkLen | pkg/mockingbytes/readers.go:142-168 | a pass never sends more than its draw nor more than remains |
| Readers.HeaderPartBounds | pkg/mockingbytes/readers.go:148-156 | header bytes are sent exactly while `bytesRemaining > bodySize`, and never more than `bytesRemaining - bodySize` |
| Readers.BodyAfterHeader | pkg/mockingbytes/readers.go:148-168 | body bytes are sent only once the header region is finished |
| Readers.CorrectedSendsDraw | pkg/mockingbytes/readers.go:142-168 | with the corrected body limit, every pass sends `min(draw, bytesRemaining)` |
| Readers.AsWrittenSendsNothing | pkg/mockingbytes/readers.go:148-168 | as written, a pass sends nothing if and only if `bytesRemaining <= bodySize` and `bytesRemaining <= headerSize` |
| Readers.Chunk | pkg/mockingbytes/readers.go:146-168 | the bytes of one pass number exactly `ChunkLen` |
| Readers.RunRepeater | pkg/mockingbytes/readers.go:141-178 | `bytesRemaining` never grows, and it falls by exactly the number of bytes written |
| Readers.SleptIsProduct | pkg/mockingbytes/readers.go:173-175 | `n` sleeps of `tick` add up to `n * tick` |
| Readers.Pace | pkg/mockingbytes/readers.go:173-175 | the sleep loop sleeps `Slept(n, tick)` in total |
| Readers.RepeaterPass | pkg/mockingbytes/readers.go:142-170 | one pass appends its chunk to the open buffer and returns the chunk's length as `n` |
| Readers.RepeaterLoop | pkg/mockingbytes/readers.go:141-178 | the loop ends where `RunRepeater` ends, the buffer grows by exactly `RunRepeater`'s output, and the time slept is `delayTick` per byte sent |
| Readers.RepeaterProducer | pkg/mockingbytes/readers.go:111-179 | clamped arguments; with no bytes the task sleeps `totalTime` and closes. Otherwise it writes `RunRepeater`'s output, sleeps `delayTick` per byte, and closes the buffer if and only if nothing remains |
| Readers.RepeaterStream | pkg/mockingbytes/readers.go:111-182 | the returned buffer holds `RunRepeater`'s output and is closed if and only if the stream completed |
| ReaderLaws.RandomChunkCount | pkg/mockingbytes/readers.go:87-105 | the loop makes one pass per started block of 8 bytes, so `8(m-1) < r <= 8m` for `r > 0` bytes asked for, and no pass for `r <= 0` |
| ReaderLaws.AsWrittenChunksAreFull | pkg/mockingbytes/readers.go:91-101 | as written, every chunk, the tail included, is the full 8-byte slice |
| ReaderLaws.CorrectedWritesSize | pkg/mockingbytes/readers.go:96-101 | with the tail cut to `remaining`, exactly the bytes asked for are written |
| ReaderLaws.CorrectedIsPrefix | pkg/mockingbytes/readers.go:87-105 | the corrected stream is the as-written stream cut to its own length |
| ReaderLaws.RandomReaderAsWrittenLength | pkg/mockingbytes/readers.go:80-105 | as written, `randomReader(size)` delivers a multiple of 8 bytes in `[size, size + 8)`, and delivers exactly `size` if and only if `size` is a multiple of 8 |
| ReaderLaws.RandomReaderOneByteGivesEight | pkg/mockingbytes/readers.go:96-101 | as written, `randomReader(1)` delivers 8 bytes |
| ReaderLaws.RandomReaderCorrectedLength | pkg/mockingbytes/readers.go:96-101 | corrected, `randomReader(size)` delivers exactly `size` bytes: the first `size` bytes of the as-written stream |
| ReaderLaws.EmptyRandomReaderReadsEOF | pkg/mockingbytes/readers.go:75-78 | the closed, empty buffer of `randomReader(size < 1)` answers every read with no bytes and EOF |
| ReaderLaws.ChunkExtendsPattern | pkg/mockingbytes/readers.go:148-168 | the bytes of one pass continue the stream: header bytes are sent while the header is unfinished, and body bytes after that |
| ReaderLaws.RunExtendsPattern | pkg/mockingbytes/readers.go:141-178 | whatever the draws, every byte written continues the pattern `headerSize` headers followed by `bodySize` bodies, from where the stream stands |
| ReaderLaws.RepeaterOutputShape | pkg/mockingbytes/readers.go:141-178 | the whole output is a prefix of `header^headerSize ++ body^bodySize`, and once nothing remains it is exactly that |
| ReaderLaws.FirstPassSendsDraw | pkg/mockingbytes/readers.go:142-168 | the first pass sends the whole draw, cut to the pattern's size |
| ReaderLaws.AsWrittenStuck | pkg/mockingbytes/readers.go:148-168 | as written, with `0 < bytesRemaining <= min(headerSize, bodySize)`, no pass sends anything, whatever the draws |
| ReaderLaws.AsWrittenNeverFinishesLater | pkg/mockingbytes/readers.go:141-178 | as written, with both regions non-empty, a loop that has started but not finished never reaches zero |
| ReaderLaws.AsWrittenBodyBound | pkg/mockingbytes/readers.go:159-163 | as written, a pass's body part is at most `bytesRemaining - headerSize` |
| ReaderLaws.AsWrittenCompletesIff | pkg/mockingbytes/readers.go:141-178 | as written, with both regions non-empty, the stream completes if and only if the first draw covers the whole pattern |
| ReaderLaws.ThreeHeaderTwoBodyNeverCompletes | pkg/mockingbytes/readers.go:159 | as written, a stream of 3 header bytes and 2 body bytes never completes, whatever the draws |
| ReaderLaws.SendsWholeDraw | pkg/mockingbytes/readers.go:142-168 | with the corrected limit, or when header or body is empty, every pass sends `min(draw, bytesRemaining)` |
| ReaderLaws.CompletesWithEnoughDraws | pkg/mockingbytes/readers.go:141-178 | when every pass sends its cut draw, one draw per remaining byte is enough to reach zero |
| ReaderLaws.CorrectedRepeaterCompletes | pkg/mockingbytes/readers.go:141-178 | corrected, the stream always completes given one draw per byte, and is exactly `header^headerSize ++ body^bodySize` |
| ReaderLaws.PacingWithinBudget | pkg/mockingbytes/readers.go:137-175 | the time slept never exceeds `totalTime`. Once every byte is sent, it is more than `totalTime - totalBytes` |

## Left out

- `lagReader` (readers.go:22-69): left out of this model. It is two goroutines and a channel, and it writes to a nil `rwc`.
- The mutex: every method is modelled as one atomic step. Interleavings are sequences of steps (`BufferLaws.Run`).
- Goroutines: each producer runs to its end before the reader is returned. The sleeps are summed into `slept` and no clock is modelled.
- Randomness: `math/rand`, `rand.Seed` and `rand.Read` are inputs (`noise` and `draws`). Which values they produce is not modelled.
- Readers.RepeaterLoop: the source loop has no bound. The model runs at most one pass per draw supplied. A stuck stream (see "## Findings") shows up as draws running out with bytes remaining and the buffer still open, where the source spins for ever.
- `bytes.Buffer` internals: `Reset`, `Grow` and `Cap` do not change the bytes a caller sees, so they are not modelled. Neither is the `ErrTooLarge` panic.
- The second `buffer` type in readers.go:11-20, and its `Close`, which resets the buffer: left out, because it cannot coexist with buffer.go's type in one package.
- The debug `fmt.Println` calls at readers.go:97 and readers.go:100: output only.
- Integer width: Go's `int` and `time.Duration` are unbounded here. One case this misses is the wrap of `totalBytes := headerSize + bodySize` at readers.go:131 when the sum exceeds `math.MaxInt`. With `headerSize = math.MaxInt` and `bodySize = 1`, the sum wraps below 1, so the Go task sleeps `totalTime` and closes with no bytes. Readers.RepeaterProducer instead has a total of at least 1 and writes the pattern.
- Error values are compared by kind (`Status`), not by message identity.

## Findings

| source | as written | input that shows it | evidently intended | confidence | as-written member | corrected member |
|---|---|---|---|---|---|---|
| pkg/mockingbytes/readers.go:96-101 | the tail pass writes the whole 8-byte slice `b`, so `randomReader(size)` delivers `8 * ceil(size / 8)` bytes | `size = 1` delivers 8 bytes | write `b[:remaining]`, delivering exactly `size` bytes | not executed | ReaderLaws.RandomReaderOneByteGivesEight | ReaderLaws.RandomReaderCorrectedLength |
| pkg/mockingbytes/readers.go:159 | `bodyRemaining := bytesRemaining - headerSize` limits the body part. With `headerSize > 0` and `bodySize > 0`, once the header is finished and `bytesRemaining <= headerSize`, every pass sends nothing. The stream completes only when the first draw covers the whole pattern | `repeaterStream(h, 3, b, 2, t)` never completes and the reader never sees EOF | `bodyRemaining := bytesRemaining` (the body region is what remains once the header is done), so the stream always completes | not executed | ReaderLaws.AsWrittenCompletesIff | ReaderLaws.CorrectedRepeaterCompletes |
