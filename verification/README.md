# fMP4 part accumulator of the mediamtx recorder, in Dafny

This project models the part accumulator of the recorder's fragmented-MP4
format (`formatFMP4Part`). A recording segment is cut into parts. Between two
flushes a part collects, for each track:

- the run of samples that becomes one `fmp4.PartTrack` (its ID, its BaseTime
  in track ticks since the segment start, its samples in arrival order);
- a frame counter;
- a frame-rate estimate, `TimeScale / Duration` of the first sample with a
  positive duration, which then sticks;
- the latest sample end time seen (`endDTS`), from which the part's duration
  is computed.

The project also models the two int64 time-conversion helpers the part
calls: `timestampToDuration` and `multiplyAndDivide`.

Files:

- `go_numeric.dfy` (module `GoNumeric`): Go's int64 arithmetic as the source
  uses it. It wraps around on overflow. Its `/` truncates toward zero; Dafny's
  `/` is Euclidean, so the truncating quotient is defined and characterised
  by its quotient law. It also covers `uint64(x)` and the float-to-int
  conversion.
- `timestamp.dfy` (module `Timestamp`): the two helpers, with their test
  vectors and their monotonicity, bounds and cancellation laws.
- `format_fmp4_part.dfy`, with two modules:
  - `FormatFMP4Part` holds the part's state twice. The value `PartState`
    carries the transition `AfterWrite` and the invariant `Inv`. The class
    `Part` updates its fields in place as the source does. `Part.Write` is
    proved to reach exactly `AfterWrite` of its old state and to keep the
    invariant.
  - `FormatFMP4PartWrites` covers sequences of writes. After `initialize`
    and any writes, each track's run holds exactly its samples in order, its
    count is the number of its writes, its ID and BaseTime come from its
    first write, and its rate comes from its first timed sample. It also
    proves that rates stick and that `endDTS` is the latest sample end.
- `format_fmp4_part_scenarios.dfy` (module `FormatFMP4PartScenarios`): the
  situations of the part's own tests, replayed on the class.

Tracks are keyed by pointer in the source. Here a `Track` value carries a
`key` standing for that pointer's identity, next to the ID and TimeScale of
its init track. A sample's duration is a `uint32` in the source; the model
writes only samples whose duration lies in that range (`IsSample`).

## Model

| member | source | states |
|---|---|---|
| GoNumeric.TruncDiv | internal/recorder/timestamp_test.go:12 | Go's integer `/`: the result satisfies the truncating quotient law (remainder smaller than the divisor, with the dividend's sign) and is no larger in magnitude than the dividend |
| GoNumeric.TruncQuotientUnique | internal/recorder/timestamp_test.go:64-66 | at most one integer satisfies the quotient law, so TruncDiv is exactly Go's quotient |
| GoNumeric.TruncQuotientMonotone | internal/recorder/timestamp_test.go:64-66 | with a positive divisor, a larger non-negative dividend never gives a smaller quotient |
| GoNumeric.TruncDivOfMultiple | internal/recorder/timestamp_test.go:64-66 | dividing d*b by d gives b back exactly |
| GoNumeric.Wrap64 | internal/recorder/timestamp_test.go:65 | int64 arithmetic always lands in the int64 range, differs from the exact value by a multiple of 2^64 (which fixes it uniquely), and is the exact value whenever that fits |
| GoNumeric.Add64 | internal/recorder/format_fmp4_part.go:113 | Go's int64 `+` as written: always an int64 congruent to the exact sum modulo 2^64 (Go's wrapped sum), and the exact sum whenever that fits |
| GoNumeric.Sub64 | internal/recorder/format_fmp4_part.go:94 | Go's int64 `-` as written: always an int64 congruent to the exact difference modulo 2^64 (Go's wrapped difference), and the exact difference whenever that fits |
| GoNumeric.Mul64 | internal/recorder/timestamp_test.go:65 | Go's int64 `*` as written: always an int64 congruent to the exact product modulo 2^64 (Go's wrapped product), and the exact product whenever that fits |
| GoNumeric.Div64 | internal/recorder/timestamp_test.go:65 | Go's int64 `/` as written: always an int64; for an int64 dividend, the truncated quotient, except that the most negative int64 divided by -1 wraps back to itself |
| GoNumeric.Seconds | internal/recorder/format_fmp4_part.go:134 | `Duration.Seconds()` taken exactly: the seconds times 1e9 give back the nanoseconds |
| GoNumeric.ToUint64 | internal/recorder/format_fmp4_part.go:94-95 | `uint64(x)` is in [0, 2^64), leaves non-negative values unchanged and maps a negative int64 x to x + 2^64 |
| GoNumeric.TruncReal | internal/recorder/format_fmp4_part.go:134 | `int(x)` of a float drops the fraction toward zero: floor for non-negative x, ceiling for negative x |
| Timestamp.TimestampToDuration | internal/recorder/timestamp_test.go:11-13 | `ts * time.Second / timeScale` in int64: always an int64; whenever the product fits, the truncated quotient of ts seconds in nanoseconds by the scale, for a scale of either sign |
| Timestamp.MultiplyAndDivide | internal/recorder/timestamp_test.go:64-66 | `a * b / c` in int64: always an int64; whenever a*b fits, the truncated quotient for a divisor of either sign, except that the most negative int64 divided by -1 wraps back to itself |
| Timestamp.TimestampToDurationOfZero | internal/recorder/timestamp_test.go:41-45 | zero ticks last zero nanoseconds at any scale |
| Timestamp.TimestampToDurationOfOneSecond | internal/recorder/timestamp_test.go:22-39 | `timeScale` ticks at that scale are exactly one second |
| Timestamp.TimestampToDurationExamples | internal/recorder/timestamp_test.go:16-54 | the four test vectors: 90000@90kHz and 48000@48kHz are 1 s, 45000@90kHz is 500 ms, 0 is 0 |
| Timestamp.TimestampToDurationMonotone | internal/recorder/timestamp_test.go:11-13 | for a positive scale and 0 <= ts1 <= ts2 without overflow, the duration of ts1 is at most that of ts2 |
| Timestamp.TimestampToDurationBounds | internal/recorder/timestamp_test.go:11-13 | a non-negative tick count lasts between 0 and ts seconds |
| Timestamp.MultiplyAndDivideCancels | internal/recorder/timestamp_test.go:64-66 | `multiplyAndDivide(c, b, c) == b` whenever c*b fits in an int64 |
| Timestamp.MultiplyAndDivideExample | internal/recorder/timestamp_test.go:56-61 | `multiplyAndDivide(90000, 48000, 90000) == 48000` |
| FormatFMP4Part.AfterWrite | internal/recorder/format_fmp4_part.go:89-119 | one write: other tracks' entries in all three maps unchanged; the track gains a run, with its ID and the BaseTime of this dts, only if it had none; the sample is appended; the count becomes the old count plus one; the rate is set only from a positive duration, and only for a new track or a stored rate of zero; endDTS becomes the larger of itself and the sample's end |
| FormatFMP4Part.FrameRate | internal/recorder/format_fmp4_part.go:103-107 | `float64(TimeScale) / float64(Duration)` as written, taken exactly: the rate times the duration gives the time scale, and it is positive for a positive time scale |
| FormatFMP4Part.SampleEnd | internal/recorder/format_fmp4_part.go:113 | `dts + timestampToDuration(Duration, TimeScale)` as written: always an int64 congruent to that sum modulo 2^64 (Go's wrapped sum), and the exact sum whenever that fits |
| FormatFMP4Part.BaseTimeOfDelta | internal/recorder/format_fmp4_part.go:94-95 | without overflow, BaseTime is the truncated tick count of dts - segment start; a sample before the segment start gets that negative count plus 2^64 |
| FormatFMP4Part.FirstTimedDuration | internal/recorder/format_fmp4_part.go:102-108 | the duration of the first sample whose duration is positive: positive, and every earlier sample has none |
| FormatFMP4Part.HasTimedAppend | internal/recorder/format_fmp4_part.go:102-110 | a run with a sample appended has a timed sample exactly when the run had one or the new sample is timed |
| FormatFMP4Part.FirstTimedAppendKeeps | internal/recorder/format_fmp4_part.go:105-110 | appending a sample to a run that already has a timed sample keeps its first timed duration |
| FormatFMP4Part.FirstTimedAppendSupplies | internal/recorder/format_fmp4_part.go:102-108 | appending a timed sample to a run without one makes it the first timed sample |
| FormatFMP4Part.EmptyPartInv | internal/recorder/format_fmp4_part.go:54-58 | the empty maps made by initialize satisfy the invariant |
| FormatFMP4Part.RunInvUntouched | internal/recorder/format_fmp4_part.go:89-119 | a write leaves the invariant of every other track's run intact |
| FormatFMP4Part.WrittenRunInv | internal/recorder/format_fmp4_part.go:89-111 | after a write, the written track's count equals its number of samples, its run keeps its ID, and its rate is stored exactly when one of its samples is timed, as the rate of the first such sample |
| FormatFMP4Part.WritePreservesInv | internal/recorder/format_fmp4_part.go:89-119 | every write keeps the whole invariant: the count and run maps share their keys, rates exist only for tracks with runs, and every run satisfies its own invariant |
| FormatFMP4Part.Part.constructor | internal/recorder/format_fmp4_part.go:43-52 | the struct literal: the given segment start, sequence number and start DTS, no entries, endDTS zero |
| FormatFMP4Part.Part.Initialize | internal/recorder/format_fmp4_part.go:54-58 | the three maps become empty (so the invariant holds); segment, sequence number, startDTS and endDTS are untouched |
| FormatFMP4Part.Part.Write | internal/recorder/format_fmp4_part.go:89-119 | the in-place update reaches exactly AfterWrite of the old state, keeps the invariant and returns no error |
| FormatFMP4Part.Part.Duration | internal/recorder/format_fmp4_part.go:121-123 | `endDTS - startDTS` in int64: an int64 congruent to the difference modulo 2^64 (Go's wrapped difference), exact whenever the difference fits |
| FormatFMP4Part.Part.CalculateExpectedFrameCount | internal/recorder/format_fmp4_part.go:127-140 | at least 1; the stored rate if present and positive, else 30, times the span in seconds, truncated, or 1 when that is below one |
| FormatFMP4PartWrites.CallsFor | internal/recorder/format_fmp4_part.go:89-111 | the calls made for one track: no more of them than all calls, and every one of them for that track |
| FormatFMP4PartWrites.CallsForKeepsAll | internal/recorder/format_fmp4_part.go:89-111 | no call for the track is dropped: every call for it is among CallsFor |
| FormatFMP4PartWrites.AccumulateWrittenTrack | internal/recorder/format_fmp4_part.go:90-111 | a write of a track appends its sample to the accumulated run and keeps the BaseTime set by the track's first write |
| FormatFMP4PartWrites.AccumulateExtendsRun | internal/recorder/format_fmp4_part.go:110-111 | a write of a track that already has a run appends its sample after the accumulated ones and keeps the run's BaseTime |
| FormatFMP4PartWrites.AccumulateOpensRun | internal/recorder/format_fmp4_part.go:90-97 | the first write of a track opens its run holding just that sample, with the BaseTime of that write |
| FormatFMP4PartWrites.AccumulateOtherTrack | internal/recorder/format_fmp4_part.go:89-119 | a write of another track leaves what has accumulated for a track unchanged |
| FormatFMP4PartWrites.WritesAccumulate | internal/recorder/format_fmp4_part.go:89-119 | from any state satisfying the invariant, any writes keep it; a track has a run exactly when it had one or was written; its samples are its old ones followed by its written ones in order; BaseTime is never changed once set |
| FormatFMP4PartWrites.WritesAfterInitialize | internal/recorder/format_fmp4_part.go:54-111 | after initialize and any writes: a track has a run exactly when it was written; its samples are its written ones in arrival order; its count is its number of writes; its ID is the track's; its BaseTime is from its first write; it has a rate exactly when one of its samples is timed, namely the rate of the first such sample |
| FormatFMP4PartWrites.FrameRateIsSticky | internal/recorder/format_fmp4_part.go:102-108 | once a track with a run has a nonzero rate, no sequence of writes changes it |
| FormatFMP4PartWrites.EndDTSBoundsEnds | internal/recorder/format_fmp4_part.go:113-116 | after any writes, endDTS is at least its earlier value and every written sample's end |
| FormatFMP4PartWrites.EndDTSIsAttained | internal/recorder/format_fmp4_part.go:113-116 | after any writes, endDTS is its earlier value or the end of one of the written samples |
| FormatFMP4PartWrites.EndDTSIsLatestEnd | internal/recorder/format_fmp4_part.go:113-116 | after any writes, endDTS is at least its earlier value and every written sample's end, and equals one of them (it is their maximum) |
| FormatFMP4PartWrites.WriteCoversPartStart | internal/recorder/format_fmp4_part.go:113-123 | for int64 start and end times of either sign, a write at or after the part start whose end and the part's current span fit in an int64 leaves endDTS at or after the start, so the duration is the exact non-negative difference |
| FormatFMP4PartScenarios.FrameTickDuration | internal/recorder/format_fmp4_part_test.go:170-182 | 3000 ticks at 90 kHz last 33333333 ns |
| FormatFMP4PartScenarios.FrameCountingScenario | internal/recorder/format_fmp4_part_test.go:136-195 | ten 3000-tick samples written at DTS i*3000*1e9/90000 give a frame count of 10, a rate of 30 fps and a duration of 333333333 ns |
| FormatFMP4PartScenarios.FrameRateScenario | internal/recorder/format_fmp4_part_test.go:236-278 | one sample into a fresh part stores TimeScale / Duration as the track's rate |
| FormatFMP4PartScenarios.FrameRateCases | internal/recorder/format_fmp4_part_test.go:204-235 | 90000/3000, 48000/1000, 90000/1500 and 25000/1000 give 30, 48, 60 and 25 fps |
| FormatFMP4PartScenarios.ExpectedFrameCountScenario | internal/recorder/format_fmp4_part_test.go:106-132 | a fresh part given a positive rate, or none, expects that rate, or 30, times the span, truncated and at least one |
| FormatFMP4PartScenarios.ExpectedFrameCountCases | internal/recorder/format_fmp4_part_test.go:68-104 | 30 fps x 2 s, 60 x 1 s, 25 x 4 s, 30 x 0 s and no rate x 2 s expect 60, 60, 100, 1 and 60 frames |

Where the code and its description differ, the model follows the code:

- The rate of a track that already has a run is re-set only while the
  stored value is exactly zero (`== 0`, format_fmp4_part.go:105). A stored
  negative value would stick. Writes never store one, because a rate is only
  set from a positive duration.
- `initialize` does not reset `endDTS`, and a new part starts with
  `endDTS` zero. Before its first write, a part's duration is therefore
  `-startDTS`, not zero.
- BaseTime is `uint64(...)` of a signed quantity. A sample before the
  segment start gives a wrapped BaseTime. The model computes that wrap
  instead of excluding such samples.

## Left out

- `formatFMP4Part.close` and `writePart` (file and directory creation, the fMP4 serializer, init writing, path templating, callbacks and logging): I/O and foreign library code.
- The orchestrator `formatFMP4.handleFrame`, segment rotation and `formatFMP4Segment`: format_fmp4.go and format_fmp4_segment.go are not part of this model. A part's segment is represented only by its start DTS (`segmentStartDTS`).
- The continuity-check `handleFrame` in format_fmp4_test.go: it is commented out, so it has no behaviour.
- The test mocks (segment and logger stubs): test scaffolding.
- FormatFMP4Part.FrameRate: the rate `float64(TimeScale) / float64(Duration)` is an exact real, not an IEEE-754 `float64`, so rounding is not modelled. The tests compare rates within a tolerance.
- GoNumeric.Seconds: `Duration.Seconds()` is an exact real, not an IEEE-754 `float64`, so rounding is not modelled.
- FormatFMP4Part.Part.CalculateExpectedFrameCount: it multiplies the exact reals of FrameRate and Seconds, so the IEEE-754 rounding of the product is not modelled either.
- FormatFMP4Part.Part.CalculateExpectedFrameCount: `int(x)` of a float outside the int range, which is implementation-defined in Go, is not modelled. The model truncates exactly.
- FormatFMP4Part.AfterWrite: the frame counter is a Go `int`, modelled as unbounded. Overflowing it would need more than 2^63 writes.
- Nil maps: the class's maps always exist. A write before `initialize`, which panics in Go, is not modelled.
- Run aliasing: a `*fmp4.PartTrack` is a pointer, updated through the map. The model stores it as a value in the map and replaces it. No other holder of that pointer exists in the modelled code.
- Timestamp.TimestampToDuration: the quotient law is stated only when the product `ts * 1e9` fits in an int64. When it overflows, the contract states only that the wrapped result is an int64; the body still computes Go's wrapped value.
- Timestamp.MultiplyAndDivide: the quotient law is stated only when the product `a * b` fits in an int64. When it overflows, the contract states only that the wrapped result is an int64.
- Zero TimeScale: a track's TimeScale is a uint32, and a usable track has a positive one (`IsTrack`). With a zero TimeScale, the source stores a rate of 0 on a first timed sample and then panics dividing by zero in `timestampToDuration`. A write to such a track is not modelled.
