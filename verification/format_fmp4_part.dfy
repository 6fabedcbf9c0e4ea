/**
 * The fMP4 part accumulator of the recorder (formatFMP4Part): between two
 * flushes it collects, per track, the run of samples that will become one
 * fragment, together with the track's frame count, a sticky frame-rate
 * estimate and the latest sample end time seen.
 *
 * The state of a part is given twice: as the value PartState, on which the
 * transition AfterWrite and the invariant Inv are stated and proved, and as
 * the class Part, whose methods update their fields in place as the source
 * does and are proved to follow AfterWrite.
 */
module FormatFMP4Part {
  import opened GoNumeric
  import opened Timestamp

  /**
   * A track, standing for the *formatFMP4Track pointer the part's maps are
   * keyed by: `key` is that pointer's identity, `id` and `timeScale` the ID
   * and TimeScale of its initTrack.
   */
  datatype Track = Track(key: nat, id: int, timeScale: int)

  /** TimeScale is a uint32 and is divided by, so a usable track has a positive one. */
  predicate IsTrack(t: Track) {
    0 < t.timeScale <= MaxUint32
  }

  /** An fmp4.Sample: its duration in track ticks and its payload. */
  datatype Sample = Sample(duration: int, payload: seq<bv8>)

  /** The duration of an fmp4.Sample is a uint32. */
  predicate IsSample(s: Sample) {
    IsUint32(s.duration)
  }

  /** An fmp4.PartTrack: the run of one track inside a part. */
  datatype PartTrack = PartTrack(id: int, baseTime: int, samples: seq<Sample>)

  /** The fields of a formatFMP4Part; `segmentStartDTS` is the startDTS of its segment. */
  datatype PartState = PartState(
    segmentStartDTS: int,
    sequenceNumber: int,
    startDTS: int,
    partTracks: map<Track, PartTrack>,
    trackFrameCounts: map<Track, int>,
    frameRates: map<Track, real>,
    endDTS: int)

  /** Go's lookup of a missing map key gives the zero value. */
  function CountOf(m: map<Track, int>, t: Track): int {
    if t in m then m[t] else 0
  }

  function RateOf(m: map<Track, real>, t: Track): real {
    if t in m then m[t] else 0.0
  }

  /** The samples a part holds for a track (none before its first write). */
  function RunSamples(p: PartState, t: Track): seq<Sample> {
    if t in p.partTracks then p.partTracks[t].samples else []
  }

  /** float64(TimeScale) / float64(Duration), taken exactly. */
  function FrameRate(t: Track, duration: int): (r: real)
    requires duration > 0
    ensures r * duration as real == t.timeScale as real
    ensures t.timeScale > 0 ==> r > 0.0
  {
    t.timeScale as real / duration as real
  }

  /** The BaseTime of a track's run opened by a sample at dts: its ticks since the segment start. */
  function BaseTime(segmentStartDTS: int, t: Track, dts: int): int {
    ToUint64(MultiplyAndDivide(Sub64(dts, segmentStartDTS), t.timeScale, Second))
  }

  /**
   * Without overflow, BaseTime is the tick count of dts - segmentStartDTS at
   * the track's time scale, truncated; a sample before the segment start has
   * a negative tick count, which uint64 wraps to that count plus 2^64.
   */
  lemma BaseTimeOfDelta(segmentStartDTS: int, t: Track, dts: int)
    requires IsTrack(t) && IsInt64(dts - segmentStartDTS) && IsInt64((dts - segmentStartDTS) * t.timeScale)
    ensures var ticks := MultiplyAndDivide(dts - segmentStartDTS, t.timeScale, Second);
      && IsTruncQuotient(ticks, (dts - segmentStartDTS) * t.timeScale, Second)
      && BaseTime(segmentStartDTS, t, dts) == (if ticks >= 0 then ticks else ticks + TwoTo64)
  {
  }

  /** The end time of a sample at dts: dts plus its duration converted to nanoseconds. */
  function SampleEnd(t: Track, s: Sample, dts: int): (e: int)
    requires IsTrack(t)
    ensures IsInt64(e)
    ensures IsInt64(dts + TimestampToDuration(s.duration, t.timeScale)) ==>
      e == dts + TimestampToDuration(s.duration, t.timeScale)
    ensures (dts + TimestampToDuration(s.duration, t.timeScale) - e) % TwoTo64 == 0
  {
    Add64(dts, TimestampToDuration(s.duration, t.timeScale))
  }

  /**
   * formatFMP4Part.write(track, sample, dts) as a transition of the part's
   * state. The run of a track is opened, with its ID and BaseTime, on the
   * track's first sample only; the frame rate is stored from a sample with a
   * positive duration only while none is stored; endDTS only grows; nothing
   * of any other track changes.
   */
  function AfterWrite(p: PartState, track: Track, sample: Sample, dts: int): (q: PartState)
    requires IsTrack(track) && IsSample(sample)
    ensures q.segmentStartDTS == p.segmentStartDTS && q.sequenceNumber == p.sequenceNumber
    ensures q.startDTS == p.startDTS
    ensures q.partTracks - {track} == p.partTracks - {track}
    ensures q.trackFrameCounts - {track} == p.trackFrameCounts - {track}
    ensures q.frameRates - {track} == p.frameRates - {track}
    ensures track in q.partTracks && track in q.trackFrameCounts
    ensures q.partTracks[track].samples == RunSamples(p, track) + [sample]
    ensures track in p.partTracks ==>
      q.partTracks[track].id == p.partTracks[track].id
      && q.partTracks[track].baseTime == p.partTracks[track].baseTime
    ensures track !in p.partTracks ==>
      q.partTracks[track].id == track.id
      && q.partTracks[track].baseTime == BaseTime(p.segmentStartDTS, track, dts)
    ensures q.trackFrameCounts[track]
      == (if track in p.partTracks then CountOf(p.trackFrameCounts, track) else 0) + 1
    ensures track in p.partTracks && RateOf(p.frameRates, track) != 0.0 ==> q.frameRates == p.frameRates
    ensures sample.duration <= 0 ==> q.frameRates == p.frameRates
    ensures sample.duration > 0 && (track !in p.partTracks || RateOf(p.frameRates, track) == 0.0) ==>
      track in q.frameRates && q.frameRates[track] == FrameRate(track, sample.duration)
    ensures q.endDTS >= p.endDTS && q.endDTS >= SampleEnd(track, sample, dts)
    ensures q.endDTS == p.endDTS || q.endDTS == SampleEnd(track, sample, dts)
  {
    var run := RunBeforeAppend(p, track, dts);
    var count := if track in p.partTracks then CountOf(p.trackFrameCounts, track) else 0;
    var end := SampleEnd(track, sample, dts);
    p.(partTracks := p.partTracks[track := run.(samples := run.samples + [sample])],
       trackFrameCounts := p.trackFrameCounts[track := count + 1],
       frameRates := RatesAfterWrite(p, track, sample),
       endDTS := if end > p.endDTS then end else p.endDTS)
  }

  /** The track's run before the sample is appended: the existing one, or a new empty one. */
  function RunBeforeAppend(p: PartState, track: Track, dts: int): PartTrack {
    if track !in p.partTracks then PartTrack(track.id, BaseTime(p.segmentStartDTS, track, dts), [])
    else p.partTracks[track]
  }

  /** The frame rates after a write: set from a first sample, or while the stored rate reads as zero. */
  function RatesAfterWrite(p: PartState, track: Track, sample: Sample): map<Track, real> {
    if track !in p.partTracks then
      (if sample.duration > 0 then p.frameRates[track := FrameRate(track, sample.duration)] else p.frameRates)
    else if RateOf(p.frameRates, track) == 0.0 && sample.duration > 0 then
      p.frameRates[track := FrameRate(track, sample.duration)]
    else p.frameRates
  }

  // ---------------------------------------------------------------------------
  // The invariant every write keeps
  // ---------------------------------------------------------------------------

  predicate HasTimedSample(samples: seq<Sample>) {
    exists i :: 0 <= i < |samples| && samples[i].duration > 0
  }

  /** The duration of the first sample that has a positive one. */
  function FirstTimedDuration(samples: seq<Sample>): (d: int)
    requires HasTimedSample(samples)
    ensures d > 0
    ensures exists i :: (0 <= i < |samples| && samples[i].duration == d
                         && forall j :: 0 <= j < i ==> samples[j].duration <= 0)
  {
    if samples[0].duration > 0 then samples[0].duration
    else
      assert HasTimedSample(samples[1..]) by {
        var i :| 0 <= i < |samples| && samples[i].duration > 0;
        assert samples[1..][i - 1] == samples[i];
      }
      var d := FirstTimedDuration(samples[1..]);
      var i :| 0 <= i < |samples[1..]| && samples[1..][i].duration == d
        && forall j :: 0 <= j < i ==> samples[1..][j].duration <= 0;
      assert samples[i + 1].duration == d;
      assert forall j :: 0 <= j < i + 1 ==> samples[j].duration <= 0 by {
        forall j | 0 <= j < i + 1 ensures samples[j].duration <= 0 {
          if j > 0 { assert samples[j] == samples[1..][j - 1]; }
        }
      }
      d
  }

  lemma HasTimedAppend(samples: seq<Sample>, s: Sample)
    ensures HasTimedSample(samples + [s]) <==> HasTimedSample(samples) || s.duration > 0
  {
    var t := samples + [s];
    if HasTimedSample(samples) {
      var i :| 0 <= i < |samples| && samples[i].duration > 0;
      assert t[i] == samples[i];
    }
    if s.duration > 0 {
      assert t[|samples|] == s;
    }
    if HasTimedSample(t) {
      var i :| 0 <= i < |t| && t[i].duration > 0;
      if i < |samples| { assert samples[i] == t[i]; }
    }
  }

  /** Appending a sample keeps the first timed duration once there is one. */
  lemma {:induction false} FirstTimedAppendKeeps(samples: seq<Sample>, s: Sample)
    requires HasTimedSample(samples)
    ensures HasTimedSample(samples + [s])
    ensures FirstTimedDuration(samples + [s]) == FirstTimedDuration(samples)
  {
    HasTimedAppend(samples, s);
    var t := samples + [s];
    assert t[0] == samples[0];
    if samples[0].duration <= 0 {
      assert t[1..] == samples[1..] + [s];
      assert HasTimedSample(samples[1..]) by {
        var i :| 0 <= i < |samples| && samples[i].duration > 0;
        assert samples[1..][i - 1] == samples[i];
      }
      FirstTimedAppendKeeps(samples[1..], s);
    }
  }

  /** Appending a timed sample to a run with none makes it the first. */
  lemma FirstTimedAppendSupplies(samples: seq<Sample>, s: Sample)
    requires !HasTimedSample(samples) && s.duration > 0
    ensures HasTimedSample(samples + [s])
    ensures FirstTimedDuration(samples + [s]) == s.duration
  {
    HasTimedAppend(samples, s);
    var t := samples + [s];
    var d := FirstTimedDuration(t);
    var i :| 0 <= i < |t| && t[i].duration == d && forall j :: 0 <= j < i ==> t[j].duration <= 0;
    if i < |samples| {
      assert false;
    }
  }

  /**
   * What holds of a part's state after initialize and any writes: every
   * track with a run has a frame count equal to the length of its run, the
   * run carries the track's ID, and the track has a stored frame rate exactly
   * when one of its samples had a positive duration, that rate being the one
   * of the first such sample.
   */
  ghost predicate Inv(p: PartState) {
    && p.trackFrameCounts.Keys == p.partTracks.Keys
    && p.frameRates.Keys <= p.partTracks.Keys
    && forall t :: t in p.partTracks ==> RunInv(p, t)
  }

  ghost predicate RunInv(p: PartState, t: Track)
    requires t in p.partTracks
  {
    var samples := p.partTracks[t].samples;
    && t.timeScale > 0
    && p.partTracks[t].id == t.id
    && CountOf(p.trackFrameCounts, t) == |samples|
    && (t in p.frameRates <==> HasTimedSample(samples))
    && (t in p.frameRates ==> HasTimedSample(samples) && p.frameRates[t] == FrameRate(t, FirstTimedDuration(samples)))
  }

  /** A part whose maps have just been made by initialize. */
  predicate IsEmptyPart(p: PartState) {
    p.partTracks == map[] && p.trackFrameCounts == map[] && p.frameRates == map[]
  }

  lemma EmptyPartInv(p: PartState)
    requires IsEmptyPart(p)
    ensures Inv(p)
  {
  }

  /** A run, and its invariant, survive any update that leaves the track's entries alone. */
  lemma RunInvUntouched(p: PartState, q: PartState, track: Track, t: Track)
    requires q.partTracks - {track} == p.partTracks - {track}
    requires q.trackFrameCounts - {track} == p.trackFrameCounts - {track}
    requires q.frameRates - {track} == p.frameRates - {track}
    requires t != track && t in p.partTracks && RunInv(p, t)
    ensures t in q.partTracks && RunInv(q, t)
  {
    assert t in p.partTracks - {track};
    assert q.partTracks[t] == p.partTracks[t];
    assert (t in q.frameRates) == (t in p.frameRates - {track});
    assert t in q.frameRates ==> q.frameRates[t] == (p.frameRates - {track})[t];
    assert (t in q.trackFrameCounts) == (t in p.trackFrameCounts - {track});
    assert CountOf(q.trackFrameCounts, t) == CountOf(p.trackFrameCounts, t);
  }

  /** The written track's run satisfies the invariant after the write. */
  lemma WrittenRunInv(p: PartState, track: Track, sample: Sample, dts: int)
    requires Inv(p) && IsTrack(track) && IsSample(sample)
    ensures RunInv(AfterWrite(p, track, sample, dts), track)
  {
    var run := RunSamples(p, track);
    HasTimedAppend(run, sample);
    if HasTimedSample(run) {
      FirstTimedAppendKeeps(run, sample);
    } else if sample.duration > 0 {
      FirstTimedAppendSupplies(run, sample);
    }
    if track in p.frameRates {
      assert RunInv(p, track);
      assert RateOf(p.frameRates, track) != 0.0;
    }
  }

  /** Every write keeps the invariant. */
  lemma WritePreservesInv(p: PartState, track: Track, sample: Sample, dts: int)
    requires Inv(p) && IsTrack(track) && IsSample(sample)
    ensures Inv(AfterWrite(p, track, sample, dts))
  {
    var q := AfterWrite(p, track, sample, dts);
    WrittenRunInv(p, track, sample, dts);
    forall t | t in q.partTracks && t != track
      ensures RunInv(q, t)
    {
      assert t in p.partTracks - {track};
      RunInvUntouched(p, q, track, t);
    }
    assert q.trackFrameCounts.Keys == q.partTracks.Keys by {
      forall t ensures t in q.trackFrameCounts <==> t in q.partTracks {
        if t != track {
          assert (t in q.trackFrameCounts) == (t in p.trackFrameCounts - {track});
          assert (t in q.partTracks) == (t in p.partTracks - {track});
        }
      }
    }
    assert q.frameRates.Keys <= q.partTracks.Keys by {
      forall t | t in q.frameRates ensures t in q.partTracks {
        if t != track { assert t in p.frameRates - {track}; }
      }
    }
  }

  /** A second store to the same key replaces the first. */
  lemma UpdateOverwrites<K, V>(m: map<K, V>, k: K, a: V, b: V)
    ensures m[k := a][k := b] == m[k := b]
  {
  }

  // ---------------------------------------------------------------------------
  // The class whose methods update the part in place
  // ---------------------------------------------------------------------------

  /** A formatFMP4Part. */
  class Part {
    var segmentStartDTS: int
    var sequenceNumber: int
    var startDTS: int
    var partTracks: map<Track, PartTrack>
    var trackFrameCounts: map<Track, int>
    var frameRates: map<Track, real>
    var endDTS: int

    ghost function State(): PartState
      reads this
    {
      PartState(segmentStartDTS, sequenceNumber, startDTS, partTracks, trackFrameCounts, frameRates, endDTS)
    }

    ghost predicate Valid()
      reads this
    {
      Inv(State())
    }

    /** The struct literal &formatFMP4Part{s, sequenceNumber, startDTS}: endDTS starts at zero. */
    constructor (segmentStartDTS: int, sequenceNumber: int, startDTS: int)
      ensures State() == PartState(segmentStartDTS, sequenceNumber, startDTS, map[], map[], map[], 0)
    {
      this.segmentStartDTS := segmentStartDTS;
      this.sequenceNumber := sequenceNumber;
      this.startDTS := startDTS;
      partTracks := map[];
      trackFrameCounts := map[];
      frameRates := map[];
      endDTS := 0;
    }

    /** initialize: fresh, empty per-track maps; the rest of the part is left as it was. */
    method Initialize()
      modifies this
      ensures IsEmptyPart(State()) && Valid()
      ensures segmentStartDTS == old(segmentStartDTS) && sequenceNumber == old(sequenceNumber)
      ensures startDTS == old(startDTS) && endDTS == old(endDTS)
    {
      partTracks := map[];
      trackFrameCounts := map[];
      frameRates := map[];
    }

    /** write: adds one sample of one track; never fails. */
    method Write(track: Track, sample: Sample, dts: int) returns (err: bool)
      requires IsTrack(track) && IsSample(sample)
      modifies this
      ensures State() == AfterWrite(old(State()), track, sample, dts)
      ensures old(Valid()) ==> Valid()
      ensures !err
    {
      ghost var before := State();
      var partTrack: PartTrack;
      if track !in partTracks {
        partTrack := PartTrack(track.id, BaseTime(segmentStartDTS, track, dts), []);
        trackFrameCounts := trackFrameCounts[track := 0];
        if sample.duration > 0 {
          frameRates := frameRates[track := FrameRate(track, sample.duration)];
        }
      } else {
        partTrack := partTracks[track];
        if RateOf(frameRates, track) == 0.0 && sample.duration > 0 {
          frameRates := frameRates[track := FrameRate(track, sample.duration)];
        }
      }
      assert partTrack == RunBeforeAppend(before, track, dts);
      assert frameRates == RatesAfterWrite(before, track, sample);
      partTracks := partTracks[track := partTrack.(samples := partTrack.samples + [sample])];
      trackFrameCounts := trackFrameCounts[track := CountOf(trackFrameCounts, track) + 1];
      var end := SampleEnd(track, sample, dts);
      if end > endDTS {
        endDTS := end;
      }
      err := false;
      ghost var after := AfterWrite(before, track, sample, dts);
      assert State() == after by {
        assert partTracks == after.partTracks;
        if track !in before.partTracks {
          UpdateOverwrites(before.trackFrameCounts, track, 0, 1);
        }
      }
      if Inv(before) {
        WritePreservesInv(before, track, sample, dts);
      }

    }

    /** duration: endDTS - startDTS, in int64 arithmetic. */
    function Duration(): (d: int)
      reads this
      ensures IsInt64(d)
      ensures IsInt64(endDTS - startDTS) ==> d == endDTS - startDTS
      ensures (endDTS - startDTS - d) % TwoTo64 == 0
    {
      Sub64(endDTS, startDTS)
    }

    /**
     * calculateExpectedFrameCount: the stored frame rate of the track, or 30
     * when it has none or a non-positive one, times the span in seconds,
     * truncated and never below one.
     */
    function CalculateExpectedFrameCount(track: Track, partDuration: int): (n: int)
      reads this
      ensures n >= 1
      ensures track in frameRates && frameRates[track] > 0.0 ==>
        IsClampedTrunc(n, frameRates[track] * Seconds(partDuration))
      ensures !(track in frameRates && frameRates[track] > 0.0) ==>
        IsClampedTrunc(n, DefaultFrameRate * Seconds(partDuration))
    {
      var frameRate := if track in frameRates && frameRates[track] > 0.0 then frameRates[track] else DefaultFrameRate;
      var expectedFrames := TruncReal(frameRate * Seconds(partDuration));
      if expectedFrames < 1 then 1 else expectedFrames
    }
  }

  /** The rate assumed for a track with no stored estimate. */
  const DefaultFrameRate: real := 30.0

  /** n is x with its fraction dropped, but at least one. */
  predicate IsClampedTrunc(n: int, x: real) {
    && (x >= 1.0 ==> n as real <= x < n as real + 1.0)
    && (x < 1.0 ==> n == 1)
  }
}

/**
 * Sequences of writes to one part: what a part holds after initialize and
 * any number of writes, how its frame rates stick and how its endDTS tracks
 * the latest sample end.
 */
module FormatFMP4PartWrites {
  import opened GoNumeric
  import opened Timestamp
  import opened FormatFMP4Part

  /** One call write(track, sample, dts). */
  datatype WriteCall = WriteCall(track: Track, sample: Sample, dts: int)

  predicate CallsOk(calls: seq<WriteCall>) {
    forall i :: 0 <= i < |calls| ==> IsTrack(calls[i].track) && IsSample(calls[i].sample)
  }

  /** The part after the calls, made in order. */
  function AfterWrites(p: PartState, calls: seq<WriteCall>): PartState
    requires CallsOk(calls)
    decreases |calls|
  {
    if calls == [] then p
    else
      var c := calls[|calls| - 1];
      AfterWrite(AfterWrites(p, calls[..|calls| - 1]), c.track, c.sample, c.dts)
  }

  /** The calls made for track t, in order. */
  function CallsFor(calls: seq<WriteCall>, t: Track): (cs: seq<WriteCall>)
    ensures |cs| <= |calls|
    ensures forall i :: 0 <= i < |cs| ==> cs[i].track == t
  {
    if calls == [] then []
    else
      var c := calls[|calls| - 1];
      CallsFor(calls[..|calls| - 1], t) + (if c.track == t then [c] else [])
  }

  /** No call for t is dropped: CallsFor keeps exactly the calls for t. */
  lemma {:induction false} CallsForKeepsAll(calls: seq<WriteCall>, t: Track)
    ensures forall i :: 0 <= i < |calls| && calls[i].track == t ==> calls[i] in CallsFor(calls, t)
  {
    if calls != [] {
      var n := |calls| - 1;
      var prefix, c := calls[..n], calls[n];
      CallsForKeepsAll(prefix, t);
      forall i | 0 <= i < |calls| && calls[i].track == t ensures calls[i] in CallsFor(calls, t) {
        if i < n {
          assert calls[i] == prefix[i];
        }
      }
    }
  }

  /** The samples those calls carry, in order. */
  function SamplesOf(calls: seq<WriteCall>): (s: seq<Sample>)
    ensures |s| == |calls|
  {
    if calls == [] then [] else SamplesOf(calls[..|calls| - 1]) + [calls[|calls| - 1].sample]
  }

  lemma SamplesOfSnoc(calls: seq<WriteCall>, c: WriteCall)
    ensures SamplesOf(calls + [c]) == SamplesOf(calls) + [c.sample]
  {
    assert (calls + [c])[..|calls|] == calls;
  }

  /** The end time of the sample a call writes. */
  function CallEnd(c: WriteCall): int
    requires IsTrack(c.track)
  {
    SampleEnd(c.track, c.sample, c.dts)
  }

  /** What WritesAccumulate states of one track t, for the state q reached by `calls` from p. */
  ghost predicate Accumulated(p: PartState, q: PartState, calls: seq<WriteCall>, t: Track) {
    && q.segmentStartDTS == p.segmentStartDTS
    && (t in q.partTracks <==> t in p.partTracks || CallsFor(calls, t) != [])
    && (t in q.partTracks ==> q.partTracks[t].samples == RunSamples(p, t) + SamplesOf(CallsFor(calls, t)))
    && (t in p.partTracks ==> t in q.partTracks && q.partTracks[t].baseTime == p.partTracks[t].baseTime)
    && (t in q.partTracks && t !in p.partTracks ==>
         CallsFor(calls, t) != [] && q.partTracks[t].baseTime == BaseTime(p.segmentStartDTS, t, CallsFor(calls, t)[0].dts))
  }

  /** A write of track t extends what is accumulated for t. */
  lemma AccumulateWrittenTrack(p: PartState, q: PartState, prefix: seq<WriteCall>, c: WriteCall)
    requires IsTrack(c.track) && IsSample(c.sample) && Accumulated(p, q, prefix, c.track)
    ensures Accumulated(p, AfterWrite(q, c.track, c.sample, c.dts), prefix + [c], c.track)
  {
    var calls := prefix + [c];
    assert calls[..|prefix|] == prefix;
    assert CallsFor(calls, c.track) == CallsFor(prefix, c.track) + [c];
    if c.track in q.partTracks {
      AccumulateExtendsRun(p, q, prefix, c);
    } else {
      AccumulateOpensRun(p, q, prefix, c);
    }
  }

  /** A write of a track that has a run appends to the accumulated samples. */
  lemma AccumulateExtendsRun(p: PartState, q: PartState, prefix: seq<WriteCall>, c: WriteCall)
    requires IsTrack(c.track) && IsSample(c.sample) && Accumulated(p, q, prefix, c.track)
    requires c.track in q.partTracks
    requires CallsFor(prefix + [c], c.track) == CallsFor(prefix, c.track) + [c]
    ensures Accumulated(p, AfterWrite(q, c.track, c.sample, c.dts), prefix + [c], c.track)
  {
    var t := c.track;
    var r := AfterWrite(q, t, c.sample, c.dts);
    var before, after := CallsFor(prefix, t), CallsFor(prefix + [c], t);
    SamplesOfSnoc(before, c);
    var old_ := RunSamples(p, t);
    assert r.partTracks[t].samples == (old_ + SamplesOf(before)) + [c.sample];
    assert r.partTracks[t].samples == old_ + SamplesOf(after);
    if t !in p.partTracks {
      assert before != [] && after[0] == before[0];
    }
  }

  /** The first write of a track opens its run with that sample and its BaseTime. */
  lemma AccumulateOpensRun(p: PartState, q: PartState, prefix: seq<WriteCall>, c: WriteCall)
    requires IsTrack(c.track) && IsSample(c.sample) && Accumulated(p, q, prefix, c.track)
    requires c.track !in q.partTracks
    requires CallsFor(prefix + [c], c.track) == CallsFor(prefix, c.track) + [c]
    ensures Accumulated(p, AfterWrite(q, c.track, c.sample, c.dts), prefix + [c], c.track)
  {
    var t := c.track;
    var r := AfterWrite(q, t, c.sample, c.dts);
    var after := CallsFor(prefix + [c], t);
    assert CallsFor(prefix, t) == [] && after == [c];
    assert SamplesOf(after) == [c.sample];
    assert RunSamples(p, t) == [];
    assert r.partTracks[t].samples == RunSamples(p, t) + SamplesOf(after);
  }

  /** A write of another track leaves what is accumulated for t as it was. */
  lemma AccumulateOtherTrack(p: PartState, q: PartState, prefix: seq<WriteCall>, c: WriteCall, t: Track)
    requires IsTrack(c.track) && IsSample(c.sample) && t != c.track && Accumulated(p, q, prefix, t)
    ensures Accumulated(p, AfterWrite(q, c.track, c.sample, c.dts), prefix + [c], t)
  {
    var r := AfterWrite(q, c.track, c.sample, c.dts);
    var calls := prefix + [c];
    assert calls[..|prefix|] == prefix;
    assert CallsFor(calls, t) == CallsFor(prefix, t);
    assert (t in r.partTracks) == (t in q.partTracks - {c.track});
    if t in r.partTracks {
      assert r.partTracks[t] == (q.partTracks - {c.track})[t];
      assert r.partTracks[t] == q.partTracks[t];
    }
  }

  /**
   * From any state satisfying the invariant, writes keep it; a track has a
   * run after them exactly when it had one or was written; its run is its
   * old samples followed by the written ones in arrival order; a run's
   * BaseTime is the one set by the write that opened it.
   */
  lemma {:induction false} WritesAccumulate(p: PartState, calls: seq<WriteCall>)
    requires Inv(p) && CallsOk(calls)
    ensures Inv(AfterWrites(p, calls))
    ensures forall t :: Accumulated(p, AfterWrites(p, calls), calls, t)
  {
    if calls != [] {
      var n := |calls| - 1;
      var prefix, c := calls[..n], calls[n];
      assert calls == prefix + [c];
      assert CallsOk(prefix) by {
        forall i | 0 <= i < |prefix| ensures IsTrack(prefix[i].track) && IsSample(prefix[i].sample) {
          assert prefix[i] == calls[i];
        }
      }
      WritesAccumulate(p, prefix);
      var q := AfterWrites(p, prefix);
      assert AfterWrites(p, calls) == AfterWrite(q, c.track, c.sample, c.dts);
      WritePreservesInv(q, c.track, c.sample, c.dts);
      forall t ensures Accumulated(p, AfterWrites(p, calls), calls, t) {
        if t == c.track {
          AccumulateWrittenTrack(p, q, prefix, c);
        } else {
          AccumulateOtherTrack(p, q, prefix, c, t);
        }
      }
    }
  }

  /**
   * After initialize and any writes: a track has a run exactly when it was
   * written; the run holds its samples in arrival order, carries its ID and
   * the BaseTime of its first write; its frame count is the number of its
   * writes; its frame rate is stored exactly when one of its samples had a
   * positive duration, and is the rate of the first such sample.
   */
  lemma WritesAfterInitialize(p: PartState, calls: seq<WriteCall>, t: Track)
    requires IsEmptyPart(p) && CallsOk(calls)
    ensures t in AfterWrites(p, calls).partTracks <==> CallsFor(calls, t) != []
    ensures t in AfterWrites(p, calls).partTracks ==>
      var q := AfterWrites(p, calls);
      var samples := SamplesOf(CallsFor(calls, t));
      && q.partTracks[t].samples == samples
      && t in q.trackFrameCounts && q.trackFrameCounts[t] == |CallsFor(calls, t)|
      && q.partTracks[t].id == t.id
      && q.partTracks[t].baseTime == BaseTime(p.segmentStartDTS, t, CallsFor(calls, t)[0].dts)
      && (t in q.frameRates <==> HasTimedSample(samples))
      && (t in q.frameRates ==> q.frameRates[t] == FrameRate(t, FirstTimedDuration(samples)))
  {
    EmptyPartInv(p);
    WritesAccumulate(p, calls);
    var q := AfterWrites(p, calls);
    assert Accumulated(p, q, calls, t);
    if t in q.partTracks {
      var samples := SamplesOf(CallsFor(calls, t));
      assert RunSamples(p, t) == [];
      assert q.partTracks[t].samples == [] + samples;
      assert [] + samples == samples;
      assert RunInv(q, t);
      assert t in q.trackFrameCounts;
    }
  }

  /** Once a track with a run has a nonzero rate, no later write changes that rate. */
  lemma {:induction false} FrameRateIsSticky(p: PartState, calls: seq<WriteCall>, t: Track)
    requires CallsOk(calls)
    requires t in p.partTracks && t in p.frameRates && p.frameRates[t] != 0.0
    ensures t in AfterWrites(p, calls).partTracks
    ensures t in AfterWrites(p, calls).frameRates && AfterWrites(p, calls).frameRates[t] == p.frameRates[t]
  {
    if calls != [] {
      var n := |calls| - 1;
      var prefix, c := calls[..n], calls[n];
      assert CallsOk(prefix) by {
        forall i | 0 <= i < |prefix| ensures IsTrack(prefix[i].track) && IsSample(prefix[i].sample) {
          assert prefix[i] == calls[i];
        }
      }
      FrameRateIsSticky(p, prefix, t);
      var q := AfterWrites(p, prefix);
      var r := AfterWrites(p, calls);
      if c.track != t {
        assert t in q.partTracks - {c.track} && t in q.frameRates - {c.track};
        assert (q.frameRates - {c.track})[t] == (r.frameRates - {c.track})[t];
      }
    }
  }

  /** endDTS after writes is at least its earlier value and every written sample's end. */
  lemma {:induction false} EndDTSBoundsEnds(p: PartState, calls: seq<WriteCall>)
    requires CallsOk(calls)
    ensures AfterWrites(p, calls).endDTS >= p.endDTS
    ensures forall i :: 0 <= i < |calls| ==> AfterWrites(p, calls).endDTS >= CallEnd(calls[i])
  {
    if calls != [] {
      var n := |calls| - 1;
      var prefix, c := calls[..n], calls[n];
      assert CallsOk(prefix) by {
        forall i | 0 <= i < |prefix| ensures IsTrack(prefix[i].track) && IsSample(prefix[i].sample) {
          assert prefix[i] == calls[i];
        }
      }
      EndDTSBoundsEnds(p, prefix);
      var q := AfterWrites(p, prefix);
      var r := AfterWrite(q, c.track, c.sample, c.dts);
      assert AfterWrites(p, calls) == r;
      forall i | 0 <= i < |calls| ensures r.endDTS >= CallEnd(calls[i]) {
        if i < n {
          assert calls[i] == prefix[i];
          assert q.endDTS >= CallEnd(prefix[i]);
        } else {
          assert calls[i] == c;
        }
      }
    }
  }

  /** endDTS after writes is its earlier value or the end of one of the written samples. */
  lemma {:induction false} EndDTSIsAttained(p: PartState, calls: seq<WriteCall>)
    requires CallsOk(calls)
    ensures AfterWrites(p, calls).endDTS == p.endDTS
      || exists i :: 0 <= i < |calls| && AfterWrites(p, calls).endDTS == CallEnd(calls[i])
  {
    if calls != [] {
      var n := |calls| - 1;
      var prefix, c := calls[..n], calls[n];
      assert CallsOk(prefix) by {
        forall i | 0 <= i < |prefix| ensures IsTrack(prefix[i].track) && IsSample(prefix[i].sample) {
          assert prefix[i] == calls[i];
        }
      }
      EndDTSIsAttained(p, prefix);
      var q := AfterWrites(p, prefix);
      var r := AfterWrite(q, c.track, c.sample, c.dts);
      assert AfterWrites(p, calls) == r;
      if r.endDTS != p.endDTS {
        if r.endDTS == q.endDTS {
          var i :| 0 <= i < |prefix| && q.endDTS == CallEnd(prefix[i]);
          assert calls[i] == prefix[i];
        } else {
          assert r.endDTS == CallEnd(calls[n]);
        }
      }
    }
  }

  /**
   * endDTS after writes is the larger of its earlier value and every written
   * sample's end: never below either, and equal to one of them.
   */
  lemma EndDTSIsLatestEnd(p: PartState, calls: seq<WriteCall>)
    requires CallsOk(calls)
    ensures AfterWrites(p, calls).endDTS >= p.endDTS
    ensures forall i :: 0 <= i < |calls| ==> AfterWrites(p, calls).endDTS >= CallEnd(calls[i])
    ensures AfterWrites(p, calls).endDTS == p.endDTS
      || exists i :: 0 <= i < |calls| && AfterWrites(p, calls).endDTS == CallEnd(calls[i])
  {
    EndDTSBoundsEnds(p, calls);
    EndDTSIsAttained(p, calls);
  }

  /**
   * A write at or after the part's start, of either sign, with int64 times
   * whose differences do not overflow, leaves endDTS at or after the start,
   * so duration() is then the non-negative endDTS - startDTS.
   */
  lemma WriteCoversPartStart(p: PartState, track: Track, sample: Sample, dts: int)
    requires IsTrack(track) && IsSample(sample)
    requires IsInt64(p.startDTS) && IsInt64(p.endDTS) && IsInt64(p.endDTS - p.startDTS)
    requires p.startDTS <= dts <= MaxInt64 - MaxUint32 * Second
    requires IsInt64(dts + MaxUint32 * Second - p.startDTS)
    ensures var q := AfterWrite(p, track, sample, dts);
      p.startDTS <= q.endDTS && IsInt64(q.endDTS - q.startDTS)
  {
    MulMonoLeft(sample.duration, MaxUint32, Second);
    MulNonNeg(sample.duration, Second);
    TimestampToDurationBounds(sample.duration, track.timeScale);
  }
}
