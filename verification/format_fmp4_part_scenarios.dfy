/**
 * The situations the part's own tests set up, replayed on the model: a run
 * of ten 30 fps video frames, the frame rate stored by a part's first
 * sample, and the expected frame count for a stored or missing rate.
 */
module FormatFMP4PartScenarios {
  import opened GoNumeric
  import opened Timestamp
  import opened FormatFMP4Part

  /** A video track with ID 1 at the usual 90 kHz time scale. */
  const VideoTrack: Track := Track(1, 1, 90000)

  /** 3000 ticks at 90 kHz: one frame at 30 fps, 33 333 333 ns once truncated. */
  lemma FrameTickDuration()
    ensures TimestampToDuration(3000, 90000) == 33_333_333
  {
    assert IsTruncQuotient(33_333_333, 3000 * Second, 90000);
    TruncQuotientUnique(TimestampToDuration(3000, 90000), 33_333_333, 3000 * Second, 90000);
  }

  /**
   * Ten frames of 3000 ticks written at i * 3000 ticks each: the track's
   * frame count is ten, its rate is 30 fps and the part lasts ten frames,
   * 333 333 333 ns.
   */
  method FrameCountingScenario() returns (count: int, rate: real, duration: int)
    ensures count == 10
    ensures rate == 30.0
    ensures duration == 333_333_333
  {
    var part := new Part(0, 1, 0);
    part.Initialize();
    var sample := Sample(3000, [0x01, 0x02, 0x03]);
    FrameTickDuration();
    var i := 0;
    while i < 10
      invariant 0 <= i <= 10
      invariant part.startDTS == 0
      invariant i == 0 ==> part.partTracks == map[] && part.frameRates == map[] && part.endDTS == 0
      invariant i > 0 ==>
        && VideoTrack in part.partTracks && VideoTrack in part.trackFrameCounts
        && part.trackFrameCounts[VideoTrack] == i
        && VideoTrack in part.frameRates && part.frameRates[VideoTrack] == 30.0
        && part.endDTS == (i - 1) * 3000 * Second / 90000 + 33_333_333
    {
      var dts := i * 3000 * Second / 90000;
      assert i > 0 ==> (i - 1) * 3000 * Second / 90000 < dts;
      var err := part.Write(VideoTrack, sample, dts);
      i := i + 1;
    }
    count := part.trackFrameCounts[VideoTrack];
    rate := part.frameRates[VideoTrack];
    duration := part.Duration();
  }

  /** One sample of `sampleDuration` ticks makes the part store timeScale / sampleDuration as the track's rate. */
  method FrameRateScenario(timeScale: int, sampleDuration: int) returns (rate: real)
    requires 0 < timeScale <= MaxUint32 && 0 < sampleDuration <= MaxUint32
    ensures rate == timeScale as real / sampleDuration as real
  {
    var track := Track(1, 1, timeScale);
    var part := new Part(0, 1, 0);
    part.Initialize();
    var err := part.Write(track, Sample(sampleDuration, [0x01, 0x02, 0x03]), 0);
    rate := part.frameRates[track];
  }

  /** 90 kHz / 3000, 48 kHz / 1000, 90 kHz / 1500 and 25 kHz / 1000 give 30, 48, 60 and 25 fps. */
  method FrameRateCases() returns (r1: real, r2: real, r3: real, r4: real)
    ensures r1 == 30.0 && r2 == 48.0 && r3 == 60.0 && r4 == 25.0
  {
    r1 := FrameRateScenario(90000, 3000);
    r2 := FrameRateScenario(48000, 1000);
    r3 := FrameRateScenario(90000, 1500);
    r4 := FrameRateScenario(25000, 1000);
  }

  /**
   * A fresh part whose video track is given `frameRate` when that is
   * positive: its expected frame count over `partDuration` is that rate, or
   * 30 fps without one, times the span, truncated and at least one.
   */
  method ExpectedFrameCountScenario(frameRate: real, partDuration: int) returns (count: int)
    ensures frameRate > 0.0 ==> IsClampedTrunc(count, frameRate * Seconds(partDuration))
    ensures frameRate <= 0.0 ==> IsClampedTrunc(count, 30.0 * Seconds(partDuration))
  {
    var part := new Part(0, 1, 0);
    part.Initialize();
    if frameRate > 0.0 {
      part.frameRates := part.frameRates[VideoTrack := frameRate];
    }
    count := part.CalculateExpectedFrameCount(VideoTrack, partDuration);
  }

  /** 30 fps over 2 s, 60 fps over 1 s, 25 fps over 4 s, 30 fps over nothing, no rate over 2 s. */
  method ExpectedFrameCountCases() returns (c1: int, c2: int, c3: int, c4: int, c5: int)
    ensures c1 == 60 && c2 == 60 && c3 == 100 && c4 == 1 && c5 == 60
  {
    c1 := ExpectedFrameCountScenario(30.0, 2 * Second);
    c2 := ExpectedFrameCountScenario(60.0, 1 * Second);
    c3 := ExpectedFrameCountScenario(25.0, 4 * Second);
    c4 := ExpectedFrameCountScenario(30.0, 0);
    c5 := ExpectedFrameCountScenario(0.0, 2 * Second);
  }
}
