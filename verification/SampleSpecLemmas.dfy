/** Properties that relate several operations of a sample specification:
    setter laws, the policy reset on a channel-count change, the round trips
    of the conversions, and the equivalence behind the item comparison. */
module SampleSpecLemmas {
  import opened MachineInts
  import opened SampleSpecs

  // ---------------------------------------------------------------------
  // Setters
  // ---------------------------------------------------------------------

  /** Setting an item twice keeps only the second value. */
  lemma SetSampleSpecItemLastWins(s: SampleSpec, item: SampleSpecItem, v: uint32, w: uint32)
    requires IsValidItem(item)
    requires item == ChannelCountItem ==> v < MaxChannels && w < MaxChannels
    ensures SetSampleSpecItem(SetSampleSpecItem(s, item, v), item, w) == SetSampleSpecItem(s, item, w)
  {
  }

  /** Setting two different items gives the same specification in either order. */
  lemma SetSampleSpecItemsCommute(s: SampleSpec, i: SampleSpecItem, v: uint32, j: SampleSpecItem, w: uint32)
    requires IsValidItem(i) && IsValidItem(j) && i != j
    requires i == ChannelCountItem ==> v < MaxChannels
    requires j == ChannelCountItem ==> w < MaxChannels
    ensures SetSampleSpecItem(SetSampleSpecItem(s, i, v), j, w)
         == SetSampleSpecItem(SetSampleSpecItem(s, j, w), i, v)
  {
  }

  /** A policy installed before a channel-count change never survives it,
      even when the count is set to the value it already had. */
  lemma ChannelCountResetsPolicy(s: SampleSpec, policy: seq<ChannelsPolicy>, count: uint32, i: uint32)
    requires count < MaxChannels && i < count
    ensures GetChannelsPolicy(SetSampleSpecItem(SetChannelsPolicy(s, policy), ChannelCountItem, count), i) == Copy
  {
  }

  /** Reading back a policy that was accepted gives its entries, in order. */
  lemma ChannelsPolicyReadBack(s: SampleSpec, policy: seq<ChannelsPolicy>, i: uint32)
    requires |policy| == s.channelCount && i < |policy|
    ensures GetChannelsPolicy(SetChannelsPolicy(s, policy), i) == policy[i]
  {
  }

  /** On a valid specification every channel index below the channel count
      may be queried. */
  lemma ChannelIndexInRange(s: SampleSpec, i: uint32)
    requires Valid(s) && i < s.channelCount
    ensures i < |s.channelsPolicy|
  {
  }

  /** Policy assignments: the last accepted one wins, and one of the wrong
      length leaves the specification untouched. */
  lemma SetChannelsPolicyLastWins(s: SampleSpec, p: seq<ChannelsPolicy>, q: seq<ChannelsPolicy>)
    requires |q| == s.channelCount
    ensures SetChannelsPolicy(SetChannelsPolicy(s, p), q) == SetChannelsPolicy(s, q)
  {
  }

  /** Constructing with a non-empty policy of the wrong length is the same as
      constructing with none. */
  lemma NewSampleSpecIgnoresMismatchedPolicy(channel: uint32, format: uint32, rate: uint32,
                                             policy: seq<ChannelsPolicy>)
    requires channel < MaxChannels && |policy| != channel
    ensures NewSampleSpec(channel, format, rate, policy) == NewSampleSpec(channel, format, rate, [])
    ensures NewSampleSpec(channel, format, rate, policy).channelsPolicy == DefaultPolicy(channel)
  {
  }

  // ---------------------------------------------------------------------
  // Frame size and byte/frame conversions
  // ---------------------------------------------------------------------

  /** With a sample width small enough for the largest channel count, the
      size_t product of the frame size never wraps on a valid specification. */
  lemma {:induction false} FrameSizeNoWrap(s: SampleSpec, bytesPerSample: BytesPerSample)
    requires Valid(s)
    requires bytesPerSample(s.format) <= SIZE_MAX / MaxChannels
    ensures FrameSize(s, bytesPerSample) == bytesPerSample(s.format) * s.channelCount
  {
    var w := bytesPerSample(s.format);
    MulLeftMono(s.channelCount, MaxChannels, w);
    assert w * MaxChannels <= SIZE_MAX;
  }

  /** A zero frame size makes both byte/frame conversions return 0 for every
      input, without tripping the overflow guard. */
  lemma ZeroFrameSizeConversions(s: SampleSpec, bytesPerSample: BytesPerSample, n: uint64)
    requires FrameSize(s, bytesPerSample) == 0
    ensures ConvertBytesToFrames(s, bytesPerSample, n) == 0
    ensures FramesToBytesInRange(s, bytesPerSample, n)
    ensures ConvertFramesToBytes(s, bytesPerSample, n) == 0
  {
  }

  /** Frames converted to bytes and back are the frames started from. */
  lemma {:induction false} FramesBytesRoundTrip(s: SampleSpec, bytesPerSample: BytesPerSample, frames: uint64)
    requires FrameSize(s, bytesPerSample) > 0
    requires FramesToBytesInRange(s, bytesPerSample, frames)
    ensures ConvertBytesToFrames(s, bytesPerSample, ConvertFramesToBytes(s, bytesPerSample, frames)) == frames
  {
    var frameSize := FrameSize(s, bytesPerSample);
    DivIsFloor(frames * frameSize, frameSize, frames);
  }

  /** Bytes converted to frames and back lose less than one frame, and that
      return trip never trips the overflow guard. */
  lemma {:induction false} BytesFramesRoundTrip(s: SampleSpec, bytesPerSample: BytesPerSample, bytes: uint64)
    requires FrameSize(s, bytesPerSample) > 0
    ensures FramesToBytesInRange(s, bytesPerSample, ConvertBytesToFrames(s, bytesPerSample, bytes))
    ensures var back := ConvertFramesToBytes(s, bytesPerSample, ConvertBytesToFrames(s, bytesPerSample, bytes));
      back <= bytes < back + FrameSize(s, bytesPerSample)
  {
    var frameSize := FrameSize(s, bytesPerSample);
    var frames := ConvertBytesToFrames(s, bytesPerSample, bytes);
    FramesToBytesGuardExact(frameSize, frames);
  }

  /** More bytes never hold fewer frames. */
  lemma {:induction false} BytesToFramesMonotone(s: SampleSpec, bytesPerSample: BytesPerSample, a: uint64, b: uint64)
    requires a <= b
    ensures ConvertBytesToFrames(s, bytesPerSample, a) <= ConvertBytesToFrames(s, bytesPerSample, b)
  {
    var frameSize := FrameSize(s, bytesPerSample);
    if frameSize > 0 {
      DivMono(a, b, frameSize);
    }
  }

  // ---------------------------------------------------------------------
  // Time conversions
  // ---------------------------------------------------------------------

  /** The overflow assertion of the frames-to-microseconds conversion holds
      for every 32-bit frame count, so it never fires. */
  lemma {:induction false} FramesToUsecNeverOverflows(s: SampleSpec, frames: uint32)
    ensures FramesToUsecInRange(s, frames)
  {
    if s.sampleRate > 0 {
      var q := frames / s.sampleRate;
      assert q * s.sampleRate <= frames;
      MulLeftMono(1, s.sampleRate, q);
      assert SIZE_MAX / UsecPerSec == 18_446_744_073_709;
    }
  }

  /** For a rate of at most one million frames per second, frames converted
      to microseconds and back lose at most one frame. The microsecond value
      must fit the 32-bit parameter of the reverse conversion. */
  lemma {:induction false} FramesUsecRoundTrip(s: SampleSpec, frames: uint32)
    requires 0 < s.sampleRate <= UsecPerSec
    requires FramesToUsecInRange(s, frames)
    requires ConvertFramesToUsec(s, frames) < UINT32_LIMIT
    ensures var back := ConvertUsecToFrames(s, ConvertFramesToUsec(s, frames));
      back == frames || back + 1 == frames
  {
    var rate := s.sampleRate;
    var usec := ConvertFramesToUsec(s, frames);
    var back := ConvertUsecToFrames(s, usec);
    // usec * rate lies in (UsecPerSec * frames - rate, UsecPerSec * frames]
    assert usec * rate <= UsecPerSec * frames;
    assert back * UsecPerSec <= usec * rate;
    assert back <= frames;
    if frames > 0 {
      assert (frames - 1) * UsecPerSec <= usec * rate;
      DivLowerBound(usec * rate, UsecPerSec, frames - 1);
    }
  }

  /** When the duration is a whole number of microseconds the round trip is
      exact. */
  lemma {:induction false} FramesUsecRoundTripExact(s: SampleSpec, frames: uint32)
    requires 0 < s.sampleRate
    requires FramesToUsecInRange(s, frames)
    requires (UsecPerSec * frames) % s.sampleRate == 0
    requires ConvertFramesToUsec(s, frames) < UINT32_LIMIT
    ensures ConvertUsecToFrames(s, ConvertFramesToUsec(s, frames)) == frames
  {
    var usec := ConvertFramesToUsec(s, frames);
    assert usec * s.sampleRate == UsecPerSec * frames;
    DivIsFloor(usec * s.sampleRate, UsecPerSec, frames);
  }

  // ---------------------------------------------------------------------
  // Item comparison
  // ---------------------------------------------------------------------

  /** Item comparison is an equivalence relation on specifications. */
  lemma ItemEqualIsEquivalence(item: SampleSpecItem, a: SampleSpec, b: SampleSpec, c: SampleSpec)
    requires IsValidItem(item)
    ensures IsSampleSpecItemEqual(item, a, a)
    ensures IsSampleSpecItemEqual(item, a, b) == IsSampleSpecItemEqual(item, b, a)
    ensures IsSampleSpecItemEqual(item, a, b) && IsSampleSpecItemEqual(item, b, c) ==>
      IsSampleSpecItemEqual(item, a, c)
  {
  }

  /** On valid specifications the channel-count comparison is exactly a
      comparison of the policy lists: equal policies force equal counts. */
  lemma ChannelCountEqualIffPoliciesEqual(a: SampleSpec, b: SampleSpec)
    requires Valid(a) && Valid(b)
    ensures IsSampleSpecItemEqual(ChannelCountItem, a, b) <==> a.channelsPolicy == b.channelsPolicy
  {
  }

  /** Two specifications agree on all three items exactly when they describe
      the same stream: count, format, rate and policy; only the channel mask
      is not compared. */
  lemma AllItemsEqualIffSameStream(a: SampleSpec, b: SampleSpec)
    ensures (forall item :: IsValidItem(item) ==> IsSampleSpecItemEqual(item, a, b))
      <==> a.(channelMask := 0) == b.(channelMask := 0)
  {
    if a.(channelMask := 0) != b.(channelMask := 0) {
      if a.channelCount != b.channelCount || a.channelsPolicy != b.channelsPolicy {
        assert !IsSampleSpecItemEqual(ChannelCountItem, a, b);
      } else if a.format != b.format {
        assert !IsSampleSpecItemEqual(FormatItem, a, b);
      } else {
        assert !IsSampleSpecItemEqual(RateItem, a, b);
      }
    }
  }
}
