/** Concrete scenarios: a stereo 16-bit stream at 48 kHz, the reset of the
    policy on a channel-count change, a refused policy, the time round trip
    and the byte-size overflow guard. */
module SampleSpecExamples {
  import opened MachineInts
  import opened SampleSpecs

  /** The format code of signed 16-bit PCM. */
  const Pcm16Bit: uint32 := 0x1

  /** A sample-width table that knows one format: 16-bit PCM, two bytes. */
  function Pcm16Width(format: uint32): (width: uint64)
    ensures width == 0 || width == 2
  {
    if format == Pcm16Bit then 2 else 0
  }

  const Stereo48k: SampleSpec := NewSampleSpec(2, Pcm16Bit, 48_000, [])

  lemma StereoPcm16FrameSize()
    ensures FrameSize(Stereo48k, Pcm16Width) == 4
    ensures ConvertBytesToFrames(Stereo48k, Pcm16Width, 4_099) == 1_024
    ensures ConvertFramesToBytes(Stereo48k, Pcm16Width, 1_024) == 4_096
  {
  }

  lemma ChannelCountResetExample()
    ensures var s := NewSampleSpec(2, Pcm16Bit, 48_000, [Ignore, Average]);
      s.channelsPolicy == [Ignore, Average]
      && SetSampleSpecItem(s, ChannelCountItem, 4).channelsPolicy == [Copy, Copy, Copy, Copy]
  {
  }

  lemma MismatchedPolicyRefusedExample()
    ensures var s := NewSampleSpec(2, Pcm16Bit, 48_000, [Ignore, Average]);
      SetChannelsPolicy(s, [Copy]) == s
  {
  }

  /** At 48 kHz one frame lasts 20 microseconds after rounding down, which
      converts back to no frame; 480 and 48000 frames survive exactly. */
  lemma TimeRoundTripAt48k()
    ensures ConvertUsecToFrames(Stereo48k, ConvertFramesToUsec(Stereo48k, 0)) == 0
    ensures ConvertFramesToUsec(Stereo48k, 1) == 20
    ensures ConvertUsecToFrames(Stereo48k, 20) == 0
    ensures ConvertFramesToUsec(Stereo48k, 480) == 10_000
    ensures ConvertUsecToFrames(Stereo48k, 10_000) == 480
    ensures ConvertFramesToUsec(Stereo48k, 48_000) == 1_000_000
    ensures ConvertUsecToFrames(Stereo48k, 1_000_000) == 48_000
  {
  }

  lemma PolicySensitiveEquality()
    ensures var a := NewSampleSpec(2, Pcm16Bit, 48_000, [Copy, Copy]);
      var b := NewSampleSpec(2, Pcm16Bit, 48_000, [Copy, Ignore]);
      !IsSampleSpecItemEqual(ChannelCountItem, a, b)
      && IsSampleSpecItemEqual(FormatItem, a, b)
      && IsSampleSpecItemEqual(RateItem, a, b)
  {
  }

  /** One frame more than SIZE_MAX / 4 is refused by the overflow guard. */
  lemma FramesToBytesOverflowExample()
    ensures !FramesToBytesInRange(Stereo48k, Pcm16Width, SIZE_MAX / 4 + 1)
    ensures FramesToBytesInRange(Stereo48k, Pcm16Width, SIZE_MAX / 4)
  {
  }

  /** The frame size has no overflow guard: a width of 2^63 bytes on two
      channels wraps the size_t product to 0. */
  lemma FrameSizeWrapExample()
    ensures FrameSize(SampleSpec(2, 0, 48_000, [Copy, Copy], 0), _ => 0x8000_0000_0000_0000) == 0
  {
  }
}
