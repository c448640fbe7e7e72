/** The sample specification of a PCM stream: channel count, sample format,
    sample rate and one mixing policy per channel, together with the frame
    size and the byte/frame/time conversions derived from them.

    The C++ class is mutated through setters; here every setter returns the
    updated specification. A hard assertion of the C++ code is a `requires`;
    a soft failure ("log and return 0", "log and do nothing") is an ordinary
    branch whose result is stated in the contract. */
module SampleSpecs {
  import opened MachineInts

  /** How the samples of one channel are derived when streams are mixed. */
  datatype ChannelsPolicy = Copy | Ignore | Average

  /** A sample-specification item selector is the value of a C++ enumeration;
      any integer can be passed, only the three below are valid. */
  type SampleSpecItem = int

  const ChannelCountItem: SampleSpecItem := 0
  const FormatItem: SampleSpecItem := 1
  const RateItem: SampleSpecItem := 2
  const NbSampleSpecItems: SampleSpecItem := 3

  /** Exclusive upper bound on the channel count. */
  const MaxChannels: uint32 := 32

  /** Number of microseconds in one second. */
  const UsecPerSec: uint64 := 1_000_000

  /** Width in bytes of one sample of a given format code. The platform
      function that provides it is not part of this model, so every operation
      that needs it takes it as a parameter. */
  type BytesPerSample = uint32 -> uint64

  datatype SampleSpec = SampleSpec(
    channelCount: uint32,
    format: uint32,
    sampleRate: uint32,
    channelsPolicy: seq<ChannelsPolicy>,
    channelMask: uint32)

  predicate IsValidItem(item: SampleSpecItem)
  {
    0 <= item < NbSampleSpecItems
  }

  /** The invariant every specification built by `NewSampleSpec` and the
      setters keeps: a bounded channel count and one policy per channel. */
  predicate Valid(s: SampleSpec)
  {
    s.channelCount < MaxChannels && |s.channelsPolicy| == s.channelCount
  }

  /** The policy list installed whenever the channel count is set. */
  function DefaultPolicy(count: nat): (p: seq<ChannelsPolicy>)
    ensures |p| == count
    ensures forall i :: 0 <= i < count ==> p[i] == Copy
  {
    seq(count, _ => Copy)
  }

  // ---------------------------------------------------------------------
  // Generic item access
  // ---------------------------------------------------------------------

  /** The C++ object keeps the three items in an array indexed by the item
      selector; this is that array. */
  function ItemArray(s: SampleSpec): (items: seq<uint32>)
    ensures |items| == NbSampleSpecItems
  {
    [s.channelCount, s.format, s.sampleRate]
  }

  /** Reads slot `item` of the item array. */
  function GetSampleSpecItem(s: SampleSpec, item: SampleSpecItem): (r: uint32)
    requires IsValidItem(item)
    ensures r == ItemArray(s)[item]
  {
    if item == ChannelCountItem then s.channelCount
    else if item == FormatItem then s.format
    else s.sampleRate
  }

  /** Stores `value` in `item`. Setting the channel count discards the
      current policy list and installs `value` copies of `Copy`. */
  function SetSampleSpecItem(s: SampleSpec, item: SampleSpecItem, value: uint32): (r: SampleSpec)
    requires IsValidItem(item)
    requires item == ChannelCountItem ==> value < MaxChannels
    ensures GetSampleSpecItem(r, item) == value
    ensures forall other :: IsValidItem(other) && other != item ==>
      GetSampleSpecItem(r, other) == GetSampleSpecItem(s, other)
    ensures item == ChannelCountItem ==> r.channelsPolicy == DefaultPolicy(value)
    ensures item != ChannelCountItem ==> r.channelsPolicy == s.channelsPolicy
    ensures r.channelMask == s.channelMask
    ensures Valid(s) || item == ChannelCountItem ==> Valid(r)
  {
    if item == ChannelCountItem then
      s.(channelCount := value, channelsPolicy := DefaultPolicy(value))
    else if item == FormatItem then
      s.(format := value)
    else
      s.(sampleRate := value)
  }

  // ---------------------------------------------------------------------
  // Channel policy
  // ---------------------------------------------------------------------

  /** Replaces the whole policy list when it has one entry per channel;
      otherwise leaves the specification as it was. */
  function SetChannelsPolicy(s: SampleSpec, policy: seq<ChannelsPolicy>): (r: SampleSpec)
    ensures |policy| != s.channelCount ==> r == s
    ensures r.channelCount == s.channelCount && r.format == s.format
    ensures r.sampleRate == s.sampleRate && r.channelMask == s.channelMask
    ensures |policy| == s.channelCount ==> r.channelsPolicy == policy
    ensures Valid(s) ==> Valid(r)
  {
    if |policy| != s.channelCount then s
    else s.(channelsPolicy := policy)
  }

  /** The policy of one channel: the list splits into the policies of the
      `channelIndex` channels before it, this one, and the rest. */
  function GetChannelsPolicy(s: SampleSpec, channelIndex: uint32): (r: ChannelsPolicy)
    requires channelIndex < |s.channelsPolicy|
    ensures s.channelsPolicy
      == s.channelsPolicy[..channelIndex] + [r] + s.channelsPolicy[channelIndex + 1..]
  {
    s.channelsPolicy[channelIndex]
  }

  // ---------------------------------------------------------------------
  // Construction
  // ---------------------------------------------------------------------

  /** Sets channel count, format and rate in that order, then installs
      `channelsPolicy` when it is non-empty. A non-empty list of the wrong
      length is refused, so the all-`Copy` default remains. */
  function NewSampleSpec(channel: uint32, format: uint32, rate: uint32,
                         channelsPolicy: seq<ChannelsPolicy>): (r: SampleSpec)
    requires channel < MaxChannels
    ensures Valid(r)
    ensures r.channelCount == channel && r.format == format && r.sampleRate == rate
    ensures r.channelMask == 0
    ensures r.channelsPolicy ==
      if |channelsPolicy| == channel then channelsPolicy else DefaultPolicy(channel)
  {
    // The channel mask is cleared; the other fields are all overwritten.
    var s := SetSampleSpecItem(SampleSpec(0, 0, 0, [], 0), ChannelCountItem, channel);
    var s := SetSampleSpecItem(s, FormatItem, format);
    var s := SetSampleSpecItem(s, RateItem, rate);
    if |channelsPolicy| != 0 then SetChannelsPolicy(s, channelsPolicy) else s
  }

  // ---------------------------------------------------------------------
  // Frame size and conversions
  // ---------------------------------------------------------------------

  /** Bytes per frame: the sample width times the channel count, multiplied
      in size_t. */
  function FrameSize(s: SampleSpec, bytesPerSample: BytesPerSample): uint64
  {
    MulU64(bytesPerSample(s.format), s.channelCount)
  }

  /** The frame size is the exact product of sample width and channel count
      whenever that product fits size_t; in particular it is 0 for zero
      channels or a zero-width format. */
  lemma FrameSizeIsProduct(s: SampleSpec, bytesPerSample: BytesPerSample)
    requires bytesPerSample(s.format) * s.channelCount <= SIZE_MAX
    ensures FrameSize(s, bytesPerSample) == bytesPerSample(s.format) * s.channelCount
    ensures FrameSize(s, bytesPerSample) == 0 <==> s.channelCount == 0 || bytesPerSample(s.format) == 0
  {
  }

  /** Whole frames contained in `bytes`; 0 when the frame size is 0. */
  function ConvertBytesToFrames(s: SampleSpec, bytesPerSample: BytesPerSample, bytes: uint64): (r: uint64)
    ensures FrameSize(s, bytesPerSample) == 0 ==> r == 0
    ensures FrameSize(s, bytesPerSample) > 0 ==>
      r * FrameSize(s, bytesPerSample) <= bytes < (r + 1) * FrameSize(s, bytesPerSample)
  {
    var frameSize := FrameSize(s, bytesPerSample);
    if frameSize == 0 then 0
    else bytes / frameSize
  }

  /** The overflow guard of the frames-to-bytes conversion. */
  predicate FramesToBytesInRange(s: SampleSpec, bytesPerSample: BytesPerSample, frames: uint64)
  {
    var frameSize := FrameSize(s, bytesPerSample);
    frameSize == 0 || frames <= SIZE_MAX / frameSize
  }

  /** Bytes occupied by `frames` frames; 0 when the frame size is 0. The
      product is taken in size_t, and the C++ code asserts beforehand that it
      cannot wrap. */
  function ConvertFramesToBytes(s: SampleSpec, bytesPerSample: BytesPerSample, frames: uint64): (r: uint64)
    requires FramesToBytesInRange(s, bytesPerSample, frames)
    ensures r == frames * FrameSize(s, bytesPerSample)
  {
    var frameSize := FrameSize(s, bytesPerSample);
    if frameSize == 0 then 0
    else
      FramesToBytesGuardExact(frameSize, frames);
      MulU64(frames, frameSize)
  }

  /** `frames <= SIZE_MAX / frameSize` admits exactly the frame counts whose
      byte size fits in size_t: no false alarm, no missed overflow. */
  lemma {:induction false} FramesToBytesGuardExact(frameSize: uint64, frames: uint64)
    requires frameSize > 0
    ensures frames <= SIZE_MAX / frameSize <==> frames * frameSize <= SIZE_MAX
  {
    var q := SIZE_MAX / frameSize;
    assert q * frameSize <= SIZE_MAX < q * frameSize + frameSize;
    if frames <= q {
      MulLeftMono(frames, q, frameSize);
    } else {
      MulLeftMono(q + 1, frames, frameSize);
    }
  }

  /** The overflow guard of the frames-to-microseconds conversion. */
  predicate FramesToUsecInRange(s: SampleSpec, frames: uint32)
  {
    s.sampleRate == 0 || frames / s.sampleRate <= SIZE_MAX / UsecPerSec
  }

  /** Duration in microseconds of `frames` frames, rounded down; 0 when the
      rate is 0. The product is taken in 64 bits before dividing. */
  function ConvertFramesToUsec(s: SampleSpec, frames: uint32): (r: uint64)
    requires FramesToUsecInRange(s, frames)
    ensures s.sampleRate == 0 ==> r == 0
    ensures s.sampleRate > 0 ==>
      r * s.sampleRate <= UsecPerSec * frames < (r + 1) * s.sampleRate
  {
    if s.sampleRate == 0 then 0
    else
      assert UsecPerSec * frames <= SIZE_MAX;
      MulU64(UsecPerSec, frames) / s.sampleRate
  }

  /** Frames played in `intervalUsec` microseconds, rounded down. The product
      is taken in 64 bits before dividing. */
  function ConvertUsecToFrames(s: SampleSpec, intervalUsec: uint32): (r: uint64)
    ensures r * UsecPerSec <= intervalUsec * s.sampleRate < (r + 1) * UsecPerSec
  {
    MulUint32Fits(intervalUsec, s.sampleRate);
    MulU64(intervalUsec, s.sampleRate) / UsecPerSec
  }

  // ---------------------------------------------------------------------
  // Cross-specification comparison
  // ---------------------------------------------------------------------

  /** Whether two specifications agree on `item`; for the channel count the
      per-channel policies must agree as well. */
  function IsSampleSpecItemEqual(item: SampleSpecItem, src: SampleSpec, dst: SampleSpec): (r: bool)
    requires IsValidItem(item)
    ensures r ==> GetSampleSpecItem(src, item) == GetSampleSpecItem(dst, item)
    ensures item != ChannelCountItem ==>
      (r <==> GetSampleSpecItem(src, item) == GetSampleSpecItem(dst, item))
    ensures item == ChannelCountItem ==>
      (r <==> src.channelCount == dst.channelCount && src.channelsPolicy == dst.channelsPolicy)
  {
    if GetSampleSpecItem(src, item) != GetSampleSpecItem(dst, item) then false
    else item != ChannelCountItem || src.channelsPolicy == dst.channelsPolicy
  }
}
