# Sample specification of a PCM stream

A Dafny model of `SampleSpec`, the value type an Android audio HAL uses to
describe the geometry of a PCM stream: a channel count, a sample format, a
sample rate and one mixing policy (`Copy`, `Ignore`, `Average`) per channel.
The model covers its construction, the generic item setter and getter, the
channel-policy setter and getter, the frame size, the byte/frame and
frame/microsecond conversions and the item comparison between two
specifications.

The C++ object is mutated in place. Here it is an immutable datatype, and
every setter returns the updated specification. Each `AUDIOCOMMS_ASSERT` of the
C++ code is a `requires`. Each soft failure is an ordinary branch stated in the
contract: "log and return 0" returns 0, and "log and do nothing" returns the
specification unchanged. Machine integers are explicit. `uint32_t` and
`uint64_t` are subset types of `nat`, and `size_t` is taken to be 64 bits
wide. Every 64-bit multiplication of the C++ code is written as `MulU64`, which
reduces the product modulo 2^64. The byte and time conversions are proved
never to wrap under their own guards. The frame size has no guard and does
wrap for absurd sample widths (2^63 bytes on two channels gives 0); it is
exact whenever width times channel count fits size_t, for instance on a valid
specification whose width is at most SIZE_MAX / mMaxChannels.

Files:

- `MachineInts.dfy`: fixed-width integers, wrapping multiplication, and
  division facts.
- `SampleSpec.dfy`: the module `SampleSpecs` with the datatype and every
  operation.
- `SampleSpecLemmas.dfy`: laws that relate several operations.
- `SampleSpecExamples.dfy`: concrete scenarios, such as a stereo 16-bit stream
  at 48 kHz.

The constructor always sets the channel count, whether or not a
policy list is given (`SampleSpec.cpp:43`). A non-empty list is then offered to
`setChannelsPolicy`. A list of the right length is installed. A list of the
wrong length is refused, and the all-`Copy` default remains.

Assumptions about declarations outside the modelled file:

- The item enumeration is `ChannelCount = 0`, `Format = 1`, `Rate = 2`, and
  `NbSampleSpecItems = 3`. The header that declares it is not part of this
  model. The selector is an `int`, so the range assertion of
  `SAMPLE_SPEC_ITEM_IS_VALID` stays a real precondition.
- `mMaxChannels` is 32. The general lemmas hold for any value; the stereo and
  four-channel examples need it to exceed 4.
- `mUsecPerSec` is 1 000 000.
- `audio_bytes_per_sample` is a platform function that is not part of this
  model. Every operation that needs it takes a parameter of type
  `BytesPerSample`, a total function from format code to a `size_t` width.
  Nothing else is assumed about it.

## Model

| member | source | states |
|---|---|---|
| SampleSpecs.NewSampleSpec | sample_specifications/src/SampleSpec.cpp:37-49 | requires channel < mMaxChannels; the result is valid (one policy per channel), holds the given count, format and rate with a cleared channel mask, and its policy is the given list when its length equals the count and all `Copy` otherwise |
| SampleSpecs.SetSampleSpecItem | sample_specifications/src/SampleSpec.cpp:33-65 | requires a valid selector and, for the channel count, value < mMaxChannels; reading the item back yields the value, the other items are unchanged, a channel-count change installs `value` copies of `Copy`, other items leave the policy and mask alone, and validity is kept |
| SampleSpecs.SetChannelsPolicy | sample_specifications/src/SampleSpec.cpp:67-74 | a list whose length differs from the channel count leaves the specification unchanged; a list of matching length becomes the policy wholesale; count, format, rate and mask never change; validity is kept |
| SampleSpecs.GetChannelsPolicy | sample_specifications/src/SampleSpec.cpp:76-81 | requires the index to be inside the policy list, as the C++ assertion does; the result is the entry at that index: the list is the first `channelIndex` entries, the result, then the rest |
| SampleSpecs.GetSampleSpecItem | sample_specifications/src/SampleSpec.cpp:83-87 | requires a valid selector; the result is slot `item` of the item array (channel count, format, rate) |
| SampleSpecs.FrameSizeIsProduct | sample_specifications/src/SampleSpec.cpp:89-92 | whenever sample width times channel count fits size_t, the frame size is exactly that product, and it is 0 exactly when there are no channels or the format has zero width |
| SampleSpecs.ConvertBytesToFrames | sample_specifications/src/SampleSpec.cpp:94-101 | 0 when the frame size is 0; otherwise the number of whole frames in `bytes` (r frames fit, r+1 do not) |
| SampleSpecs.ConvertFramesToBytes | sample_specifications/src/SampleSpec.cpp:103-112 | requires the C++ guard frames <= SIZE_MAX / frameSize; the size_t product then equals the exact product frames * frameSize (0 when the frame size is 0) |
| SampleSpecs.FramesToBytesGuardExact | sample_specifications/src/SampleSpec.cpp:109-111 | the guard frames <= SIZE_MAX / frameSize holds exactly when frames * frameSize fits size_t |
| SampleSpecs.ConvertFramesToUsec | sample_specifications/src/SampleSpec.cpp:114-124 | 0 when the rate is 0; otherwise the duration of `frames` in whole microseconds, rounded down, with the 64-bit product never wrapping |
| SampleSpecs.ConvertUsecToFrames | sample_specifications/src/SampleSpec.cpp:126-129 | the number of whole frames played in `intervalUsec` microseconds, rounded down, with the 64-bit product of two 32-bit values never wrapping |
| SampleSpecs.IsSampleSpecItemEqual | sample_specifications/src/SampleSpec.cpp:131-142 | false whenever the raw item values differ; for format and rate exactly raw-value equality; for the channel count true exactly when both the counts and the policy lists are equal |
| SampleSpecLemmas.SetSampleSpecItemLastWins | sample_specifications/src/SampleSpec.cpp:52-65 | setting an item twice is the same as setting it once to the second value |
| SampleSpecLemmas.SetSampleSpecItemsCommute | sample_specifications/src/SampleSpec.cpp:52-65 | setting two different items gives the same specification in either order |
| SampleSpecLemmas.ChannelCountResetsPolicy | sample_specifications/src/SampleSpec.cpp:56-63 | after any policy assignment, setting the channel count makes every channel's policy `Copy`; no earlier policy survives |
| SampleSpecLemmas.ChannelsPolicyReadBack | sample_specifications/src/SampleSpec.cpp:67-81 | after an accepted policy assignment, the policy of channel i is entry i of the assigned list |
| SampleSpecLemmas.ChannelIndexInRange | sample_specifications/src/SampleSpec.cpp:76-81 | on a valid specification every index below the channel count meets the getter's assertion |
| SampleSpecLemmas.SetChannelsPolicyLastWins | sample_specifications/src/SampleSpec.cpp:67-74 | a policy assignment of the right length overrides whatever assignment came before it |
| SampleSpecLemmas.NewSampleSpecIgnoresMismatchedPolicy | sample_specifications/src/SampleSpec.cpp:37-49 | constructing with a policy of the wrong length equals constructing with none, and leaves the all-`Copy` default |
| SampleSpecLemmas.FrameSizeNoWrap | sample_specifications/src/SampleSpec.cpp:89-92 | on a valid specification, a sample width of at most SIZE_MAX / mMaxChannels gives an exact, unwrapped frame size |
| SampleSpecLemmas.ZeroFrameSizeConversions | sample_specifications/src/SampleSpec.cpp:94-112 | with a zero frame size both byte/frame conversions return 0 for every input, and the overflow assertion cannot fire |
| SampleSpecLemmas.FramesBytesRoundTrip | sample_specifications/src/SampleSpec.cpp:94-112 | frames converted to bytes and back give the same frame count |
| SampleSpecLemmas.BytesFramesRoundTrip | sample_specifications/src/SampleSpec.cpp:94-112 | bytes converted to frames and back lose less than one frame, and the return conversion always passes its overflow assertion |
| SampleSpecLemmas.BytesToFramesMonotone | sample_specifications/src/SampleSpec.cpp:94-101 | more bytes never convert to fewer frames |
| SampleSpecLemmas.FramesToUsecNeverOverflows | sample_specifications/src/SampleSpec.cpp:120-122 | the overflow assertion of the frames-to-microseconds conversion holds for every 32-bit frame count |
| SampleSpecLemmas.FramesUsecRoundTrip | sample_specifications/src/SampleSpec.cpp:114-129 | for 0 < rate <= 1 000 000, frames to microseconds and back gives the original count or one less |
| SampleSpecLemmas.FramesUsecRoundTripExact | sample_specifications/src/SampleSpec.cpp:114-129 | when the duration is a whole number of microseconds, the time round trip is exact |
| SampleSpecLemmas.ItemEqualIsEquivalence | sample_specifications/src/SampleSpec.cpp:131-142 | item comparison is reflexive, symmetric and transitive |
| SampleSpecLemmas.ChannelCountEqualIffPoliciesEqual | sample_specifications/src/SampleSpec.cpp:131-142 | on valid specifications, channel-count equality holds exactly when the policy lists are equal |
| SampleSpecLemmas.AllItemsEqualIffSameStream | sample_specifications/src/SampleSpec.cpp:131-142 | two specifications agree on all three items exactly when count, format, rate and policy coincide; only the channel mask is ignored |
| SampleSpecExamples.StereoPcm16FrameSize | sample_specifications/src/SampleSpec.cpp:89-112 | stereo 16-bit PCM has a frame size of 4, 4099 bytes hold 1024 frames, and 1024 frames take 4096 bytes |
| SampleSpecExamples.ChannelCountResetExample | sample_specifications/src/SampleSpec.cpp:37-65 | the policy `[Ignore, Average]` becomes four `Copy` entries when the count is set to 4 |
| SampleSpecExamples.MismatchedPolicyRefusedExample | sample_specifications/src/SampleSpec.cpp:67-74 | a one-entry policy offered to a stereo specification changes nothing |
| SampleSpecExamples.TimeRoundTripAt48k | sample_specifications/src/SampleSpec.cpp:114-129 | at 48 kHz, 0, 480 and 48000 frames survive the time round trip, while 1 frame becomes 20 microseconds and then 0 frames |
| SampleSpecExamples.PolicySensitiveEquality | sample_specifications/src/SampleSpec.cpp:131-142 | specifications that differ only in policy are unequal on the channel count and equal on format and rate |
| SampleSpecExamples.FrameSizeWrapExample | sample_specifications/src/SampleSpec.cpp:89-92 | the frame size is an unguarded size_t product: a width of 2^63 bytes on two channels wraps it to 0 |
| SampleSpecExamples.FramesToBytesOverflowExample | sample_specifications/src/SampleSpec.cpp:109-110 | with a 4-byte frame, SIZE_MAX / 4 frames pass the overflow guard and one more does not |

## Left out

- `SampleSpec::dump` (`SampleSpec.cpp:144-163`) is left out. It formats text,
  calls the platform's channel-mask and format converters, and writes to a
  file descriptor. That is I/O plus foreign string rendering. The channel mask
  exists in the model only as a field that the constructor clears.
- Log output is left out. A `Log::Warning` or `Log::Error` call has no effect
  on the state. Only the returned value or the unchanged state is modelled.
- `audio_bytes_per_sample` is left out as a platform function. It is a
  parameter, and its internals are not modelled.
- The accessors declared only in the header are left out: `getChannelCount`,
  `getFormat`, `getSampleRate`, the no-argument `getChannelsPolicy`, and the
  channel-mask accessors. Here they are field reads of the datatype.
- `AudioStreamRoute.hpp` (the routing plugin) is not part of this model. It
  holds only declarations.
- `FunctionalTest.hpp` (the HAL test fixture) is not part of this model. It
  opens a real device.
- SampleSpecLemmas.FramesUsecRoundTrip requires the intermediate microsecond
  value to be below 2^32. `convertFramesToUsec` returns a `size_t`, but
  `convertUsecToframes` takes a `uint32_t`. A caller that chains them
  therefore truncates larger durations before the reverse conversion, and the
  round trip is stated only where no truncation happens.
