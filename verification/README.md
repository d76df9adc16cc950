# SSE–PDM interface: a verified model of the wire data layer

A supervising controller (the SSE) and the signal-detection units it drives
(PDMs) talk over a socket in fixed-layout binary messages. `src/sse-pkg/include/ssePdmInterface.h` declares them: the limits
(`MAX_RESOLUTIONS`, `MAX_PDM_ACTIVITIES`, …), the enumerations (`Resolution`,
`SignalClass`, `SignalClassReason`, `PdmMessageCode`, `PdmOperationsMask`,
`PdmActivityState`) and every message structure. Each structure declares an
in-place `marshall()` / `demarshall()` pair that turns its fields into network
byte order before sending and back after receiving. Variable-length messages
are a header that announces a count, followed by exactly that many
fixed-size elements.

This project models that data layer in Dafny and proves its properties:

- `wire.dfy` (`Wire`): scalars of 1, 4 and 8 bytes; the big-endian wire
  encoding of a sequence of scalars and its decoder; the host byte order as a
  parameter (`ByteOrder`) and the in-place host-to-network conversion
  `ToNetwork`. The conversion is proved to be an involution, so `demarshall`
  undoes `marshall`. After conversion, the host's memory image of a record is
  its big-endian wire form on either kind of host.
- `records.dfy` (`Records`): 21 of the structures without arrays (and the
  externally defined `NssDate`), each as a datatype whose fields follow the
  declaration order, padding fields included. Each has its scalar list, its
  `Marshalled` conversion, a reader from scalars, and lemmas for the round
  trip in both directions, the involution and the byte size.
- `complex_samples.dfy` (`ComplexSamples`): `ComplexPair` packs two 4-bit
  two's-complement samples into one byte, real in the high nibble and
  imaginary in the low nibble. A `SubbandCoef1KHz` block is 512 such bytes and
  has no byte order.
- `framing.dfy` (`Framing`): the header-plus-count framing of frequency
  masks, recent-RFI masks, pulse signals, baselines, complex amplitudes and
  archive data, with decoders that reject truncated input and negative counts
  and encoders that set the header's count to the number of elements sent.
- `fixed_arrays.dfy` (`FixedArrays`): the structures that embed a
  fixed-capacity array next to a count: `CwCoherentSignal`, `PdmStatus`, and
  the deprecated fixed-size `Baseline` and `ComplexAmplitudes`. Each is a
  class over a Dafny array, with in-place `Marshall` / `Demarshall` methods.
- `activity_parameters.dfy` (`ActivityParameters`): `PdmActivityParameters`,
  with its per-resolution arrays and the rules stated in its comments.
- `resolution.dfy`, `classification.dfy`, `operations.dfy`,
  `message_codes.dfy`, `activity.dfy`, `detection.dfy`: the enumerations and
  the rules attached to them. These are the resolution ladder, the
  classification legality table, the operations bit mask, the message-code
  range, the activity life cycle with the PDM's activity table, and the totals
  of `DetectionStatistics`.
- `validation.dfy` (`Validation`): the domains of the `bool_t` and
  enum-typed fields. The readers above carry each field as it arrives; the
  checks here reject a `bool_t` other than 0 or 1 and an enum value outside
  its declaration as FieldOutOfRange, and the checked readers read a record
  from bytes and then check it.

The header gives no `marshall()` bodies, so the model fixes the one encoding
the declarations imply: every scalar field in declaration order, each in
network (big-endian) order. Floating-point fields travel as opaque 4- or
8-byte patterns.

## Model

| member | source | states |
|---|---|---|
| Wire.ToNetworkImage | src/sse-pkg/include/ssePdmInterface.h:206-207 | after marshall() converts an n-byte scalar in place, its bytes in host memory are its big-endian encoding, whatever the host order |
| Wire.ToNetworkInvolution | src/sse-pkg/include/ssePdmInterface.h:206-207 | demarshall() undoes marshall() on one scalar: converting twice restores the value |
| Wire.ToNetworkI32 | src/sse-pkg/include/ssePdmInterface.h:206-207 | a signed 32-bit field is converted through its two's-complement word |
| Wire.ToNetworkI32Involution | src/sse-pkg/include/ssePdmInterface.h:206-207 | converting a signed 32-bit field twice restores it |
| Wire.ToNetwork8 | src/sse-pkg/include/ssePdmInterface.h:829-835 | a one-byte field has no byte order: conversion leaves it unchanged |
| Wire.AllToNetwork | src/sse-pkg/include/ssePdmInterface.h:206-207 | converting a record converts each of its scalars and keeps their number and widths |
| Wire.AllToNetworkInvolution | src/sse-pkg/include/ssePdmInterface.h:206-207 | demarshall() undoes marshall() on any sequence of scalars |
| Wire.HostImageAfterMarshall | src/sse-pkg/include/ssePdmInterface.h:206-207 | after marshall(), the host memory image of a record is exactly its wire encoding on both little- and big-endian hosts |
| Wire.Serialize | src/sse-pkg/include/ssePdmInterface.h:286-296 | the wire form of a record has the summed width of its fields, padding fields included |
| Wire.Deserialize | src/sse-pkg/include/ssePdmInterface.h:286-296 | reading a layout succeeds iff enough bytes are present (otherwise TruncatedInput), yields scalars of that layout and leaves exactly the unread suffix |
| Wire.DeserializeSerialize | src/sse-pkg/include/ssePdmInterface.h:286-296 | reading back the wire form of any scalars yields them and leaves any following bytes untouched |
| Wire.SerializeDeserialize | src/sse-pkg/include/ssePdmInterface.h:286-296 | whenever enough bytes are present, writing back the scalars a layout reads, followed by the unread bytes, reproduces the input exactly |
| Wire.DeserializeExtend | src/sse-pkg/include/ssePdmInterface.h:286-296 | bytes appended after a complete record do not change what is read |
| ComplexSamples.Pack | src/sse-pkg/include/ssePdmInterface.h:829-835 | a (real, imaginary) pair packs iff both lie in [-8, 7], otherwise SampleOverflow; the packed byte's high nibble reads back the real part and its low nibble the imaginary part |
| ComplexSamples.PackUnpack | src/sse-pkg/include/ssePdmInterface.h:829-835 | unpacking a byte into its two sign-extended nibbles and packing them again gives the byte back |
| ComplexSamples.PackInjective | src/sse-pkg/include/ssePdmInterface.h:829-835 | distinct sample pairs pack to distinct bytes |
| ComplexSamples.WithReal | src/sse-pkg/include/ssePdmInterface.h:829-835 | replacing the real sample never alters the imaginary nibble |
| ComplexSamples.WithImag | src/sse-pkg/include/ssePdmInterface.h:829-835 | replacing the imaginary sample never alters the real nibble |
| ComplexSamples.NibblePositions | src/sse-pkg/include/ssePdmInterface.h:829-835 | the real sample occupies bits 7-4 and the imaginary sample bits 3-0, both as two's-complement nibbles |
| ComplexSamples.SignExtendNibbleBits | src/sse-pkg/include/ssePdmInterface.h:829-835 | sign extension of a nibble's 4-bit pattern gives back the sample |
| ComplexSamples.BlockRoundTrip | src/sse-pkg/include/ssePdmInterface.h:837-845 | a subband block reads back from its 512 one-byte scalars |
| ComplexSamples.BlockFromScalars | src/sse-pkg/include/ssePdmInterface.h:837-845 | any 512 one-byte scalars are exactly the scalars of the block read from them |
| ComplexSamples.BlockSize | src/sse-pkg/include/ssePdmInterface.h:837-845 | a subband block is MAX_SUBBAND_BINS_PER_1KHZ_HALF_FRAME = 512 bytes on the wire |
| ComplexSamples.BlockMarshallIdentity | src/sse-pkg/include/ssePdmInterface.h:837-845 | marshall() leaves a subband block unchanged, since its elements are single bytes |
| ComplexSamples.BlockSerialize | src/sse-pkg/include/ssePdmInterface.h:837-845 | the wire form of a subband block is its bytes, in order |
| Framing.Repeat | src/sse-pkg/include/ssePdmInterface.h:296-312 | the layout of n elements in a row has n times the element's field count |
| Framing.SizeOfRepeat | src/sse-pkg/include/ssePdmInterface.h:296-312 | n elements in a row occupy n times the element size, with no gap between them |
| Framing.FlattenAllToNetwork | src/sse-pkg/include/ssePdmInterface.h:579-591 | converting every element of an array converts the whole array's scalars |
| Framing.SplitFlatten | src/sse-pkg/include/ssePdmInterface.h:296-312 | cutting the concatenated scalars of n elements back into elements gives the elements |
| Framing.FlattenSplit | src/sse-pkg/include/ssePdmInterface.h:296-312 | when each element reads back as the scalars it came from, the elements cut from n elements' scalars write back to those scalars |
| Framing.DecodeElements | src/sse-pkg/include/ssePdmInterface.h:296-312 | reading n elements succeeds iff n element sizes of bytes are present, otherwise TruncatedInput, and leaves exactly the unread suffix |
| Framing.DecodeElementsFlatten | src/sse-pkg/include/ssePdmInterface.h:296-312 | reading back the wire form of n elements yields them and leaves the following bytes |
| Framing.DecodeElementsReencode | src/sse-pkg/include/ssePdmInterface.h:296-312 | re-encoding n decoded elements, followed by the unread bytes, reproduces the input |
| Framing.DecodeFramed | src/sse-pkg/include/ssePdmInterface.h:296-312 | a header-plus-elements message is TruncatedInput when the header is incomplete; otherwise a negative count is InvalidCount; otherwise the message decodes iff header size + count × element size bytes are present, and then consumes exactly that many |
| Framing.DecodeFramedExtend | src/sse-pkg/include/ssePdmInterface.h:296-312 | bytes after a complete message do not change its decoding and are returned untouched |
| Framing.DecodeEncodeFramed | src/sse-pkg/include/ssePdmInterface.h:296-312 | decoding an encoded header and elements, with the header's count equal to the number of elements, gives them back |
| Framing.DecodeFramedReencode | src/sse-pkg/include/ssePdmInterface.h:296-312 | a decoded header-plus-elements message re-encodes to exactly the bytes it was decoded from, followed by the unread rest |
| Framing.EncodeFramedLength | src/sse-pkg/include/ssePdmInterface.h:296-312 | an encoded message is header size + count × element size bytes long |
| Framing.FrequencyMaskFormatFacts | src/sse-pkg/include/ssePdmInterface.h:286-312 | a frequency mask is a 32-byte header followed by 16-byte bands |
| Framing.DecodeFrequencyMask | src/sse-pkg/include/ssePdmInterface.h:299-312 | a frequency mask with numberOfFreqBands = n consumes exactly 32 + 16·n bytes; a negative count is InvalidCount and short input TruncatedInput |
| Framing.EncodeFrequencyMask | src/sse-pkg/include/ssePdmInterface.h:299-312 | an encoded frequency mask of n bands (n below 2^31) is 32 + 16·n bytes long, its header's numberOfFreqBands set to n |
| Framing.FrequencyMaskRoundTrip | src/sse-pkg/include/ssePdmInterface.h:299-312 | decoding an encoded frequency mask returns the header with numberOfFreqBands = n, the bands and the trailing bytes; a header that already counts the bands comes back unchanged |
| Framing.FrequencyMaskReencode | src/sse-pkg/include/ssePdmInterface.h:299-312 | a decoded frequency mask re-encodes to exactly the bytes it was decoded from, followed by the rest, so decoding reads every byte of the message and nothing else |
| Framing.RecentRfiMaskFormatFacts | src/sse-pkg/include/ssePdmInterface.h:316-328 | a recent-RFI mask is a 24-byte header followed by 16-byte bands |
| Framing.DecodeRecentRfiMask | src/sse-pkg/include/ssePdmInterface.h:316-328 | a recent-RFI mask with numberOfFreqBands = n consumes exactly 24 + 16·n bytes; a negative count is InvalidCount and short input TruncatedInput |
| Framing.EncodeRecentRfiMask | src/sse-pkg/include/ssePdmInterface.h:316-328 | an encoded recent-RFI mask of n bands (n below 2^31) is 24 + 16·n bytes long, its header's numberOfFreqBands set to n |
| Framing.RecentRfiMaskRoundTrip | src/sse-pkg/include/ssePdmInterface.h:316-328 | decoding an encoded recent-RFI mask returns the header with numberOfFreqBands = n, the bands and the trailing bytes; a header that already counts the bands comes back unchanged |
| Framing.RecentRfiMaskReencode | src/sse-pkg/include/ssePdmInterface.h:316-328 | a decoded recent-RFI mask re-encodes to exactly the bytes it was decoded from, followed by the rest, so decoding reads every byte of the message and nothing else |
| Framing.PulseSignalFormatFacts | src/sse-pkg/include/ssePdmInterface.h:597-639 | a pulse signal is a 120-byte header followed by 32-byte pulses |
| Framing.DecodePulseSignal | src/sse-pkg/include/ssePdmInterface.h:614-639 | a pulse signal whose train announces numberOfPulses = n consumes exactly 120 + 32·n bytes; a negative count is InvalidCount and short input TruncatedInput |
| Framing.EncodePulseSignal | src/sse-pkg/include/ssePdmInterface.h:614-639 | an encoded pulse signal of n pulses (n below 2^31) is 120 + 32·n bytes long, its header's train.numberOfPulses set to n |
| Framing.PulseSignalRoundTrip | src/sse-pkg/include/ssePdmInterface.h:614-639 | decoding an encoded pulse signal returns the header with train.numberOfPulses = n, the pulses and the trailing bytes; a header that already counts the pulses comes back unchanged |
| Framing.PulseSignalReencode | src/sse-pkg/include/ssePdmInterface.h:614-639 | a decoded pulse signal re-encodes to exactly the bytes it was decoded from, followed by the rest, so decoding reads every byte of the message and nothing else |
| Framing.BaselineFormatFacts | src/sse-pkg/include/ssePdmInterface.h:745-770 | a baseline is a 32-byte header followed by 4-byte values |
| Framing.DecodeBaseline | src/sse-pkg/include/ssePdmInterface.h:745-770 | a baseline with numberOfSubbands = n consumes exactly 32 + 4·n bytes; a negative count is InvalidCount and short input TruncatedInput |
| Framing.EncodeBaseline | src/sse-pkg/include/ssePdmInterface.h:745-770 | an encoded baseline of n values (n below 2^31) is 32 + 4·n bytes long, its header's numberOfSubbands set to n |
| Framing.BaselineRoundTrip | src/sse-pkg/include/ssePdmInterface.h:745-770 | decoding an encoded baseline returns the header with numberOfSubbands = n, the values and the trailing bytes; a header that already counts the values comes back unchanged |
| Framing.BaselineReencode | src/sse-pkg/include/ssePdmInterface.h:745-770 | a decoded baseline re-encodes to exactly the bytes it was decoded from, followed by the rest, so decoding reads every byte of the message and nothing else |
| Framing.ComplexAmplitudesFormatFacts | src/sse-pkg/include/ssePdmInterface.h:837-869 | a complex-amplitudes message is a 40-byte header followed by 512-byte subband blocks |
| Framing.DecodeComplexAmplitudes | src/sse-pkg/include/ssePdmInterface.h:848-869 | complex amplitudes with numberOfSubbands = n consume exactly 40 + 512·n bytes; a negative count is InvalidCount and short input TruncatedInput |
| Framing.EncodeComplexAmplitudes | src/sse-pkg/include/ssePdmInterface.h:848-869 | an encoded complex-amplitudes message of n blocks (n below 2^31) is 40 + 512·n bytes long, its header's numberOfSubbands set to n |
| Framing.ComplexAmplitudesRoundTrip | src/sse-pkg/include/ssePdmInterface.h:848-869 | decoding an encoded complex-amplitudes message returns the header with numberOfSubbands = n, the blocks and the trailing bytes; a header that already counts the blocks comes back unchanged |
| Framing.ComplexAmplitudesReencode | src/sse-pkg/include/ssePdmInterface.h:848-869 | a decoded complex-amplitudes message re-encodes to exactly the bytes it was decoded from, followed by the rest, so decoding reads every byte of the message and nothing else |
| Framing.ArchiveDataFormatFacts | src/sse-pkg/include/ssePdmInterface.h:903-913 | archive data is a 24-byte header followed by 512-byte subband blocks, counted by a separately supplied Count |
| Framing.DecodeArchiveData | src/sse-pkg/include/ssePdmInterface.h:903-913 | archive data whose announced Count is n consumes exactly 24 + 512·n bytes; a negative Count is InvalidCount and short input TruncatedInput |
| Framing.EncodeArchiveData | src/sse-pkg/include/ssePdmInterface.h:903-913 | encoded archive data of n blocks is 24 + 512·n bytes long |
| Framing.ArchiveDataRoundTrip | src/sse-pkg/include/ssePdmInterface.h:903-913 | decoding encoded archive data with the matching Count returns the header, the blocks and the trailing bytes |
| Framing.ArchiveDataReencode | src/sse-pkg/include/ssePdmInterface.h:903-913 | decoded archive data re-encodes to exactly the bytes it was decoded from, followed by the rest |
| Records.SignalId.Marshalled | src/sse-pkg/include/ssePdmInterface.h:494-507 | marshall() converts every field of SignalId from host to network order: the scalars of the result are the scalars of the record, each converted |
| Records.SignalIdRoundTrip | src/sse-pkg/include/ssePdmInterface.h:494-507 | reading a SignalId back from its own scalars gives the same record, so the wire form loses nothing |
| Records.SignalIdFromScalars | src/sse-pkg/include/ssePdmInterface.h:494-507 | any scalars laid out as a SignalId are exactly the scalars of the SignalId read from them: reading drops no field and writing adds none |
| Records.SignalIdMarshallInvolution | src/sse-pkg/include/ssePdmInterface.h:494-507 | demarshall() undoes marshall(): converting a SignalId twice gives back the original on either host byte order |
| Records.SignalIdSize | src/sse-pkg/include/ssePdmInterface.h:494-507 | a SignalId occupies 24 bytes on the wire, padding included |
| Records.SignalPath.Marshalled | src/sse-pkg/include/ssePdmInterface.h:509-521 | marshall() converts every field of SignalPath from host to network order: the scalars of the result are the scalars of the record, each converted |
| Records.SignalPathRoundTrip | src/sse-pkg/include/ssePdmInterface.h:509-521 | reading a SignalPath back from its own scalars gives the same record, so the wire form loses nothing |
| Records.SignalPathFromScalars | src/sse-pkg/include/ssePdmInterface.h:509-521 | any scalars laid out as a SignalPath are exactly the scalars of the SignalPath read from them: reading drops no field and writing adds none |
| Records.SignalPathMarshallInvolution | src/sse-pkg/include/ssePdmInterface.h:509-521 | demarshall() undoes marshall(): converting a SignalPath twice gives back the original on either host byte order |
| Records.SignalPathSize | src/sse-pkg/include/ssePdmInterface.h:509-521 | a SignalPath occupies 24 bytes on the wire, padding included |
| Records.SignalDescription.Marshalled | src/sse-pkg/include/ssePdmInterface.h:524-542 | marshall() converts every field of SignalDescription from host to network order: the scalars of the result are the scalars of the record, each converted |
| Records.SignalDescriptionRoundTrip | src/sse-pkg/include/ssePdmInterface.h:524-542 | reading a SignalDescription back from its own scalars gives the same record, so the wire form loses nothing |
| Records.SignalDescriptionFromScalars | src/sse-pkg/include/ssePdmInterface.h:524-542 | any scalars laid out as a SignalDescription are exactly the scalars of the SignalDescription read from them: reading drops no field and writing adds none |
| Records.SignalDescriptionMarshallInvolution | src/sse-pkg/include/ssePdmInterface.h:524-542 | demarshall() undoes marshall(): converting a SignalDescription twice gives back the original on either host byte order |
| Records.SignalDescriptionSize | src/sse-pkg/include/ssePdmInterface.h:524-542 | a SignalDescription occupies 96 bytes on the wire, padding included |
| Records.ConfirmationStats.Marshalled | src/sse-pkg/include/ssePdmInterface.h:553-562 | marshall() converts every field of ConfirmationStats from host to network order: the scalars of the result are the scalars of the record, each converted |
| Records.ConfirmationStatsRoundTrip | src/sse-pkg/include/ssePdmInterface.h:553-562 | reading a ConfirmationStats back from its own scalars gives the same record, so the wire form loses nothing |
| Records.ConfirmationStatsFromScalars | src/sse-pkg/include/ssePdmInterface.h:553-562 | any scalars laid out as a ConfirmationStats are exactly the scalars of the ConfirmationStats read from them: reading drops no field and writing adds none |
| Records.ConfirmationStatsMarshallInvolution | src/sse-pkg/include/ssePdmInterface.h:553-562 | demarshall() undoes marshall(): converting a ConfirmationStats twice gives back the original on either host byte order |
| Records.ConfirmationStatsSize | src/sse-pkg/include/ssePdmInterface.h:553-562 | a ConfirmationStats occupies 8 bytes on the wire, padding included |
| Records.CwCoherentSegment.Marshalled | src/sse-pkg/include/ssePdmInterface.h:564-574 | marshall() converts every field of CwCoherentSegment from host to network order: the scalars of the result are the scalars of the record, each converted |
| Records.CwCoherentSegmentRoundTrip | src/sse-pkg/include/ssePdmInterface.h:564-574 | reading a CwCoherentSegment back from its own scalars gives the same record, so the wire form loses nothing |
| Records.CwCoherentSegmentFromScalars | src/sse-pkg/include/ssePdmInterface.h:564-574 | any scalars laid out as a CwCoherentSegment are exactly the scalars of the CwCoherentSegment read from them: reading drops no field and writing adds none |
| Records.CwCoherentSegmentMarshallInvolution | src/sse-pkg/include/ssePdmInterface.h:564-574 | demarshall() undoes marshall(): converting a CwCoherentSegment twice gives back the original on either host byte order |
| Records.CwCoherentSegmentSize | src/sse-pkg/include/ssePdmInterface.h:564-574 | a CwCoherentSegment occupies 32 bytes on the wire, padding included |
| Records.FrequencyBand.Marshalled | src/sse-pkg/include/ssePdmInterface.h:286-296 | marshall() converts every field of FrequencyBand from host to network order: the scalars of the result are the scalars of the record, each converted |
| Records.FrequencyBandRoundTrip | src/sse-pkg/include/ssePdmInterface.h:286-296 | reading a FrequencyBand back from its own scalars gives the same record, so the wire form loses nothing |
| Records.FrequencyBandFromScalars | src/sse-pkg/include/ssePdmInterface.h:286-296 | any scalars laid out as a FrequencyBand are exactly the scalars of the FrequencyBand read from them: reading drops no field and writing adds none |
| Records.FrequencyBandMarshallInvolution | src/sse-pkg/include/ssePdmInterface.h:286-296 | demarshall() undoes marshall(): converting a FrequencyBand twice gives back the original on either host byte order |
| Records.FrequencyBandSize | src/sse-pkg/include/ssePdmInterface.h:286-296 | a FrequencyBand occupies 16 bytes on the wire, padding included |
| Records.FrequencyMaskHeader.Marshalled | src/sse-pkg/include/ssePdmInterface.h:298-310 | marshall() converts every field of FrequencyMaskHeader from host to network order: the scalars of the result are the scalars of the record, each converted |
| Records.FrequencyMaskHeaderRoundTrip | src/sse-pkg/include/ssePdmInterface.h:298-310 | reading a FrequencyMaskHeader back from its own scalars gives the same record, so the wire form loses nothing |
| Records.FrequencyMaskHeaderFromScalars | src/sse-pkg/include/ssePdmInterface.h:298-310 | any scalars laid out as a FrequencyMaskHeader are exactly the scalars of the FrequencyMaskHeader read from them: reading drops no field and writing adds none |
| Records.FrequencyMaskHeaderMarshallInvolution | src/sse-pkg/include/ssePdmInterface.h:298-310 | demarshall() undoes marshall(): converting a FrequencyMaskHeader twice gives back the original on either host byte order |
| Records.FrequencyMaskHeaderSize | src/sse-pkg/include/ssePdmInterface.h:298-310 | a FrequencyMaskHeader occupies 32 bytes on the wire, padding included |
| Records.RecentRfiMaskHeader.Marshalled | src/sse-pkg/include/ssePdmInterface.h:315-326 | marshall() converts every field of RecentRfiMaskHeader from host to network order: the scalars of the result are the scalars of the record, each converted |
| Records.RecentRfiMaskHeaderRoundTrip | src/sse-pkg/include/ssePdmInterface.h:315-326 | reading a RecentRfiMaskHeader back from its own scalars gives the same record, so the wire form loses nothing |
| Records.RecentRfiMaskHeaderFromScalars | src/sse-pkg/include/ssePdmInterface.h:315-326 | any scalars laid out as a RecentRfiMaskHeader are exactly the scalars of the RecentRfiMaskHeader read from them: reading drops no field and writing adds none |
| Records.RecentRfiMaskHeaderMarshallInvolution | src/sse-pkg/include/ssePdmInterface.h:315-326 | demarshall() undoes marshall(): converting a RecentRfiMaskHeader twice gives back the original on either host byte order |
| Records.RecentRfiMaskHeaderSize | src/sse-pkg/include/ssePdmInterface.h:315-326 | a RecentRfiMaskHeader occupies 24 bytes on the wire, padding included |
| Records.Pulse.Marshalled | src/sse-pkg/include/ssePdmInterface.h:597-612 | marshall() converts every field of Pulse from host to network order: the scalars of the result are the scalars of the record, each converted |
| Records.PulseRoundTrip | src/sse-pkg/include/ssePdmInterface.h:597-612 | reading a Pulse back from its own scalars gives the same record, so the wire form loses nothing |
| Records.PulseFromScalars | src/sse-pkg/include/ssePdmInterface.h:597-612 | any scalars laid out as a Pulse are exactly the scalars of the Pulse read from them: reading drops no field and writing adds none |
| Records.PulseMarshallInvolution | src/sse-pkg/include/ssePdmInterface.h:597-612 | demarshall() undoes marshall(): converting a Pulse twice gives back the original on either host byte order |
| Records.PulseSize | src/sse-pkg/include/ssePdmInterface.h:597-612 | a Pulse occupies 32 bytes on the wire, padding included |
| Records.PulseTrainDescription.Marshalled | src/sse-pkg/include/ssePdmInterface.h:614-627 | marshall() converts every field of PulseTrainDescription from host to network order: the scalars of the result are the scalars of the record, each converted |
| Records.PulseTrainDescriptionRoundTrip | src/sse-pkg/include/ssePdmInterface.h:614-627 | reading a PulseTrainDescription back from its own scalars gives the same record, so the wire form loses nothing |
| Records.PulseTrainDescriptionFromScalars | src/sse-pkg/include/ssePdmInterface.h:614-627 | any scalars laid out as a PulseTrainDescription are exactly the scalars of the PulseTrainDescription read from them: reading drops no field and writing adds none |
| Records.PulseTrainDescriptionMarshallInvolution | src/sse-pkg/include/ssePdmInterface.h:614-627 | demarshall() undoes marshall(): converting a PulseTrainDescription twice gives back the original on either host byte order |
| Records.PulseTrainDescriptionSize | src/sse-pkg/include/ssePdmInterface.h:614-627 | a PulseTrainDescription occupies 16 bytes on the wire, padding included |
| Records.PulseSignalHeader.Marshalled | src/sse-pkg/include/ssePdmInterface.h:629-639 | marshall() converts every field of PulseSignalHeader from host to network order: the scalars of the result are the scalars of the record, each converted |
| Records.PulseSignalHeaderRoundTrip | src/sse-pkg/include/ssePdmInterface.h:629-639 | reading a PulseSignalHeader back from its own scalars gives the same record, so the wire form loses nothing |
| Records.PulseSignalHeaderFromScalars | src/sse-pkg/include/ssePdmInterface.h:629-639 | any scalars laid out as a PulseSignalHeader are exactly the scalars of the PulseSignalHeader read from them: reading drops no field and writing adds none |
| Records.PulseSignalHeaderMarshallInvolution | src/sse-pkg/include/ssePdmInterface.h:629-639 | demarshall() undoes marshall(): converting a PulseSignalHeader twice gives back the original on either host byte order |
| Records.PulseSignalHeaderSize | src/sse-pkg/include/ssePdmInterface.h:629-639 | a PulseSignalHeader occupies 120 bytes on the wire, padding included |
| Records.BaselineValue.Marshalled | src/sse-pkg/include/ssePdmInterface.h:745-753 | marshall() converts every field of BaselineValue from host to network order: the scalars of the result are the scalars of the record, each converted |
| Records.BaselineValueRoundTrip | src/sse-pkg/include/ssePdmInterface.h:745-753 | reading a BaselineValue back from its own scalars gives the same record, so the wire form loses nothing |
| Records.BaselineValueFromScalars | src/sse-pkg/include/ssePdmInterface.h:745-753 | any scalars laid out as a BaselineValue are exactly the scalars of the BaselineValue read from them: reading drops no field and writing adds none |
| Records.BaselineValueMarshallInvolution | src/sse-pkg/include/ssePdmInterface.h:745-753 | demarshall() undoes marshall(): converting a BaselineValue twice gives back the original on either host byte order |
| Records.BaselineValueSize | src/sse-pkg/include/ssePdmInterface.h:745-753 | a BaselineValue occupies 4 bytes on the wire, padding included |
| Records.BaselineHeader.Marshalled | src/sse-pkg/include/ssePdmInterface.h:755-770 | marshall() converts every field of BaselineHeader from host to network order: the scalars of the result are the scalars of the record, each converted |
| Records.BaselineHeaderRoundTrip | src/sse-pkg/include/ssePdmInterface.h:755-770 | reading a BaselineHeader back from its own scalars gives the same record, so the wire form loses nothing |
| Records.BaselineHeaderFromScalars | src/sse-pkg/include/ssePdmInterface.h:755-770 | any scalars laid out as a BaselineHeader are exactly the scalars of the BaselineHeader read from them: reading drops no field and writing adds none |
| Records.BaselineHeaderMarshallInvolution | src/sse-pkg/include/ssePdmInterface.h:755-770 | demarshall() undoes marshall(): converting a BaselineHeader twice gives back the original on either host byte order |
| Records.BaselineHeaderSize | src/sse-pkg/include/ssePdmInterface.h:755-770 | a BaselineHeader occupies 32 bytes on the wire, padding included |
| Records.ComplexAmplitudeHeader.Marshalled | src/sse-pkg/include/ssePdmInterface.h:848-869 | marshall() converts every field of ComplexAmplitudeHeader from host to network order: the scalars of the result are the scalars of the record, each converted |
| Records.ComplexAmplitudeHeaderRoundTrip | src/sse-pkg/include/ssePdmInterface.h:848-869 | reading a ComplexAmplitudeHeader back from its own scalars gives the same record, so the wire form loses nothing |
| Records.ComplexAmplitudeHeaderFromScalars | src/sse-pkg/include/ssePdmInterface.h:848-869 | any scalars laid out as a ComplexAmplitudeHeader are exactly the scalars of the ComplexAmplitudeHeader read from them: reading drops no field and writing adds none |
| Records.ComplexAmplitudeHeaderMarshallInvolution | src/sse-pkg/include/ssePdmInterface.h:848-869 | demarshall() undoes marshall(): converting a ComplexAmplitudeHeader twice gives back the original on either host byte order |
| Records.ComplexAmplitudeHeaderSize | src/sse-pkg/include/ssePdmInterface.h:848-869 | a ComplexAmplitudeHeader occupies 40 bytes on the wire, padding included |
| Records.ArchiveDataHeader.Marshalled | src/sse-pkg/include/ssePdmInterface.h:902-913 | marshall() converts every field of ArchiveDataHeader from host to network order: the scalars of the result are the scalars of the record, each converted |
| Records.ArchiveDataHeaderRoundTrip | src/sse-pkg/include/ssePdmInterface.h:902-913 | reading a ArchiveDataHeader back from its own scalars gives the same record, so the wire form loses nothing |
| Records.ArchiveDataHeaderFromScalars | src/sse-pkg/include/ssePdmInterface.h:902-913 | any scalars laid out as a ArchiveDataHeader are exactly the scalars of the ArchiveDataHeader read from them: reading drops no field and writing adds none |
| Records.ArchiveDataHeaderMarshallInvolution | src/sse-pkg/include/ssePdmInterface.h:902-913 | demarshall() undoes marshall(): converting a ArchiveDataHeader twice gives back the original on either host byte order |
| Records.ArchiveDataHeaderSize | src/sse-pkg/include/ssePdmInterface.h:902-913 | a ArchiveDataHeader occupies 24 bytes on the wire, padding included |
| Records.PdmActivityStatus.Marshalled | src/sse-pkg/include/ssePdmInterface.h:937-946 | marshall() converts every field of PdmActivityStatus from host to network order: the scalars of the result are the scalars of the record, each converted |
| Records.PdmActivityStatusRoundTrip | src/sse-pkg/include/ssePdmInterface.h:937-946 | reading a PdmActivityStatus back from its own scalars gives the same record, so the wire form loses nothing |
| Records.PdmActivityStatusFromScalars | src/sse-pkg/include/ssePdmInterface.h:937-946 | any scalars laid out as a PdmActivityStatus are exactly the scalars of the PdmActivityStatus read from them: reading drops no field and writing adds none |
| Records.PdmActivityStatusMarshallInvolution | src/sse-pkg/include/ssePdmInterface.h:937-946 | demarshall() undoes marshall(): converting a PdmActivityStatus twice gives back the original on either host byte order |
| Records.PdmActivityStatusSize | src/sse-pkg/include/ssePdmInterface.h:937-946 | a PdmActivityStatus occupies 8 bytes on the wire, padding included |
| Records.Count.Marshalled | src/sse-pkg/include/ssePdmInterface.h:961-969 | marshall() converts every field of Count from host to network order: the scalars of the result are the scalars of the record, each converted |
| Records.CountRoundTrip | src/sse-pkg/include/ssePdmInterface.h:961-969 | reading a Count back from its own scalars gives the same record, so the wire form loses nothing |
| Records.CountFromScalars | src/sse-pkg/include/ssePdmInterface.h:961-969 | any scalars laid out as a Count are exactly the scalars of the Count read from them: reading drops no field and writing adds none |
| Records.CountMarshallInvolution | src/sse-pkg/include/ssePdmInterface.h:961-969 | demarshall() undoes marshall(): converting a Count twice gives back the original on either host byte order |
| Records.CountSize | src/sse-pkg/include/ssePdmInterface.h:961-969 | a Count occupies 4 bytes on the wire, padding included |
| Records.DetectionStatistics.Marshalled | src/sse-pkg/include/ssePdmInterface.h:678-704 | marshall() converts every field of DetectionStatistics from host to network order: the scalars of the result are the scalars of the record, each converted |
| Records.DetectionStatisticsRoundTrip | src/sse-pkg/include/ssePdmInterface.h:678-704 | reading a DetectionStatistics back from its own scalars gives the same record, so the wire form loses nothing |
| Records.DetectionStatisticsFromScalars | src/sse-pkg/include/ssePdmInterface.h:678-704 | any scalars laid out as a DetectionStatistics are exactly the scalars of the DetectionStatistics read from them: reading drops no field and writing adds none |
| Records.DetectionStatisticsMarshallInvolution | src/sse-pkg/include/ssePdmInterface.h:678-704 | demarshall() undoes marshall(): converting a DetectionStatistics twice gives back the original on either host byte order |
| Records.DetectionStatisticsSize | src/sse-pkg/include/ssePdmInterface.h:678-704 | a DetectionStatistics occupies 68 bytes on the wire, padding included |
| Records.PulseParameters.Marshalled | src/sse-pkg/include/ssePdmInterface.h:350-360 | marshall() converts every field of PulseParameters from host to network order: the scalars of the result are the scalars of the record, each converted |
| Records.PulseParametersRoundTrip | src/sse-pkg/include/ssePdmInterface.h:350-360 | reading a PulseParameters back from its own scalars gives the same record, so the wire form loses nothing |
| Records.PulseParametersFromScalars | src/sse-pkg/include/ssePdmInterface.h:350-360 | any scalars laid out as a PulseParameters are exactly the scalars of the PulseParameters read from them: reading drops no field and writing adds none |
| Records.PulseParametersMarshallInvolution | src/sse-pkg/include/ssePdmInterface.h:350-360 | demarshall() undoes marshall(): converting a PulseParameters twice gives back the original on either host byte order |
| Records.PulseParametersSize | src/sse-pkg/include/ssePdmInterface.h:350-360 | a PulseParameters occupies 24 bytes on the wire, padding included |
| Records.BaselineLimits.Marshalled | src/sse-pkg/include/ssePdmInterface.h:390-403 | marshall() converts every field of BaselineLimits from host to network order: the scalars of the result are the scalars of the record, each converted |
| Records.BaselineLimitsRoundTrip | src/sse-pkg/include/ssePdmInterface.h:390-403 | reading a BaselineLimits back from its own scalars gives the same record, so the wire form loses nothing |
| Records.BaselineLimitsFromScalars | src/sse-pkg/include/ssePdmInterface.h:390-403 | any scalars laid out as a BaselineLimits are exactly the scalars of the BaselineLimits read from them: reading drops no field and writing adds none |
| Records.BaselineLimitsMarshallInvolution | src/sse-pkg/include/ssePdmInterface.h:390-403 | demarshall() undoes marshall(): converting a BaselineLimits twice gives back the original on either host byte order |
| Records.BaselineLimitsSize | src/sse-pkg/include/ssePdmInterface.h:390-403 | a BaselineLimits occupies 16 bytes on the wire, padding included |
| Records.PdmScienceDataRequest.Marshalled | src/sse-pkg/include/ssePdmInterface.h:332-348 | marshall() converts every field of PdmScienceDataRequest from host to network order: the scalars of the result are the scalars of the record, each converted |
| Records.PdmScienceDataRequestRoundTrip | src/sse-pkg/include/ssePdmInterface.h:332-348 | reading a PdmScienceDataRequest back from its own scalars gives the same record, so the wire form loses nothing |
| Records.PdmScienceDataRequestFromScalars | src/sse-pkg/include/ssePdmInterface.h:332-348 | any scalars laid out as a PdmScienceDataRequest are exactly the scalars of the PdmScienceDataRequest read from them: reading drops no field and writing adds none |
| Records.PdmScienceDataRequestMarshallInvolution | src/sse-pkg/include/ssePdmInterface.h:332-348 | demarshall() undoes marshall(): converting a PdmScienceDataRequest twice gives back the original on either host byte order |
| Records.PdmScienceDataRequestSize | src/sse-pkg/include/ssePdmInterface.h:332-348 | a PdmScienceDataRequest occupies 40 bytes on the wire, padding included |
| Resolutions.ResolutionOf | src/sse-pkg/include/ssePdmInterface.h:25-29 | an int32 field names a Resolution iff it lies in 0..11 (RES_1HZ..RES_UNINIT), otherwise FieldOutOfRange; the enumerator is its position |
| Resolutions.ResolutionOfOrdinal | src/sse-pkg/include/ssePdmInterface.h:25-29 | every Resolution reads back from its own integer value |
| Resolutions.HzIsPowerOfOrdinal | src/sse-pkg/include/ssePdmInterface.h:13-13 | RES_k denotes 2^k Hz for k below MAX_RESOLUTIONS = 11, so RES_1KHZ is 1024 Hz |
| Resolutions.NextResolutionDoubles | src/sse-pkg/include/ssePdmInterface.h:25-29 | each resolution is twice as coarse as the one before it |
| Resolutions.ArrayIndex | src/sse-pkg/include/ssePdmInterface.h:445-446 | a resolution indexes the per-resolution arrays iff it is not RES_UNINIT, whose value equals MAX_RESOLUTIONS and is one past the last slot |
| Resolutions.DaddResolutionAtMost4Hz | src/sse-pkg/include/ssePdmInterface.h:430-430 | the DADD resolutions RES_1HZ, RES_2HZ, RES_4HZ are exactly the resolutions of at most 4 Hz |
| Classification.ClassOf | src/sse-pkg/include/ssePdmInterface.h:31-38 | an int32 field names a SignalClass iff it lies in 0..4, and then it is the class at that position |
| Classification.ReasonOf | src/sse-pkg/include/ssePdmInterface.h:40-130 | an int32 field names a reason iff it lies below SIGNAL_CLASS_REASON_END; the sentinel itself is never returned |
| Classification.LegalIffListed | src/sse-pkg/include/ssePdmInterface.h:40-130 | a (class, reason) pair is legal iff the reason is listed in that class's section, counting the two reasons UNKNOWN reuses |
| Classification.SentinelAndUninit | src/sse-pkg/include/ssePdmInterface.h:40-130 | SIGNAL_CLASS_REASON_END is legal with no class; CLASS_REASON_UNINIT is legal exactly with CLASS_UNINIT |
| Classification.TestOnlyByMatch | src/sse-pkg/include/ssePdmInterface.h:110-115 | the only legal reason for CLASS_TEST is TEST_SIGNAL_MATCH |
| Classification.ClassOfReasonUnique | src/sse-pkg/include/ssePdmInterface.h:117-127 | a reason legal for two classes is one UNKNOWN reuses, and the other class is the one whose section declares it (RFI for SEEN_OFF, CAND for PASSED_POWER_THRESH) |
| Classification.SeenOffExamples | src/sse-pkg/include/ssePdmInterface.h:117-127 | SEEN_OFF is legal for RFI and UNKNOWN but not for CAND; PASSED_POWER_THRESH is legal for CAND and UNKNOWN |
| Classification.CheckClassification | src/sse-pkg/include/ssePdmInterface.h:40-130 | a reclassification is accepted unchanged iff the reason is listed for the class, otherwise IllegalClassification |
| Classification.PdmNeverAssignsTest | src/sse-pkg/include/ssePdmInterface.h:40-130 | no reason the PDM assigns can justify CLASS_TEST or CLASS_UNINIT |
| Operations.SetBitIsolated | src/sse-pkg/include/ssePdmInterface.h:364-366 | setting bit k sets it and leaves every other bit as it was |
| Operations.ClearBitIsolated | src/sse-pkg/include/ssePdmInterface.h:364-366 | clearing bit k clears it and leaves every other bit as it was |
| Operations.NoBitAboveWidth | src/sse-pkg/include/ssePdmInterface.h:419-419 | a value below 2^n has no bit at position n or above |
| Operations.SetClearBitBound | src/sse-pkg/include/ssePdmInterface.h:419-419 | setting or clearing a bit below n keeps a value below 2^n |
| Operations.BitsDetermineValue | src/sse-pkg/include/ssePdmInterface.h:364-366 | two masks with the same bits are equal |
| Operations.FieldBitsDetermineValue | src/sse-pkg/include/ssePdmInterface.h:419-419 | two operations fields with the same bits are equal |
| Operations.PositionsFitField | src/sse-pkg/include/ssePdmInterface.h:367-387 | every operation's bit position is below N_PDM_OPERATIONS_MASK = 17, which is below 32, the width of the field |
| Operations.Enable | src/sse-pkg/include/ssePdmInterface.h:364-387 | after enabling an operation it is performed, and every other bit of the field is unchanged |
| Operations.Disable | src/sse-pkg/include/ssePdmInterface.h:364-387 | after disabling an operation it is not performed, and every other bit of the field is unchanged |
| Operations.EnableDisableInverse | src/sse-pkg/include/ssePdmInterface.h:364-387 | enabling a performed operation changes nothing, and disabling a just-enabled operation restores the field |
| Operations.EnabledOperations | src/sse-pkg/include/ssePdmInterface.h:364-387 | the decoded set holds exactly the operations whose bit is set |
| Operations.MaskOf | src/sse-pkg/include/ssePdmInterface.h:364-387 | the mask of a set of operations performs exactly those operations and has no bit at or above N_PDM_OPERATIONS_MASK |
| Operations.EnabledOfMask | src/sse-pkg/include/ssePdmInterface.h:364-387 | decoding the mask of a set gives the set back |
| Operations.MaskOfEnabled | src/sse-pkg/include/ssePdmInterface.h:364-387 | a field with no bit at or above N_PDM_OPERATIONS_MASK is the mask of its decoded set |
| MessageCodes.CodeValue | src/sse-pkg/include/ssePdmInterface.h:135-198 | a message code's value lies between PDM_CODE_RANGE_START and the sentinel's value, and equals the range start iff it is MESSAGE_CODE_UNINIT |
| MessageCodes.DecodeMessageCode | src/sse-pkg/include/ssePdmInterface.h:135-198 | a received value names a message type iff it lies strictly between MESSAGE_CODE_UNINIT and PDM_MESSAGE_CODE_END, otherwise UnknownMessageCode |
| MessageCodes.DecodeCodeValue | src/sse-pkg/include/ssePdmInterface.h:135-198 | decoding the value of a message type gives the type back |
| MessageCodes.CodeValueOfDecoded | src/sse-pkg/include/ssePdmInterface.h:135-198 | a value that decodes is the value of the code it decodes to |
| MessageCodes.BoundsRejected | src/sse-pkg/include/ssePdmInterface.h:135-198 | MESSAGE_CODE_UNINIT and PDM_MESSAGE_CODE_END are not message types |
| Activities.ForwardStatesInOrder | src/sse-pkg/include/ssePdmInterface.h:918-935 | the twelve forward states INIT … COMPLETE appear in strictly increasing enumerator order, and they are exactly the states from INIT to COMPLETE |
| Activities.TransitionsAscend | src/sse-pkg/include/ssePdmInterface.h:918-935 | every legal move of an activity goes to a later state |
| Activities.ForwardMovesSkipOnlyPending | src/sse-pkg/include/ssePdmInterface.h:918-935 | a forward move passes over no state but a pending one: every state strictly between its source and target is PEND_BASE_ACCUM, PEND_DC or PEND_SD |
| Activities.RunsAreShort | src/sse-pkg/include/ssePdmInterface.h:918-935 | a run of legal moves never revisits a state, so it has at most fifteen states |
| Activities.PhaseTarget | src/sse-pkg/include/ssePdmInterface.h:148-189 | only phase messages move an activity (START_TIME to PEND_BASE_ACCUM, each other phase message to the state it names), and every phase message except STOP_PDM_ACTIVITY leads to a forward state or STOPPED |
| Activities.Replay | src/sse-pkg/include/ssePdmInterface.h:148-189 | replaying phase messages never moves an activity backwards; it fails with UnknownMessageCode for a non-phase message and IllegalStateTransition for a move that is not one step along the course |
| Activities.StartTimeAfterTuning | src/sse-pkg/include/ssePdmInterface.h:150-152 | START_TIME is accepted only from TUNED, where it leaves the activity pending baseline accumulation, from which BASELINE_INIT_ACCUM_STARTED starts the baseline |
| Activities.CompletionPhasesComplete | src/sse-pkg/include/ssePdmInterface.h:148-156 | an initialised activity that receives PDM_TUNED, the started/complete pairs and PDM_ACTIVITY_COMPLETE in order ends COMPLETE |
| Activities.StopThenComplete | src/sse-pkg/include/ssePdmInterface.h:186-189 | a live activity told STOP_PDM_ACTIVITY that then reports PDM_ACTIVITY_COMPLETE ends STOPPED |
| Activities.DataCollectionAcceptsOnlyItsEnd | src/sse-pkg/include/ssePdmInterface.h:148-189 | an activity in RUN_DC accepts a phase message iff it is DATA_COLLECTION_COMPLETE or STOP_PDM_ACTIVITY; SIGNAL_DETECTION_STARTED, PDM_ACTIVITY_COMPLETE and PDM_TUNED are IllegalStateTransition |
| Activities.NoEarlyCompletion | src/sse-pkg/include/ssePdmInterface.h:148-189 | PDM_ACTIVITY_COMPLETE for an INIT activity and DATA_COLLECTION_STARTED for a TUNED one are IllegalStateTransition |
| Activities.TerminalIsFinal | src/sse-pkg/include/ssePdmInterface.h:918-935 | a COMPLETE, STOPPED or ERROR activity accepts no phase message |
| Activities.Find | src/sse-pkg/include/ssePdmInterface.h:937-946 | the position of an activity id among the tracked activities, or -1 when it is not tracked |
| Activities.FirstFinished | src/sse-pkg/include/ssePdmInterface.h:918-935 | the position of the first COMPLETE, STOPPED or ERROR activity, or -1 exactly when every activity is live |
| Activities.LiveCountBelowLength | src/sse-pkg/include/ssePdmInterface.h:918-935 | fewer activities are live than tracked exactly when some tracked activity has finished |
| Activities.ActivityTable.constructor | src/sse-pkg/include/ssePdmInterface.h:17-17 | a new table tracks no activity and has issued no SignalId |
| Activities.ActivityTable.Start | src/sse-pkg/include/ssePdmInterface.h:17-17 | starting an activity succeeds iff its id was never used and fewer than MAX_PDM_ACTIVITIES = 2 tracked activities are live (DuplicateActivity, CapacityExceeded otherwise); the new activity, in state INIT with signal counter 0, takes a free slot or else the first finished activity's slot; every method keeps the table at most 2 activities with distinct ids |
| Activities.ActivityTable.Advance | src/sse-pkg/include/ssePdmInterface.h:918-935 | moves a tracked activity to a new state iff the move is legal (UnknownActivity / IllegalStateTransition otherwise), changing nothing else |
| Activities.ActivityTable.HandlePhase | src/sse-pkg/include/ssePdmInterface.h:148-189 | applies a phase message to a tracked activity: succeeds iff the activity is tracked and the message is one legal move from its state; otherwise UnknownActivity, UnknownMessageCode for a non-phase message, or IllegalStateTransition; changes only that activity's state |
| Activities.ActivityTable.MintSignalId | src/sse-pkg/include/ssePdmInterface.h:495-503 | issues the activity's next SignalId iff the activity is tracked and its counter is below 2^31 - 1, numbered from that counter, which then increases; the id was never issued before; fails with UnknownActivity or CounterExhausted |
| Activities.ActivityTable.Retire | src/sse-pkg/include/ssePdmInterface.h:918-935 | succeeds iff the activity is tracked and finished (COMPLETE, STOPPED or ERROR): removes it and frees its slot, keeping the others in order; an unknown activity is UnknownActivity and a live one IllegalStateTransition |
| Activities.ActivityTable.Report | src/sse-pkg/include/ssePdmInterface.h:948-959 | the status report counts the tracked activities, fills one slot per activity with its id and state, and marks the remaining slots unused |
| FixedArrays.CwCoherentSignalSize | src/sse-pkg/include/ssePdmInterface.h:579-591 | a CwCoherentSignal is 368 bytes: all MAX_CW_COHERENT_SEGMENTS = 8 segments are sent whatever nSegments says |
| FixedArrays.CwCoherentScalarsMarshalled | src/sse-pkg/include/ssePdmInterface.h:579-591 | converting each field and each segment converts the structure's whole scalar list |
| FixedArrays.CwCoherentSignal.constructor | src/sse-pkg/include/ssePdmInterface.h:579-591 | a new signal has no segments, all eight slots blank |
| FixedArrays.CwCoherentSignal.ScalarsLayout | src/sse-pkg/include/ssePdmInterface.h:579-591 | the structure's scalars follow the declared layout, array included |
| FixedArrays.CwCoherentSignal.WireImage | src/sse-pkg/include/ssePdmInterface.h:579-591 | the wire image is always 368 bytes |
| FixedArrays.CwCoherentSignal.Segments | src/sse-pkg/include/ssePdmInterface.h:583-585 | the meaningful segments are the first nSegments slots when 0 <= nSegments <= 8, otherwise FieldOutOfRange |
| FixedArrays.CwCoherentSignal.AddSegment | src/sse-pkg/include/ssePdmInterface.h:583-585 | appends a segment iff fewer than 8 are held (CapacityExceeded at 8, FieldOutOfRange for a corrupt count); on success the meaningful segments are the old ones plus the new one |
| FixedArrays.CwCoherentSignal.MarshallSegments | src/sse-pkg/include/ssePdmInterface.h:585-588 | converts every slot of the segment array in place |
| FixedArrays.CwCoherentSignal.Marshall | src/sse-pkg/include/ssePdmInterface.h:588-588 | marshall() converts every field and every slot, so the structure's scalars become their network-order images |
| FixedArrays.CwCoherentSignal.Demarshall | src/sse-pkg/include/ssePdmInterface.h:589-589 | demarshall() is the inverse of marshall(): marshalling the result gives back the received fields |
| FixedArrays.PdmStatusSize | src/sse-pkg/include/ssePdmInterface.h:948-959 | a PdmStatus is 32 bytes: both MAX_PDM_ACTIVITIES slots are sent whatever numberOfActivities says |
| FixedArrays.PdmStatusScalarsMarshalled | src/sse-pkg/include/ssePdmInterface.h:948-959 | converting each field and each slot converts the structure's whole scalar list |
| FixedArrays.PdmStatus.constructor | src/sse-pkg/include/ssePdmInterface.h:948-959 | a new status reports no activity and both slots unused |
| FixedArrays.PdmStatus.ScalarsLayout | src/sse-pkg/include/ssePdmInterface.h:948-959 | the structure's scalars follow the declared layout, array included |
| FixedArrays.PdmStatus.WireImage | src/sse-pkg/include/ssePdmInterface.h:948-959 | the wire image is always 32 bytes |
| FixedArrays.PdmStatus.Activities | src/sse-pkg/include/ssePdmInterface.h:951-953 | the meaningful slots are the first numberOfActivities when 0 <= numberOfActivities <= 2, otherwise FieldOutOfRange |
| FixedArrays.PdmStatus.Fill | src/sse-pkg/include/ssePdmInterface.h:948-959 | filling from the activity table sets the count to the number of tracked activities, one slot per activity with its id and state, and the rest unused; the count is then valid |
| FixedArrays.PdmStatus.MarshallSlots | src/sse-pkg/include/ssePdmInterface.h:953-956 | converts every slot of the activity array in place |
| FixedArrays.PdmStatus.Marshall | src/sse-pkg/include/ssePdmInterface.h:956-956 | marshall() converts every field and every slot, so the structure's scalars become their network-order images |
| FixedArrays.PdmStatus.Demarshall | src/sse-pkg/include/ssePdmInterface.h:957-957 | demarshall() is the inverse of marshall(): marshalling the result gives back the received fields |
| FixedArrays.BaselineSize | src/sse-pkg/include/ssePdmInterface.h:775-783 | the deprecated fixed Baseline is 16416 bytes: all MAX_BASELINE_SUBBANDS = 4096 values are sent |
| FixedArrays.Baseline.constructor | src/sse-pkg/include/ssePdmInterface.h:775-783 | a new baseline keeps the given header and zero values |
| FixedArrays.Baseline.ScalarsLayout | src/sse-pkg/include/ssePdmInterface.h:775-783 | the structure's scalars follow the declared layout, array included |
| FixedArrays.Baseline.WireImage | src/sse-pkg/include/ssePdmInterface.h:775-783 | the wire image is always 16416 bytes |
| FixedArrays.Baseline.Values | src/sse-pkg/include/ssePdmInterface.h:775-783 | the meaningful values are the first numberOfSubbands when 0 <= numberOfSubbands <= 4096, otherwise FieldOutOfRange |
| FixedArrays.Baseline.Marshall | src/sse-pkg/include/ssePdmInterface.h:780-780 | marshall() converts the header and every value, so the structure's scalars become their network-order images |
| FixedArrays.Baseline.Demarshall | src/sse-pkg/include/ssePdmInterface.h:781-781 | demarshall() is the inverse of marshall() |
| FixedArrays.ComplexAmplitudesSize | src/sse-pkg/include/ssePdmInterface.h:875-883 | the deprecated fixed ComplexAmplitudes is 552 bytes: a header and exactly one subband block |
| FixedArrays.ComplexAmplitudes.constructor | src/sse-pkg/include/ssePdmInterface.h:875-883 | a new message holds the given header and block |
| FixedArrays.ComplexAmplitudes.ScalarsLayout | src/sse-pkg/include/ssePdmInterface.h:875-883 | the structure's scalars follow the declared layout |
| FixedArrays.ComplexAmplitudes.WireImage | src/sse-pkg/include/ssePdmInterface.h:875-883 | the wire image is 552 bytes and ends with the block's bytes as they are |
| FixedArrays.ComplexAmplitudes.Marshall | src/sse-pkg/include/ssePdmInterface.h:880-880 | marshall() converts the header and leaves the sample block unchanged |
| FixedArrays.ComplexAmplitudes.Demarshall | src/sse-pkg/include/ssePdmInterface.h:881-881 | demarshall() is the inverse of marshall() and leaves the sample block unchanged |
| ActivityParameters.PdmActivityParameters.Marshalled | src/sse-pkg/include/ssePdmInterface.h:411-470 | marshall() / demarshall() of PdmActivityParameters keeps the length of both per-resolution arrays; the full conversion is stated by PdmActivityParametersMarshalledScalars |
| ActivityParameters.PdmActivityParametersMarshalledScalars | src/sse-pkg/include/ssePdmInterface.h:411-470 | marshall() of PdmActivityParameters converts every field, both per-resolution arrays included, so its scalars become their network-order images |
| ActivityParameters.GeneralMarshalled | src/sse-pkg/include/ssePdmInterface.h:413-425 | the general fields are converted one by one |
| ActivityParameters.CwMarshalled | src/sse-pkg/include/ssePdmInterface.h:427-435 | the CW fields are converted one by one |
| ActivityParameters.PulseMarshalled | src/sse-pkg/include/ssePdmInterface.h:437-444 | the pulse fields are converted one by one |
| ActivityParameters.ArraysMarshalled | src/sse-pkg/include/ssePdmInterface.h:445-446 | every entry of requestPulseResolution and pd is converted |
| ActivityParameters.TailMarshalled | src/sse-pkg/include/ssePdmInterface.h:448-464 | the baseline fields and limits are converted one by one |
| ActivityParameters.PdmActivityParametersMarshallInvolution | src/sse-pkg/include/ssePdmInterface.h:467-468 | demarshall() undoes marshall() on PdmActivityParameters |
| ActivityParameters.GeneralInvolution | src/sse-pkg/include/ssePdmInterface.h:413-425 | converting twice restores each general field |
| ActivityParameters.CwInvolution | src/sse-pkg/include/ssePdmInterface.h:427-435 | converting twice restores each CW field |
| ActivityParameters.PulseInvolution | src/sse-pkg/include/ssePdmInterface.h:437-444 | converting twice restores each pulse field |
| ActivityParameters.TailInvolution | src/sse-pkg/include/ssePdmInterface.h:448-464 | converting twice restores each baseline field |
| ActivityParameters.PdmActivityParametersLayoutOf | src/sse-pkg/include/ssePdmInterface.h:411-470 | with both arrays at MAX_RESOLUTIONS entries, the scalars follow the declared layout |
| ActivityParameters.PdmActivityParametersSize | src/sse-pkg/include/ssePdmInterface.h:411-470 | PdmActivityParameters is 552 bytes on the wire |
| ActivityParameters.GeneralSize | src/sse-pkg/include/ssePdmInterface.h:413-425 | the general fields take 64 bytes |
| ActivityParameters.CwSize | src/sse-pkg/include/ssePdmInterface.h:427-435 | the CW fields take 56 bytes |
| ActivityParameters.PulseSize | src/sse-pkg/include/ssePdmInterface.h:437-444 | the scalar pulse fields take 36 bytes |
| ActivityParameters.HeadSize | src/sse-pkg/include/ssePdmInterface.h:413-444 | the fields before the arrays take 156 bytes |
| ActivityParameters.TailSize | src/sse-pkg/include/ssePdmInterface.h:448-464 | the fields after the science-data request take 48 bytes |
| ActivityParameters.PulseSettings | src/sse-pkg/include/ssePdmInterface.h:445-446 | the pulse request flag and thresholds of a resolution are its slot in each array; RES_UNINIT has none (FieldOutOfRange) |
| ActivityParameters.SlotOfResolution | src/sse-pkg/include/ssePdmInterface.h:445-446 | each of the eleven slots belongs to exactly one resolution |
| ActivityParameters.CheckParameters | src/sse-pkg/include/ssePdmInterface.h:418-452 | parameters are accepted unchanged iff both arrays have MAX_RESOLUTIONS entries, channelNumber is a positive multiple of 512, daddResolution is RES_1HZ, RES_2HZ or RES_4HZ and baselineSubbandAverage is a positive divisor of channelNumber; otherwise FieldOutOfRange |
| ActivityParameters.ChannelCountIsWholeBlocks | src/sse-pkg/include/ssePdmInterface.h:418-418 | a valid channelNumber is a whole number of 512-subband blocks, at least one, and conversely |
| ActivityParameters.DaddResolutionAtMost4HzValid | src/sse-pkg/include/ssePdmInterface.h:430-430 | a valid daddResolution has value 0, 1 or 2, and names a resolution of at most 4 Hz |
| ActivityParameters.SubbandAveragesTile | src/sse-pkg/include/ssePdmInterface.h:450-452 | with a valid average, the subbands split into whole groups and every subband falls in one of them |
| Detection.WithTotals | src/sse-pkg/include/ssePdmInterface.h:682-686 | fills totalCandidates = cw + pulse candidates and totalSignals = cw + pulse signals, changing no other field; a sum that does not fit 32 bits is FieldOutOfRange |
| Detection.WithTotalsConsistent | src/sse-pkg/include/ssePdmInterface.h:682-693 | a consistent record is left as it is, and a filled record is consistent iff its totalPulses is at most leftPulses + rightPulses |
| Detection.WithTotalsIdempotent | src/sse-pkg/include/ssePdmInterface.h:682-686 | filling the totals twice is filling them once |
| Detection.PartsBoundedByTotals | src/sse-pkg/include/ssePdmInterface.h:682-693 | in a consistent record of counts no part exceeds its total |
| Detection.TotalsOverflowOnlyUpward | src/sse-pkg/include/ssePdmInterface.h:682-686 | for non-negative counts, filling fails only when a sum exceeds 2^31 - 1 |
| Validation.BoolOf | src/sse-pkg/include/ssePdmInterface.h:335-340 | a bool_t is read as false for 0 and true for 1; any other value is FieldOutOfRange |
| Validation.BoolRoundTrip | src/sse-pkg/include/ssePdmInterface.h:335-340 | a written flag reads back as itself, and an accepted bool_t is written back unchanged |
| Validation.RequestTypeOf | src/sse-pkg/include/ssePdmInterface.h:331-331 | a SciDataRequestType is read iff its value is REQ_FREQ (0) or REQ_SUBBAND (1), and then names the enumerator of that value; otherwise FieldOutOfRange |
| Validation.RequestTypeRoundTrip | src/sse-pkg/include/ssePdmInterface.h:331-331 | every SciDataRequestType reads back from its value |
| Validation.ActivityStateOf | src/sse-pkg/include/ssePdmInterface.h:918-935 | a PdmActivityState is read iff its value lies from PDM_ACT_NONE to PDM_ACT_ERROR, and then is that state; otherwise FieldOutOfRange |
| Validation.CheckScienceDataRequest | src/sse-pkg/include/ssePdmInterface.h:331-348 | a PdmScienceDataRequest is accepted iff its five bool_t fields hold 0 or 1 and requestType is declared; the accepted request is carried by exactly the record checked; otherwise FieldOutOfRange |
| Validation.ScienceDataRequestRoundTrip | src/sse-pkg/include/ssePdmInterface.h:331-348 | the record of any request is in its domain and checks back to that request |
| Validation.ReadScienceDataRequest | src/sse-pkg/include/ssePdmInterface.h:331-348 | reading a request from bytes fails with TruncatedInput on short input and FieldOutOfRange on a value outside its domain; what it reads re-encodes to exactly the bytes it consumed |
| Validation.ReadScienceDataRequestOfRecord | src/sse-pkg/include/ssePdmInterface.h:331-348 | an encoded record reads back iff its flags and request type are in their domains, giving the request it carries and the bytes after it; otherwise FieldOutOfRange |
| Validation.ScienceDataRequestReadsBack | src/sse-pkg/include/ssePdmInterface.h:331-348 | a request written and read back is the same request, with the bytes after it untouched |
| Validation.CheckActivityStatus | src/sse-pkg/include/ssePdmInterface.h:937-946 | a PdmActivityStatus is accepted iff currentState is a declared PdmActivityState, and the accepted status is carried by exactly the record checked; otherwise FieldOutOfRange |
| Validation.ActivityStatusRoundTrip | src/sse-pkg/include/ssePdmInterface.h:937-946 | the record of any status checks back to that status |
| Validation.ReadActivityStatus | src/sse-pkg/include/ssePdmInterface.h:937-946 | reading a status from bytes fails with TruncatedInput on short input and FieldOutOfRange on an undeclared state; what it reads re-encodes to exactly the bytes it consumed |
| Validation.ReadActivityStatusOfRecord | src/sse-pkg/include/ssePdmInterface.h:937-946 | an encoded status reads back iff its currentState is declared, giving the status it carries and the bytes after it; otherwise FieldOutOfRange |
| Validation.ReportedStatusesInDomain | src/sse-pkg/include/ssePdmInterface.h:948-953 | every status slot of the activity tracker's PdmStatus report passes the check, and a tracked activity's slot gives its id and state |
| Validation.CheckSignalDescription | src/sse-pkg/include/ssePdmInterface.h:526-543 | a SignalDescription is accepted unchanged iff sigClass is a SignalClass, reason a SignalClassReason before SIGNAL_CLASS_REASON_END and containsBadBands 0 or 1; otherwise FieldOutOfRange |
| Validation.CheckPulseSignalHeader | src/sse-pkg/include/ssePdmInterface.h:614-639 | a PulseSignalHeader is accepted unchanged iff its signal description passes its check and its train's res is a declared Resolution; otherwise FieldOutOfRange |
| Validation.DecodeCheckedPulseSignal | src/sse-pkg/include/ssePdmInterface.h:614-639 | a pulse signal decodes through the check iff it decodes and its header is in its domain; a message that does not decode keeps its error, and a decoded one with a value outside its domain is FieldOutOfRange |
| Validation.CheckedPulseSignalRoundTrip | src/sse-pkg/include/ssePdmInterface.h:614-639 | an encoded pulse signal decodes through the check iff its header is in its domain, giving back the header with its count set and the pulses; otherwise FieldOutOfRange |
| Validation.CheckActivityParameters | src/sse-pkg/include/ssePdmInterface.h:411-470 | PdmActivityParameters are accepted unchanged iff CheckParameters accepts them, every requestPulseResolution entry is 0 or 1 and the nested science data request passes its check; otherwise FieldOutOfRange |

## Left out

- The `operator<<` printers of every structure: diagnostic output only.
- The transport that carries the messages (sockets, message headers, dispatch by message code): outside the data layer.
- The numeric meaning of the `float32_t` / `float64_t` fields. They are carried as opaque 4- and 8-byte patterns (`Float32Bits`, `Float64Bits`), so no property depends on their values.
- The host's actual byte order is a parameter (`ByteOrder`), not a fixed choice, because `marshall()` bodies are not part of this model. Every property is proved for both orders.
- Types defined in other headers are taken with assumed sizes. `NssDate` is two 32-bit integers (seconds, microseconds). `Polarization`, `bool_t` and every enum-typed field are 32-bit integers. `PDM_CODE_RANGE_START` is a parameter of `MessageCodes`.
- Structures with text or address fields (`HereIAm`, `ThereYouAre`, `PdmBaseAddr`, `PdmIntrinsics`, `PdmConfiguration`) and those this model does not cover (`PdmTuned`, `StartActivity`, `CwPowerSignal`, `FollowUpSignal`, `FollowUpCwSignal`, `FollowUpPulseSignal`, `CwBadBand`, `PulseBadBand`, `BaselineStatistics`, `BaselineLimitsExceededDetails`, `ArchiveRequest`) are not part of this model. Their text arrays depend on `MAX_TEXT_STRING`, which this header does not define. The others are further instances of the record pattern that `Records` proves for 21 structures.
- `SSE_PDM_INTERFACE_VERSION` and `MAX_SUBBAND_BINS_PER_1HZ_HALF_FRAME`: no message in this model uses them.
- Structures without arrays are modelled as values: `marshall()` is the function `Marshalled`, not an in-place update. For a structure without arrays, converting in place and rebuilding the value are indistinguishable. Only the four structures with fixed arrays are classes.
- `PdmActivityParameters` is a datatype whose two arrays are sequences (`WellFormed` fixes their length at `MAX_RESOLUTIONS`). There is no reader from its scalar list, so unlike the smaller records it has no round-trip lemma. Its involution, layout and size are proved.
- ActivityParameters.PdmActivityParameters.Marshalled: its own contract states only that the arrays keep their length; what it computes is stated by `PdmActivityParametersMarshalledScalars` and `PdmActivityParametersMarshallInvolution`.
- The comments give `channelNumber` as "# of subbands" and `baselineSubbandAverage` as a factor of "the total number of subbands". The model reads both as the same quantity, so `SubbandAverageValid` asks that `baselineSubbandAverage` divide `channelNumber`.
- The header lists the activity states in order but states no transition table. `LegalTransition` is the model's reading: one step forward along the listed order, passing over a pending state (PEND_BASE_ACCUM, PEND_DC, PEND_SD) since no message reports entering one; STOPPING from any forward state; STOPPED only from STOPPING; and ERROR from any live state. `PhaseTarget` maps each phase message to the state it names, and START_TIME, which sets the start of a tuned activity, to PEND_BASE_ACCUM, the wait for baseline accumulation. PEND_DC and PEND_SD are reached only by `Advance`, because no message names them.
- The value of an unused `PdmStatus.act` slot is not given by the header. The model uses `NoActivity` (activity 0, `PDM_ACT_NONE`).
- `candidatesOverMax`, and the hit and cluster counts of `DetectionStatistics`, carry no rule in the header, so `Detection` does not constrain them.
- The variable-length messages give no maximum for their counts, so the decoders bound the elements read only by the input they are given, rejecting a negative count. The fixed-capacity arrays are bounded by their capacity.
- Alignment padding fields (`alignPad`, `alignPad1`, `alignPad2` of `SignalId`, `SignalPath`, `SignalDescription`, `FrequencyBand`, `FrequencyMaskHeader`, `Pulse`, `PulseTrainDescription`, `CwCoherentSignal`, `PdmStatus` and `PdmActivityParameters`) are record fields like any other: they are converted and sent as held, and the model does not force them to zero. Where the model itself builds such a record it writes 0: the `CwCoherentSignal` and `PdmStatus` constructors, and the SignalId from `Activities.ActivityTable.MintSignalId`. A record built elsewhere is sent with whatever padding it holds.
- Unused slots of the fixed arrays are sent as whatever they hold. The constructors fill them with a blank value, but the model does not force zero-filled slots on the wire.
- `src/sse-pkg/dataDisplays/ReadoutPlot.java`, a plotting user interface, is not part of this model.
- The readers `Records.*From` (for example `SignalDescriptionFrom`, `PdmScienceDataRequestFrom`, `PdmActivityStatusFrom`) and the decoders `Framing.Decode*` pass `bool_t` and enum-typed fields through unchecked, so that reading and writing back is exact. The domain checks are separate: `Validation` checks `PdmScienceDataRequest` (its five flags and `requestType`), `PdmActivityStatus` (`currentState`), `SignalDescription` (`sigClass`, `reason`, `containsBadBands`), `PulseSignalHeader` (adding `train.res`) and `PdmActivityParameters` (`requestPulseResolution`, the nested request, and `daddResolution` through `CheckParameters`), with checked readers for the first two and for pulse signals. The `pol` fields (`Polarization`, declared in another header whose enumerators are not part of this model) are not checked.
- Framing.EncodeFrequencyMask, `EncodeRecentRfiMask`, `EncodePulseSignal`, `EncodeBaseline`, `EncodeComplexAmplitudes` and `EncodeArchiveData` require fewer than 2^31 elements, so that the count fits its int32 field; a caller with more elements is outside their contract rather than answered with InvalidCount.
