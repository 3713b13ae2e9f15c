# Verified models of the VTM bitstream, configuration and filter code

VTM 10.0 is the reference codec of Rec. ITU-T H.266. This project models the parts of it that carry
self-contained guarantees and proves those guarantees with Dafny: `dafny verify dfyconfig.toml`.

- **Bits and NAL units** (`Bits`, `BitStream`, `BitRoundTrip`, `Nal`, `NalHeader`). The bit writer and
  reader are classes over a byte buffer and a partially filled byte, both specified by the bit string
  they stand for. Emulation prevention is an escaper and an in-place un-escaper specified by recursive
  functions.
- **Byte streams** (`AnnexB`, `ByteStream`, `SeiRemoval`, `Transport`). The look-ahead reader refines a
  plain byte sequence; the parser over it refines a recursive parse; emission and parsing are inverse.
  Files are byte sequences; `istream::get` at the end of the file is an explicit failure.
- **Picture output** (`Bumping`, `BumpingRuns`). One call of the output loop is a function of the picture
  list; whole runs are folds over calls. What a run may assume is `BumpingRuns.Legal`: the list is sorted
  by POC, at most one picture joins between two calls, at most the reordering limit of earlier pictures
  follow it in output, and the buffer is not overfull.
- **Encoder structure** (`DpbSize`, `ReferenceLists`, `GopCheck`, `GopAvailability`, `GopContinuation`,
  `StaleReferences`, `SliceGrid`, `SliceParameters`). The GOP check is a loop whose passes are recorded in
  ghost state, so that its verdict and the entries it creates are explained by a run of a simple machine; what
  an accepted structure means for later frames is proved of such runs. Tile grids are strictly increasing
  boundary lists.
- **Adaptive loop filter** (`AlfClassify`, `AlfWindow`, `AlfBitDepth`, `AlfSymmetry`, `AlfFilter`,
  `AlfClip`, `AlfSample`, `AlfKernel`). Gradient sums accumulated in place are related to the window they stand for, and
  classes to exact arithmetic and to the geometry of the picture. A filtered sample is stated by offsets and
  rounding alone: a diamond turned to the block's orientation, with rows clamped at the virtual boundary.
- **Buffers and affine search** (`Border`, `ColourTransform`, `Sobel`, `Affine`, `AffineError`, `AffineSearch`, with
  `Arith`). Stride walking loops over one-dimensional arrays are specified by coordinates, the
  affine equations by the motion model and by what their solution makes smallest.

Where the code does not do what its comments or names say, the code is modelled and the difference stated:

- The "update the nul_layer_id" patch of the merge application overwrites the second header byte, which
  holds the unit type and the temporal id, never the layer id (`NalHeader.PatchEffect`, `PatchExample`).
- Escaping and un-escaping lose nothing only for payloads that end in an even number of zero bytes
  (`Nal.EscapeRoundTrip`): the writer appends 03 after any trailing zero count that is not reset.
- The encoder's reordering limit counts only entries of the same or a lower layer. It covers what a decoder
  holds back exactly if another entry makes up for what this leaves out (`DpbSize.LimitSufficesExactly`);
  `DpbSize.OvertakenLowerLayer` is a GOP where none does, accepted by the GOP check
  (`GopAvailability.TwoLayeredAccepted`).
- The GOP check tests availability of list 0 only. Only coded pictures become available exactly if the
  configured list 1 of every frame names pictures coded by then (`GopAvailability.AvailableAreCoded`);
  `GopAvailability.UncodedAccepted` is an accepted structure where it does not.
- The GOP check accepts a structure once every entry was seen with its references. Later GOPs find theirs
  exactly if every entry inherits them from the one coded before it (`GopContinuation.VerifiedContinues`);
  `GopContinuation.VerifiedThenMissing` is an accepted structure that fails in its second GOP.
- When a frame's lists are completed, a replacement is looked up in as many places of the array as both lists
  have references, not in the places in use, so it may be a picture that is no longer available. All added
  references are available exactly if the places not in use make no difference to the lists
  (`StaleReferences.CompletedAddsAvailable`); `StaleReferences.LeftoverAccepted` is an accepted structure where
  they do.
- The product comparison of the classification wraps in 32 bits. It is exact for all pictures of a bit depth,
  and the class the right one, exactly up to ten bits (`AlfBitDepth.ExactUpToTenBits`);
  `AlfBitDepth.ElevenBitsWrap` is a picture of eleven bits with a wrong class.
- The gradients are taken in a chequered pattern, so the class survives a transposition and a half turn of the
  picture, but not a mirror image, whose sums are those over the other half of the pattern
  (`AlfSymmetry.TransposedClassOf`, `TurnedClassOf`, `ReflectedSum`, `MirrorChangesClass`).
- A filter tap clips its differences in the 16-bit sample type, which is exact up to 14 bits
  (`AlfClip.ClipExactUpTo14`).
- The normal equations read the residual with the stride of the derivatives and ignore its own stride. They
  pair every sample with its own residual exactly if both strides agree or there is only one line
  (`Affine.ResidualStrideMatters`); the one caller passes the same stride twice.
- The option to skip N units of the removal application drops N - 1 of them, unless the N-th is missing or
  discarded for its type (`SeiRemoval.SkipsAsDescribed`).
- Trailing zeros are dropped from every unit whose reserved header bit is zero, not only from slice data; on a
  unit of zero bytes only the search for them leaves the buffer (`Nal.ReadPayload`, `Nal.ReadsInFront`). Units
  with a conforming header are safe (`Transport.ReadBackStripped`).

## Model

| member | source | states |
|---|---|---|
| `BitStream.OutputBitstream.constructor` | source_forder/VTM10.0_fast/source/Lib/CommonLib/BitStream.cpp:53-56 | a new writer holds no bits |
| `BitStream.OutputBitstream.Clear` | source_forder/VTM10.0_fast/source/Lib/CommonLib/BitStream.cpp:103-108 | clearing leaves no bits |
| `BitStream.OutputBitstream.GetNumBitsUntilByteAligned` | source_forder/VTM10.0_fast/source/Lib/CommonLib/BitStream.h:116 | the bits missing to the next byte boundary |
| `BitStream.OutputBitstream.GetNumberOfWrittenBits` | source_forder/VTM10.0_fast/source/Lib/CommonLib/BitStream.h:121 | the number of bits written since the last clear, modulo 2^32 |
| `BitStream.OutputBitstream.Write` | source_forder/VTM10.0_fast/source/Lib/CommonLib/BitStream.cpp:110-152 | fails exactly when the width exceeds 32 or the value does not fit it; otherwise appends the value's bits, most significant first, at any alignment |
| `BitStream.OutputBitstream.PushBytes` | source_forder/VTM10.0_fast/source/Lib/CommonLib/BitStream.cpp:142-148 | the fall-through switch appends the low bytes of the word, highest first |
| `BitStream.OutputBitstream.WriteAlignOne` | source_forder/VTM10.0_fast/source/Lib/CommonLib/BitStream.cpp:154-159 | fills the last byte with ones |
| `BitStream.OutputBitstream.WriteAlignZero` | source_forder/VTM10.0_fast/source/Lib/CommonLib/BitStream.cpp:161-170 | fills the last byte with zeros |
| `BitStream.OutputBitstream.WriteByteAlignment` | source_forder/VTM10.0_fast/source/Lib/CommonLib/BitStream.cpp:192-196 | appends a one and zeros up to the byte boundary, after which the byte buffer is the whole bit string |
| `BitStream.OutputBitstream.AddSubstream` | source_forder/VTM10.0_fast/source/Lib/CommonLib/BitStream.cpp:177-190 | the bit string becomes the concatenation of both, whatever the two alignments |
| `BitStream.InputBitstream.constructor` | source_forder/VTM10.0_fast/source/Lib/CommonLib/BitStream.cpp:63-70 | everything in the buffer is still to be read |
| `BitStream.InputBitstream.ResetToStart` | source_forder/VTM10.0_fast/source/Lib/CommonLib/BitStream.cpp:85-91 | everything is to be read again |
| `BitStream.InputBitstream.GetNumBitsUntilByteAligned` | source_forder/VTM10.0_fast/source/Lib/CommonLib/BitStream.h:198 | the bits to skip to reach a byte boundary |
| `BitStream.InputBitstream.GetNumBitsLeft` | source_forder/VTM10.0_fast/source/Lib/CommonLib/BitStream.h:199 | the number of unread bits, modulo 2^32 |
| `BitStream.InputBitstream.Read` | source_forder/VTM10.0_fast/source/Lib/CommonLib/BitStream.cpp:254-314 | succeeds exactly when at most 32 bits are asked for and that many are left; yields and consumes exactly those; a failure consumes none |
| `BitStream.InputBitstream.LoadBytes` | source_forder/VTM10.0_fast/source/Lib/CommonLib/BitStream.cpp:295-301 | the fall-through switch gathers the next bytes into one right-aligned word |
| `BitStream.InputBitstream.PseudoRead` | source_forder/VTM10.0_fast/source/Lib/CommonLib/BitStream.cpp:238-251 | the next bits, zero-padded past the end, with the position unchanged |
| `BitStream.InputBitstream.ReadOutTrailingBits` | source_forder/VTM10.0_fast/source/Lib/CommonLib/BitStream.cpp:328-339 | skips to the next byte boundary and counts what it skipped |
| `BitStream.InputBitstream.ReadByteAlignment` | source_forder/VTM10.0_fast/source/Lib/CommonLib/BitStream.cpp:395-409 | succeeds exactly on a one followed by zeros up to the byte boundary, and consumes it |
| `BitStream.InputBitstream.ExtractSubstream` | source_forder/VTM10.0_fast/source/Lib/CommonLib/BitStream.cpp:357-393 | yields the next n bits padded to a byte and advances by n; past the end it fails, except on a byte boundary with whole bytes, where zeros stand in for what is missing |
| `BitStream.InputBitstream.CopyBytes` | source_forder/VTM10.0_fast/source/Lib/CommonLib/BitStream.cpp:365-375 | the copying path: whole bytes, zeros beyond the end |
| `BitStream.InputBitstream.ReadBytes` | source_forder/VTM10.0_fast/source/Lib/CommonLib/BitStream.cpp:376-384 | the bytewise path meets the same specification at any alignment |
| `Bits.MaskHigh` | source_forder/VTM10.0_fast/source/Lib/CommonLib/BitStream.cpp:113 | the program's mask test is zero exactly when the value fits the width |
| `Bits.MaskLow` | source_forder/VTM10.0_fast/source/Lib/CommonLib/BitStream.cpp:268 | masking keeps exactly the low bits |
| `BitRoundTrip.ReadsFirst` | source_forder/VTM10.0_fast/source/Lib/CommonLib/BitStream.cpp:254-314 | the first fixed-width code of a bit string can be cut off its front |
| `BitRoundTrip.WriteThenRead` | source_forder/VTM10.0_fast/source/Lib/CommonLib/BitStream.cpp:110-409 | any values written with any widths and aligned are read back with the same widths, the trailer is accepted and no bit is left |
| `BitRoundTrip.SpliceThenExtract` | source_forder/VTM10.0_fast/source/Lib/CommonLib/BitStream.cpp:177-393 | splicing one stream onto another and cutting at the seam gives both back |
| `Nal.WriteNaluContent` | source_forder/VTM10.0_fast/source/Lib/EncoderLib/NALwrite.cpp:68-126 | the loop with its pending-byte rules equals the recursive escaper |
| `Nal.EscapedIsClean` | source_forder/VTM10.0_fast/source/Lib/EncoderLib/NALwrite.cpp:72-89 | no byte position of the output starts 00 00 00, 00 00 01 or 00 00 02, and the output never ends in a zero byte |
| `Nal.EscapeRoundTrip` | source_forder/VTM10.0_fast/source/Lib/DecoderLib/NALread.cpp:59-107 | removing what escaping inserted always succeeds, and gives the payload back exactly when it ends in an even number of zero bytes; otherwise one 03 byte stays |
| `Nal.AcceptedIsEscaped` | source_forder/VTM10.0_fast/source/Lib/DecoderLib/NALread.cpp:59-87 | whatever the un-escaper accepts is the escaped form of what it returns |
| `Nal.ZerosAfterIsParity` | source_forder/VTM10.0_fast/source/Lib/EncoderLib/NALwrite.cpp:95-124 | the zero counter left at the end tells only the parity of the trailing zeros |
| `Nal.RemovePreventionBytes` | source_forder/VTM10.0_fast/source/Lib/DecoderLib/NALread.cpp:61-87 | the in-place two-iterator loop computes the recursive un-escaper, positions included, and fails exactly when it does |
| `Nal.ConvertPayloadToRbsp` | source_forder/VTM10.0_fast/source/Lib/DecoderLib/NALread.cpp:59-107 | the same, with trailing zero bytes dropped when the flag is set; reads run in front of the buffer exactly if the flag is set and every un-escaped byte is zero |
| `Nal.ReadPayload` | source_forder/VTM10.0_fast/source/Lib/DecoderLib/NALread.cpp:161-166 | the flag is the reserved zero bit of the first byte |
| `Nal.ReadsInFront` | source_forder/VTM10.0_fast/source/Lib/DecoderLib/NALread.cpp:89-104 | the bytes 00 00 03 are such a unit |
| `Nal.CountStartCodeEmulations` | source_forder/VTM10.0_fast/source/Lib/CommonLib/BitStream.cpp:198-228 | the count is the number of bytes the escaper inserts, for every buffer |
| `Nal.SearchTwoZeros` | source_forder/VTM10.0_fast/source/Lib/CommonLib/BitStream.cpp:207-209 | the library search finds the first pair of zero bytes |
| `Nal.AddedIsGrowth` | source_forder/VTM10.0_fast/source/Lib/CommonLib/BitStream.cpp:198-228 | the counted bytes are the growth of the buffer |
| `Nal.CountIsRemoved` | source_forder/VTM10.0_fast/source/Lib/CommonLib/BitStream.cpp:198-228 | and the number of bytes the un-escaper removes again, one more when a final 03 was appended |
| `NalHeader.WriteNalUnitHeader` | source_forder/VTM10.0_fast/source/Lib/EncoderLib/NALwrite.cpp:49-62 | fails exactly on a layer id above 55 or a field that does not fit; otherwise yields the two header bytes |
| `NalHeader.Read2` | source_forder/VTM10.0_fast/source/App/StreamMergeApp/StreamMergeApp.cpp:75-84 | fails exactly on units of fewer than two bytes; otherwise splits the header into its five fields |
| `NalHeader.PatchEffect` | source_forder/VTM10.0_fast/source/App/StreamMergeApp/StreamMergeApp.cpp:328-330 | overwriting the second byte never changes the layer id; it replaces the unit type and the temporal id |
| `NalHeader.PatchExample` | source_forder/VTM10.0_fast/source/App/StreamMergeApp/StreamMergeApp.cpp:328-330 | a picture header merged as layer 1 turns into a slice of type 0 |
| `AnnexB.ParseSplits` | source_forder/VTM10.0_fast/source/App/StreamMergeApp/StreamMergeApp.cpp:86-225 | leading zeros, zero byte, prefix, unit, trailing zeros and rest add up to the input, for every input |
| `AnnexB.ParseProgress` | source_forder/VTM10.0_fast/source/App/StreamMergeApp/StreamMergeApp.cpp:207-225 | a call that leaves the stream usable has consumed something, so the application loop ends |
| `AnnexB.ParsedShape` | source_forder/VTM10.0_fast/source/App/StreamMergeApp/StreamMergeApp.cpp:163-171 | a parsed unit contains no start code and can be emitted again |
| `AnnexB.FramingRoundTrip` | source_forder/VTM10.0_fast/source/App/StreamMergeApp/StreamMergeApp.cpp:104-198 | any list of delimitable payloads behind start codes is parsed back, in order, with end of file reported only on the last |
| `AnnexB.ReemissionKeepsPayloads` | source_forder/VTM10.0_fast/source/App/StreamMergeApp/StreamMergeApp.cpp:323-332 | parse any byte stream, emit any choice of its units as the applications do, parse again: the chosen payloads come back |
| `ByteStream.LookAheadStream.constructor` | source_forder/VTM10.0_fast/source/App/StreamMergeApp/StreamMergeApp.h:87-106 | the reader stands for the whole input |
| `ByteStream.LookAheadStream.EofBeforeNBytes` | source_forder/VTM10.0_fast/source/App/StreamMergeApp/StreamMergeApp.h:112-134 | says whether fewer than n bytes are left; the byte sequence is unchanged |
| `ByteStream.LookAheadStream.PeekBytes` | source_forder/VTM10.0_fast/source/App/StreamMergeApp/StreamMergeApp.h:148-152 | the next n bytes as a big-endian word; the byte sequence is unchanged |
| `ByteStream.LookAheadStream.ReadByte` | source_forder/VTM10.0_fast/source/App/StreamMergeApp/StreamMergeApp.h:160-171 | removes exactly the first byte, and fails exactly at the end |
| `ByteStream.LookAheadStream.ReadPrefix` | source_forder/VTM10.0_fast/source/App/StreamMergeApp/StreamMergeApp.h:178-186 | removes three bytes and yields them as a big-endian word |
| `ByteStream.LookAheadStream.SearchGoesOn` | source_forder/VTM10.0_fast/source/App/StreamMergeApp/StreamMergeApp.cpp:104-105 | the loop guard is false exactly in front of a start code |
| `ByteStream.LookAheadStream.SkipZeroBytes` | source_forder/VTM10.0_fast/source/App/StreamMergeApp/StreamMergeApp.cpp:104-113 | the leading loop, and in the same words the trailing one, equals the recursive description |
| `ByteStream.LookAheadStream.TakeNalBytes` | source_forder/VTM10.0_fast/source/App/StreamMergeApp/StreamMergeApp.cpp:163-171 | the unit loop equals the recursive description |
| `ByteStream.LookAheadStream.ByteStreamNalUnit` | source_forder/VTM10.0_fast/source/App/StreamMergeApp/StreamMergeApp.cpp:207-225 | one call over the look-ahead reader equals the parse of the plain byte sequence: unit, statistics, rest and end-of-file flag |
| `SeiRemoval.Decode` | source_forder/VTM10.0_fast/source/App/SEIRemovalApp/SEIRemovalApp.cpp:82-146 | fails exactly when some unit has one byte; otherwise writes the recursive output |
| `SeiRemoval.OutputPayloads` | source_forder/VTM10.0_fast/source/App/SEIRemovalApp/SEIRemovalApp.cpp:123-142 | parsing the output gives the payloads of the input that pass the filter, in order |
| `SeiRemoval.KeepsAll` | source_forder/VTM10.0_fast/source/App/SEIRemovalApp/SEIRemovalApp.cpp:128-132 | with nothing to discard every payload survives |
| `SeiRemoval.DropsTypes` | source_forder/VTM10.0_fast/source/App/SEIRemovalApp/SEIRemovalApp.cpp:130 | no payload of a discarded type survives |
| `SeiRemoval.KeptIsRange` | source_forder/VTM10.0_fast/source/App/SEIRemovalApp/SEIRemovalApp.cpp:123-132 | what is kept is the range of units from the first to the last number configured, without the discarded types |
| `SeiRemoval.SkipsAsDescribed` | source_forder/VTM10.0_fast/source/App/SEIRemovalApp/SEIRemovalAppCfg.cpp:69 | the option drops as many units as its description says if and only if the last of them is missing or of a discarded type; otherwise it drops one fewer |
| `Transport.PacketIsDelimitable` | source_forder/VTM10.0_fast/source/Lib/EncoderLib/NALwrite.cpp:128-132 | a written unit whose second header byte is not zero can be framed |
| `Transport.UnescapePacket` | source_forder/VTM10.0_fast/source/Lib/DecoderLib/NALread.cpp:59-107 | un-escaping a whole unit gives header and payload back exactly when the payload ends in an even number of zero bytes |
| `Transport.ReadBackStripped` | source_forder/VTM10.0_fast/source/Lib/DecoderLib/NALread.cpp:59-167 | a written unit whose reserved bit is zero is read back as its header and its payload without the zeros at the end, whatever its type, with all reads inside the buffer |
| `Transport.StreamRoundTrip` | source_forder/VTM10.0_fast/source/Lib/EncoderLib/AnnexBwrite.h:45-128 | a list of units, escaped and framed as the encoder does, is parsed and un-escaped to the same units in order |
| `Transport.FieldsRoundTrip` | source_forder/VTM10.0_fast/source/Lib/DecoderLib/NALread.cpp:124-168 | the same down to the header fields: layer id, unit type and temporal id arrive with every payload |
| `Bumping.DecApp.Count` | source_forder/VTM10.0_fast/source/App/DecoderApp/DecApp.cpp:479-492 | both counters equal a recount of the list: the numbers of places that wait, and that wait or are referred to |
| `Bumping.CountersCount` | source_forder/VTM10.0_fast/source/App/DecoderApp/DecApp.cpp:479-492 | the recursive counts are the sizes of those sets of places |
| `Bumping.DecApp.WriteOutput` | source_forder/VTM10.0_fast/source/App/DecoderApp/DecApp.cpp:559-614 | one call equals the recursive description of flags, last displayed POC and pictures written; each picture written is released, its samples are given up exactly if nothing refers to it, and the others stay as they were |
| `Bumping.OutputReleases` | source_forder/VTM10.0_fast/source/App/DecoderApp/DecApp.cpp:567-611 | what is written is what is released, whatever the list and the limits |
| `Bumping.DecApp.FlushOutput` | source_forder/VTM10.0_fast/source/App/DecoderApp/DecApp.cpp:695-761 | writes every needed picture in list order, drops all pictures, forgets the last POC |
| `BumpingRuns.CountersExact` | source_forder/VTM10.0_fast/source/App/DecoderApp/DecApp.cpp:479-613 | on a sorted list the counters are exact after every picture visited, and at the end nothing waits or both limits are met |
| `BumpingRuns.OutputsIncrease` | source_forder/VTM10.0_fast/source/App/DecoderApp/DecApp.cpp:567-611 | the pictures written by one call have increasing POCs above the last displayed, whatever the list |
| `BumpingRuns.OutputsEarliest` | source_forder/VTM10.0_fast/source/App/DecoderApp/DecApp.cpp:567-613 | one call writes the earliest waiting pictures, as many as exceed the reordering limit |
| `BumpingRuns.NewPictureIsLater` | source_forder/VTM10.0_fast/source/App/DecoderApp/DecApp.cpp:567-568 | under the stream constraints a new picture comes after everything displayed |
| `BumpingRuns.CallKeepsOrder` | source_forder/VTM10.0_fast/source/App/DecoderApp/DecApp.cpp:559-614 | one call keeps the order invariant |
| `BumpingRuns.RunInOrder` | source_forder/VTM10.0_fast/source/App/DecoderApp/DecApp.cpp:450-615 | so does every run |
| `BumpingRuns.EpochInOrder` | source_forder/VTM10.0_fast/source/App/DecoderApp/DecApp.cpp:619-762 | over a run and its flush every needed picture is written exactly once, in increasing POC order |
| `BumpingRuns.LateBeyondLimit` | source_forder/VTM10.0_fast/source/App/DecoderApp/DecApp.cpp:567-568 | without the reordering constraint a picture can come too late: a concrete run |
| `BumpingRuns.FullBeyondLimit` | source_forder/VTM10.0_fast/source/App/DecoderApp/DecApp.cpp:567-568 | nor can the constraint on the buffer be dropped: a concrete run that a larger buffer would make legal |
| `DpbSize.DpbConfig.Derive` | source_forder/VTM10.0_fast/source/App/EncoderApp/EncAppCfg.cpp:3381-3448 | the two tables are the closed maxima of the entries' demands |
| `DpbSize.DpbConfig.CountRefs` | source_forder/VTM10.0_fast/source/App/EncoderApp/EncAppCfg.cpp:3388-3397 | the places of list 0 plus the places of list 1 whose distance is not in list 0; without repeats in a list, the number of different distances in both |
| `DpbSize.CountIsReferences` | source_forder/VTM10.0_fast/source/App/EncoderApp/EncAppCfg.cpp:3388-3397 | without repeats the count is the size of the union of both lists |
| `DpbSize.ReorderIsOvertakers` | source_forder/VTM10.0_fast/source/App/EncoderApp/EncAppCfg.cpp:3402-3418 | the reordering count is the number of entries, not above the layer and later in output, that are coded before some entry that is not later in output |
| `DpbSize.DpbConfig.CountReorder` | source_forder/VTM10.0_fast/source/App/EncoderApp/EncAppCfg.cpp:3402-3418 | the number of entries that overtake this one |
| `DpbSize.DpbConfig.CollectRaw` | source_forder/VTM10.0_fast/source/App/EncoderApp/EncAppCfg.cpp:3386-3423 | the largest demand of each layer |
| `DpbSize.DpbConfig.CloseLayer` | source_forder/VTM10.0_fast/source/App/EncoderApp/EncAppCfg.cpp:3427-3441 | one step of the closing loop |
| `DpbSize.SizesAreLeast` | source_forder/VTM10.0_fast/source/App/EncoderApp/EncAppCfg.cpp:3425-3448 | the tables are the pointwise smallest that cover every entry's overtaking entries and its references with itself, both as sizes of sets, do not decrease and leave room for reordering |
| `DpbSize.LayersCoverLower` | source_forder/VTM10.0_fast/source/App/EncoderApp/EncAppCfg.cpp:3425-3442 | every layer covers the overtaking entries and the references of all entries at or below it |
| `DpbSize.LimitSufficesExactly` | source_forder/VTM10.0_fast/source/App/EncoderApp/EncAppCfg.cpp:3402-3442 | for every layer t: the derived limit covers what a decoder of the layers up to t holds back at any picture of the GOP, if and only if, wherever a picture's count leaves out pictures of higher layers up to t, some entry of those layers counts at least as many as that count and what it leaves out |
| `DpbSize.ReorderingSuffices` | source_forder/VTM10.0_fast/source/App/EncoderApp/EncAppCfg.cpp:3402-3422 | the derived limit covers what is held back at every picture that no higher layer overtakes |
| `DpbSize.OvertakenLowerLayer` | source_forder/VTM10.0_fast/source/App/EncoderApp/EncAppCfg.cpp:3413-3414 | the condition can fail: a GOP of four entries, a size the configuration accepts (line 2786), holds two pictures back at POC 1 while its limit is 1 |
| `ReferenceLists.KeepReferences` | source_forder/VTM10.0_fast/source/App/EncoderApp/EncAppCfg.cpp:3195-3204 | the references from picture 0 on, in their order |
| `ReferenceLists.FindPoint` | source_forder/VTM10.0_fast/source/App/EncoderApp/EncAppCfg.cpp:3243-3256 | the place before the first reference further away, for an earlier picture; the end otherwise |
| `ReferenceLists.InsertDelta` | source_forder/VTM10.0_fast/source/App/EncoderApp/EncAppCfg.cpp:3257-3263 | the shifting loop inserts at that place |
| `ReferenceLists.InsertedDistinct` | source_forder/VTM10.0_fast/source/App/EncoderApp/EncAppCfg.cpp:3234-3265 | insertion of a new picture introduces no duplicate |
| `ReferenceLists.InsertedAscends` | source_forder/VTM10.0_fast/source/App/EncoderApp/EncAppCfg.cpp:3249-3263 | earlier pictures stay in order of distance |
| `ReferenceLists.ConsiderPicture` | source_forder/VTM10.0_fast/source/App/EncoderApp/EncAppCfg.cpp:3222-3266 | one step back in coding order: the test for availability, layer and presence, the insertion and the mark |
| `ReferenceLists.FillReferences` | source_forder/VTM10.0_fast/source/App/EncoderApp/EncAppCfg.cpp:3219-3271 | the loop over the earlier passes, stopping once enough references are active; at most one joins beyond that, every candidate joins if there are too few, and the marked entries are those of the pictures that joined in the frame's own layer |
| `ReferenceLists.FillCompletes` | source_forder/VTM10.0_fast/source/App/EncoderApp/EncAppCfg.cpp:3219-3271 | the completed list keeps what was there, adds no duplicate, and adds only pictures of earlier passes in no higher layer that the array holds, in a place in use or behind those |
| `ReferenceLists.FillTakes` | source_forder/VTM10.0_fast/source/App/EncoderApp/EncAppCfg.cpp:3219-3271 | if the list is still too short at the end, every picture of an earlier pass that may join has joined; otherwise the loop stopped as soon as it was long enough |
| `ReferenceLists.FillMarks` | source_forder/VTM10.0_fast/source/App/EncoderApp/EncAppCfg.cpp:3241-3248 | an entry is newly marked only for a picture of its own that joined in the frame's layer, and every picture that joined has such a pass |
| `StaleReferences.FillAddsAvailable` | source_forder/VTM10.0_fast/source/App/EncoderApp/EncAppCfg.cpp:3219-3271 | every reference added to a list is available if and only if no step of the loop finds its picture only behind the places in use, and if and only if the list is the same with those places blanked |
| `StaleReferences.CompletedAddsAvailable` | source_forder/VTM10.0_fast/source/App/EncoderApp/EncAppCfg.cpp:3191-3330 | both lists of a frame: every added reference is available if and only if blanking the places not in use leaves the lists as they are |
| `StaleReferences.FrameAddsAvailable` | source_forder/VTM10.0_fast/source/App/EncoderApp/EncAppCfg.cpp:3130-3367 | the same of every completed frame of a run |
| `StaleReferences.LeftoverAccepted` | source_forder/VTM10.0_fast/source/App/EncoderApp/EncAppCfg.cpp:3225-3232 | the condition can fail in an accepted structure: GOP size 2, where POC 3 gets a reference to POC 1 although only POC 2 is available |
| `ReferenceLists.CheckReferences` | source_forder/VTM10.0_fast/source/App/EncoderApp/EncAppCfg.cpp:3142-3176 | which references are too early or missing; an entry gets the reference flag exactly if some available reference lies whole GOPs away from it and it is in the frame's layer |
| `ReferenceLists.PhaseMeans` | source_forder/VTM10.0_fast/source/App/EncoderApp/EncAppCfg.cpp:3160 | equal remainders, with the sign the language gives them, mean a distance of whole GOPs, and both at the start of a GOP if the entry is not configured |
| `ReferenceLists.ReferredMeans` | source_forder/VTM10.0_fast/source/App/EncoderApp/EncAppCfg.cpp:3145-3167 | the marked entries are those some available reference marks |
| `ReferenceLists.MarkPhase` | source_forder/VTM10.0_fast/source/App/EncoderApp/EncAppCfg.cpp:3158-3167 | the flag goes to the entries at the same position of their GOP and in the same layer |
| `ReferenceLists.UpdateReferences` | source_forder/VTM10.0_fast/source/App/EncoderApp/EncAppCfg.cpp:3334-3365 | the list of available pictures becomes list 0, what list 1 adds, and the frame itself, unless it does not fit |
| `GopCheck.EncAppCfg.CreateEntry` | source_forder/VTM10.0_fast/source/App/EncoderApp/EncAppCfg.cpp:3190-3333 | the created entry in both lists has the picture and layer of the configured one, the completed references, and the smaller of the configured active count and their number; no other entry changes but for flags |
| `GopCheck.EncAppCfg.CodeFrame` | source_forder/VTM10.0_fast/source/App/EncoderApp/EncAppCfg.cpp:3132-3333 | a frame keeps its lists exactly when all its list-0 references are present; otherwise an entry is created |
| `GopCheck.EncAppCfg.Pass` | source_forder/VTM10.0_fast/source/App/EncoderApp/EncAppCfg.cpp:3130-3367 | one pass keeps the run invariant and makes progress |
| `GopCheck.EncAppCfg.VerifyGop` | source_forder/VTM10.0_fast/source/App/EncoderApp/EncAppCfg.cpp:3070-3368 | the loop ends after at most G(ceil(D/(G m))+1) coded frames, D being the largest list-0 distance; the frames form a run; the created entries are those of the frames with absent references, each with the picture, layer, references and active count it must have; each verdict is explained |
| `GopCheck.LateFrame` | source_forder/VTM10.0_fast/source/App/EncoderApp/EncAppCfg.cpp:3132-3149 | in a late enough GOP no list-0 reference lies before picture 0 |
| `GopCheck.LateGopIsVerified` | source_forder/VTM10.0_fast/source/App/EncoderApp/EncAppCfg.cpp:3177-3189 | hence one further GOP sets every flag |
| `GopCheck.MarkSeen` | source_forder/VTM10.0_fast/source/App/EncoderApp/EncAppCfg.cpp:3177-3189 | an entry counts once, and the check succeeds when all are counted |
| `GopCheck.CompletedRefersForward` | source_forder/VTM10.0_fast/source/App/EncoderApp/EncAppCfg.cpp:3191-3330 | both lists of a completed entry refer to pictures from 0 on, keep every such reference and gain no duplicate |
| `GopCheck.CreatedEntriesReferForward` | source_forder/VTM10.0_fast/source/App/EncoderApp/EncAppCfg.cpp:3191-3330 | the same for every entry a run leaves in the lists |
| `GopCheck.CreatedEntriesAreLimited` | source_forder/VTM10.0_fast/source/App/EncoderApp/EncAppCfg.cpp:3327-3330 | no entry a run leaves in either list has more active references than it holds or than were configured, and its active count is one of the two; picture and layer are those of the configured entry |
| `GopCheck.RunFrame` | source_forder/VTM10.0_fast/source/App/EncoderApp/EncAppCfg.cpp:3130-3367 | every frame of a run was coded with its own lists or with their completion |
| `GopCheck.AvailableAfter` | source_forder/VTM10.0_fast/source/App/EncoderApp/EncAppCfg.cpp:3334-3365 | after a frame exactly its references from picture 0 on and itself are available |
| `GopAvailability.List1DecidesAvailability` | source_forder/VTM10.0_fast/source/App/EncoderApp/EncAppCfg.cpp:3334-3365 | with list 0 all present, the available pictures gain only the frame itself if and only if every list-1 picture is the frame or was available |
| `GopAvailability.AvailableAreCoded` | source_forder/VTM10.0_fast/source/App/EncoderApp/EncAppCfg.cpp:3127-3368 | over a run without a missing reference: only pictures that were coded ever become available, if and only if the configured list 1 of every frame names only pictures coded by then |
| `GopAvailability.ListsOfFrame` | source_forder/VTM10.0_fast/source/App/EncoderApp/EncAppCfg.cpp:3132-3333 | the lists a frame is coded with, completed or not: list 0 names coded pictures, list 1 what was configured and coded pictures |
| `GopAvailability.UncodedAccepted` | source_forder/VTM10.0_fast/source/App/EncoderApp/EncAppCfg.cpp:3137-3176 | the condition can fail in an accepted structure: GOP size 1, list 1 naming POC 6, which becomes available and was never coded |
| `GopAvailability.TwoLayeredAccepted` | source_forder/VTM10.0_fast/source/App/EncoderApp/EncAppCfg.cpp:3127-3368 | the GOP of DpbSize.OvertakenLowerLayer passes the check |
| `GopContinuation.VerifiedContinues` | source_forder/VTM10.0_fast/source/App/EncoderApp/EncAppCfg.cpp:3177-3189 | after the passes that verify a structure, every later pass has all its references if and only if every entry refers to the entry coded before it or to what that entry's lists name, shifted by one GOP for the first entry |
| `GopContinuation.PresentAfter` | source_forder/VTM10.0_fast/source/App/EncoderApp/EncAppCfg.cpp:3177-3365 | one later pass: it has all its references exactly if its entry inherits them |
| `GopContinuation.VerifiedThenMissing` | source_forder/VTM10.0_fast/source/App/EncoderApp/EncAppCfg.cpp:3177-3189 | the condition can fail in an accepted structure: GOP size 2, POC 2 referring to the previous GOP and POC 1 to nothing; POC 4 does not find POC 2 |
| `SliceGrid.CtuToTile` | source_forder/VTM10.0_fast/source/Lib/CommonLib/Slice.cpp:3386-3395 | the mapping loop of the tile setup gives the tile of every CTU |
| `SliceGrid.GenerateFixedSlices` | source_forder/VTM10.0_fast/source/App/EncoderApp/EncAppCfg.cpp:3518-3549 | the generator ends and emits the corner addresses of the rectangles, in order; every rectangle lies on the grid of slices of the configured size and has that size unless the picture ends first |
| `SliceGrid.EmitSlice` | source_forder/VTM10.0_fast/source/App/EncoderApp/EncAppCfg.cpp:3524-3547 | one step: the corners of one rectangle and the next uncovered tile |
| `SliceGrid.NextTileIdx` | source_forder/VTM10.0_fast/source/App/EncoderApp/EncAppCfg.cpp:3542-3547 | stepping in raster order past what is covered |
| `SliceGrid.TilesCoveredOnce` | source_forder/VTM10.0_fast/source/App/EncoderApp/EncAppCfg.cpp:3518-3549 | every tile lies in exactly one rectangle |
| `SliceGrid.CtusCoveredOnce` | source_forder/VTM10.0_fast/source/App/EncoderApp/EncAppCfg.cpp:3518-3549 | every CTU lies in exactly one rectangle |
| `SliceParameters.SetSliceParameters` | source_forder/VTM10.0_fast/source/App/EncoderApp/EncAppCfg.cpp:3551-3648 | every slice is placed by its corner addresses; slices within one tile are counted at the first of them and measured in CTUs; the delta flag is set exactly if some slice that starts a group is not where the slice before predicts it; nothing is reported exactly if the whole list is used and every slice that starts a group is aligned; on the generator's list the flag is false and nothing is reported |
| `SliceParameters.GroupsAreUnique` | source_forder/VTM10.0_fast/source/App/EncoderApp/EncAppCfg.cpp:3564-3645 | addresses and grid determine all parameters |
| `SliceParameters.EverySliceCounted` | source_forder/VTM10.0_fast/source/App/EncoderApp/EncAppCfg.cpp:3610-3643 | the counts of shared tiles and the slices of several tiles add up to all slices |
| `SliceParameters.RestOfTile` | source_forder/VTM10.0_fast/source/App/EncoderApp/EncAppCfg.cpp:3610-3643 | the inner loop takes exactly the following slices that lie within the tile, with their heights: it stops at the end of the list, outside the picture, or at a slice of another tile or size |
| `SliceParameters.NextGroup` | source_forder/VTM10.0_fast/source/App/EncoderApp/EncAppCfg.cpp:3566-3645 | one slice and all those after it within the same tile |
| `SliceParameters.LocateCorners` | source_forder/VTM10.0_fast/source/App/EncoderApp/EncAppCfg.cpp:3569-3579 | mapping a rectangle's corner addresses back gives its tiles |
| `SliceParameters.Neighbours` | source_forder/VTM10.0_fast/source/App/EncoderApp/EncAppCfg.cpp:3595-3607 | the prediction rule equals the generator's step, and neighbours never share a tile |
| `SliceParameters.Suffix` | source_forder/VTM10.0_fast/source/App/EncoderApp/EncAppCfg.cpp:3518-3549 | from any slice on the list is what the generator emits from that slice |
| `AlfClassify.AccumulateRow` | source_forder/VTM10.0_fast/source/Lib/CommonLib/AdaptiveLoopFilter.cpp:904-932 | the in-place row pass leaves, in each fourth column, the sum of four cells |
| `AlfClassify.AccumulateRows` | source_forder/VTM10.0_fast/source/Lib/CommonLib/AdaptiveLoopFilter.cpp:884-933 | all rows of the first loop nest |
| `AlfClassify.ClassifyBlock` | source_forder/VTM10.0_fast/source/Lib/CommonLib/AdaptiveLoopFilter.cpp:963-1057 | sums, activity and directions of one block, read from the accumulated rows |
| `AlfClassify.FillBlock` | source_forder/VTM10.0_fast/source/Lib/CommonLib/AdaptiveLoopFilter.cpp:1059-1066 | sixteen cells get the class, no other changes |
| `AlfClassify.DeriveClassificationBlk` | source_forder/VTM10.0_fast/source/Lib/CommonLib/AdaptiveLoopFilter.cpp:860-1069 | every cell of the area holds the class its block's sums call for: the activity levels at 1, 2, 7 and 15 units, with factor 96 exactly in the two block rows at the boundary and 64 elsewhere; the leading pair by 32-bit products; its strength by the ratios 2:1 and 9:2; the orientation; nothing else changes |
| `AlfClassify.ClassifyMeans` | source_forder/VTM10.0_fast/source/Lib/CommonLib/AdaptiveLoopFilter.cpp:986-1057 | the decision by table, products and strengths is the one described by levels, ratios and orientation |
| `AlfClassify.Classify` | source_forder/VTM10.0_fast/source/Lib/CommonLib/AdaptiveLoopFilter.cpp:986-1057 | the class is below 25 and the orientation below 4 |
| `AlfClassify.OrientationMeaning` | source_forder/VTM10.0_fast/source/Lib/CommonLib/AdaptiveLoopFilter.cpp:1002-1057 | the orientation tells which direction of each pair is stronger, whichever pair wins |
| `AlfClassify.PairsAreUnordered` | source_forder/VTM10.0_fast/source/Lib/CommonLib/AdaptiveLoopFilter.cpp:986-1054 | exchanging the two sums of a pair of directions keeps the class |
| `AlfClassify.ComparisonIsExact` | source_forder/VTM10.0_fast/source/Lib/CommonLib/AdaptiveLoopFilter.cpp:1026 | for sums below 2^16 the 32-bit comparison is that of the true products |
| `AlfClassify.ComparisonWraps` | source_forder/VTM10.0_fast/source/Lib/CommonLib/AdaptiveLoopFilter.cpp:1026 | at 2^16 it wraps and the class is wrong: concrete sums |
| `AlfClassify.TwiceIsExact` | source_forder/VTM10.0_fast/source/Lib/CommonLib/AdaptiveLoopFilter.cpp:914-915 | doubling in the 16-bit sample type is exact exactly below 2^14 |
| `AlfWindow.SubstitutedRows` | source_forder/VTM10.0_fast/source/Lib/CommonLib/AdaptiveLoopFilter.cpp:892-900 | which rows are substituted next to the virtual boundary |
| `AlfWindow.SumIsWindow` | source_forder/VTM10.0_fast/source/Lib/CommonLib/AdaptiveLoopFilter.cpp:884-984 | the in-place sums equal the sum of second differences over every other sample of the window, with rows clamped to the block's side of the boundary |
| `AlfWindow.ClassFromWindow` | source_forder/VTM10.0_fast/source/Lib/CommonLib/AdaptiveLoopFilter.cpp:884-1057 | so the class of a block says what the second differences of its window are: their activity and their leading direction |
| `AlfWindow.TenBitSumsFit` | source_forder/VTM10.0_fast/source/Lib/CommonLib/AdaptiveLoopFilter.cpp:963-1026 | with ten-bit samples every sum is at most 64 times 1023 and the comparison of the block is exact |
| `AlfBitDepth.ExactUpToTenBits` | source_forder/VTM10.0_fast/source/Lib/CommonLib/AdaptiveLoopFilter.cpp:884-1054 | every block of every picture of a bit depth is compared by the true ratios, and gets the class these give, if and only if the depth is at most ten |
| `AlfBitDepth.ElevenBitsWrap` | source_forder/VTM10.0_fast/source/Lib/CommonLib/AdaptiveLoopFilter.cpp:1026 | a picture of eleven bits whose block is compared wrongly and gets a wrong class, at any shift |
| `AlfSymmetry.TransposedSum` | source_forder/VTM10.0_fast/source/Lib/CommonLib/AdaptiveLoopFilter.cpp:884-984 | away from the virtual boundary, transposing the picture exchanges the vertical and horizontal sums and keeps both diagonal ones |
| `AlfSymmetry.TransposedClassOf` | source_forder/VTM10.0_fast/source/Lib/CommonLib/AdaptiveLoopFilter.cpp:884-1057 | so the class is kept, and the orientation is the transposed one unless both sums are equal |
| `AlfSymmetry.TurnedClassOf` | source_forder/VTM10.0_fast/source/Lib/CommonLib/AdaptiveLoopFilter.cpp:884-1057 | turning the picture by 180 degrees keeps all sums, class and orientation |
| `AlfSymmetry.ReflectedSum` | source_forder/VTM10.0_fast/source/Lib/CommonLib/AdaptiveLoopFilter.cpp:884-984 | for every picture and position: the sums of the mirror image are those over the other half of the chequered window, with both diagonals exchanged |
| `AlfSymmetry.MirrorChangesClass` | source_forder/VTM10.0_fast/source/Lib/CommonLib/AdaptiveLoopFilter.cpp:884-1057 | so a mirror image may get another class: a diagonal line of six samples has class 14, its mirror image class 4 |
| `AlfClip.ClipExactUpTo14` | source_forder/VTM10.0_fast/source/Lib/CommonLib/AdaptiveLoopFilter.h:71-74 | computing a tap's clipped differences in the 16-bit sample type changes nothing for all clips and samples of a bit depth if and only if the depth is at most 14 |
| `AlfFilter.OrientationIsGeometric7` | source_forder/VTM10.0_fast/source/Lib/CommonLib/AdaptiveLoopFilter.cpp:1161-1264 | 7x7: filtering with reordered coefficients and clips equals filtering the transposed, mirrored or rotated picture with the original ones |
| `AlfFilter.OrientationIsGeometric5` | source_forder/VTM10.0_fast/source/Lib/CommonLib/AdaptiveLoopFilter.cpp:1184-1275 | 5x5: the same |
| `AlfFilter.SubstitutionIsClamp` | source_forder/VTM10.0_fast/source/Lib/CommonLib/AdaptiveLoopFilter.cpp:1220-1240 | tap row k is read at distance min(k, rows to the boundary), the same on both sides |
| `AlfFilter.LumaNeverCrosses` | source_forder/VTM10.0_fast/source/Lib/CommonLib/AdaptiveLoopFilter.cpp:739 | no luma tap crosses a virtual boundary if and only if the CTU height is at least 7, so 8 for a power of two |
| `AlfFilter.ChromaNeverCrosses` | source_forder/VTM10.0_fast/source/Lib/CommonLib/AdaptiveLoopFilter.cpp:740 | no chroma tap does if and only if the height is at least 3, so 4 |
| `AlfKernel.FilterRow` | source_forder/VTM10.0_fast/source/Lib/CommonLib/AdaptiveLoopFilter.cpp:1208-1295 | four samples of a row, with the tap rows chosen once |
| `AlfKernel.FilterBlk` | source_forder/VTM10.0_fast/source/Lib/CommonLib/AdaptiveLoopFilter.cpp:1072-1309 | every sample of the area is the nearest value in range to the current sample plus 1/128 of its weighted differences, or 1/1024 in the two rows next to the boundary; the differences are those of the diamond turned to the block's orientation with rows clamped at the boundary; nothing else changes |
| `AlfSample.FilteredMeans` | source_forder/VTM10.0_fast/source/Lib/CommonLib/AdaptiveLoopFilter.cpp:1208-1290 | the computed sample is that value |
| `AlfSample.KernelSum7` | source_forder/VTM10.0_fast/source/Lib/CommonLib/AdaptiveLoopFilter.cpp:1161-1264 | 7x7: reordered coefficients over substituted rows sum the turned diamond with clamped rows, also next to the virtual boundary |
| `AlfSample.KernelSum5` | source_forder/VTM10.0_fast/source/Lib/CommonLib/AdaptiveLoopFilter.cpp:1220-1275 | 5x5: the same, upright |
| `AlfSample.FinishRounds` | source_forder/VTM10.0_fast/source/Lib/CommonLib/AdaptiveLoopFilter.cpp:1276-1286 | strictly inside the range v satisfies 128 (v - curr) <= S + 64 < 128 (v - curr) + 128, or with 1024 and 512; v is a bound exactly if that value falls at or beyond it |
| `AlfSample.ConstantIsFixed` | source_forder/VTM10.0_fast/source/Lib/CommonLib/AdaptiveLoopFilter.cpp:1243-1285 | a sample whose surroundings are constant is unchanged, for all coefficients and clips |
| `Border.ExtendBorderPel` | source_forder/VTM10.0_fast/source/Lib/CommonLib/Buffer.h:546-580 | fails exactly when a line is too short for the margins; otherwise every cell of the extended area holds the picture sample at the clamped coordinates, all else is unchanged; the overload with one margin is the same with both margins equal |
| `Border.CopyLine` | source_forder/VTM10.0_fast/source/Lib/CommonLib/Buffer.h:566-569 | one line copied with its margins |
| `Border.ExtendSides` | source_forder/VTM10.0_fast/source/Lib/CommonLib/Buffer.h:557-561 | one cell of each side margin |
| `Border.PaddingCore` | source_forder/VTM10.0_fast/source/Lib/CommonLib/Buffer.cpp:340-364 | the same result by a different order of writes |
| `Border.ExtensionIsUnique` | source_forder/VTM10.0_fast/source/Lib/CommonLib/Buffer.h:546-656 | that description determines the buffer, so all three programs agree; the picture itself is unchanged |
| `Border.EveryPlaceIsACell` | source_forder/VTM10.0_fast/source/Lib/CommonLib/Buffer.h:546-580 | every place of the buffer is covered by the description |
| `ColourTransform.ColorSpaceConvert` | source_forder/VTM10.0_fast/source/Lib/CommonLib/Buffer.cpp:844-919 | fails exactly on unequal strides or sizes; otherwise every sample is transformed, in place or apart, and the rest is unchanged |
| `ColourTransform.ConvertPixel` | source_forder/VTM10.0_fast/source/Lib/CommonLib/Buffer.cpp:870-880 | one sample of three planes |
| `ColourTransform.SampleIsRestored` | source_forder/VTM10.0_fast/source/Lib/CommonLib/Buffer.cpp:870-909 | the forward outputs stay inside the inverse's clipping range and the inverse restores the sample |
| `ColourTransform.ForwardAverages` | source_forder/VTM10.0_fast/source/Lib/CommonLib/Buffer.cpp:872-881 | the planes become half green with the mean of red and blue, green less that mean, and red less blue, with halves rounded down |
| `ColourTransform.InverseIsInverted` | source_forder/VTM10.0_fast/source/Lib/CommonLib/Buffer.cpp:897-908 | up to 13 bits the forward transform of what the inverse makes of any residual is the nearest residual in the clipping range |
| `ColourTransform.InvertedUpTo13` | source_forder/VTM10.0_fast/source/Lib/CommonLib/Buffer.cpp:858-908 | and that holds for all residuals if and only if the depth is at most 13 |
| `ColourTransform.LosslessUpTo14` | source_forder/VTM10.0_fast/source/Lib/CommonLib/Buffer.cpp:861-909 | lossless for all residuals of a bit depth if and only if that depth is at most 14 |
| `ColourTransform.PlanesAreRestored` | source_forder/VTM10.0_fast/source/Lib/CommonLib/Buffer.cpp:844-919 | forward and inverse conversion restore every sample of three planes, for any strides and origins |
| `Sobel.HorizontalSobelFilter` | source_forder/VTM10.0_fast/source/Lib/CommonLib/AffineGradientSearch.cpp:66-97 | every cell holds the weighted 3x3 neighbourhood of the nearest inside position, whatever the order of writes; nothing else is written |
| `Sobel.FiltersAreKernels` | source_forder/VTM10.0_fast/source/Lib/CommonLib/AffineGradientSearch.cpp:74-80 | the six terms of each filter are the weights of its 3x3 kernel |
| `Sobel.PlaneDerivative` | source_forder/VTM10.0_fast/source/Lib/CommonLib/AffineGradientSearch.cpp:66-130 | on a plane both derivatives are eight times the slope |
| `Sobel.VerticalSobelFilter` | source_forder/VTM10.0_fast/source/Lib/CommonLib/AffineGradientSearch.cpp:99-130 | the same for the vertical derivative |
| `Affine.EqualCoeffComputer` | source_forder/VTM10.0_fast/source/Lib/CommonLib/AffineGradientSearch.cpp:132-171 | the coefficient array gains, in place and summed over the block, the products of the effects of each two parameters and eight times those with the residual; an effect is the derivatives times the displacement at the centre of the 4x4 block |
| `Affine.RegressorsAreEffects` | source_forder/VTM10.0_fast/source/Lib/CommonLib/AffineGradientSearch.cpp:145-160 | the product of the regressors with any change of the parameters is its effect by the affine model, for six parameters and for four |
| `Affine.TotalIsEquation` | source_forder/VTM10.0_fast/source/Lib/CommonLib/AffineGradientSearch.cpp:132-171 | the sums over the first samples are those of the affine model |
| `Affine.CentreMeans` | source_forder/VTM10.0_fast/source/Lib/CommonLib/AffineGradientSearch.cpp:138-144 | the position used lies in the sample's 4x4 block, two from its corner |
| `AffineError.SolutionIsBest` | source_forder/VTM10.0_fast/source/Lib/CommonLib/AffineGradientSearch.cpp:132-171 | integer parameters that solve the equations of a block have the smallest squared error over it, among all integer parameters |
| `AffineError.ErrorOfRows` | source_forder/VTM10.0_fast/source/Lib/CommonLib/AffineGradientSearch.cpp:145-168 | the squared error of the rows is that of the samples: effect less eight times the residual |
| `Affine.ResidualStrideMatters` | source_forder/VTM10.0_fast/source/Lib/CommonLib/AffineGradientSearch.cpp:132-171 | the equations pair every sample with its own residual, whatever the buffers hold, if and only if both strides agree or the block has at most one line |
| `Affine.AddSample` | source_forder/VTM10.0_fast/source/Lib/CommonLib/AffineGradientSearch.cpp:161-168 | one sample's contribution |
| `Affine.GramSymmetric` | source_forder/VTM10.0_fast/source/Lib/CommonLib/AffineGradientSearch.cpp:163-166 | the matrix is symmetric |
| `Affine.QuadraticNonNegative` | source_forder/VTM10.0_fast/source/Lib/CommonLib/AffineGradientSearch.cpp:163-166 | no integer vector makes the quadratic form negative |
| `Affine.FourIsImageOfSix` | source_forder/VTM10.0_fast/source/Lib/CommonLib/AffineGradientSearch.cpp:145-160 | the four-parameter matrix is the image of the six-parameter one under a fixed linear map |
| `Affine.SumsFit` | source_forder/VTM10.0_fast/source/Lib/CommonLib/AffineGradientSearch.cpp:132-171 | no partial sum leaves the 64-bit range for blocks up to 128x128 whose derivatives and residuals are as small as 12-bit samples make them |
| `AffineSearch.SearchSumsFit` | source_forder/VTM10.0_fast/source/Lib/CommonLib/AffineGradientSearch.cpp:66-171 | so none does when the Sobel filters prepared the derivatives of a block of at most 12-bit samples |

## Left out

- The neural-network hook, option parsing, printing, YUV and file input and output, MD5, SEI parsing, SIMD variants, CC-ALF and the fixed filter tables.
- BitStream: `readByte`, `peekPreviousByte` and `insertAt`, which move whole bytes without regard to held bits, and tracing counters.
- BitStream.InputBitstream.PseudoRead: stated for fewer than 2^32 unread bits, since `getNumBitsLeft` is a 32-bit count; the same bound holds for ReadOutTrailingBits, ReadByteAlignment and BitRoundTrip.SpliceThenExtract.
- BitStream.OutputBitstream.AddSubstream: a stream spliced onto itself is not modelled.
- ByteStream.LookAheadStream.EofBeforeNBytes: the check that n is at most 4 is a precondition, as every call passes 3 or 4.
- Nal.ConvertPayloadToRbsp: what the program does once it reads in front of the buffer is not modelled; the model stops there and says so.
- The round-robin loop of the merge application and the parameter set it writes; its exit is not guaranteed when a stream ends in such a set.
- Bumping.DecApp.WriteOutput: one layer and frame coding; field pairs, several layers and the choice of limits from parameter sets are not modelled.
- BumpingRuns.RunInOrder: what the decoder does to the list between two calls is a relation (`BumpingRuns.Legal`), not code; marking pictures as not needed is not part of it.
- DpbSize.DpbConfig.Derive: temporal layers are below 7, as the arrays require.
- ReferenceLists: a delta array is modelled by its valid prefix, as the places behind it are never read. The array of available pictures is modelled whole.
- GopCheck.EncAppCfg.VerifyGop: an index past an array's end ends the model's run with a verdict of its own; 32-bit overflow of picture order counts is not modelled.
- GopAvailability.AvailableAreCoded: both lists of an entry are configured for the same picture, as the configuration sets them.
- GopCheck.EncAppCfg.CodeFrame: says nothing of the reference flags, which `ReferenceLists.CheckReferences` and `ReferenceLists.FillReferences` determine exactly.
- The configuration checks around the GOP loop and the raster-scan slice sizes would only add easy members.
- SliceParameters.SetSliceParameters: an address outside the picture ends the pass; the level limit on the number of slices and the coverage check of the parameter set are not modelled.
- AlfClassify.DeriveClassificationBlk: the source is a function of coordinates, so padding and the end of the source buffer are not modelled; the four directions share one cell of a row array.
- AlfWindow.SumIsWindow: for block positions, CTU heights and boundaries in whole 4x4 blocks with the boundary inside the CTU, as `create` sets them, and samples below 2^14.
- AlfSymmetry.TransposedClassOf: for blocks whose window does not touch the virtual boundary, which is itself not transposed; the same holds for TransposedSum and TurnedClassOf.
- AlfKernel.FilterBlk: the 32-bit range of a tap sum is not modelled, and differences are clipped without narrowing, which makes no difference up to 14 bits (`AlfClip.ClipExactUpTo14`); the choice of boundary position for the last CTU row is a parameter.
- Border.PaddingCore: stated for lines long enough for both margins; the program does not check it.
- Border.ExtendBorderPel: stated for pictures of at least one sample.
- `AreaBuf::transposedFrom` and the other buffer methods would only add easy members.
- AffineError.SolutionIsBest: for integer solutions; the solver of the search, in floating point, is not modelled.
- ColourTransform.ColorSpaceConvert: source and destination are the same three planes or share none.
- Sobel.HorizontalSobelFilter and Sobel.VerticalSobelFilter: stated for blocks of at least 3x3; smaller ones would read cells that were never written.
