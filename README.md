# Story pack asset preparation: a Dafny model

This project models the asset-preparation core of a story-pack studio. A
story pack is a list of stage nodes, and each node may carry one image and one
audio asset. Before a pack is written out, its assets are converted for the
target:

- `withCompressedAssets` turns BMP images into PNG and WAV audio into OGG.
- `withUncompressedAssets` turns every image into BMP and every audio into WAV.
- `withPreparedAssetsFirmware2dot4` turns every image into a 16-colour
  BI_RLE4 bitmap and every audio into mono 44.1 kHz MP3.

Each transform walks the nodes in order, image first and then audio. It keys a
map by the SHA-1 digest of each asset's bytes and converts an asset only when
its digest is not in the map yet. The map is shared by images and audio. It
then writes the stored bytes and the new MIME tag into the node in place.
`hasCompressedAssets` tells whether a pack still holds anything but BMP and WAV.

The BI_RLE4 bitmaps come from a library writer that pads absolute-mode runs
wrongly. `fixRLE4Padding` repairs its output. It copies the 0x76-byte header,
then walks the 2-byte tokens. For each absolute run `00 L` (L > 2) it copies
ceil(L/2) payload bytes, then inserts, drops or copies one padding byte
depending on L mod 4. A 255-pixel run keeps Java's `(byte)` cast quirk: no
payload byte is copied, and the byte after the token is dropped as padding. The palette handed to the writer holds the first 16
distinct colours of the quantized image, padded with zeros.

Layout:

- `wrappers.dfy` holds `Option` and `Result`.
- `sequences.dfy` holds `DistinctBy`, "first occurrence of each key". It is
  the shared concept behind `distinct()` in the palette and "convert each
  digest once" in the transforms.
- `rle4_records.dfy` is the specification of the repair. It splits the body
  into records (token, payload, padding) and defines the encoder's layout
  `Encoded`, the repaired layout `Corrected`, and `Fix`.
- `rle4_fixer.dfy` is the imperative repair over a byte array, with a cursor
  and loops. It is proved equal to `Fix`.
- `rle4_properties.dfy` proves the round trips of the record split, the
  length law, the failure cases, and conformance to the bitmap format's
  layout.
- `rle4_examples.dfy` holds concrete repairs, including the one showing that
  repairing twice fails.
- `palette.dfy` and `image_conversion.dfy` cover the palette and
  `anyToRLECompressedBitmap`, with the codecs as parameters.
- `pack_model.dfy` defines the pack; `StoryPack` is a class whose stage nodes
  are rewritten in place.
- `asset_policy.dfy` gives, per profile and per asset kind, the conversion on
  a miss and the tag afterwards.
- `pack_assets_compression.dfy` holds the specification `Run` of a transform
  and the imperative methods: `HasCompressedAssets`, the in-place loop
  `TransformAssets`, and the three public transforms. The methods are proved
  equal to `Run`.
- `pack_properties.dfy` and `pack_profiles.dfy` prove what a transform
  guarantees:
  - the pack keeps its shape;
  - every asset is rewritten from the map;
  - each distinct digest is converted exactly once, on its first asset;
  - equal contents end equal;
  - failures come only from conversions;
  - the tag guarantees of each profile hold;
  - packs already in target form are left unchanged.

## Model

| member | source | states |
|---|---|---|
| Rle4Records.ToJavaByte | core/src/main/java/studio/core/v1/utils/ImageConversion.java:129 | The `(byte)` cast: the result lies in -128..127 and is congruent to the input modulo 256. |
| Rle4Records.JavaRem2 | core/src/main/java/studio/core/v1/utils/ImageConversion.java:136 | Java's `% 2`: the non-negative remainder for a non-negative operand, 0 or -1 (with the same parity) for a negative one. |
| Rle4Records.PayloadCount | core/src/main/java/studio/core/v1/utils/ImageConversion.java:128-133 | An absolute run of L pixels copies ceil(L/2) payload bytes for L < 255, and none for L = 255, where `lengthInBytes` is -128. |
| Rle4Records.LengthParities | core/src/main/java/studio/core/v1/utils/ImageConversion.java:128-136 | `lengthInBytes` is (L+1)/2, or -128 when L = 255. The parities of `length / 2` and `lengthInBytes % 2` for each residue of L modulo 4. |
| Rle4Records.PaddingFixFor | core/src/main/java/studio/core/v1/utils/ImageConversion.java:134-145 | Which of the three branches runs, in both directions: insert a zero iff L mod 4 = 1, drop a byte iff L mod 4 = 3, copy a byte iff L mod 4 = 2, nothing iff L mod 4 = 0. |
| Rle4Records.PaddingRules | core/src/main/java/studio/core/v1/utils/ImageConversion.java:134-145 | For 3 <= L <= 254, the repair reads (L/2) mod 2 padding bytes and writes ceil(L/2) mod 2 of them. |
| Rle4Records.CorrectedPadLength | core/src/main/java/studio/core/v1/utils/ImageConversion.java:134-145 | The repaired padding brings payload plus padding to an even length; its size is the input padding plus inserted minus dropped bytes. |
| Rle4Records.CorrectedRecord | core/src/main/java/studio/core/v1/utils/ImageConversion.java:121-145 | Every repaired record (token, payload, padding) has even length, and that length is the input record's plus inserted minus dropped bytes. |
| Rle4Records.ParseRecord | core/src/main/java/studio/core/v1/utils/ImageConversion.java:120-145 | The record the loop reads at a position: none exactly when the input is truncated there (a lone byte, a short payload, a missing padding byte). Otherwise a well-formed record whose token is the two bytes read and whose layout is exactly the bytes consumed. |
| Rle4Records.Fix | core/src/main/java/studio/core/v1/utils/ImageConversion.java:114-119 | An input shorter than 0x76 bytes fails; a result starts with the input's first 0x76 bytes, copied verbatim. |
| Rle4Fixer.TokenRecord | core/src/main/java/studio/core/v1/utils/ImageConversion.java:121-127 | A token with b1 != 0 or b2 <= 2 consumes exactly two bytes and writes exactly those two bytes. |
| Rle4Fixer.AbsoluteRecord | core/src/main/java/studio/core/v1/utils/ImageConversion.java:127-145 | An absolute run that fits in the input is written as token, payload copied verbatim, and the padding the repair gives its length. |
| Rle4Fixer.TruncatedStops | core/src/main/java/studio/core/v1/utils/ImageConversion.java:120-133 | A record cut short by the end of the buffer makes the whole body fail; no partial output. |
| Rle4Fixer.CopyHeader | core/src/main/java/studio/core/v1/utils/ImageConversion.java:116-119 | The header loop: fails iff the buffer holds fewer than 0x76 bytes, and otherwise returns its first 0x76 bytes. |
| Rle4Fixer.CopyPadding | core/src/main/java/studio/core/v1/utils/ImageConversion.java:134-145 | The three padding branches over the buffer: advances by the bytes the fix reads, writes `[0]`, the byte read, or nothing, and underflows only when a byte it must read is absent. |
| Rle4Fixer.CopyAbsolute | core/src/main/java/studio/core/v1/utils/ImageConversion.java:127-145 | The payload loop plus padding: fails iff the run is longer than what remains, and otherwise advances past the input record and writes its repaired form. |
| Rle4Fixer.CopyRecord | core/src/main/java/studio/core/v1/utils/ImageConversion.java:120-146 | One loop iteration: fails iff the rest of the buffer is truncated, otherwise advances by the input record's length and writes the repaired record. |
| Rle4Fixer.ContinueAfter | core/src/main/java/studio/core/v1/utils/ImageConversion.java:120-147 | After one iteration the remaining output is unchanged: the loop invariant steps from one record to the next. |
| Rle4Fixer.FixRle4Padding | core/src/main/java/studio/core/v1/utils/ImageConversion.java:114-150 | The imperative repair over the byte array returns exactly `Fix` of its contents: header, then every record repaired in order, or failure. |
| Rle4Properties.ParseRecordOfEncoded | core/src/main/java/studio/core/v1/utils/ImageConversion.java:120-146 | Reading a well-formed record from its layout, whatever follows it, gives that record back and consumes exactly its bytes. |
| Rle4Properties.ParseBodyStep | core/src/main/java/studio/core/v1/utils/ImageConversion.java:120-147 | The body is read one record at a time, each starting where the previous one ended. |
| Rle4Properties.ParseEncoded | core/src/main/java/studio/core/v1/utils/ImageConversion.java:120-147 | Reading the layout of well-formed records followed by a tail gives those records followed by what the tail reads as. |
| Rle4Properties.EncodedRoundTrip | core/src/main/java/studio/core/v1/utils/ImageConversion.java:120-147 | Reading the layout of any sequence of well-formed records gives those records back. |
| Rle4Properties.ParsedRoundTrip | core/src/main/java/studio/core/v1/utils/ImageConversion.java:120-147 | Records read from a body are well formed, and their layout is exactly that body, so every input byte belongs to one record, in order. |
| Rle4Properties.CorrectedLength | core/src/main/java/studio/core/v1/utils/ImageConversion.java:127-145 | Repaired records have total length equal to the input length plus the L mod 4 = 1 records minus the L mod 4 = 3 records. |
| Rle4Properties.FixLength | core/src/main/java/studio/core/v1/utils/ImageConversion.java:114-150 | Output length = input length + #records with L mod 4 = 1 - #records with L mod 4 = 3. |
| Rle4Properties.FailsOnTruncatedRecord | core/src/main/java/studio/core/v1/utils/ImageConversion.java:120-145 | A header, complete records and then a truncated record (a lone byte, a short payload, a missing padding byte) fail as a whole. |
| Rle4Properties.FailureIsTruncation | core/src/main/java/studio/core/v1/utils/ImageConversion.java:120-145 | A body that fails to read has a prefix of complete records followed by a truncated record. |
| Rle4Properties.FixFailsOnlyOnTruncation | core/src/main/java/studio/core/v1/utils/ImageConversion.java:114-150 | A repair of an input holding a header fails only at a truncated record after complete ones. |
| Rle4Properties.FormatReadsRecord | core/src/main/java/studio/core/v1/utils/ImageConversion.java:127-145 | A repaired record, other than an absolute run of 255 pixels, followed by anything, is read by the format's reader as that run with its pixels. Encoded runs `nn FF` are included. |
| Rle4Properties.FormatReadsCorrected | core/src/main/java/studio/core/v1/utils/ImageConversion.java:127-145 | Repaired records without a 255-pixel absolute run lay out exactly as the bitmap format prescribes: token, ceil(L/2) pixel bytes, padding to a 16-bit boundary. |
| Rle4Properties.FixConformsToFormat | core/src/main/java/studio/core/v1/utils/ImageConversion.java:114-150 | When no absolute run has 255 pixels, the repaired body reads, under the format's rules, as the input's runs with their pixels unchanged and in order. |
| Rle4Examples.OneRecordFix | core/src/main/java/studio/core/v1/utils/ImageConversion.java:114-150 | A header and one well-formed record repair to the header and that record's repaired form. |
| Rle4Examples.FiveNibblesGainPad | core/src/main/java/studio/core/v1/utils/ImageConversion.java:137-138 | `00 05` with three payload bytes gains a 0x00 padding byte. |
| Rle4Examples.ThreeNibblesLosePad | core/src/main/java/studio/core/v1/utils/ImageConversion.java:139-141 | `00 03` with two payload bytes loses its padding byte. |
| Rle4Examples.SixNibblesKeepPad | core/src/main/java/studio/core/v1/utils/ImageConversion.java:142-145 | `00 06` with three payload bytes keeps its padding byte. |
| Rle4Examples.FullRunCopiesNoPayload | core/src/main/java/studio/core/v1/utils/ImageConversion.java:129-133 | `00 FF 12` repairs to `00 FF`: no payload is copied, and the byte after the token is dropped as padding. |
| Rle4Examples.FullRunBreaksFormat | core/src/main/java/studio/core/v1/utils/ImageConversion.java:129-141 | The repaired `00 FF` lacks the 128 pixel bytes the format expects, so the format reader rejects it. This is why conformance excludes 255-pixel absolute runs. |
| Rle4Examples.EncodedColourFifteenConforms | core/src/main/java/studio/core/v1/utils/ImageConversion.java:121-127 | The encoded run `05 FF` is copied unchanged, and the format reader reads it back as one run. |
| Rle4Examples.RepairTwiceFails | core/src/main/java/studio/core/v1/utils/ImageConversion.java:114-150 | The repair is not idempotent: repairing `00 05` output a second time fails. |
| Sequences.DistinctBySameKeys | core/src/main/java/studio/core/v1/utils/ImageConversion.java:163 | `distinct()` keeps every value of the input: a key occurs in the result iff it occurs in the input. |
| Sequences.DistinctByUnique | core/src/main/java/studio/core/v1/utils/ImageConversion.java:163 | `distinct()` keeps each key at most once, only input elements, and no more elements than the input. |
| Sequences.DistinctByFirstOccurrences | core/src/main/java/studio/core/v1/utils/ImageConversion.java:163 | Each kept element is the first input element with its key, in the order of first occurrence. |
| Palette.CopyOf | core/src/main/java/studio/core/v1/utils/ImageConversion.java:166 | `Arrays.copyOf`: exactly the requested length, the input's entries first, then zeros. |
| Palette.PaletteDropsOnlyLaterColours | core/src/main/java/studio/core/v1/utils/ImageConversion.java:163-166 | A colour of the image missing from the palette exists only when there are more than 16 colours, and first occurs after the 16th palette entry. |
| Palette.PaletteIsFirstSixteenColours | core/src/main/java/studio/core/v1/utils/ImageConversion.java:161-166 | 16 entries; entry i is the i-th distinct colour in scan order if there is one, else 0; every colour left out occurs, for the first time, after the 16th kept colour, so the kept ones are the first 16; with at most 16 colours every colour is in the palette. |
| ImageConversion.AnyToRleCompressedBitmap | core/src/main/java/studio/core/v1/utils/ImageConversion.java:85-111 | Succeeds iff quantizing and writing succeed, the written stream is non-empty and the repair reads it to the end. The result is the repaired written stream, `Fix` of it, and keeps the writer's 0x76-byte header. |
| ImageConversion.RleBitmapIsRepairedStream | core/src/main/java/studio/core/v1/utils/ImageConversion.java:107-111 | The returned bitmap is the written stream with every absolute run re-padded. It is one byte longer per L = 1 (mod 4) run and one shorter per L = 3 (mod 4) run. Without 255-pixel absolute runs it is laid out as the bitmap format prescribes for the writer's runs. |
| AssetPolicy.IsRle4Bitmap | core/src/main/java/studio/core/v1/utils/PackAssetsCompression.java:110 | The `[28] == 4 && [30] == 2` check, with its short circuit: fails iff byte 28 is missing, or is 4 and byte 30 is missing; true iff both bytes match. |
| AssetPolicy.CompressedImage | core/src/main/java/studio/core/v1/utils/PackAssetsCompression.java:52-57 | A miss keeps the bytes of any image that is not BMP and converts a BMP with `bitmapToPng`. |
| AssetPolicy.CompressedAudio | core/src/main/java/studio/core/v1/utils/PackAssetsCompression.java:69-75 | A miss keeps the bytes of any audio that is not WAV and converts a WAV with `waveToOgg`. |
| AssetPolicy.UncompressedImage | core/src/main/java/studio/core/v1/utils/PackAssetsCompression.java:98-116 | A miss keeps unlisted images and BMPs that are not 4-bit RLE, fails on a BMP too short for the check, and converts PNG, JPEG and RLE4 BMP. |
| AssetPolicy.UncompressedAudio | core/src/main/java/studio/core/v1/utils/PackAssetsCompression.java:126-139 | A miss converts OGG with `oggToWave` and MPEG with `mp3ToWave`, and keeps the bytes of any other audio, WAV and `audio/mp3` included. |
| AssetPolicy.FirmwareImage | core/src/main/java/studio/core/v1/utils/PackAssetsCompression.java:160-166 | A miss keeps a 4-bit RLE BMP, fails on a BMP too short for the check, and gives `anyToRLECompressedBitmap` of every other image, the bytes of a non-BMP never being indexed. |
| AssetPolicy.ReencodeUnlessMono44k | core/src/main/java/studio/core/v1/utils/PackAssetsCompression.java:185-190 | Stripped MP3 bytes are kept iff the stream is mono at 44100 Hz, re-encoded otherwise, and the probe's failure fails the transform. |
| AssetPolicy.FirmwareAudio | core/src/main/java/studio/core/v1/utils/PackAssetsCompression.java:176-192 | Audio other than MP3/MPEG is always re-encoded; MP3/MPEG is stripped of ID3v1, then ID3v2, then kept or re-encoded by the mono/44.1 kHz check; a failing strip fails. |
| AssetPolicy.Retag | core/src/main/java/studio/core/v1/utils/PackAssetsCompression.java:60-81 | Tag after a hit or miss: compression tags a BMP image PNG and a WAV audio OGG, and keeps every other tag; uncompression tags BMP/WAV (:120, :143); firmware tags BMP/MPEG (:170, :196). |
| PackAssetsCompression.WithAsset | core/src/main/java/studio/core/v1/utils/PackAssetsCompression.java:119-120 | Setting one asset of a node leaves its other asset and its identity unchanged. |
| PackAssetsCompression.Fetch | core/src/main/java/studio/core/v1/utils/PackAssetsCompression.java:51-58 | Get-or-compute on the digest map: a hit returns the stored bytes and converts nothing; a miss converts once, stores the result under the new key only, and keeps every old entry. |
| PackAssetsCompression.VisitSlot | core/src/main/java/studio/core/v1/utils/PackAssetsCompression.java:49-64 | Visiting one asset changes only node i, keeps its identity and which assets are present, and does nothing after a failure. |
| PackAssetsCompression.RunFrom | core/src/main/java/studio/core/v1/utils/PackAssetsCompression.java:46-83 | The rest of the walk keeps the number of nodes. |
| PackAssetsCompression.Run | core/src/main/java/studio/core/v1/utils/PackAssetsCompression.java:46-83 | The whole walk keeps the number of nodes. |
| PackAssetsCompression.HasCompressedAssets | core/src/main/java/studio/core/v1/utils/PackAssetsCompression.java:26-40 | True iff some node has a present image not tagged BMP or a present audio not tagged WAV; false for no nodes. |
| PackAssetsCompression.VisitInPlace | core/src/main/java/studio/core/v1/utils/PackAssetsCompression.java:157-171 | The in-place slot update leaves the pack and map exactly as `VisitSlot` describes. |
| PackAssetsCompression.TransformAssets | core/src/main/java/studio/core/v1/utils/PackAssetsCompression.java:92-147 | The node loop leaves the pack's nodes equal to `Run`, including the partial rewrite left by a failure, and returns the same pack iff no conversion failed. |
| PackAssetsCompression.WithCompressedAssets | core/src/main/java/studio/core/v1/utils/PackAssetsCompression.java:42-86 | `withCompressedAssets` rewrites the pack in place as `Run` does under the compression profile and returns that same pack. |
| PackAssetsCompression.WithUncompressedAssets | core/src/main/java/studio/core/v1/utils/PackAssetsCompression.java:88-148 | `withUncompressedAssets` rewrites the pack in place as `Run` does under the uncompression profile and returns that same pack. |
| PackAssetsCompression.WithPreparedAssetsFirmware2dot4 | core/src/main/java/studio/core/v1/utils/PackAssetsCompression.java:150-201 | `withPreparedAssetsFirmware2dot4` rewrites the pack in place as `Run` does under the firmware profile and returns that same pack. |
| PackProperties.SlotOfNode | core/src/main/java/studio/core/v1/utils/PackAssetsCompression.java:46-49 | Every present asset of the pack is one of the slots the walk visits. |
| PackProperties.NodeOfSlot | core/src/main/java/studio/core/v1/utils/PackAssetsCompression.java:46-49 | Every slot the walk visits is a present asset of some node. |
| PackProperties.FetchStep | core/src/main/java/studio/core/v1/utils/PackAssetsCompression.java:51-58 | A lookup keeps the map invariant: keys are digests met so far, each stored conversion is that of the first miss with its digest, and entries are never overwritten. |
| PackProperties.VisitSlotStep | core/src/main/java/studio/core/v1/utils/PackAssetsCompression.java:49-64 | A successful visit leaves the asset tagged by `Retag` with the bytes stored under its digest. A failed one fails with that asset's conversion error. |
| PackProperties.VisitSlotDone | core/src/main/java/studio/core/v1/utils/PackAssetsCompression.java:60-63 | After a successful visit the asset holds the map entry for its original digest. |
| PackProperties.VisitNodeMemo | core/src/main/java/studio/core/v1/utils/PackAssetsCompression.java:49-82 | Visiting a node, image then audio, keeps the map invariant over both slots and never overwrites an entry. |
| PackProperties.VisitNodeDone | core/src/main/java/studio/core/v1/utils/PackAssetsCompression.java:49-82 | After visiting a node both its assets are rewritten. |
| PackProperties.NodesDoneKept | core/src/main/java/studio/core/v1/utils/PackAssetsCompression.java:46-83 | Nodes already rewritten stay correct as the map only grows. |
| PackProperties.VisitNodeStep | core/src/main/java/studio/core/v1/utils/PackAssetsCompression.java:46-83 | The loop invariant of the walk survives one more node. |
| PackProperties.VisitNodeFails | core/src/main/java/studio/core/v1/utils/PackAssetsCompression.java:46-83 | A node visit fails only with a conversion error of that node's assets. |
| PackProperties.RunFromProcessed | core/src/main/java/studio/core/v1/utils/PackAssetsCompression.java:46-83 | The remaining walk either completes every node or fails on a conversion of one of the pack's assets. |
| PackProperties.RunFromShape | core/src/main/java/studio/core/v1/utils/PackAssetsCompression.java:46-83 | The remaining walk keeps identities and presence of assets. |
| PackProperties.VisitNodeShape | core/src/main/java/studio/core/v1/utils/PackAssetsCompression.java:49-82 | A node visit keeps identities and presence of assets. |
| PackProperties.RunProcessed | core/src/main/java/studio/core/v1/utils/PackAssetsCompression.java:46-83 | A successful walk has rewritten every node; a failed one failed on a conversion. |
| PackProperties.RunKeepsShape | core/src/main/java/studio/core/v1/utils/PackAssetsCompression.java:46-85 | Node count, order and identities are unchanged; an absent asset stays absent and a present one stays present. |
| PackProperties.RunRewritesEveryAsset | core/src/main/java/studio/core/v1/utils/PackAssetsCompression.java:60 | After success each asset carries its retagged tag and the bytes stored under the digest of its original bytes. |
| PackProperties.RunConvertsEachContentOnce | core/src/main/java/studio/core/v1/utils/PackAssetsCompression.java:51-58 | The conversions ran exactly on the first asset of each distinct digest, images and audio sharing one map. The map's keys are exactly the digests met, each stored with its first asset's conversion. |
| PackProperties.StoredConversion | core/src/main/java/studio/core/v1/utils/PackAssetsCompression.java:57 | The bytes stored for a converted asset's digest are its conversion. |
| PackProperties.RunConvertsFirstOccurrences | core/src/main/java/studio/core/v1/utils/PackAssetsCompression.java:51-58 | Each conversion ran on the first asset, in walk order, with its digest. |
| PackProperties.RunSharesEqualContent | core/src/main/java/studio/core/v1/utils/PackAssetsCompression.java:51-60 | Two assets, of either kind, whose original bytes have equal digests end byte-identical. |
| PackProperties.RunFailsOnlyOnConversion | core/src/main/java/studio/core/v1/utils/PackAssetsCompression.java:42-86 | A transform fails only with the error of converting one of the pack's assets. |
| PackProperties.StoredSettledBytes | core/src/main/java/studio/core/v1/utils/PackAssetsCompression.java:51-58 | When every asset converts to itself and the digest separates contents, each content is stored unchanged. |
| PackProperties.SettledAssetKept | core/src/main/java/studio/core/v1/utils/PackAssetsCompression.java:60-63 | An asset whose conversion and tag are unchanged, and whose content is stored unchanged, is kept as it was. |
| PackProperties.RunKeepsSettledPack | core/src/main/java/studio/core/v1/utils/PackAssetsCompression.java:42-86 | A pack whose assets all convert to themselves with unchanged tags, and whose contents the digest separates, is returned unchanged. |
| PackProfiles.UncompressedLeavesNothingCompressed | core/src/main/java/studio/core/v1/utils/PackAssetsCompression.java:119-143 | After a successful `withUncompressedAssets`, `hasCompressedAssets` finds nothing: images are BMP and audio WAV. |
| PackProfiles.FirmwareTagsBmpAndMpeg | core/src/main/java/studio/core/v1/utils/PackAssetsCompression.java:169-196 | After a successful firmware preparation, every present image is tagged BMP and every present audio MPEG. |
| PackProfiles.CompressedLeavesNoBmpOrWav | core/src/main/java/studio/core/v1/utils/PackAssetsCompression.java:61-81 | After a successful `withCompressedAssets`, BMP images are tagged PNG and WAV audio OGG, so no image is BMP and no audio WAV. Other tags are kept and presence is unchanged. |
| PackProfiles.CompressedKeepsCompressedPack | core/src/main/java/studio/core/v1/utils/PackAssetsCompression.java:42-86 | A pack with no BMP image and no WAV audio is left unchanged by compression. |
| PackProfiles.CompressedIsIdempotent | core/src/main/java/studio/core/v1/utils/PackAssetsCompression.java:42-86 | Compressing an already compressed pack changes nothing. |
| PackProfiles.UncompressedKeepsPlainPack | core/src/main/java/studio/core/v1/utils/PackAssetsCompression.java:88-148 | A pack of non-RLE4 BMP images and WAV audio is left unchanged by uncompression. |
| PackProfiles.UncompressedRetagsMp3AsWav | core/src/main/java/studio/core/v1/utils/PackAssetsCompression.java:126-143 | Audio tagged `audio/mp3` that `withUncompressedAssets` visits first is retagged WAV with its bytes unconverted. |

`AnyToBitmap`, `BitmapToPng`, `ConvertOnMiss`, `VisitNode` and `Palette16`
model core/src/main/java/studio/core/v1/utils/ImageConversion.java:53-59,
the per-profile dispatch and one node visit, and the palette. They have no
contract of their own; the lemmas above state their properties.

## Left out

- Image codecs are parameters of type `ImageCodecs`: uninterpreted functions that may fail. This covers ImageIO reading and writing, the Java2D redraw, the `QuantizeFilter` dithering and the BMP writer. The model keeps only the palette the writer receives and the repair of its output.
- The audio conversions, the ID3 tag removal and `AudioSystem.getAudioFileFormat` are uninterpreted, possibly failing parameters of `Converters`. `AudioConversion` and `ID3Tags` are not part of this model.
- `DigestUtils.sha1Hex` is an uninterpreted function. Nothing about collisions is assumed, except in the lemmas below that require `DigestInjective`.
- The ICC-profile static initializer and all logging are left out. They do not affect results.
- Exceptions are modelled as `Failure` values carrying a message: a read past the end of a buffer or array, and a library failure. A Java exception's type and stack are not.
- MIME tags are a datatype, with `Unlisted(name)` for every tag outside the listed constants. A name spelling one of the listed constants, such as the BMP MIME string, is not identified with that constant, whereas Java's `equals` and `switch` would match it. Tags are assumed to be built with the listed constructors.
- A `null` asset list or `null` MIME tag, and the exception a `switch` on a null tag would raise, are not modelled. Tags are never null here.
- `StageNode` keeps only a `uuid` for the fields the transforms do not touch. Assets are values, so an `Asset` object shared by two nodes (aliasing) is not modelled. With sharing, the second visit would see bytes and a tag already rewritten by the first.
- `AudioFormat.sampleRate` is a `float` in the source and an `int` here. The comparison with 44100 is unaffected.
- `Math.ceil(length / 2.0)` is modelled in integer arithmetic, as (L+1)/2 followed by the `(byte)` cast. That is exact for 0 <= L <= 255.
- Rle4Properties.FixConformsToFormat: requires that no absolute run has 255 pixels. The repair copies no payload for such a run, so its output does not follow the format (`Rle4Examples.FullRunBreaksFormat`). Encoded runs `nn FF` are not excluded.
- ImageConversion.RleBitmapIsRepairedStream: states format conformance only without 255-pixel absolute runs, for the same reason.
- PackProfiles.CompressedKeepsCompressedPack: requires that the digest separates the pack's contents (`DigestInjective`). Otherwise two different contents with one digest would end with the first one's bytes.
- PackProfiles.UncompressedKeepsPlainPack: requires `DigestInjective`, for the same reason.
- PackProfiles.CompressedIsIdempotent: requires `DigestInjective` on the compressed pack, for the same reason.
- PackProperties.RunKeepsSettledPack: requires `DigestInjective`, for the same reason.
- Rle4Examples.RepairTwiceFails: the repair is not idempotent. A second pass over a `00 05` run inserts another zero and then underflows, so the model states no idempotence.
- The `00 02` delta escape takes two operand bytes in the bitmap format. The repair, and this model, read it as a bare 2-byte token, so its operands are read as the next token.
- PackProfiles.UncompressedRetagsMp3AsWav: `withUncompressedAssets` converts only `audio/ogg` and `audio/mpeg`. Audio tagged `audio/mp3` keeps its bytes and is tagged WAV. The model follows the code.
