/**
 * The formats each transform leaves behind, and what running a transform on
 * its own result does.
 */
module PackProfiles {
  import opened Wrappers
  import opened PackModel
  import opened AssetPolicy
  import opened PackAssetsCompression
  import opened PackProperties

  /** After a successful `withUncompressedAssets`, `hasCompressedAssets` answers false. */
  lemma UncompressedLeavesNothingCompressed(cv: Converters, nodes: seq<StageNode>)
    requires Run(Uncompressed, cv, nodes).failure.None?
    ensures forall k :: 0 <= k < |nodes| ==> !HasCompressedAsset(Run(Uncompressed, cv, nodes).nodes[k])
  {
    forall k | 0 <= k < |nodes| ensures !HasCompressedAsset(Run(Uncompressed, cv, nodes).nodes[k]) {
      RunRewritesEveryAsset(Uncompressed, cv, nodes, k, Image);
      RunRewritesEveryAsset(Uncompressed, cv, nodes, k, Audio);
    }
  }

  /** After a successful `withPreparedAssetsFirmware2dot4` every image is tagged BMP and every audio MPEG. */
  lemma FirmwareTagsBmpAndMpeg(cv: Converters, nodes: seq<StageNode>, k: nat)
    requires k < |nodes| && Run(Firmware2dot4, cv, nodes).failure.None?
    ensures var n := Run(Firmware2dot4, cv, nodes).nodes[k];
      (n.image.Some? ==> n.image.value.mimeType == ImageBmp)
      && (n.audio.Some? ==> n.audio.value.mimeType == AudioMpeg)
  {
    RunRewritesEveryAsset(Firmware2dot4, cv, nodes, k, Image);
    RunRewritesEveryAsset(Firmware2dot4, cv, nodes, k, Audio);
  }

  /**
   * After a successful `withCompressedAssets` no image is tagged BMP and no
   * audio WAV: BMP images are tagged PNG, WAV audio OGG, and every other tag is
   * the one the asset had.
   */
  lemma CompressedLeavesNoBmpOrWav(cv: Converters, nodes: seq<StageNode>, k: nat)
    requires k < |nodes| && Run(Compressed, cv, nodes).failure.None?
    ensures var n := Run(Compressed, cv, nodes).nodes[k];
      && n.image.Some? == nodes[k].image.Some? && n.audio.Some? == nodes[k].audio.Some?
      && (n.image.Some? ==> n.image.value.mimeType != ImageBmp)
      && (n.audio.Some? ==> n.audio.value.mimeType != AudioWav)
      && (nodes[k].image.Some? && nodes[k].image.value.mimeType == ImageBmp ==>
            n.image.value.mimeType == ImagePng)
      && (nodes[k].audio.Some? && nodes[k].audio.value.mimeType == AudioWav ==>
            n.audio.value.mimeType == AudioOgg)
      && (nodes[k].image.Some? && nodes[k].image.value.mimeType != ImageBmp ==>
            n.image.value.mimeType == nodes[k].image.value.mimeType)
      && (nodes[k].audio.Some? && nodes[k].audio.value.mimeType != AudioWav ==>
            n.audio.value.mimeType == nodes[k].audio.value.mimeType)
  {
    RunRewritesEveryAsset(Compressed, cv, nodes, k, Image);
    RunRewritesEveryAsset(Compressed, cv, nodes, k, Audio);
  }

  /**
   * `withCompressedAssets` leaves alone a pack with no BMP image and no WAV
   * audio, when no two of its contents share a digest.
   */
  lemma CompressedKeepsCompressedPack(cv: Converters, nodes: seq<StageNode>)
    requires forall k :: 0 <= k < |nodes| ==>
               (nodes[k].image.Some? ==> nodes[k].image.value.mimeType != ImageBmp)
               && (nodes[k].audio.Some? ==> nodes[k].audio.value.mimeType != AudioWav)
    requires DigestInjective(cv, nodes)
    ensures Run(Compressed, cv, nodes).failure.None?
    ensures Run(Compressed, cv, nodes).nodes == nodes
  {
    forall s | s in Slots(nodes) ensures Settled(Compressed, cv, s) {
      NodeOfSlot(nodes, s);
    }
    RunKeepsSettledPack(Compressed, cv, nodes);
  }

  /**
   * `withCompressedAssets` is idempotent: run again on its own successful
   * result, it succeeds and changes nothing (the digests of the result not
   * colliding).
   */
  lemma CompressedIsIdempotent(cv: Converters, nodes: seq<StageNode>)
    requires Run(Compressed, cv, nodes).failure.None?
    requires DigestInjective(cv, Run(Compressed, cv, nodes).nodes)
    ensures Run(Compressed, cv, Run(Compressed, cv, nodes).nodes).failure.None?
    ensures Run(Compressed, cv, Run(Compressed, cv, nodes).nodes).nodes == Run(Compressed, cv, nodes).nodes
  {
    forall k | 0 <= k < |nodes| {
      CompressedLeavesNoBmpOrWav(cv, nodes, k);
    }
    CompressedKeepsCompressedPack(cv, Run(Compressed, cv, nodes).nodes);
  }

  /**
   * `withUncompressedAssets` leaves alone a pack whose images are BMP files not
   * in 4-bit RLE and whose audio is WAV, when no two contents share a digest.
   */
  lemma UncompressedKeepsPlainPack(cv: Converters, nodes: seq<StageNode>)
    requires forall k :: 0 <= k < |nodes| ==>
               (nodes[k].image.Some? ==> nodes[k].image.value.mimeType == ImageBmp
                                         && IsRle4Bitmap(nodes[k].image.value.rawData) == Ok(false))
               && (nodes[k].audio.Some? ==> nodes[k].audio.value.mimeType == AudioWav)
    requires DigestInjective(cv, nodes)
    ensures Run(Uncompressed, cv, nodes).failure.None?
    ensures Run(Uncompressed, cv, nodes).nodes == nodes
  {
    forall s | s in Slots(nodes) ensures Settled(Uncompressed, cv, s) {
      NodeOfSlot(nodes, s);
    }
    RunKeepsSettledPack(Uncompressed, cv, nodes);
  }

  /**
   * `withUncompressedAssets` tags an `audio/mp3` asset WAV, yet keeps its MP3
   * bytes: only `audio/mpeg` is decoded. (The asset is the one its digest
   * was first met on, so its own bytes were the ones stored.)
   */
  lemma UncompressedRetagsMp3AsWav(cv: Converters, nodes: seq<StageNode>, k: nat)
    requires k < |nodes| && Run(Uncompressed, cv, nodes).failure.None?
    requires nodes[k].audio.Some? && nodes[k].audio.value.mimeType == AudioMp3
    requires Slot(Audio, nodes[k].audio.value) in Run(Uncompressed, cv, nodes).memo.misses
    ensures Run(Uncompressed, cv, nodes).nodes[k].audio
            == Some(Asset(AudioWav, nodes[k].audio.value.rawData))
  {
    RunRewritesEveryAsset(Uncompressed, cv, nodes, k, Audio);
    StoredConversion(Uncompressed, cv, nodes, Slot(Audio, nodes[k].audio.value));
  }
}
