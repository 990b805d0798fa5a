/**
 * `PackAssetsCompression`: the three transforms that walk a pack's stage nodes
 * in order and rewrite each node's image and audio through a digest-keyed map,
 * so that each distinct content is converted once, and the check for assets
 * not already in the uncompressed formats.
 *
 * `Run` is the specification of a transform: the walk as a function, including
 * the nodes already rewritten when a conversion fails. `TransformAssets` is the
 * loop that updates the pack in place, proved equal to `Run`.
 */
module PackAssetsCompression {
  import opened Wrappers
  import opened Rle4Records
  import opened PackModel
  import opened AssetPolicy

  /** An asset as met by the walk, with the slot it sits in. */
  datatype Slot = Slot(kind: Kind, asset: Asset)

  /**
   * The digest map of the walk (digest to stored bytes), with the ghost log of
   * the slots whose digest missed, in the order the conversions ran.
   */
  datatype Memo = Memo(assets: map<string, seq<Byte>>, misses: seq<Slot>)

  /** The state of the walk: the nodes so far and the error that stopped it, if any. */
  datatype Progress = Progress(nodes: seq<StageNode>, memo: Memo, failure: Option<string>)

  datatype Fetched = Fetched(bytes: seq<Byte>, memo: Memo)

  function AssetOf(n: StageNode, kind: Kind): Option<Asset>
  {
    if kind == Image then n.image else n.audio
  }

  function WithAsset(n: StageNode, kind: Kind, a: Asset): (r: StageNode)
    ensures AssetOf(r, kind) == Some(a)
    ensures AssetOf(r, if kind == Image then Audio else Image) == AssetOf(n, if kind == Image then Audio else Image)
    ensures r.uuid == n.uuid
  {
    if kind == Image then n.(image := Some(a)) else n.(audio := Some(a))
  }

  /** The key of the digest map for an asset's bytes. */
  function Digest(cv: Converters, s: Slot): string
  {
    cv.sha1Hex(s.asset.rawData)
  }

  /**
   * The map lookup of one asset: a digest already in the map gives the stored
   * bytes and changes nothing; a new digest runs the conversion once and stores
   * its result, and a failing conversion stops the walk.
   */
  function Fetch(p: Profile, cv: Converters, s: Slot, memo: Memo): (r: Result<Fetched>)
    ensures Digest(cv, s) in memo.assets ==> r == Ok(Fetched(memo.assets[Digest(cv, s)], memo))
    ensures Digest(cv, s) !in memo.assets ==>
              (r.Ok? <==> ConvertOnMiss(p, cv, s.kind, s.asset).Ok?)
    ensures Digest(cv, s) !in memo.assets && r.Ok? ==>
              r.value.bytes == ConvertOnMiss(p, cv, s.kind, s.asset).value
              && r.value.memo.misses == memo.misses + [s]
    ensures r.Ok? ==> Digest(cv, s) in r.value.memo.assets
                      && r.value.memo.assets[Digest(cv, s)] == r.value.bytes
                      && r.value.memo.assets.Keys == memo.assets.Keys + {Digest(cv, s)}
                      && forall h :: h in memo.assets ==> r.value.memo.assets[h] == memo.assets[h]
  {
    var h := Digest(cv, s);
    if h in memo.assets then Ok(Fetched(memo.assets[h], memo))
    else match ConvertOnMiss(p, cv, s.kind, s.asset)
      case Failure(e) => Failure(e)
      case Ok(d) => Ok(Fetched(d, Memo(memo.assets[h := d], memo.misses + [s])))
  }

  /** The walk on one slot of node `i`: fetch its bytes and retag it. */
  function VisitSlot(p: Profile, cv: Converters, kind: Kind, st: Progress, i: nat): (r: Progress)
    requires i < |st.nodes|
    ensures |r.nodes| == |st.nodes|
    ensures forall k :: 0 <= k < |st.nodes| && k != i ==> r.nodes[k] == st.nodes[k]
    ensures r.nodes[i].uuid == st.nodes[i].uuid
    ensures AssetOf(r.nodes[i], Image).Some? == AssetOf(st.nodes[i], Image).Some?
    ensures AssetOf(r.nodes[i], Audio).Some? == AssetOf(st.nodes[i], Audio).Some?
    ensures st.failure.Some? ==> r == st
  {
    if st.failure.Some? || AssetOf(st.nodes[i], kind).None? then st
    else
      var a := AssetOf(st.nodes[i], kind).value;
      match Fetch(p, cv, Slot(kind, a), st.memo)
      case Failure(e) => st.(failure := Some(e))
      case Ok(f) =>
        var n := WithAsset(st.nodes[i], kind, Asset(Retag(p, kind, a.mimeType), f.bytes));
        Progress(st.nodes[i := n], f.memo, None)
  }

  /** The walk on node `i`: its image, then its audio. */
  function VisitNode(p: Profile, cv: Converters, st: Progress, i: nat): Progress
    requires i < |st.nodes|
  {
    var st1 := VisitSlot(p, cv, Image, st, i);
    VisitSlot(p, cv, Audio, st1, i)
  }

  /** The walk from node `i` to the end, or to the first failure. */
  function RunFrom(p: Profile, cv: Converters, st: Progress, i: nat): (r: Progress)
    requires i <= |st.nodes|
    ensures |r.nodes| == |st.nodes|
    decreases |st.nodes| - i
  {
    if st.failure.Some? || i == |st.nodes| then st
    else
      RunFrom(p, cv, VisitNode(p, cv, st, i), i + 1)
  }

  /** A transform on the stage nodes of a pack, from an empty digest map. */
  function Run(p: Profile, cv: Converters, nodes: seq<StageNode>): (r: Progress)
    ensures |r.nodes| == |nodes|
  {
    RunFrom(p, cv, Progress(nodes, Memo(map[], []), None), 0)
  }

  /** A node holding an image not tagged BMP or audio not tagged WAV. */
  predicate HasCompressedAsset(n: StageNode)
  {
    (n.image.Some? && n.image.value.mimeType != ImageBmp)
    || (n.audio.Some? && n.audio.value.mimeType != AudioWav)
  }

  /** `hasCompressedAssets`: whether some node holds an asset not in BMP or WAV. */
  method HasCompressedAssets(pack: StoryPack) returns (r: bool)
    ensures r <==> exists k :: 0 <= k < |pack.stageNodes| && HasCompressedAsset(pack.stageNodes[k])
  {
    var i := 0;
    while i < |pack.stageNodes|
      invariant i <= |pack.stageNodes|
      invariant forall k :: 0 <= k < i ==> !HasCompressedAsset(pack.stageNodes[k])
    {
      var node := pack.stageNodes[i];
      if node.image.Some? && node.image.value.mimeType != ImageBmp {
        return true;
      }
      if node.audio.Some? && node.audio.value.mimeType != AudioWav {
        return true;
      }
      i := i + 1;
    }
    return false;
  }

  /** One slot of node `i` in place: look its digest up, convert on a miss, store and retag. */
  method VisitInPlace(pack: StoryPack, p: Profile, cv: Converters, kind: Kind, i: nat,
                      assets: map<string, seq<Byte>>, ghost misses: seq<Slot>)
    returns (assets': map<string, seq<Byte>>, ghost misses': seq<Slot>, failure: Option<string>)
    requires i < |pack.stageNodes|
    modifies pack
    ensures Progress(pack.stageNodes, Memo(assets', misses'), failure)
            == VisitSlot(p, cv, kind, Progress(old(pack.stageNodes), Memo(assets, misses), None), i)
  {
    assets', misses', failure := assets, misses, None;
    var node := pack.stageNodes[i];
    var asset := AssetOf(node, kind);
    if asset.Some? {
      var data := asset.value.rawData;
      var assetHash := cv.sha1Hex(data);
      if assetHash !in assets {
        var converted := ConvertOnMiss(p, cv, kind, asset.value);
        if converted.Failure? {
          failure := Some(converted.error);
          return;
        }
        assets' := assets[assetHash := converted.value];
        misses' := misses + [Slot(kind, asset.value)];
      }
      var stored := Asset(Retag(p, kind, asset.value.mimeType), assets'[assetHash]);
      pack.stageNodes := pack.stageNodes[i := WithAsset(node, kind, stored)];
    }
  }

  /**
   * The loop shared by `withCompressedAssets`, `withUncompressedAssets` and
   * `withPreparedAssetsFirmware2dot4`: the nodes become those of `Run`, even
   * when a conversion fails part way.
   */
  method TransformAssets(pack: StoryPack, p: Profile, cv: Converters) returns (r: Result<StoryPack>)
    modifies pack
    ensures pack.stageNodes == Run(p, cv, old(pack.stageNodes)).nodes
    ensures r.Ok? <==> Run(p, cv, old(pack.stageNodes)).failure.None?
    ensures r.Ok? ==> r.value == pack
    ensures r.Failure? ==> Run(p, cv, old(pack.stageNodes)).failure == Some(r.error)
  {
    var assets: map<string, seq<Byte>> := map[];
    ghost var misses: seq<Slot> := [];
    var i := 0;
    while i < |pack.stageNodes|
      invariant i <= |pack.stageNodes|
      invariant Run(p, cv, old(pack.stageNodes))
                == RunFrom(p, cv, Progress(pack.stageNodes, Memo(assets, misses), None), i)
      decreases |pack.stageNodes| - i
    {
      ghost var st := Progress(pack.stageNodes, Memo(assets, misses), None);
      var failure;
      assets, misses, failure := VisitInPlace(pack, p, cv, Image, i, assets, misses);
      if failure.Some? {
        return Failure(failure.value);
      }
      assets, misses, failure := VisitInPlace(pack, p, cv, Audio, i, assets, misses);
      if failure.Some? {
        return Failure(failure.value);
      }
      i := i + 1;
    }
    return Ok(pack);
  }

  /** `withCompressedAssets`: BMP images to PNG, WAV audio to OGG. */
  method WithCompressedAssets(pack: StoryPack, cv: Converters) returns (r: Result<StoryPack>)
    modifies pack
    ensures pack.stageNodes == Run(Compressed, cv, old(pack.stageNodes)).nodes
    ensures r.Ok? <==> Run(Compressed, cv, old(pack.stageNodes)).failure.None?
    ensures r.Ok? ==> r.value == pack
  {
    r := TransformAssets(pack, Compressed, cv);
  }

  /** `withUncompressedAssets`: every image to BMP, every audio to WAV. */
  method WithUncompressedAssets(pack: StoryPack, cv: Converters) returns (r: Result<StoryPack>)
    modifies pack
    ensures pack.stageNodes == Run(Uncompressed, cv, old(pack.stageNodes)).nodes
    ensures r.Ok? <==> Run(Uncompressed, cv, old(pack.stageNodes)).failure.None?
    ensures r.Ok? ==> r.value == pack
  {
    r := TransformAssets(pack, Uncompressed, cv);
  }

  /** `withPreparedAssetsFirmware2dot4`: every image to BI_RLE4 BMP, every audio to mono 44.1 kHz MP3. */
  method WithPreparedAssetsFirmware2dot4(pack: StoryPack, cv: Converters) returns (r: Result<StoryPack>)
    modifies pack
    ensures pack.stageNodes == Run(Firmware2dot4, cv, old(pack.stageNodes)).nodes
    ensures r.Ok? <==> Run(Firmware2dot4, cv, old(pack.stageNodes)).failure.None?
    ensures r.Ok? ==> r.value == pack
  {
    r := TransformAssets(pack, Firmware2dot4, cv);
  }
}
