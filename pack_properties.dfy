/**
 * What a transform guarantees about a whole pack: the node structure is kept,
 * every asset is retagged and holds the bytes stored under the digest of its
 * original content, each distinct content is converted exactly once (at its
 * first occurrence, images and audio sharing one map), a failure comes from a
 * conversion of one of the pack's assets, and a pack with nothing left to
 * convert is returned unchanged.
 */
module PackProperties {
  import opened Wrappers
  import opened Rle4Records
  import opened Sequences
  import opened PackModel
  import opened AssetPolicy
  import opened PackAssetsCompression

  /** The digest of a slot, as the key function of `DistinctBy`. */
  function DigestKey(cv: Converters): Slot -> string
  {
    s => Digest(cv, s)
  }

  /** The slot of `kind` of a node, if it holds an asset there. */
  function KindSlots(n: StageNode, kind: Kind): seq<Slot>
  {
    if AssetOf(n, kind).Some? then [Slot(kind, AssetOf(n, kind).value)] else []
  }

  /** The assets of the nodes in the order the walk meets them: image, then audio, node by node. */
  function Slots(nodes: seq<StageNode>): seq<Slot>
    decreases |nodes|
  {
    if nodes == [] then []
    else
      var n := nodes[|nodes| - 1];
      Slots(nodes[..|nodes| - 1]) + KindSlots(n, Image) + KindSlots(n, Audio)
  }

  /** `m2` keeps every entry of `m1`. */
  ghost predicate Extends(m1: map<string, seq<Byte>>, m2: map<string, seq<Byte>>)
  {
    forall h :: h in m1 ==> h in m2 && m2[h] == m1[h]
  }

  /**
   * The digest map after the walk has met `done`: its conversions ran on the
   * first occurrence of each digest, in order, its keys are the digests met,
   * and each stored value is the conversion of that first occurrence.
   */
  ghost predicate MemoInv(p: Profile, cv: Converters, done: seq<Slot>, memo: Memo)
  {
    && memo.misses == DistinctBy(done, DigestKey(cv))
    && (forall h :: h in memo.assets <==> HasKey(done, DigestKey(cv), h))
    && (forall m :: m in memo.misses ==>
          Digest(cv, m) in memo.assets
          && ConvertOnMiss(p, cv, m.kind, m.asset) == Ok(memo.assets[Digest(cv, m)]))
  }

  /** The slot of `kind` of `n` is the retagged original holding the bytes stored for its digest. */
  ghost predicate SlotDone(p: Profile, cv: Converters, kind: Kind, o: StageNode, n: StageNode,
                           assets: map<string, seq<Byte>>)
  {
    match AssetOf(o, kind)
    case None => AssetOf(n, kind).None?
    case Some(a) =>
      cv.sha1Hex(a.rawData) in assets
      && AssetOf(n, kind) == Some(Asset(Retag(p, kind, a.mimeType), assets[cv.sha1Hex(a.rawData)]))
  }

  ghost predicate NodeDone(p: Profile, cv: Converters, o: StageNode, n: StageNode,
                           assets: map<string, seq<Byte>>)
  {
    n.uuid == o.uuid && SlotDone(p, cv, Image, o, n, assets) && SlotDone(p, cv, Audio, o, n, assets)
  }

  /** The walk has rewritten nodes `0..i` of `orig` and not yet touched the rest. */
  ghost predicate Processed(p: Profile, cv: Converters, orig: seq<StageNode>, st: Progress, i: nat)
  {
    && st.failure.None? && |st.nodes| == |orig| && i <= |orig|
    && (forall k :: i <= k < |orig| ==> st.nodes[k] == orig[k])
    && (forall k :: 0 <= k < i ==> NodeDone(p, cv, orig[k], st.nodes[k], st.memo.assets))
    && MemoInv(p, cv, Slots(orig[..i]), st.memo)
  }

  /** The failure of a walk is that of converting one of the pack's assets. */
  ghost predicate FailedOnSlot(p: Profile, cv: Converters, orig: seq<StageNode>, st: Progress)
  {
    st.failure.Some? ==>
      exists s :: s in Slots(orig) && ConvertOnMiss(p, cv, s.kind, s.asset) == Failure(st.failure.value)
  }

  /** Every node keeps its identity and which of its two slots hold an asset. */
  ghost predicate SameShape(orig: seq<StageNode>, nodes: seq<StageNode>)
  {
    && |nodes| == |orig|
    && forall k :: 0 <= k < |orig| ==>
         && nodes[k].uuid == orig[k].uuid
         && nodes[k].image.Some? == orig[k].image.Some?
         && nodes[k].audio.Some? == orig[k].audio.Some?
  }

  lemma ExtendsTransitive(m1: map<string, seq<Byte>>, m2: map<string, seq<Byte>>, m3: map<string, seq<Byte>>)
    requires Extends(m1, m2) && Extends(m2, m3)
    ensures Extends(m1, m3)
  {
  }

  lemma SlotDoneExtends(p: Profile, cv: Converters, kind: Kind, o: StageNode, n: StageNode,
                        m1: map<string, seq<Byte>>, m2: map<string, seq<Byte>>)
    requires SlotDone(p, cv, kind, o, n, m1) && Extends(m1, m2)
    ensures SlotDone(p, cv, kind, o, n, m2)
  {
  }

  /** The slots of one more node follow those of the nodes before it. */
  lemma SlotsSnoc(nodes: seq<StageNode>, i: nat)
    requires i < |nodes|
    ensures Slots(nodes[..i + 1]) == Slots(nodes[..i]) + KindSlots(nodes[i], Image) + KindSlots(nodes[i], Audio)
  {
    assert nodes[..i + 1][..i] == nodes[..i];
  }

  /** Every asset of every node is among the slots. */
  lemma {:induction false} SlotOfNode(nodes: seq<StageNode>, k: nat, kind: Kind)
    requires k < |nodes| && AssetOf(nodes[k], kind).Some?
    ensures Slot(kind, AssetOf(nodes[k], kind).value) in Slots(nodes)
    decreases |nodes|
  {
    var n := |nodes| - 1;
    if k < n {
      assert nodes[..n][k] == nodes[k];
      SlotOfNode(nodes[..n], k, kind);
    }
  }

  /** Every slot is the asset of some node. */
  lemma {:induction false} NodeOfSlot(nodes: seq<StageNode>, s: Slot)
    requires s in Slots(nodes)
    ensures exists k :: 0 <= k < |nodes| && AssetOf(nodes[k], s.kind) == Some(s.asset)
    decreases |nodes|
  {
    var n := |nodes| - 1;
    if s in Slots(nodes[..n]) {
      NodeOfSlot(nodes[..n], s);
      var k :| 0 <= k < n && AssetOf(nodes[..n][k], s.kind) == Some(s.asset);
      assert nodes[..n][k] == nodes[k];
    } else {
      assert AssetOf(nodes[n], s.kind) == Some(s.asset);
    }
  }

  /** One lookup keeps the digest map invariant, one slot further. */
  lemma FetchStep(p: Profile, cv: Converters, done: seq<Slot>, s: Slot, memo: Memo)
    requires MemoInv(p, cv, done, memo) && Fetch(p, cv, s, memo).Ok?
    ensures MemoInv(p, cv, done + [s], Fetch(p, cv, s, memo).value.memo)
    ensures Extends(memo.assets, Fetch(p, cv, s, memo).value.memo.assets)
  {
    var key := DigestKey(cv);
    var h := Digest(cv, s);
    var memo' := Fetch(p, cv, s, memo).value.memo;
    assert key(s) == h;
    DistinctByAppend(done, s, key);
    DistinctBySameKeys(done, key, h);
    forall g ensures g in memo'.assets <==> HasKey(done + [s], key, g) {
      HasKeyAppend(done, s, key, g);
    }
    if h !in memo.assets {
      assert memo'.misses == memo.misses + [s];
      forall m | m in memo'.misses
        ensures Digest(cv, m) in memo'.assets
        ensures ConvertOnMiss(p, cv, m.kind, m.asset) == Ok(memo'.assets[Digest(cv, m)])
      {
        if m != s {
          assert m in memo.misses;
        }
      }
    }
  }

  /** Visiting one slot of node `i`, whose asset there is that of `o`. */
  lemma VisitSlotStep(p: Profile, cv: Converters, kind: Kind, o: StageNode, st: Progress, i: nat,
                      done: seq<Slot>)
    requires i < |st.nodes| && st.failure.None?
    requires AssetOf(st.nodes[i], kind) == AssetOf(o, kind)
    requires MemoInv(p, cv, done, st.memo)
    ensures var r := VisitSlot(p, cv, kind, st, i);
      r.failure.None? ==>
        && MemoInv(p, cv, done + KindSlots(o, kind), r.memo)
        && Extends(st.memo.assets, r.memo.assets)
        && SlotDone(p, cv, kind, o, r.nodes[i], r.memo.assets)
    ensures var r := VisitSlot(p, cv, kind, st, i);
      r.failure.Some? ==>
        && AssetOf(o, kind).Some?
        && ConvertOnMiss(p, cv, kind, AssetOf(o, kind).value) == Failure(r.failure.value)
  {
    if AssetOf(o, kind).Some? {
      var s := Slot(kind, AssetOf(o, kind).value);
      if Fetch(p, cv, s, st.memo).Ok? {
        FetchStep(p, cv, done, s, st.memo);
      }
    } else {
      assert done + KindSlots(o, kind) == done;
    }
  }

  /** Nodes rewritten before stay rewritten when the map only grows and they are left alone. */
  lemma NodesDoneKept(p: Profile, cv: Converters, orig: seq<StageNode>, a: Progress, b: Progress, i: nat)
    requires i <= |orig| && |a.nodes| == |orig| && |b.nodes| == |orig|
    requires forall k :: 0 <= k < i ==> NodeDone(p, cv, orig[k], a.nodes[k], a.memo.assets)
    requires forall k :: 0 <= k < i ==> b.nodes[k] == a.nodes[k]
    requires Extends(a.memo.assets, b.memo.assets)
    ensures forall k :: 0 <= k < i ==> NodeDone(p, cv, orig[k], b.nodes[k], b.memo.assets)
  {
    forall k | 0 <= k < i ensures NodeDone(p, cv, orig[k], b.nodes[k], b.memo.assets) {
      SlotDoneExtends(p, cv, Image, orig[k], a.nodes[k], a.memo.assets, b.memo.assets);
      SlotDoneExtends(p, cv, Audio, orig[k], a.nodes[k], a.memo.assets, b.memo.assets);
    }
  }

  /** Visiting node `i`, equal to `o`, keeps the digest map invariant over both its slots. */
  lemma VisitNodeMemo(p: Profile, cv: Converters, o: StageNode, st: Progress, i: nat, done: seq<Slot>)
    requires i < |st.nodes| && st.failure.None? && st.nodes[i] == o
    requires MemoInv(p, cv, done, st.memo)
    requires VisitNode(p, cv, st, i).failure.None?
    ensures MemoInv(p, cv, done + KindSlots(o, Image) + KindSlots(o, Audio), VisitNode(p, cv, st, i).memo)
    ensures Extends(st.memo.assets, VisitNode(p, cv, st, i).memo.assets)
  {
    var st1 := VisitSlot(p, cv, Image, st, i);
    VisitSlotStep(p, cv, Image, o, st, i, done);
    assert AssetOf(st1.nodes[i], Audio) == AssetOf(o, Audio);
    VisitSlotStep(p, cv, Audio, o, st1, i, done + KindSlots(o, Image));
    ExtendsTransitive(st.memo.assets, st1.memo.assets, VisitNode(p, cv, st, i).memo.assets);
  }

  /** Visiting one slot of node `i`, whose asset there is that of `o`, rewrites it and only adds to the map. */
  lemma VisitSlotDone(p: Profile, cv: Converters, kind: Kind, o: StageNode, st: Progress, i: nat)
    requires i < |st.nodes| && st.failure.None?
    requires AssetOf(st.nodes[i], kind) == AssetOf(o, kind)
    ensures var r := VisitSlot(p, cv, kind, st, i);
      r.failure.None? ==>
        Extends(st.memo.assets, r.memo.assets) && SlotDone(p, cv, kind, o, r.nodes[i], r.memo.assets)
  {
  }

  /** Visiting node `i`, equal to `o`, rewrites both its slots. */
  lemma VisitNodeDone(p: Profile, cv: Converters, o: StageNode, st: Progress, i: nat)
    requires i < |st.nodes| && st.failure.None? && st.nodes[i] == o
    requires VisitNode(p, cv, st, i).failure.None?
    ensures NodeDone(p, cv, o, VisitNode(p, cv, st, i).nodes[i], VisitNode(p, cv, st, i).memo.assets)
  {
    var st1 := VisitSlot(p, cv, Image, st, i);
    VisitSlotDone(p, cv, Image, o, st, i);
    assert AssetOf(st1.nodes[i], Audio) == AssetOf(o, Audio);
    var st2 := VisitSlot(p, cv, Audio, st1, i);
    VisitSlotDone(p, cv, Audio, o, st1, i);
    SlotDoneExtends(p, cv, Image, o, st1.nodes[i], st1.memo.assets, st2.memo.assets);
    assert st2.nodes[i].image == st1.nodes[i].image;
  }

  /** Visiting node `i` keeps `Processed`, one node further, when it succeeds. */
  lemma VisitNodeStep(p: Profile, cv: Converters, orig: seq<StageNode>, st: Progress, i: nat)
    requires Processed(p, cv, orig, st, i) && i < |orig|
    requires VisitNode(p, cv, st, i).failure.None?
    ensures Processed(p, cv, orig, VisitNode(p, cv, st, i), i + 1)
  {
    var r := VisitNode(p, cv, st, i);
    VisitNodeMemo(p, cv, orig[i], st, i, Slots(orig[..i]));
    VisitNodeDone(p, cv, orig[i], st, i);
    SlotsSnoc(orig, i);
    NodesDoneKept(p, cv, orig, st, r, i);
  }

  /** Visiting node `i` fails only on one of its own assets. */
  lemma VisitNodeFails(p: Profile, cv: Converters, orig: seq<StageNode>, st: Progress, i: nat)
    requires Processed(p, cv, orig, st, i) && i < |orig|
    ensures FailedOnSlot(p, cv, orig, VisitNode(p, cv, st, i))
  {
    var o := orig[i];
    var done := Slots(orig[..i]);
    var st1 := VisitSlot(p, cv, Image, st, i);
    VisitSlotStep(p, cv, Image, o, st, i, done);
    if st1.failure.Some? {
      SlotOfNode(orig, i, Image);
    } else {
      assert AssetOf(st1.nodes[i], Audio) == AssetOf(o, Audio);
      VisitSlotStep(p, cv, Audio, o, st1, i, done + KindSlots(o, Image));
      if VisitSlot(p, cv, Audio, st1, i).failure.Some? {
        SlotOfNode(orig, i, Audio);
      }
    }
  }

  lemma {:induction false} RunFromProcessed(p: Profile, cv: Converters, orig: seq<StageNode>, st: Progress, i: nat)
    requires Processed(p, cv, orig, st, i)
    ensures RunFrom(p, cv, st, i).failure.None? ==> Processed(p, cv, orig, RunFrom(p, cv, st, i), |orig|)
    ensures FailedOnSlot(p, cv, orig, RunFrom(p, cv, st, i))
    decreases |orig| - i
  {
    if i < |orig| {
      var st' := VisitNode(p, cv, st, i);
      assert RunFrom(p, cv, st, i) == RunFrom(p, cv, st', i + 1);
      if st'.failure.None? {
        VisitNodeStep(p, cv, orig, st, i);
        RunFromProcessed(p, cv, orig, st', i + 1);
      } else {
        VisitNodeFails(p, cv, orig, st, i);
        assert RunFrom(p, cv, st', i + 1) == st';
      }
    }
  }

  lemma VisitNodeShape(p: Profile, cv: Converters, orig: seq<StageNode>, st: Progress, i: nat)
    requires i < |st.nodes| && SameShape(orig, st.nodes)
    ensures SameShape(orig, VisitNode(p, cv, st, i).nodes)
  {
    var st1 := VisitSlot(p, cv, Image, st, i);
    var st2 := VisitSlot(p, cv, Audio, st1, i);
    forall k | 0 <= k < |orig|
      ensures st2.nodes[k].uuid == orig[k].uuid
      ensures st2.nodes[k].image.Some? == orig[k].image.Some?
      ensures st2.nodes[k].audio.Some? == orig[k].audio.Some?
    {
      if k != i {
        assert st2.nodes[k] == st.nodes[k];
      }
    }
  }

  lemma {:induction false} RunFromShape(p: Profile, cv: Converters, orig: seq<StageNode>, st: Progress, i: nat)
    requires i <= |st.nodes| && SameShape(orig, st.nodes)
    ensures SameShape(orig, RunFrom(p, cv, st, i).nodes)
    decreases |st.nodes| - i
  {
    if st.failure.None? && i < |st.nodes| {
      VisitNodeShape(p, cv, orig, st, i);
      RunFromShape(p, cv, orig, VisitNode(p, cv, st, i), i + 1);
    }
  }

  lemma RunProcessed(p: Profile, cv: Converters, nodes: seq<StageNode>)
    ensures Run(p, cv, nodes).failure.None? ==> Processed(p, cv, nodes, Run(p, cv, nodes), |nodes|)
    ensures FailedOnSlot(p, cv, nodes, Run(p, cv, nodes))
  {
    var st := Progress(nodes, Memo(map[], []), None);
    assert nodes[..0] == [];
    RunFromProcessed(p, cv, nodes, st, 0);
  }

  /**
   * A transform, successful or not, keeps the number and order of the nodes,
   * their identity and which of them hold an image or an audio asset.
   */
  lemma RunKeepsShape(p: Profile, cv: Converters, nodes: seq<StageNode>)
    ensures SameShape(nodes, Run(p, cv, nodes).nodes)
  {
    RunFromShape(p, cv, nodes, Progress(nodes, Memo(map[], []), None), 0);
  }

  /**
   * After a successful transform every asset carries the tag `Retag` gives its
   * original tag, and the bytes stored under the digest of its original bytes.
   */
  lemma RunRewritesEveryAsset(p: Profile, cv: Converters, nodes: seq<StageNode>, k: nat, kind: Kind)
    requires k < |nodes| && Run(p, cv, nodes).failure.None?
    ensures var r := Run(p, cv, nodes);
      |r.nodes| == |nodes| && r.nodes[k].uuid == nodes[k].uuid
      && match AssetOf(nodes[k], kind)
         case None => AssetOf(r.nodes[k], kind).None?
         case Some(a) =>
           && cv.sha1Hex(a.rawData) in r.memo.assets
           && AssetOf(r.nodes[k], kind)
              == Some(Asset(Retag(p, kind, a.mimeType), r.memo.assets[cv.sha1Hex(a.rawData)]))
  {
    RunProcessed(p, cv, nodes);
    assert NodeDone(p, cv, nodes[k], Run(p, cv, nodes).nodes[k], Run(p, cv, nodes).memo.assets);
  }

  /**
   * After a successful transform the conversions ran exactly on the first
   * asset of each distinct digest, in the order the walk met them, images and
   * audio alike; the map holds every digest met and nothing else, each with
   * the conversion of its first asset.
   */
  lemma RunConvertsEachContentOnce(p: Profile, cv: Converters, nodes: seq<StageNode>)
    requires Run(p, cv, nodes).failure.None?
    ensures var r := Run(p, cv, nodes);
      && r.memo.misses == DistinctBy(Slots(nodes), DigestKey(cv))
      && KeysUnique(r.memo.misses, DigestKey(cv))
      && (forall h :: h in r.memo.assets <==> HasKey(Slots(nodes), DigestKey(cv), h))
      && (forall h :: h in r.memo.assets <==> HasKey(r.memo.misses, DigestKey(cv), h))
      && (forall m :: m in r.memo.misses ==>
            ConvertOnMiss(p, cv, m.kind, m.asset) == Ok(r.memo.assets[Digest(cv, m)]))
  {
    RunProcessed(p, cv, nodes);
    assert nodes[..|nodes|] == nodes;
    DistinctByUnique(Slots(nodes), DigestKey(cv));
    forall h ensures HasKey(Run(p, cv, nodes).memo.misses, DigestKey(cv), h) <==> HasKey(Slots(nodes), DigestKey(cv), h) {
      DistinctBySameKeys(Slots(nodes), DigestKey(cv), h);
    }
  }

  /** The bytes stored for the digest of a converted asset are its conversion. */
  lemma StoredConversion(p: Profile, cv: Converters, nodes: seq<StageNode>, m: Slot)
    requires Run(p, cv, nodes).failure.None? && m in Run(p, cv, nodes).memo.misses
    ensures Digest(cv, m) in Run(p, cv, nodes).memo.assets
    ensures ConvertOnMiss(p, cv, m.kind, m.asset) == Ok(Run(p, cv, nodes).memo.assets[Digest(cv, m)])
  {
    RunConvertsEachContentOnce(p, cv, nodes);
  }

  /** Each conversion ran on the first asset of the pack with its digest. */
  lemma RunConvertsFirstOccurrences(p: Profile, cv: Converters, nodes: seq<StageNode>)
    requires Run(p, cv, nodes).failure.None?
    ensures var r := Run(p, cv, nodes);
      forall j :: 0 <= j < |r.memo.misses| ==>
        HasKey(Slots(nodes), DigestKey(cv), Digest(cv, r.memo.misses[j]))
        && r.memo.misses[j] == Slots(nodes)[FirstIndexBy(Slots(nodes), DigestKey(cv), Digest(cv, r.memo.misses[j]))]
  {
    RunConvertsEachContentOnce(p, cv, nodes);
    var key := DigestKey(cv);
    DistinctByFirstOccurrences(Slots(nodes), key);
    forall j | 0 <= j < |Run(p, cv, nodes).memo.misses|
      ensures Digest(cv, Run(p, cv, nodes).memo.misses[j]) == key(DistinctBy(Slots(nodes), key)[j])
    {
    }
  }

  /**
   * Two assets of a successfully transformed pack, of either kind, whose
   * original bytes have the same digest end up with the same bytes.
   */
  lemma RunSharesEqualContent(p: Profile, cv: Converters, nodes: seq<StageNode>,
                              k1: nat, kind1: Kind, k2: nat, kind2: Kind)
    requires k1 < |nodes| && k2 < |nodes| && Run(p, cv, nodes).failure.None?
    requires AssetOf(nodes[k1], kind1).Some? && AssetOf(nodes[k2], kind2).Some?
    requires cv.sha1Hex(AssetOf(nodes[k1], kind1).value.rawData) == cv.sha1Hex(AssetOf(nodes[k2], kind2).value.rawData)
    ensures AssetOf(Run(p, cv, nodes).nodes[k1], kind1).Some?
    ensures AssetOf(Run(p, cv, nodes).nodes[k2], kind2).Some?
    ensures AssetOf(Run(p, cv, nodes).nodes[k1], kind1).value.rawData
            == AssetOf(Run(p, cv, nodes).nodes[k2], kind2).value.rawData
  {
    RunRewritesEveryAsset(p, cv, nodes, k1, kind1);
    RunRewritesEveryAsset(p, cv, nodes, k2, kind2);
  }

  /** A transform fails only with the error of converting one of the pack's assets. */
  lemma RunFailsOnlyOnConversion(p: Profile, cv: Converters, nodes: seq<StageNode>)
    ensures Run(p, cv, nodes).failure.Some? ==>
      exists s :: s in Slots(nodes) && ConvertOnMiss(p, cv, s.kind, s.asset) == Failure(Run(p, cv, nodes).failure.value)
  {
    RunProcessed(p, cv, nodes);
  }

  /** An asset the transform has nothing to do to: its conversion gives it back unchanged, and so does its tag. */
  predicate Settled(p: Profile, cv: Converters, s: Slot)
  {
    ConvertOnMiss(p, cv, s.kind, s.asset) == Ok(s.asset.rawData)
    && Retag(p, s.kind, s.asset.mimeType) == s.asset.mimeType
  }

  /** No two different contents of the pack share a digest. */
  ghost predicate DigestInjective(cv: Converters, nodes: seq<StageNode>)
  {
    forall s1, s2 :: s1 in Slots(nodes) && s2 in Slots(nodes) && Digest(cv, s1) == Digest(cv, s2) ==>
      s1.asset.rawData == s2.asset.rawData
  }

  /** In a successful run over settled assets, each content is stored under its digest unchanged. */
  lemma StoredSettledBytes(p: Profile, cv: Converters, nodes: seq<StageNode>, s: Slot)
    requires Run(p, cv, nodes).failure.None?
    requires forall s :: s in Slots(nodes) ==> Settled(p, cv, s)
    requires DigestInjective(cv, nodes)
    requires s in Slots(nodes)
    ensures Digest(cv, s) in Run(p, cv, nodes).memo.assets
    ensures Run(p, cv, nodes).memo.assets[Digest(cv, s)] == s.asset.rawData
  {
    var r := Run(p, cv, nodes);
    var h := Digest(cv, s);
    RunConvertsEachContentOnce(p, cv, nodes);
    DistinctByUnique(Slots(nodes), DigestKey(cv));
    assert DigestKey(cv)(s) == h;
    assert HasKey(r.memo.misses, DigestKey(cv), h);
    var j :| 0 <= j < |r.memo.misses| && DigestKey(cv)(r.memo.misses[j]) == h;
    var m := r.memo.misses[j];
    assert m in r.memo.misses && m in Slots(nodes);
    assert Settled(p, cv, m);
    assert ConvertOnMiss(p, cv, m.kind, m.asset) == Ok(r.memo.assets[h]);
  }

  /** In a successful run, a settled asset whose content is stored unchanged is kept as it is. */
  lemma SettledAssetKept(p: Profile, cv: Converters, nodes: seq<StageNode>, k: nat, kind: Kind)
    requires k < |nodes| && Run(p, cv, nodes).failure.None?
    requires AssetOf(nodes[k], kind).Some? ==>
      var s := Slot(kind, AssetOf(nodes[k], kind).value);
      Settled(p, cv, s) && Digest(cv, s) in Run(p, cv, nodes).memo.assets
      && Run(p, cv, nodes).memo.assets[Digest(cv, s)] == s.asset.rawData
    ensures AssetOf(Run(p, cv, nodes).nodes[k], kind) == AssetOf(nodes[k], kind)
  {
    RunRewritesEveryAsset(p, cv, nodes, k, kind);
  }

  /**
   * A pack whose every asset is settled, and whose digests do not collide, comes
   * out of the transform exactly as it went in.
   */
  lemma RunKeepsSettledPack(p: Profile, cv: Converters, nodes: seq<StageNode>)
    requires forall s :: s in Slots(nodes) ==> Settled(p, cv, s)
    requires DigestInjective(cv, nodes)
    ensures Run(p, cv, nodes).failure.None?
    ensures Run(p, cv, nodes).nodes == nodes
  {
    var r := Run(p, cv, nodes);
    RunFailsOnlyOnConversion(p, cv, nodes);
    RunKeepsShape(p, cv, nodes);
    forall k, kind | 0 <= k < |nodes| ensures AssetOf(r.nodes[k], kind) == AssetOf(nodes[k], kind) {
      if AssetOf(nodes[k], kind).Some? {
        SlotOfNode(nodes, k, kind);
        StoredSettledBytes(p, cv, nodes, Slot(kind, AssetOf(nodes[k], kind).value));
      }
      SettledAssetKept(p, cv, nodes, k, kind);
    }
    forall k | 0 <= k < |nodes| ensures r.nodes[k] == nodes[k] {
      assert AssetOf(r.nodes[k], Image) == AssetOf(nodes[k], Image);
      assert AssetOf(r.nodes[k], Audio) == AssetOf(nodes[k], Audio);
    }
  }
}
