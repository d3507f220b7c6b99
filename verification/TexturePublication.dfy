/** Exact publication of a native texture asset and its metadata, the metadata first. */
module TexturePublication {
  import opened Basics
  import opened MaterialLedger
  import opened Publication

  /** The emitted texts of one texture and where its asset goes. */
  datatype TextureDocuments = TextureDocuments(assetPath: string, asset: Bytes, meta: Bytes)

  datatype TextureFailure =
    NoTextureFailure | SourceNotRetained | SourceReopen | SourceIdentity | SerializedMetadata | ObjectNotFound
    | ObjectDecode | ExportShapeUnsupported | CopyAllocation | ResourcePath | ResourceOpen | ResourceRange
    | ResourceIdentity | StagingIo | StagingIdentity | StagingCleanup | AssetGuid | TextureYaml | TextureMeta
    | TextureDirectory | TextureName | TextureCollision | TextureIo

  function AssetMetaPath(p: TextureDocuments): string
  {
    p.assetPath + ".meta"
  }

  lemma AssetMetaName(p: TextureDocuments)
    ensures AssetMetaPath(p) == p.assetPath + ".meta"
  {
  }

  lemma AssetPathsDiffer(p: TextureDocuments)
    ensures p.assetPath != AssetMetaPath(p)
  {
    assert |AssetMetaPath(p)| == |p.assetPath| + 5;
  }

  /** Another file stands at one of the two paths. */
  ghost predicate AnyAssetTaken(p: TextureDocuments, files: map<string, Bytes>) {
    Taken(files, p.assetPath, p.asset) || Taken(files, AssetMetaPath(p), p.meta)
  }

  /** An asset written since `before` has its metadata beside it, byte for byte. */
  ghost predicate MetaFirst(p: TextureDocuments, before: map<string, Bytes>, t: Tree)
  {
    p.assetPath in t.written && p.assetPath !in before ==> Holds(t.files, AssetMetaPath(p), p.meta)
  }

  /** Every state from number `low` on lies between `before` and `after` and has no asset without its
      metadata; only the two files of `p` are new. */
  ghost predicate TextureProgressed(p: TextureDocuments, before: Tree, after: Tree, history: seq<Tree>, low: nat)
  {
    && Grows(before, after) && MetaFirst(p, before.written, after)
    && (forall k :: low <= k < |history| ==>
          Grows(before, history[k]) && Grows(history[k], after) && MetaFirst(p, before.written, history[k]))
    && (forall path :: path in after.written && path !in before.written ==>
          path !in before.files && path in {p.assetPath, AssetMetaPath(p)})
  }

  lemma NoTextureProgress(p: TextureDocuments, before: Tree, t: Tree, history: seq<Tree>)
    requires Keeps(before.files, t.files) && before.written == t.written
    ensures TextureProgressed(p, before, t, history, |history|)
  {
  }

  lemma TextureProgressGrows(p: TextureDocuments, before: Tree, after: Tree, history: seq<Tree>, low: nat)
    requires TextureProgressed(p, before, after, history, low)
    ensures Grows(before, after)
  {
  }

  lemma TextureProgressedByStep(p: TextureDocuments, path: string, data: Bytes, s: PublishStatus, before: Tree,
                                middle: Tree, after: Tree,
                                history: seq<Tree>, low: nat)
    requires TextureProgressed(p, before, middle, history, low) && Step(middle, after, path, data, s)
    requires path in {p.assetPath, AssetMetaPath(p)}
    requires path == p.assetPath ==> Holds(middle.files, AssetMetaPath(p), p.meta)
    ensures TextureProgressed(p, before, after, history + [after], low)
  {
    assert Grows(middle, after);
    forall k | low <= k < |history|
      ensures Grows(history[k], after)
    {
      assert Grows(history[k], middle);
    }
    AssetPathsDiffer(p);
  }

  lemma TextureProgressedFromEarlier(p: TextureDocuments, earlier: Tree, before: Tree, after: Tree, history: seq<Tree>,
                                     low: nat)
    requires Keeps(earlier.files, before.files) && earlier.written == before.written
    requires TextureProgressed(p, before, after, history, low)
    ensures TextureProgressed(p, earlier, after, history, low)
  {
  }

  ghost predicate TextureOutcome(p: TextureDocuments, asset: Artifact, meta: Artifact, before: Tree, after: Tree)
  {
    Attempted(p.assetPath, p.asset, asset, before, after) && Attempted(AssetMetaPath(p), p.meta, meta, before, after)
  }

  lemma AfterTextureMeta(p: TextureDocuments, s: PublishStatus, t0: Tree, t1: Tree, history: seq<Tree>)
    requires Step(t0, t1, AssetMetaPath(p), p.meta, s) && AllExact(t1)
    ensures TextureProgressed(p, t0, t1, history + [t1], |history|)
    ensures TextureOutcome(p, NO_ARTIFACT, Artifact(None, true, s), t0, t1)
  {
    hide Attempted, TextureProgressed, Step, AssetMetaPath;
    AssetPathsDiffer(p);
    NoTextureProgress(p, t0, t0, history);
    TextureProgressedByStep(p, AssetMetaPath(p), p.meta, s, t0, t0, t1, history, |history|);
    NothingAttempted(p.assetPath, p.asset, t0);
    NothingAttempted(AssetMetaPath(p), p.meta, t0);
    AttemptedByStep(AssetMetaPath(p), p.meta, s, t0, t0, t1);
    UnaffectedByStep(p.assetPath, p.asset, NO_ARTIFACT, AssetMetaPath(p), p.meta, s, t0, t0, t1);
  }

  lemma AfterTextureAsset(p: TextureDocuments, meta: Artifact, s: PublishStatus, t0: Tree, t1: Tree, t2: Tree,
                          history: seq<Tree>, low: nat)
    requires Step(t1, t2, p.assetPath, p.asset, s) && AllExact(t2)
    requires TextureProgressed(p, t0, t1, history, low) && TextureOutcome(p, NO_ARTIFACT, meta, t0, t1)
    requires meta.attempted && Succeeded(meta.status)
    ensures TextureProgressed(p, t0, t2, history + [t2], low)
    ensures TextureOutcome(p, Artifact(None, true, s), meta, t0, t2)
  {
    TextureProgressGrows(p, t0, t1, history, low);
    StandsWhenSucceeded(AssetMetaPath(p), p.meta, meta, t0, t1);
    hide Attempted, TextureProgressed, Step, AssetMetaPath, Grows;
    AssetPathsDiffer(p);
    TextureProgressedByStep(p, p.assetPath, p.asset, s, t0, t1, t2, history, low);
    AttemptedByStep(p.assetPath, p.asset, s, t0, t1, t2);
    UnaffectedByStep(AssetMetaPath(p), p.meta, meta, p.assetPath, p.asset, s, t0, t1, t2);
  }

  /** The two publications: the asset only after its metadata succeeded. */
  method PublishBoth(p: TextureDocuments, store: OutputStore) returns (asset: Artifact, meta: Artifact)
    requires store.Valid()
    modifies store
    ensures store.Valid() && old(store.history) <= store.history
    ensures TextureProgressed(p, old(store.Now()), store.Now(), store.history, |old(store.history)|)
    ensures TextureOutcome(p, asset, meta, old(store.Now()), store.Now())
    ensures meta.attempted && (asset.attempted <==> Succeeded(meta.status))
    ensures asset.status == PublishEmitted ==> asset.attempted
    ensures meta.status == PublishCollision || asset.status == PublishCollision ==> AnyAssetTaken(p, store.files)
    ensures store.errors >= old(store.errors)
    ensures meta.status == PublishIoError || (asset.attempted && asset.status == PublishIoError) ==>
              store.errors > old(store.errors)
  {
    hide TextureProgressed, TextureOutcome, Step, AssetMetaPath;
    asset := NO_ARTIFACT;
    ghost var t0, history := store.Now(), store.history;
    var status := store.PublishExact(AssetMetaPath(p), p.meta);
    meta := Artifact(None, true, status);
    ghost var t1 := store.Now();
    AfterTextureMeta(p, status, t0, t1, history);
    if status == PublishCollision { StepCollides(t0, t1, AssetMetaPath(p), p.meta, status); }
    if status == PublishEmitted || status == PublishUnchanged {
      status := store.PublishExact(p.assetPath, p.asset);
      asset := Artifact(None, true, status);
      AfterTextureAsset(p, meta, status, t0, t1, store.Now(), history + [t1], |history|);
      if status == PublishCollision { StepCollides(t1, store.Now(), p.assetPath, p.asset, status); }
    }
  }

  /** What a publication leaves in the record and in the tree, whether it succeeds or fails. */
  ghost predicate TextureSettled(p: TextureDocuments, failure: TextureFailure, asset: Artifact, meta: Artifact,
                                 residue: bool, before: Tree, after: Tree)
  {
    && Accounted(p.assetPath, asset, before.written, after.written)
    && Accounted(AssetMetaPath(p), meta, before.written, after.written)
    && (failure == NoTextureFailure ==>
          && asset.path == Some(p.assetPath) && meta.path == Some(AssetMetaPath(p)) && asset.attempted && meta.attempted
          && Succeeded(asset.status) && Succeeded(meta.status) && !residue
          && Holds(after.files, p.assetPath, p.asset) && Holds(after.files, AssetMetaPath(p), p.meta))
    && (failure != NoTextureFailure ==>
          && (after.written.Keys != before.written.Keys || asset.status == PublishEmitted ||
               meta.status == PublishEmitted
              ==> residue))
  }

  /** What a publication reports about the asset file: a named file is there, and after an attempt that
      was emitted or ended in an I/O error it had not been written before. */
  ghost predicate ReportsAsset(p: TextureDocuments, asset: Artifact, before: Tree, after: Tree) {
    && (asset.status == PublishEmitted ==> asset.path.Some? && p.assetPath in after.written)
    && (asset.path.Some? ==> asset.path == Some(p.assetPath) && p.assetPath in after.files)
    && (asset.path.Some? && MayHaveWritten(asset.status) ==> p.assetPath !in before.written)
  }

  lemma SettledByPreflight(p: TextureDocuments, failure: TextureFailure, before: Tree, after: Tree)
    requires failure != NoTextureFailure && before.written == after.written
    ensures TextureSettled(p, failure, NO_ARTIFACT, NO_ARTIFACT, false, before, after)
  {
  }

  lemma ReportsPublished(p: TextureDocuments, asset: Artifact, meta: Artifact, before: Tree, after: Tree)
    requires TextureOutcome(p, asset, meta, before, after) && asset.attempted && Succeeded(asset.status)
    ensures ReportsAsset(p, asset.(path := Some(p.assetPath)), before, after)
  {
  }

  lemma SettledBySuccess(p: TextureDocuments, asset: Artifact, meta: Artifact, before: Tree, after: Tree)
    requires TextureOutcome(p, asset, meta, before, after)
    requires asset.attempted && meta.attempted && Succeeded(asset.status) && Succeeded(meta.status)
    ensures TextureSettled(p, NoTextureFailure, asset.(path := Some(p.assetPath)),
        meta.(path := Some(AssetMetaPath(p))), false, before, after)
  {
  }

  lemma SettledByFailure(p: TextureDocuments, failure: TextureFailure, asset: Artifact, meta: Artifact, residue: bool,
                         start: Tree, before: Tree, after: Tree, history: seq<Tree>, low: nat)
    requires failure != NoTextureFailure && start.written == before.written
    requires TextureProgressed(p, before, after, history, low)
    requires Accounted(p.assetPath, asset, before.written, after.written)
    requires Accounted(AssetMetaPath(p), meta, before.written, after.written)
    requires asset.status == PublishEmitted || meta.status == PublishEmitted ==> residue
    requires p.assetPath in after.written && p.assetPath !in before.written ==> residue
    requires AssetMetaPath(p) in after.written && AssetMetaPath(p) !in before.written ==> residue
    ensures TextureSettled(p, failure, asset, meta, residue, start, after)
  {
    if after.written.Keys != before.written.Keys {
      var path :| path in after.written.Keys && path !in before.written.Keys;
      assert path in {p.assetPath, AssetMetaPath(p)};
    }
  }

  /** The two preflights. */
  method PreflightBoth(p: TextureDocuments, store: OutputStore) returns (asset: Preflight, meta: Preflight)
    requires store.Valid()
    modifies store`files, store`errors
    ensures store.Valid() && Keeps(old(store.files), store.files)
    ensures PreflightCollision in {asset, meta} ==> AnyAssetTaken(p, store.files)
    ensures PreflightIoError in {asset, meta} <==> store.errors > old(store.errors)
    ensures {PreflightCollision, PreflightIoError} !! {asset, meta} ==>
              Bystander(p.assetPath, p.asset, asset, store.Now())
              && Bystander(AssetMetaPath(p), p.meta, meta, store.Now())
              && store.errors == old(store.errors)
  {
    hide AssetMetaPath;
    AssetPathsDiffer(p);
    asset := store.PreflightExact(p.assetPath, p.asset);
    meta := store.PreflightExact(AssetMetaPath(p), p.meta);
  }

  /** The failed case: each file that was written, or may have been, keeps its path. */
  method SettleTextureFailure(p: TextureDocuments, asset: Artifact, meta: Artifact, assetPreflight: Preflight,
                              metaPreflight: Preflight, store: OutputStore, ghost start: Tree, ghost before: Tree,
                              ghost low: nat)
    returns (failure: TextureFailure, assetEntry: Artifact, metaEntry: Artifact, residue: bool)
    requires !Succeeded(asset.status) || !Succeeded(meta.status)
    requires meta.attempted && (asset.attempted <==> Succeeded(meta.status)) && start.written == before.written
    requires TextureOutcome(p, asset, meta, before, store.Now())
    requires TextureProgressed(p, before, store.Now(), store.history, low)
    requires Bystander(p.assetPath, p.asset, assetPreflight, before)
    requires Bystander(AssetMetaPath(p), p.meta, metaPreflight, before)
    ensures TextureSettled(p, failure, assetEntry, metaEntry, residue, start, store.Now())
    ensures ReportsAsset(p, assetEntry, before, store.Now())
    ensures failure == if asset.status == PublishCollision || meta.status == PublishCollision then TextureCollision
                       else TextureIo
    ensures assetEntry == asset.(path := assetEntry.path) && metaEntry == meta.(path := metaEntry.path)
  {
    hide TextureProgressed, TextureSettled, AssetMetaPath, Attempted, Accounted, Bystander, Holds;
    NotWrittenWhenPresent(p.assetPath, p.asset, assetPreflight, asset, before, store.Now());
    NotWrittenWhenPresent(AssetMetaPath(p), p.meta, metaPreflight, meta, before, store.Now());
    failure := if asset.status == PublishCollision || meta.status == PublishCollision then TextureCollision
      else TextureIo;
    AttemptedStatus(p.assetPath, p.asset, asset, before, store.Now());
    var assetResidue, metaResidue;
    assetEntry, assetResidue := LedgerEntry(p.assetPath, p.asset, asset, assetPreflight, store, before);
    metaEntry, metaResidue := LedgerEntry(AssetMetaPath(p), p.meta, meta, metaPreflight, store, before);
    residue := assetResidue || metaResidue;
    SettledByFailure(p, failure, assetEntry, metaEntry, residue, start, before, store.Now(), store.history, low);
  }

  /** The publications and what they leave, once both preflights are clear. */
  method PublishAndSettle(p: TextureDocuments, assetPreflight: Preflight, metaPreflight: Preflight, store: OutputStore,
                          ghost start: Tree)
    returns (failure: TextureFailure, asset: Artifact, meta: Artifact, residue: bool)
    requires store.Valid() && Keeps(start.files, store.files) && start.written == store.written
    requires Bystander(p.assetPath, p.asset, assetPreflight, store.Now())
    requires Bystander(AssetMetaPath(p), p.meta, metaPreflight, store.Now())
    modifies store
    ensures store.Valid() && old(store.history) <= store.history
    ensures TextureProgressed(p, start, store.Now(), store.history, |old(store.history)|)
    ensures TextureSettled(p, failure, asset, meta, residue, start, store.Now())
    ensures ReportsAsset(p, asset, old(store.Now()), store.Now())
    ensures failure in {NoTextureFailure, TextureCollision, TextureIo}
    ensures failure == TextureCollision ==> AnyAssetTaken(p, store.files)
    ensures failure == TextureIo ==> store.errors > old(store.errors)
    ensures store.errors >= old(store.errors)
    ensures asset.status == PublishEmitted ==> asset.attempted
    ensures meta.status == PublishEmitted ==> meta.attempted
  {
    hide TextureProgressed, TextureSettled, AssetMetaPath, Attempted, Accounted, AnyAssetTaken, Bystander, Holds,
         TextureOutcome, Keeps;
    ghost var before, low := store.Now(), |store.history|;
    asset, meta := PublishBoth(p, store);
    TextureProgressedFromEarlier(p, start, before, store.Now(), store.history, low);
    if !Succeeded(asset.status) || !Succeeded(meta.status) {
      failure, asset, meta, residue :=
        SettleTextureFailure(p, asset, meta, assetPreflight, metaPreflight, store, start, before, low);
      return;
    }
    SettledBySuccess(p, asset, meta, before, store.Now());
    ReportsPublished(p, asset, meta, before, store.Now());
    SettledEarlier(p, asset.(path := Some(p.assetPath)), meta.(path := Some(AssetMetaPath(p))), start, before,
                   store.Now());
    failure, residue := NoTextureFailure, false;
    asset, meta := asset.(path := Some(p.assetPath)), meta.(path := Some(AssetMetaPath(p)));
  }

  /** The publication part of commit_record: preflights, metadata, asset, residue ledger. */
  method PublishTexture(p: TextureDocuments, store: OutputStore) returns (failure: TextureFailure, asset: Artifact,
                        meta: Artifact, residue: bool)
    requires store.Valid()
    modifies store
    ensures store.Valid() && old(store.history) <= store.history
    ensures TextureProgressed(p, old(store.Now()), store.Now(), store.history, |old(store.history)|)
    ensures TextureSettled(p, failure, asset, meta, residue, old(store.Now()), store.Now())
    ensures ReportsAsset(p, asset, old(store.Now()), store.Now())
    ensures failure in {NoTextureFailure, TextureCollision, TextureIo}
    ensures failure == TextureCollision ==> AnyAssetTaken(p, store.files)
    ensures failure == TextureIo ==> store.errors > old(store.errors)
    ensures asset.status == PublishEmitted ==> asset.attempted
    ensures meta.status == PublishEmitted ==> meta.attempted
  {
    hide TextureProgressed, TextureSettled, AssetMetaPath, Attempted, Accounted, AnyAssetTaken, Bystander, Holds,
         TextureOutcome;
    asset, meta, residue := NO_ARTIFACT, NO_ARTIFACT, false;
    ghost var start := store.Now();
    var assetPreflight, metaPreflight := PreflightBoth(p, store);
    ghost var before, history := store.Now(), store.history;
    NoTextureProgress(p, start, before, history);
    if assetPreflight == PreflightCollision || metaPreflight == PreflightCollision {
      SettledByPreflight(p, TextureCollision, start, before);
      return TextureCollision, asset, meta, residue;
    }
    if assetPreflight == PreflightIoError || metaPreflight == PreflightIoError {
      SettledByPreflight(p, TextureIo, start, before);
      return TextureIo, asset, meta, residue;
    }
    failure, asset, meta, residue := PublishAndSettle(p, assetPreflight, metaPreflight, store, start);
  }

  lemma AttemptedStatus(path: string, data: Bytes, a: Artifact, before: Tree, after: Tree)
    requires Attempted(path, data, a, before, after)
    ensures a.path == None && (!a.attempted ==> a.status == PublishIoError)
  {
  }

  lemma SettledEarlier(p: TextureDocuments, asset: Artifact, meta: Artifact, start: Tree, before: Tree, after: Tree)
    requires start.written == before.written
    requires TextureSettled(p, NoTextureFailure, asset, meta, false, before, after)
    ensures TextureSettled(p, NoTextureFailure, asset, meta, false, start, after)
  {
  }
}
