/** What the output tree and the records say of the published textures, during a transaction and after. */
module TextureRun {
  import opened Basics
  import opened MaterialLedger
  import opened Publication
  import opened TexturePublication
  import opened TextureTargets
  import opened TextureRecords

  // ---------- The documents of a texture ----------

  /** The texts emitted for a staged record from its pixels, and their place, when all of it succeeds. */
  function DocumentsOf(r: TextureRecord, env: Environment, pixels: Bytes): Option<TextureDocuments> {
    if r.object_.None? || r.identity.None? then None
    else
      var o, id := r.object_.value, r.identity.value;
      var path, yaml, meta := env.assetPath(o, id.hex), env.yaml(o, pixels), env.metadata(r.target.classId, id.guid);
      if path.None? || yaml.None? || meta.None? then None
        else Some(TextureDocuments(path.value, yaml.value, meta.value))
  }

  /** What is recorded of two texts before they are published. */
  function ContentOf(asset: Bytes, meta: Bytes, env: Environment): Content {
    Content(|asset|, env.sha(asset), |meta|, env.sha(meta))
  }

  /** `n` is the number of bytes the record's object draws from its stream. */
  predicate IsSizeOf(n: nat, r: TextureRecord) {
    n == if UsesStream(r) then r.object_.value.streamSize else 0
  }

  /** The record names the two files of `p`, and they hold its texts byte for byte. */
  ghost predicate HoldsDocuments(p: TextureDocuments, r: TextureRecord, files: map<string, Bytes>) {
    && r.asset.path == Some(p.assetPath) && r.meta.path == Some(AssetMetaPath(p))
    && Holds(files, p.assetPath, p.asset) && Holds(files, AssetMetaPath(p), p.meta)
  }

  /** The files hold what was emitted from `pixels`, which have the object's size and hash to the
      recorded digest; sizes and digests of the texts are on record. */
  ghost predicate StandsFor(r: TextureRecord, env: Environment, pixels: Bytes, files: map<string, Bytes>) {
    && env.sha(pixels) == r.digest && IsSizeOf(|pixels|, r)
    && var p := DocumentsOf(r, env, pixels);
       p.Some? && HoldsDocuments(p.value, r, files) && r.content == Some(ContentOf(p.value.asset, p.value.meta, env))
  }

  /** Another file stands where one of the documents emitted from `pixels` belongs. */
  ghost predicate CollidesFor(r: TextureRecord, env: Environment, pixels: Bytes, files: map<string, Bytes>) {
    var p := DocumentsOf(r, env, pixels);
    p.Some? && AnyAssetTaken(p.value, files)
  }

  /** The record is anchored in the held files; once published its files hold what was emitted from the
      slice of them it names, and a collision is with what was emitted from it. */
  ghost predicate TextureStands(r: TextureRecord, resources: seq<Anchor>, env: Environment, files: map<string, Bytes>) {
    && IsAnchored(r, resources, env)
    && (WasPublished(r) ==> StandsFor(r, env, PixelsOf(r, resources, env), files))
    && (r.failure == TextureCollision ==> CollidesFor(r, env, PixelsOf(r, resources, env), files))
  }

  ghost predicate AllTexturesStand(rs: seq<TextureRecord>, resources: seq<Anchor>, env: Environment,
                                   files: map<string, Bytes>) {
    forall i :: 0 <= i < |rs| ==> TextureStands(rs[i], resources, env, files)
  }

  lemma NothingStands(rs: seq<TextureRecord>, resources: seq<Anchor>, env: Environment, files: map<string, Bytes>)
    requires AllAnchored(rs, resources, env)
    requires forall i :: 0 <= i < |rs| ==> !WasPublished(rs[i]) && rs[i].failure != TextureCollision
    ensures AllTexturesStand(rs, resources, env, files)
  {
    hide IsAnchored;
  }

  lemma ItIsAnchored(rs: seq<TextureRecord>, k: nat, resources: seq<Anchor>, env: Environment,
                     files: map<string, Bytes>)
    requires AllTexturesStand(rs, resources, env, files) && k < |rs|
    ensures IsAnchored(rs[k], resources, env)
  {
  }

  /** The same object, anchored and staged alike, without its bytes. */
  predicate DrawsAlike(r: TextureRecord, s: TextureRecord) {
    && r.target == s.target && r.object_ == s.object_ && r.anchor == s.anchor && r.staged == s.staged
    && (r.bytes == s.bytes || r.bytes.None?)
  }

  lemma StillAnchored(r: TextureRecord, s: TextureRecord, resources: seq<Anchor>, env: Environment)
    requires DrawsAlike(r, s) && IsAnchored(s, resources, env)
    ensures IsAnchored(r, resources, env) && PixelsOf(r, resources, env) == PixelsOf(s, resources, env)
  {
  }

  lemma StandsLater(r: TextureRecord, resources: seq<Anchor>, env: Environment, before: map<string, Bytes>,
                    now: map<string, Bytes>)
    requires TextureStands(r, resources, env, before) && Keeps(before, now)
    ensures TextureStands(r, resources, env, now)
  {
    hide DocumentsOf, ContentOf, IsAnchored, PixelsOf;
  }

  lemma StandsAfter(rs: seq<TextureRecord>, k: nat, r: TextureRecord, resources: seq<Anchor>, env: Environment,
                    before: map<string, Bytes>, now: map<string, Bytes>)
    requires AllTexturesStand(rs, resources, env, before) && Keeps(before, now) && k < |rs|
    requires TextureStands(r, resources, env, now)
    ensures AllTexturesStand(rs[k := r], resources, env, now)
  {
    hide TextureStands, Keeps;
    var rs' := rs[k := r];
    forall i: nat | i < |rs'|
      ensures TextureStands(rs'[i], resources, env, now)
    {
      if i != k { StandsLater(rs[i], resources, env, before, now); }
    }
  }

  /** Freeing the staged bytes changes nothing about the files. */
  lemma StandsWithoutBytes(rs: seq<TextureRecord>, k: nat, resources: seq<Anchor>, env: Environment,
                           files: map<string, Bytes>)
    requires AllTexturesStand(rs, resources, env, files) && k < |rs|
    ensures AllTexturesStand(rs[k := rs[k].(bytes := None)], resources, env, files)
  {
    var r := rs[k].(bytes := None);
    assert TextureStands(rs[k], resources, env, files);
    StillAnchored(r, rs[k], resources, env);
    hide IsAnchored, PixelsOf;
    assert TextureStands(r, resources, env, files);
    hide TextureStands;
    assert Keeps(files, files);
    StandsAfter(rs, k, r, resources, env, files, files);
  }

  // ---------- The run ----------

  predicate TextureNames(r: TextureRecord, path: string) {
    r.asset.path == Some(path) || r.meta.path == Some(path)
  }

  /** Every file written between two states stands in the record. */
  ghost predicate TextureLedger(r: TextureRecord, before: Tree, after: Tree) {
    forall path :: path in after.written && path !in before.written ==> TextureNames(r, path)
  }

  /** Every file the transaction has written stands in a record. */
  ghost predicate AllTexturesNamed(rs: seq<TextureRecord>, start: Tree, now: Tree) {
    forall path :: path in now.written && path !in start.written ==>
      exists i :: 0 <= i < |rs| && TextureNames(rs[i], path)
  }

  ghost predicate MetaBeside(p: TextureDocuments, t: Tree) {
    p.assetPath in t.written ==> Holds(t.files, AssetMetaPath(p), p.meta)
  }

  /** `created` are the documents whose asset file this run has written. */
  ghost predicate TexturesCreated(created: seq<TextureDocuments>, start: Tree, now: Tree) {
    forall j :: 0 <= j < |created| ==>
      MetaBeside(created[j], now) && created[j].assetPath in now.written && created[j].assetPath !in start.written
  }

  ghost predicate AlwaysMetaBeside(created: seq<TextureDocuments>, history: seq<Tree>, low: nat) {
    forall k, j :: low <= k < |history| && 0 <= j < |created| ==> MetaBeside(created[j], history[k])
  }

  ghost predicate IsAssetAmong(created: seq<TextureDocuments>, path: Option<string>) {
    exists j :: 0 <= j < |created| && path == Some(created[j].assetPath)
  }

  /** The record's asset is one of `created` if this run emitted it, and also if this run wrote it in an
      attempt that ended in an I/O error. */
  ghost predicate IsTextureCreated(created: seq<TextureDocuments>, r: TextureRecord, start: Tree, now: Tree) {
    && (r.asset.status == PublishEmitted ==> r.asset.path.Some? && IsAssetAmong(created, r.asset.path))
    && (r.asset.path.Some? && MayHaveWritten(r.asset.status) ==>
          && r.asset.path.value in now.files
          && (r.asset.path.value in now.written && r.asset.path.value !in start.written ==>
                IsAssetAmong(created, r.asset.path)))
  }

  /** Over the whole run: no file is altered or removed at any state; in every state each asset the run
      writes has its metadata beside it, byte for byte; every file written stands in a record's ledger;
      and every asset that was emitted, or left behind by an I/O error, is one of those. */
  ghost predicate TextureRunKept(created: seq<TextureDocuments>, rs: seq<TextureRecord>, start: Tree, now: Tree,
                                 history: seq<Tree>, low: nat) {
    && low <= |history| && AlwaysGrows(start, now, history, low)
    && TexturesCreated(created, start, now) && AlwaysMetaBeside(created, history, low)
    && AllTexturesNamed(rs, start, now)
    && forall i :: 0 <= i < |rs| ==> IsTextureCreated(created, rs[i], start, now)
  }

  predicate SameFiles(r: TextureRecord, s: TextureRecord) {
    r.asset == s.asset && r.meta == s.meta
  }

  predicate NamesNothing(r: TextureRecord) {
    r.asset == NO_ARTIFACT && r.meta == NO_ARTIFACT
  }

  lemma TextureRunAtStart(rs: seq<TextureRecord>, t: Tree, history: seq<Tree>)
    requires forall i :: 0 <= i < |rs| ==> NamesNothing(rs[i])
    ensures TextureRunKept([], rs, t, t, history, |history|)
  {
  }

  lemma TextureRunByRelabel(created: seq<TextureDocuments>, rs: seq<TextureRecord>, k: nat, r: TextureRecord,
                            start: Tree, now: Tree, history: seq<Tree>, low: nat)
    requires TextureRunKept(created, rs, start, now, history, low) && k < |rs| && SameFiles(r, rs[k])
    ensures TextureRunKept(created, rs[k := r], start, now, history, low)
  {
    hide AlwaysGrows, TexturesCreated, AlwaysMetaBeside;
    var rs' := rs[k := r];
    forall path | path in now.written && path !in start.written
      ensures exists i :: 0 <= i < |rs'| && TextureNames(rs'[i], path)
    {
      var i :| 0 <= i < |rs| && TextureNames(rs[i], path);
      assert TextureNames(rs'[i], path);
    }
    assert IsTextureCreated(created, rs[k], start, now);
  }

  lemma TexturesNamedByPublication(rs: seq<TextureRecord>, k: nat, r: TextureRecord, start: Tree, before: Tree,
                                   now: Tree)
    requires AllTexturesNamed(rs, start, before) && k < |rs| && NamesNothing(rs[k]) && TextureLedger(r, before, now)
    ensures AllTexturesNamed(rs[k := r], start, now)
  {
    var rs' := rs[k := r];
    forall path | path in now.written && path !in start.written
      ensures exists i :: 0 <= i < |rs'| && TextureNames(rs'[i], path)
    {
      if path in before.written {
        var i :| 0 <= i < |rs| && TextureNames(rs[i], path);
        assert TextureNames(rs'[i], path);
      } else {
        assert TextureNames(rs'[k], path);
      }
    }
  }

  lemma MetaStaysBeside(q: TextureDocuments, before: Tree, t: Tree)
    requires MetaBeside(q, before) && q.assetPath in before.written && Grows(before, t)
    ensures MetaBeside(q, t) && q.assetPath in t.written
  {
    assert q.assetPath in t.written.Keys;
  }

  /** Before it is written, an asset needs no metadata. */
  lemma NoAssetYet(p: TextureDocuments, t: Tree, before: Tree)
    requires Grows(t, before) && p.assetPath !in before.written
    ensures MetaBeside(p, t) && p.assetPath !in t.written
  {
    assert p.assetPath !in t.written.Keys;
  }

  lemma MetaIsFirst(p: TextureDocuments, before: Tree, t: Tree)
    requires MetaFirst(p, before.written, t) && p.assetPath !in before.written
    ensures MetaBeside(p, t)
  {
  }

  lemma TexturesCreatedByPublication(p: TextureDocuments, created: seq<TextureDocuments>, start: Tree, before: Tree,
                                     now: Tree, history: seq<Tree>, history': seq<Tree>, low: nat)
    requires low <= |history| && AlwaysGrows(start, before, history, low)
    requires TexturesCreated(created, start, before) && AlwaysMetaBeside(created, history, low)
    requires history <= history' && TextureProgressed(p, before, now, history', |history|)
    ensures var created' := if IsNewAsset(p, before, now) then created + [p] else created;
            TexturesCreated(created', start, now) && AlwaysMetaBeside(created', history', low)
  {
    hide MetaBeside, AssetMetaPath, Grows, MetaFirst;
    forall j | 0 <= j < |created|
      ensures MetaBeside(created[j], now) && created[j].assetPath in now.written
    {
      MetaStaysBeside(created[j], before, now);
    }
    forall k, j | low <= k < |history'| && 0 <= j < |created|
      ensures MetaBeside(created[j], history'[k])
    {
      if k < |history| {
        assert history'[k] == history[k];
      } else {
        MetaStaysBeside(created[j], before, history'[k]);
      }
    }
    if IsNewAsset(p, before, now) {
      MetaIsFirst(p, before, now);
      NoAssetYet(p, start, before);
      forall k | low <= k < |history'|
        ensures MetaBeside(p, history'[k])
      {
        if k < |history| {
          assert history'[k] == history[k];
          NoAssetYet(p, history[k], before);
        } else {
          MetaIsFirst(p, before, history'[k]);
        }
      }
    }
  }

  /** Whether a publication has written the asset. */
  ghost predicate IsNewAsset(p: TextureDocuments, before: Tree, after: Tree) {
    p.assetPath in after.written && p.assetPath !in before.written
  }

  /** One publication extends the run. */
  lemma TextureRunByPublication(p: TextureDocuments, created: seq<TextureDocuments>, rs: seq<TextureRecord>, k: nat,
                                r: TextureRecord, start: Tree, before: Tree, now: Tree, history: seq<Tree>,
                                history': seq<Tree>, low: nat)
    requires TextureRunKept(created, rs, start, before, history, low) && k < |rs| && NamesNothing(rs[k])
    requires history <= history' && TextureProgressed(p, before, now, history', |history|)
    requires TextureLedger(r, before, now) && ReportsAsset(p, r.asset, before, now)
    ensures TextureRunKept(if IsNewAsset(p, before, now) then created + [p] else created, rs[k := r], start, now,
                           history', low)
  {
    TextureProgressAlways(p, before, now, history', |history|);
    AlwaysGrowsThrough(start, before, now, history, history', low);
    TexturesCreatedByPublication(p, created, start, before, now, history, history', low);
    TexturesNamedByPublication(rs, k, r, start, before, now);
    hide AlwaysGrows, TexturesCreated, AlwaysMetaBeside, AllTexturesNamed, TextureLedger, TextureProgressed,
         IsTextureCreated, ReportsAsset, IsNewAsset;
    var created' := if IsNewAsset(p, before, now) then created + [p] else created;
    var rs' := rs[k := r];
    forall i | 0 <= i < |rs|
      ensures IsTextureCreated(created', rs'[i], start, now)
    {
      if i != k {
        TextureStillCreated(p, created, rs[i], start, before, now, history', |history|);
      } else {
        OwnAssetIsCreated(p, created, r, start, before, now);
      }
    }
  }

  lemma TextureProgressAlways(p: TextureDocuments, before: Tree, after: Tree, history: seq<Tree>, low: nat)
    requires TextureProgressed(p, before, after, history, low)
    ensures AlwaysGrows(before, after, history, low)
  {
  }

  lemma AssetStillAmong(p: TextureDocuments, created: seq<TextureDocuments>, path: Option<string>)
    requires IsAssetAmong(created, path)
    ensures IsAssetAmong(created + [p], path)
  {
    var j :| 0 <= j < |created| && path == Some(created[j].assetPath);
    assert (created + [p])[j] == created[j];
  }

  /** A later publication writes no path that an earlier record's file occupies. */
  lemma TextureStillCreated(p: TextureDocuments, created: seq<TextureDocuments>, r: TextureRecord, start: Tree,
                            before: Tree, now: Tree, history: seq<Tree>, low: nat)
    requires IsTextureCreated(created, r, start, before) && TextureProgressed(p, before, now, history, low)
    ensures IsTextureCreated(created, r, start, now) && IsTextureCreated(created + [p], r, start, now)
  {
    hide IsAssetAmong, AssetMetaPath;
    if IsAssetAmong(created, r.asset.path) { AssetStillAmong(p, created, r.asset.path); }
  }

  lemma OwnAssetIsCreated(p: TextureDocuments, created: seq<TextureDocuments>, r: TextureRecord, start: Tree,
                          before: Tree, now: Tree)
    requires ReportsAsset(p, r.asset, before, now)
    ensures IsTextureCreated(if IsNewAsset(p, before, now) then created + [p] else created, r, start, now)
  {
    assert (created + [p])[|created|] == p;
  }
}
