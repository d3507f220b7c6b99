/** The publication snapshot of a native texture batch: an independent census over the records, and what
    it says of the result of an export. */
module TextureCensus {
  import opened Basics
  import opened MaterialLedger
  import opened MaterialDependencies
  import opened Publication
  import opened TexturePublication
  import opened TextureTargets
  import opened TextureRecords
  import opened TextureRun
  import opened TextureSteps

  function TargetsOf(rs: seq<TextureRecord>): (ts: seq<TextureTarget>)
    ensures |ts| == |rs| && forall i :: 0 <= i < |rs| ==> ts[i] == rs[i].target
  {
    seq(|rs|, i requires 0 <= i < |rs| => rs[i].target)
  }

  // ---------- One record ----------

  /** record_publication_flags_are_valid. */
  ghost predicate FlagsAreValid(r: TextureRecord) {
    && r.asset.path.Some? && r.meta.path.Some? && r.asset.attempted && r.meta.attempted
    && r.content.Some? && r.identity.Some? && WasPublished(r)
    && (r.asset.status == PublishEmitted || r.asset.status == PublishUnchanged)
    && (r.meta.status == PublishEmitted || r.meta.status == PublishUnchanged)
    && ((r.status == TextureEmitted) == (r.asset.status == PublishEmitted || r.meta.status == PublishEmitted))
  }

  /** The file is there with the recorded size and digest. */
  ghost predicate FileMatches(files: map<string, Bytes>, path: string, size: nat, digest: Bytes, env: Environment) {
    path in files && |files[path]| == size && env.sha(files[path]) == digest
  }

  /** Both files match what was recorded, and the metadata is what its identity calls for. */
  ghost predicate FilesMatch(r: TextureRecord, env: Environment, files: map<string, Bytes>)
    requires FlagsAreValid(r)
  {
    var content, meta := r.content.value, env.metadata(r.target.classId, r.identity.value.guid);
    && FileMatches(files, r.asset.path.value, content.assetSize, content.assetDigest, env)
    && FileMatches(files, r.meta.path.value, content.metaSize, content.metaDigest, env)
    && meta.Some? && files[r.meta.path.value] == meta.value
  }

  /** The flags are in order, the identity can be derived again, and the files match. */
  ghost predicate IsPublishedIn(r: TextureRecord, env: Environment, files: map<string, Bytes>) {
    && FlagsAreValid(r)
    && r.identity == env.derive(r.target.digest, r.target.pathId, r.target.classId, r.digest)
    && FilesMatch(r, env, files)
  }

  /** published_file_view_open_matches; `calm` says that opening meets no error. */
  method OpensMatching(files: map<string, Bytes>, path: string, size: nat, digest: Bytes, env: Environment,
                       calm: bool) returns (matches: bool)
    ensures matches <==> calm && FileMatches(files, path, size, digest, env)
  {
    if !calm || path !in files { return false; }
    if |files[path]| != size { return false; }
    matches := env.sha(files[path]) == digest;
  }

  /** native_texture_batch_record_is_published over the files as they are now.  `calm` says that opening,
      emitting and closing meet no error and no file is found changed on closing. */
  method RecordIsPublished(r: TextureRecord, env: Environment, files: map<string, Bytes>, calm: bool)
    returns (published: bool)
    ensures published <==> calm && IsPublishedIn(r, env, files)
  {
    if r.asset.path.None? || r.meta.path.None? || !r.asset.attempted || !r.meta.attempted || r.content.None?
       || r.identity.None? || (r.status != TextureEmitted && r.status != TextureUnchanged) {
      return false;
    }
    var emitted := r.asset.status == PublishEmitted || r.meta.status == PublishEmitted;
    if r.asset.status != PublishEmitted && r.asset.status != PublishUnchanged { return false; }
    if r.meta.status != PublishEmitted && r.meta.status != PublishUnchanged { return false; }
    if (r.status == TextureEmitted) != emitted { return false; }
    var derived := env.derive(r.target.digest, r.target.pathId, r.target.classId, r.digest);
    if derived.None? || derived != r.identity { return false; }
    var content := r.content.value;
    var opens := OpensMatching(files, r.asset.path.value, content.assetSize, content.assetDigest, env, calm);
    if !opens { return false; }
    opens := OpensMatching(files, r.meta.path.value, content.metaSize, content.metaDigest, env, calm);
    if !opens { return false; }
    var expected := env.metadata(r.target.classId, derived.value.guid);
    if expected.None? || |expected.value| != |files[r.meta.path.value]| { return false; }
    published := expected.value == files[r.meta.path.value];
  }

  /** What the census calls published: the object is still listed and its projection in order, and the
      files can be reopened. */
  ghost predicate IsStillPublished(c: Catalog, r: TextureRecord, env: Environment, files: map<string, Bytes>,
                                   calm: bool) {
    && ProjectionIsValid(c, r, env) && WasPublished(r)
    && (if r.target.classId == TEXTURE2D then (r.object_.value.streamSize == 0) == r.anchor.None?
        else r.target.classId == RENDER_TEXTURE ==> r.anchor.None?)
    && calm && IsPublishedIn(r, env, files)
  }

  /** owned_projection_valid. */
  ghost predicate ProjectionIsValid(c: Catalog, r: TextureRecord, env: Environment) {
    && IsListed(c, r.target) && r.object_.Some? && IsFitting(r, env) && r.yamlOk && r.resourceOk
    && r.bytes.None? && r.stagingPath.None?
  }

  ghost predicate RecordPasses(c: Catalog, r: TextureRecord, env: Environment, files: map<string, Bytes>, calm: bool) {
    && (r.target.classId == TEXTURE2D || r.target.classId == RENDER_TEXTURE)
    && r.failure == NoTextureFailure && r.staged && !r.stagingResidue && !r.residue
    && IsStillPublished(c, r, env, files, calm)
  }

  ghost predicate AllPass(c: Catalog, rs: seq<TextureRecord>, env: Environment, files: map<string, Bytes>,
                          calm: seq<bool>)
    requires |calm| == |rs|
  {
    forall i :: 0 <= i < |rs| ==> RecordPasses(c, rs[i], env, files, calm[i])
  }

  /** What the census asks of a result, over the catalog, the selection and the files as they are now. */
  ghost predicate SnapshotPasses(c: Catalog, sel: seq<bool>, graph: PointerGraph, env: Environment, o: Outcome,
                                 files: map<string, Bytes>, calm: seq<bool>)
    requires |sel| == c.shaderCount && |calm| == |o.records|
  {
    && TargetsOf(o.records) == Population(c, sel, graph) && AllDifferent(TargetsOf(o.records))
    && AllPass(c, o.records, env, files, calm)
    && o.complete && o.reason == NoTextureFailure && o.cleanupComplete && o.residueCount == 0
    && |o.records| == o.targetStats.selected
    && o.targetStats.texture2d == CountClass(TargetsOf(o.records), TEXTURE2D)
    && o.targetStats.renderTexture == CountClass(TargetsOf(o.records), RENDER_TEXTURE)
    && CountersTrue(o.records, o.stats) && o.stats.failed == 0
    && o.targetStats.selected == o.stats.emitted + o.stats.unmodified
  }

  // ---------- The census ----------

  datatype Counts = Counts(texture2d: nat, renderTexture: nat, emitted: nat, unmodified: nat, failed: nat,
    residues: nat)

  ghost predicate CountsPrefix(n: Counts, rs: seq<TextureRecord>, k: nat)
    requires k <= |rs|
  {
    && n.texture2d == CountClass(TargetsOf(rs)[..k], TEXTURE2D)
    && n.renderTexture == CountClass(TargetsOf(rs)[..k], RENDER_TEXTURE)
    && n.emitted == multiset(Statuses(rs)[..k])[TextureEmitted]
    && n.unmodified == multiset(Statuses(rs)[..k])[TextureUnchanged]
    && n.failed == multiset(Statuses(rs)[..k])[TextureFailed]
    && (n.residues == 0 <==> forall i :: 0 <= i < k ==> !rs[i].stagingResidue)
  }

  /** What one record adds to the counts. */
  function CountedOne(n: Counts, r: TextureRecord): Counts {
    Counts(n.texture2d + One(r.target.classId == TEXTURE2D), n.renderTexture + One(r.target.classId == RENDER_TEXTURE),
           n.emitted + One(r.status == TextureEmitted), n.unmodified + One(r.status == TextureUnchanged),
           n.failed + One(r.status == TextureFailed), n.residues + One(r.stagingResidue))
  }

  lemma CountsOneMore(n: Counts, rs: seq<TextureRecord>, k: nat)
    requires k < |rs| && CountsPrefix(n, rs, k)
    ensures CountsPrefix(CountedOne(n, rs[k]), rs, k + 1)
  {
    OneMoreClass(rs, k);
    OneMoreStatus(rs, k);
    hide CountClass, Statuses, TargetsOf;
  }

  method CountRecord(n: Counts, r: TextureRecord) returns (n': Counts)
    ensures n' == CountedOne(n, r)
  {
    n' := n;
    if r.target.classId == TEXTURE2D {
      n' := n'.(texture2d := n'.texture2d + 1);
    } else if r.target.classId == RENDER_TEXTURE {
      n' := n'.(renderTexture := n'.renderTexture + 1);
    }
    if r.stagingResidue { n' := n'.(residues := n'.residues + 1); }
    match r.status {
      case TextureEmitted => n' := n'.(emitted := n'.emitted + 1);
      case TextureUnchanged => n' := n'.(unmodified := n'.unmodified + 1);
      case TextureFailed => n' := n'.(failed := n'.failed + 1);
      case TexturePending =>
    }
  }

  lemma OneMoreClass(rs: seq<TextureRecord>, k: nat)
    requires k < |rs|
    ensures forall c :: CountClass(TargetsOf(rs)[..k + 1], c)
                     == CountClass(TargetsOf(rs)[..k], c) + One(rs[k].target.classId == c)
  {
    assert TargetsOf(rs)[..k + 1][..k] == TargetsOf(rs)[..k];
  }

  lemma OneMoreStatus(rs: seq<TextureRecord>, k: nat)
    requires k < |rs|
    ensures multiset(Statuses(rs)[..k + 1]) == multiset(Statuses(rs)[..k]) + multiset{rs[k].status}
  {
    assert Statuses(rs)[..k + 1] == Statuses(rs)[..k] + [rs[k].status];
  }

  /** The innermost loop of the census: no earlier record is of the same object. */
  method IsUnique(rs: seq<TextureRecord>, index: nat) returns (unique: bool)
    requires index < |rs|
    ensures unique <==> IsUniqueAt(rs, index)
  {
    unique := true;
    for prior := 0 to index
      invariant unique <==> forall j :: 0 <= j < prior ==> !SameObject(rs[j].target, rs[index].target)
    {
      if rs[prior].target.sourceIndex == rs[index].target.sourceIndex &&
        rs[prior].target.pathId == rs[index].target.pathId {
        unique := false;
      }
    }
  }

  /** native_texture_batch_validate_publication_snapshot. */
  method ValidateSnapshot(c: Catalog, sel: seq<bool>, graph: PointerGraph, env: Environment, o: Outcome,
                          files: map<string, Bytes>, calm: seq<bool>) returns (ok: bool, published: seq<bool>)
    requires |sel| == c.shaderCount && |calm| == |o.records|
    ensures ok <==> SnapshotPasses(c, sel, graph, env, o, files, calm)
    ensures |published| == |o.records|
    ensures TargetsOf(o.records) == Population(c, sel, graph) ==> forall i :: 0 <= i < |published| ==>
        published[i] == IsStillPublished(c, o.records[i], env, files, calm[i])
    ensures TargetsOf(o.records) != Population(c, sel, graph) ==> true !in published
  {
    hide CountsPrefix, AllPass, IsStillPublished, Population, AllDifferent;
    published := seq(|o.records|, _ => false);
    var matches := PopulationMatches(c, sel, graph, TargetsOf(o.records));
    if !matches { return false, published; }
    var n, recordsPass;
    n, recordsPass, published := CheckRecords(c, o.records, env, files, calm);
    EverythingCounted(n, o.records);
    PassingHasNoResidue(c, o.records, env, files, calm);
    ok := recordsPass && o.complete && o.reason == NoTextureFailure && o.cleanupComplete
      && o.residueCount == n.residues && n.residues == 0 && |o.records| == o.targetStats.selected
      && o.targetStats.texture2d == n.texture2d && o.targetStats.renderTexture == n.renderTexture
      && o.stats.emitted == n.emitted && o.stats.unmodified == n.unmodified && o.stats.failed == n.failed
      && n.failed == 0
      && o.targetStats.selected == n.emitted + n.unmodified;
  }

  /** The census loop over the records. */
  method CheckRecords(c: Catalog, rs: seq<TextureRecord>, env: Environment, files: map<string, Bytes>, calm: seq<bool>)
    returns (n: Counts, recordsPass: bool, published: seq<bool>)
    requires |calm| == |rs|
    ensures CountsPrefix(n, rs, |rs|)
    ensures recordsPass <==> AllPass(c, rs, env, files, calm) && AllDifferent(TargetsOf(rs))
    ensures |published| == |rs| && forall i :: 0 <= i < |rs| ==>
        published[i] == IsStillPublished(c, rs[i], env, files, calm[i])
  {
    hide CountsPrefix, RecordPasses, IsStillPublished, AllDifferent, IsUniqueAt;
    n, recordsPass, published := Counts(0, 0, 0, 0, 0, 0), true, [];
    NothingCounted(rs);
    for index := 0 to |rs|
      invariant CountsPrefix(n, rs, index)
      invariant recordsPass <==> forall i :: 0 <= i < index ==>
          RecordPasses(c, rs[i], env, files, calm[i]) && IsUniqueAt(rs, i)
      invariant |published| == index && forall i :: 0 <= i < index ==>
          published[i] == IsStillPublished(c, rs[i], env, files, calm[i])
    {
      CountsOneMore(n, rs, index);
      n := CountRecord(n, rs[index]);
      var isPublished, passes := CheckRecord(c, rs[index], env, files, calm[index]);
      var unique := IsUnique(rs, index);
      if !passes { recordsPass := false; }
      if !unique { recordsPass := false; }
      published := published + [isPublished];
    }
    UniqueMeansDifferent(rs);
  }

  /** The body of the census loop for one record. */
  method CheckRecord(c: Catalog, r: TextureRecord, env: Environment, files: map<string, Bytes>, calm: bool)
    returns (published: bool, passes: bool)
    ensures published <==> IsStillPublished(c, r, env, files, calm)
    ensures passes <==> RecordPasses(c, r, env, files, calm)
  {
    hide FlagsAreValid, IsPublishedIn;
    var t, o := r.target, r.object_;
    var listed := t.sourceIndex < |c.sources| && c.sources[t.sourceIndex].digest == t.digest
      && c.sources[t.sourceIndex].occurrence == t.occurrence
      && (t.classId, t.pathId) in c.sources[t.sourceIndex].objects;
    var valid := listed && o.Some? && o.value.classId == t.classId && o.value.pathId == t.pathId
      && env.supports(o.value) && r.yamlOk && r.resourceOk && r.bytes.None? && r.stagingPath.None?;
    published, passes := false, r.target.classId == TEXTURE2D || r.target.classId == RENDER_TEXTURE;
    match r.status {
      case TextureEmitted | TextureUnchanged =>
        if r.target.classId == TEXTURE2D {
          valid := valid && (r.object_.value.streamSize == 0) == r.anchor.None?;
        } else if r.target.classId == RENDER_TEXTURE {
          valid := valid && r.anchor.None?;
        }
        if valid { published := RecordIsPublished(r, env, files, calm); }
        if r.failure != NoTextureFailure || !r.staged || r.stagingResidue || r.residue || !published {
          passes := false;
        }
      case TextureFailed | TexturePending =>
        passes := false;
    }
  }

  ghost predicate IsUniqueAt(rs: seq<TextureRecord>, i: nat)
    requires i < |rs|
  {
    forall j :: 0 <= j < i ==> !SameObject(rs[j].target, rs[i].target)
  }

  lemma NothingCounted(rs: seq<TextureRecord>)
    ensures CountsPrefix(Counts(0, 0, 0, 0, 0, 0), rs, 0)
  {
  }

  lemma EverythingCounted(n: Counts, rs: seq<TextureRecord>)
    requires CountsPrefix(n, rs, |rs|)
    ensures n.texture2d == CountClass(TargetsOf(rs), TEXTURE2D)
    ensures n.renderTexture == CountClass(TargetsOf(rs), RENDER_TEXTURE)
    ensures n.emitted == CountOf(rs, TextureEmitted) && n.unmodified == CountOf(rs, TextureUnchanged)
    ensures n.failed == CountOf(rs, TextureFailed)
    ensures n.residues == 0 <==> forall i :: 0 <= i < |rs| ==> !rs[i].stagingResidue
  {
    assert TargetsOf(rs)[..|rs|] == TargetsOf(rs) && Statuses(rs)[..|rs|] == Statuses(rs);
  }

  lemma UniqueMeansDifferent(rs: seq<TextureRecord>)
    ensures AllDifferent(TargetsOf(rs)) <==> forall i :: 0 <= i < |rs| ==> IsUniqueAt(rs, i)
  {
    if forall i :: 0 <= i < |rs| ==> IsUniqueAt(rs, i) {
      forall i, j | 0 <= i < j < |rs|
        ensures !SameObject(TargetsOf(rs)[i], TargetsOf(rs)[j])
      {
        assert IsUniqueAt(rs, j);
      }
    }
  }

  lemma PassingHasNoResidue(c: Catalog, rs: seq<TextureRecord>, env: Environment, files: map<string, Bytes>,
                            calm: seq<bool>)
    requires |calm| == |rs|
    ensures AllPass(c, rs, env, files, calm) ==> forall i :: 0 <= i < |rs| ==> !rs[i].stagingResidue
  {
    hide IsStillPublished;
  }

  // ---------- Producer meets checker ----------

  /** The later files still match the ones the export left: the metadata byte for byte, the asset in
      size and digest. */
  ghost predicate StillHolds(r: TextureRecord, env: Environment, left: map<string, Bytes>, files: map<string, Bytes>) {
    && r.asset.path.Some? && r.asset.path.value in left && r.asset.path.value in files
    && |files[r.asset.path.value]| == |left[r.asset.path.value]|
    && env.sha(files[r.asset.path.value]) == env.sha(left[r.asset.path.value])
    && r.meta.path.Some? && r.meta.path.value in left && Holds(files, r.meta.path.value, left[r.meta.path.value])
  }

  /** For a record that stands on the files it left, reopening later files is comparing them. */
  lemma StandingFilesMatch(r: TextureRecord, env: Environment, resources: seq<Anchor>,
                           left: map<string, Bytes>, files: map<string, Bytes>)
    requires FlagsAreValid(r) && TextureStands(r, resources, env, left)
    ensures FilesMatch(r, env, files) <==> StillHolds(r, env, left, files)
  {
    assert r.meta.path.value in left
        && env.metadata(r.target.classId, r.identity.value.guid) == Some(left[r.meta.path.value]);
  }

  lemma PublishedHasFlags(r: TextureRecord, env: Environment)
    requires IsTexturePublished(r, env)
    ensures FlagsAreValid(r)
  {
  }

  lemma FinishedPasses(c: Catalog, r: TextureRecord, env: Environment, resources: seq<Anchor>,
                       left: map<string, Bytes>, files: map<string, Bytes>, calm: bool)
    requires IsFinished(r, env) && (r.target.classId == TEXTURE2D || r.target.classId == RENDER_TEXTURE)
    requires TextureStands(r, resources, env, left)
    ensures RecordPasses(c, r, env, files, calm) <==>
              r.status != TextureFailed && IsListed(c, r.target) && StillHolds(r, env, left, files) && calm
  {
    hide FilesMatch, StillHolds, TextureStands, IsListed;
    if IsTexturePublished(r, env) {
      PublishedHasFlags(r, env);
      StandingFilesMatch(r, env, resources, left, files);
    }
  }

  lemma NoneFailed(rs: seq<TextureRecord>, st: TextureStats)
    requires CountersTrue(rs, st)
    ensures st.failed == 0 <==> forall i :: 0 <= i < |rs| ==> rs[i].status != TextureFailed
  {
    assert st.failed == 0 <==> TextureFailed !in Statuses(rs);
    assert forall i :: 0 <= i < |rs| ==> (rs[i].status == TextureFailed <==> Statuses(rs)[i] == TextureFailed);
  }

  /** The records of an export pass exactly when none failed, all are still listed, and the files match. */
  lemma FinishedAllPass(targets: seq<TextureTarget>, rs: seq<TextureRecord>, env: Environment, resources: seq<Anchor>,
                        left: map<string, Bytes>, c: Catalog, files: map<string, Bytes>, calm: seq<bool>)
    requires AllFinished(targets, rs, env) && AreTextures(targets) && AllTexturesStand(rs, resources, env, left)
    requires |calm| == |rs|
    ensures AllPass(c, rs, env, files, calm) <==>
              && (forall i :: 0 <= i < |rs| ==> rs[i].status != TextureFailed)
              && AllListed(c, targets)
              && (forall i :: 0 <= i < |rs| ==> StillHolds(rs[i], env, left, files) && calm[i])
  {
    hide RecordPasses, IsFinished, StillHolds, TextureStands, IsListed;
    forall i | 0 <= i < |rs|
      ensures RecordPasses(c, rs[i], env, files, calm[i]) <==>
                && rs[i].status != TextureFailed && IsListed(c, targets[i])
                && StillHolds(rs[i], env, left, files) && calm[i]
    {
      assert IsFinished(rs[i], env) && rs[i].target == targets[i] && TextureStands(rs[i], resources, env, left);
      FinishedPasses(c, rs[i], env, resources, left, files, calm[i]);
    }
  }

  /** The census accepts an export, over a catalog, a selection and files read later, exactly when the
      transaction stood, nothing failed, the selection still needs the same textures, the catalog still
      lists them, and the later files still match the files the export left. */
  lemma CensusAcceptsTextures(c: Catalog, sel: seq<bool>, graph: PointerGraph, env: Environment, o: Outcome,
                              resources: seq<Anchor>, left: map<string, Bytes>, c': Catalog, sel': seq<bool>,
                              graph': PointerGraph, files: map<string, Bytes>, calm: seq<bool>)
    requires |sel| == c.shaderCount && |sel'| == c'.shaderCount && |calm| == |o.records|
    requires IsExport(c, sel, graph, env, o) && AllTexturesStand(o.records, resources, env, left)
    ensures SnapshotPasses(c', sel', graph', env, o, files, calm) <==>
              && o.complete && o.stats.failed == 0
              && Population(c', sel', graph') == Population(c, sel, graph)
              && AllListed(c', Population(c, sel, graph))
              && forall i :: 0 <= i < |o.records| ==> StillHolds(o.records[i], env, left, files) && calm[i]
  {
    var population := Population(c, sel, graph);
    FirstOccurrencesDiffer(TargetsMet(c, sel, graph, |c.materials|));
    assert TargetsOf(o.records) == population;
    NoneFailed(o.records, o.stats);
    FinishedAreNotPending(population, o.records, env);
    CountersPartition(o.records, o.stats);
    FinishedAllPass(population, o.records, env, resources, left, c', files, calm);
    hide Population, AllPass, AllFinished, CountersTrue, StillHolds, AllTexturesStand, AllListed, AllDifferent;
  }

  /** A clean export is accepted on the files it left, and on every tree that keeps them. */
  lemma CensusAcceptsCleanExport(c: Catalog, sel: seq<bool>, graph: PointerGraph, env: Environment, o: Outcome,
                                 resources: seq<Anchor>, left: map<string, Bytes>, files: map<string, Bytes>,
                                 calm: seq<bool>)
    requires |sel| == c.shaderCount && ResolvesToObjects(c, graph) && |calm| == |o.records|
    requires IsExport(c, sel, graph, env, o) && AllTexturesStand(o.records, resources, env, left) && Keeps(left, files)
    requires o.complete && o.stats.failed == 0 && forall i :: 0 <= i < |calm| ==> calm[i]
    ensures SnapshotPasses(c, sel, graph, env, o, files, calm)
  {
    CensusAcceptsTextures(c, sel, graph, env, o, resources, left, c, sel, graph, files, calm);
    PopulationIsListed(c, sel, graph);
    NoneFailed(o.records, o.stats);
    hide SnapshotPasses, Population, CountersTrue, StillHolds, TextureStands, Keeps;
    forall i | 0 <= i < |o.records|
      ensures StillHolds(o.records[i], env, left, files)
    {
      assert TextureStands(o.records[i], resources, env, left) && IsFinished(o.records[i], env);
      KeptFilesStillHold(o.records[i], env, resources, left, files);
    }
  }

  lemma KeptFilesStillHold(r: TextureRecord, env: Environment, resources: seq<Anchor>,
                           left: map<string, Bytes>, files: map<string, Bytes>)
    requires IsFinished(r, env) && r.status != TextureFailed && TextureStands(r, resources, env, left)
    requires Keeps(left, files)
    ensures StillHolds(r, env, left, files)
  {
  }
}
