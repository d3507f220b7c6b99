/** How single steps of the texture transaction change its records, its counters and what it holds. */
module TextureSteps {
  import opened Basics
  import opened MaterialLedger
  import opened MaterialDependencies
  import opened Publication
  import opened TexturePublication
  import opened TextureTargets
  import opened TextureRecords
  import opened TextureRun

  ghost function ViewsOf(anchors: seq<Anchor>): set<nat> {
    set a | 0 <= a < |anchors| :: anchors[a].view
  }

  lemma ViewsOneMore(anchors: seq<Anchor>, anchor: Anchor)
    ensures ViewsOf(anchors + [anchor]) == ViewsOf(anchors) + {anchor.view}
  {
    var more := anchors + [anchor];
    assert forall a :: 0 <= a < |anchors| ==> more[a] == anchors[a];
    assert more[|anchors|] == anchor;
    forall v | v in ViewsOf(anchors)
      ensures v in ViewsOf(more)
    {
      var a :| 0 <= a < |anchors| && anchors[a].view == v;
      assert more[a].view == v;
    }
  }

  /** All held files were handed out since number `first`. */
  ghost predicate ViewsSince(anchors: seq<Anchor>, first: nat) {
    forall a :: 0 <= a < |anchors| ==> first <= anchors[a].view
  }

  /** A newly opened file joins the held ones. */
  lemma AnchorJoins(anchors: seq<Anchor>, anchor: Anchor, others: set<nat>, first: nat)
    requires PathsDistinct(anchors) && ViewsOf(anchors) !! others && ViewsSince(anchors, first)
    requires forall a :: 0 <= a < |anchors| ==> anchors[a].path != anchor.path
    requires anchor.view !in ViewsOf(anchors) && anchor.view !in others && first <= anchor.view
    ensures PathsDistinct(anchors + [anchor]) && ViewsSince(anchors + [anchor], first)
    ensures ViewsOf(anchors + [anchor]) == ViewsOf(anchors) + {anchor.view}
    ensures ViewsOf(anchors + [anchor]) !! others
  {
    assert forall a :: 0 <= a < |anchors| ==> anchors[a].view in ViewsOf(anchors);
    hide ViewsOf;
    ViewsOneMore(anchors, anchor);
  }

  /** What the resource files of a batch come to: one for each path, handed out since number `first`,
      closed, and in a standing transaction not found changed. */
  ghost predicate ResourcesHeld(resources: seq<Anchor>, first: nat, stable: bool, b: Book) {
    && PathsDistinct(resources) && ViewsSince(resources, first)
    && forall a :: 0 <= a < |resources| ==>
         resources[a].view in b.closed && (stable ==> resources[a].view !in b.unstable)
  }

  lemma ClosedResourcesHeld(anchors: seq<Anchor>, first: nat, others: set<nat>, before: Book, after: Book, stable: bool)
    requires PathsDistinct(anchors) && ViewsSince(anchors, first) && BookIsValid(before) && BookIsValid(after)
    requires before.open == others + ViewsOf(anchors) && ViewsOf(anchors) !! others
    requires after.open == others && after.issued == before.issued && (stable ==> after.unstable == before.unstable)
    ensures ResourcesHeld(anchors, first, stable, after)
  {
    forall a | 0 <= a < |anchors|
      ensures anchors[a].view in after.closed && (stable ==> anchors[a].view !in after.unstable)
    {
      assert anchors[a].view in ViewsOf(anchors);
      hide ViewsOf;
      assert anchors[a].view in before.open && anchors[a].view < before.issued;
    }
  }

  lemma HeldWhenComplete(resources: seq<Anchor>, first: nat, stable: bool, complete: bool, b: Book)
    requires ResourcesHeld(resources, first, stable, b) && (complete ==> stable)
    ensures ResourcesHeld(resources, first, complete, b)
  {
    hide PathsDistinct, ViewsSince;
  }

  lemma SelectedAreCounted(st: TargetStats, targets: seq<TextureTarget>)
    requires StatsOf(st, targets)
    ensures st.selected == |targets|
  {
  }

  lemma AllFailedCounts(rs: seq<TextureRecord>, st: TextureStats)
    requires CountersTrue(rs, st) && forall i :: 0 <= i < |rs| ==> rs[i].status == TextureFailed
    ensures st.emitted == st.unmodified == 0
  {
    assert TextureEmitted !in Statuses(rs) && TextureUnchanged !in Statuses(rs);
    assert TextureEmitted !in multiset(Statuses(rs)) && TextureUnchanged !in multiset(Statuses(rs));
  }

  ghost predicate AllFinished(targets: seq<TextureTarget>, rs: seq<TextureRecord>, env: Environment) {
    |rs| == |targets| && forall i :: 0 <= i < |rs| ==> rs[i].target == targets[i] && IsFinished(rs[i], env)
  }

  lemma FailedKeepsDigest(r: TextureRecord, failure: TextureFailure)
    ensures var f := FailedTexture(r, failure);
            && f.digest == r.digest && f.object_ == r.object_ && f.target == r.target && !WasPublished(f)
            && SameFiles(f, r) && DrawsAlike(f, r)
  {
  }

  lemma GrowsKeeps(before: Tree, now: Tree)
    requires Grows(before, now)
    ensures Keeps(before.files, now.files)
  {
  }

  lemma StagedToCommit(targets: seq<TextureTarget>, rs: seq<TextureRecord>, env: Environment, k: nat)
    requires AllCommitting(targets, rs, env) && k < |rs| && rs[k].status == TexturePending
    ensures rs[k].object_.Some? && rs[k].staged && NamesNothing(rs[k])
  {
  }

  lemma CleanedIsFinished(targets: seq<TextureTarget>, rs: seq<TextureRecord>, env: Environment, k: nat)
    requires AllCommitting(targets, rs, env) && k < |rs| && rs[k].status != TexturePending
    ensures rs[k].stagingPath.None? && !rs[k].stagingResidue
    ensures IsFinished(rs[k].(bytes := None), env) && IsCommitting(rs[k].(bytes := None), env)
  {
  }

  lemma CommittedTargets(targets: seq<TextureTarget>, rs: seq<TextureRecord>, env: Environment)
    requires AllCommitting(targets, rs, env)
    ensures |rs| == |targets| && forall i :: 0 <= i < |rs| ==> rs[i].target == targets[i]
  {
  }

  lemma FinishedAreNotPending(targets: seq<TextureTarget>, rs: seq<TextureRecord>, env: Environment)
    requires AllFinished(targets, rs, env)
    ensures |rs| == |targets| && forall i :: 0 <= i < |rs| ==> rs[i].status != TexturePending
  {
  }

  lemma FailedLedger(r: TextureRecord, failure: TextureFailure, t: Tree)
    ensures TextureLedger(FailedTexture(r, failure), t, t)
  {
  }

  lemma LedgerOfFailed(r: TextureRecord, failure: TextureFailure, before: Tree, after: Tree)
    requires TextureLedger(r, before, after)
    ensures TextureLedger(FailedTexture(r, failure), before, after)
  {
  }

  lemma SettledLedger(p: TextureDocuments, failure: TextureFailure, asset: Artifact, meta: Artifact, residue: bool,
                      r: TextureRecord,
                      before: Tree, after: Tree, history: seq<Tree>, low: nat)
    requires TextureProgressed(p, before, after, history, low)
    requires TextureSettled(p, failure, asset, meta, residue, before, after)
    requires r.asset == asset && r.meta == meta
    ensures TextureLedger(r, before, after)
  {
  }

  lemma PublishFailureSettles(p: TextureDocuments, failure: TextureFailure, asset: Artifact, meta: Artifact,
                              residue: bool, r: TextureRecord, before: Tree, after: Tree)
    requires failure != NoTextureFailure
    requires TextureSettled(p, failure, asset, meta, residue, before, after)
    requires r.asset == asset && r.meta == meta && r.residue == residue
    ensures WroteFiles(r) ==> r.residue
  {
  }

  /** What the record knows when its texts are handed to publication. */
  ghost predicate IsReady(r: TextureRecord, env: Environment) {
    && IsUnpublished(r) && r.status == TexturePending && r.bytes.None? && r.staged && r.object_.Some?
    && (r.anchor.Some? <==> UsesStream(r)) && IsFitting(r, env) && HasIdentity(r, env)
  }

  lemma PublishSuccessSettles(p: TextureDocuments, asset: Artifact, meta: Artifact, residue: bool, r: TextureRecord,
                              before: Tree, after: Tree, env: Environment)
    requires TextureSettled(p, NoTextureFailure, asset, meta, residue, before, after)
    requires IsReady(r, env) && r.yamlOk && r.content.Some?
    ensures var emitted := asset.status == PublishEmitted || meta.status == PublishEmitted;
            var final := r.(asset := asset, meta := meta, residue := residue,
                            status := if emitted then TextureEmitted else TextureUnchanged);
            IsCommitting(final, env) && HoldsDocuments(p, final, after.files)
  {
  }

  lemma FailureCommits(r: TextureRecord, failure: TextureFailure, env: Environment)
    requires r.status == TexturePending && r.failure == NoTextureFailure && failure != NoTextureFailure
    requires r.stagingPath.None? && !r.stagingResidue && (WroteFiles(r) ==> r.residue)
    ensures var f := FailedTexture(r, failure);
            IsCommitting(f, env) && f.target == r.target && f.status == TextureFailed
  {
  }

  lemma CountersAfterCommit(rs: seq<TextureRecord>, st: TextureStats, k: nat, r: TextureRecord)
    requires k < |rs| && CountersTrue(rs, st) && rs[k].status == TexturePending && WasPublished(r)
    ensures CountersTrue(rs[k := r], if r.status == TextureEmitted then st.(emitted := st.emitted + 1)
        else st.(unmodified := st.unmodified + 1))
  {
    CountAfter(rs, k, r, TextureEmitted);
    CountAfter(rs, k, r, TextureUnchanged);
    CountAfter(rs, k, r, TextureFailed);
  }

  lemma PendingIsReady(r: TextureRecord, env: Environment)
    requires IsCommitting(r, env) && r.status == TexturePending
    ensures NamesNothing(r) && IsReady(r.(bytes := None), env)
    ensures r.object_.Some? && r.identity.Some?
  {
  }

  /** Further facts on record leave a record ready. */
  lemma ReadyStays(r: TextureRecord, before: TextureRecord, env: Environment)
    requires IsReady(before, env) && r == before.(yamlOk := r.yamlOk, content := r.content)
    ensures IsReady(r, env)
  {
  }

  lemma ReadyIsUnpublished(r: TextureRecord, env: Environment)
    requires IsReady(r, env)
    ensures r.status == TexturePending && r.failure == NoTextureFailure && r.stagingPath.None? && !r.stagingResidue
    ensures !r.residue && NamesNothing(r) && !WroteFiles(r)
  {
  }

  lemma PendingNamesNothing(targets: seq<TextureTarget>, rs: seq<TextureRecord>, env: Environment, k: nat)
    requires AllCommitting(targets, rs, env) && k < |rs| && rs[k].status == TexturePending
    ensures NamesNothing(rs[k])
  {
  }

  lemma ReadNamesNothing(targets: seq<TextureTarget>, rs: seq<TextureRecord>, anchors: seq<Anchor>, env: Environment)
    requires AllRead(targets, rs, anchors, env)
    ensures forall i :: 0 <= i < |rs| ==> NamesNothing(rs[i]) && rs[i].failure != TextureCollision
  {
    forall i | 0 <= i < |rs|
      ensures NamesNothing(rs[i]) && rs[i].failure != TextureCollision
    {
      assert IsRead(rs[i], anchors, env);
    }
  }

  lemma FailedStands(rs: seq<TextureRecord>, k: nat, r: TextureRecord, resources: seq<Anchor>, env: Environment,
                     files: map<string, Bytes>)
    requires AllTexturesStand(rs, resources, env, files) && k < |rs|
    requires !WasPublished(r) && r.failure != TextureCollision && IsAnchored(r, resources, env)
    ensures AllTexturesStand(rs[k := r], resources, env, files)
  {
    assert TextureStands(r, resources, env, files) && Keeps(files, files);
    hide TextureStands;
    StandsAfter(rs, k, r, resources, env, files, files);
  }

  /** Publishing the emitted texts makes the record stand for its pixels. */
  lemma EmittedStands(taken: TextureRecord, final: TextureRecord, resources: seq<Anchor>, env: Environment,
                      p: TextureDocuments, files: map<string, Bytes>)
    requires IsAnchored(taken, resources, env)
    requires IsEmitted(taken, env, PixelsOf(taken, resources, env), p) && HoldsDocuments(p, final, files)
    requires taken.failure != TextureCollision
    requires final == taken.(asset := final.asset, meta := final.meta, residue := final.residue, status := final.status)
    ensures TextureStands(final, resources, env, files)
  {
    StillAnchored(final, taken, resources, env);
    hide IsAnchored, PixelsOf;
  }

  /** `p` is what the emitters made of the pixels, and the record knows it. */
  ghost predicate IsEmitted(r: TextureRecord, env: Environment, pixels: Bytes, p: TextureDocuments) {
    && DocumentsOf(r, env, pixels) == Some(p) && env.sha(pixels) == r.digest && IsSizeOf(|pixels|, r)
    && r.content == Some(ContentOf(p.asset, p.meta, env))
  }

  /** The bytes taken for the commit are the slice of the held file. */
  lemma TakenAreThePixels(r: TextureRecord, resources: seq<Anchor>, env: Environment, pixels: Bytes)
    requires IsAnchored(r, resources, env) && r.staged
    requires if UsesStream(r) then r.bytes == Some(pixels) else pixels == []
    ensures pixels == PixelsOf(r, resources, env)
  {
  }

  lemma UnpublishedStands(r: TextureRecord, resources: seq<Anchor>, env: Environment, files: map<string, Bytes>)
    requires !WasPublished(r) && IsAnchored(r, resources, env)
    requires r.failure == TextureCollision ==> CollidesFor(r, env, PixelsOf(r, resources, env), files)
    ensures TextureStands(r, resources, env, files)
  {
  }

  lemma EmittedHasContent(r: TextureRecord, env: Environment, pixels: Bytes, p: TextureDocuments)
    requires IsEmitted(r, env, pixels, p)
    ensures r.content.Some?
  {
  }

  /** The three emitters succeeded on the staged record, and it knows their texts. */
  lemma TheseAreEmitted(r: TextureRecord, staged: TextureRecord, env: Environment, pixels: Bytes, path: string,
                        yaml: Bytes, meta: Bytes)
    requires r.target == staged.target && r.object_ == staged.object_ && IsSizeOf(|pixels|, staged)
    requires r.object_.Some? && r.identity.Some? && env.sha(pixels) == r.digest
    requires env.assetPath(r.object_.value, r.identity.value.hex) == Some(path)
    requires env.yaml(r.object_.value, pixels) == Some(yaml)
    requires env.metadata(r.target.classId, r.identity.value.guid) == Some(meta)
    requires r.content == Some(ContentOf(yaml, meta, env))
    ensures IsEmitted(r, env, pixels, TextureDocuments(path, yaml, meta))
  {
  }

  lemma LedgerIgnoresStatus(r: TextureRecord, final: TextureRecord, before: Tree, after: Tree)
    requires TextureLedger(r, before, after) && SameFiles(r, final)
    ensures TextureLedger(final, before, after)
  {
  }

  lemma ItCommits(targets: seq<TextureTarget>, rs: seq<TextureRecord>, env: Environment, k: nat)
    requires AllCommitting(targets, rs, env) && k < |rs|
    ensures IsCommitting(rs[k], env) && rs[k].target == targets[k]
  {
  }

  lemma ReadIsPendingOrFailed(targets: seq<TextureTarget>, rs: seq<TextureRecord>, anchors: seq<Anchor>,
                              env: Environment, k: nat)
    requires AllRead(targets, rs, anchors, env) && k < |rs|
    ensures rs[k].status in {TexturePending, TextureFailed}
  {
    assert IsRead(rs[k], anchors, env);
  }

  lemma NewRecordsRead(targets: seq<TextureTarget>, rs: seq<TextureRecord>, st: TextureStats, env: Environment)
    requires |rs| == |targets| && st == TextureStats(0, 0, 0) && forall i :: 0 <= i < |rs| ==>
        rs[i] == NewRecord(targets[i])
    ensures AllRead(targets, rs, [], env) && CountersTrue(rs, st) && AllSettled(rs) && ViewsOf([]) == {}
    ensures PathsDistinct([])
  {
    assert forall i :: 0 <= i < |rs| ==> Statuses(rs)[i] == TexturePending;
    assert forall s :: s in Statuses(rs) ==> s == TexturePending;
    assert TextureEmitted !in multiset(Statuses(rs)) && TextureUnchanged !in multiset(Statuses(rs)) &&
        TextureFailed !in multiset(Statuses(rs));
  }

  lemma NoneHeld(snapshots: seq<Snapshot>)
    ensures HeldViews(snapshots[..0]) == {}
  {
  }

  lemma OneMoreHeld(snapshots: seq<Snapshot>, index: nat, open: set<nat>)
    requires index < |snapshots| && ViewsDiffer(snapshots) && HeldViews(snapshots) <= open
    ensures var s, held := snapshots[index], open - HeldViews(snapshots[..index]);
            && (s.isOpen ==> s.view in held)
            && open - HeldViews(snapshots[..index + 1]) == if s.isOpen then held - {s.view} else held
  {
    var before, after := snapshots[..index], snapshots[..index + 1];
    assert forall i :: 0 <= i < index ==> before[i] == snapshots[i] && after[i] == snapshots[i];
    assert after[index] == snapshots[index];
    forall v | v in HeldViews(before)
      ensures v in HeldViews(after)
    {
      var i :| 0 <= i < |before| && before[i].isOpen && before[i].view == v;
      assert after[i].view == v;
    }
    if snapshots[index].isOpen {
      assert snapshots[index].view in HeldViews(snapshots) && after[index].view in HeldViews(after);
    }
  }

  lemma ReadIsCommitting(targets: seq<TextureTarget>, rs: seq<TextureRecord>, anchors: seq<Anchor>, env: Environment)
    requires AllRead(targets, rs, anchors, env)
    requires forall i :: 0 <= i < |rs| && rs[i].status == TexturePending ==> rs[i].staged
    ensures AllCommitting(targets, rs, env) && forall i :: 0 <= i < |rs| ==>
        rs[i].status in {TexturePending, TextureFailed}
  {
    hide IsAnchored;
    forall i | 0 <= i < |rs|
      ensures IsCommitting(rs[i], env) && rs[i].status in {TexturePending, TextureFailed}
    {
      assert IsRead(rs[i], anchors, env);
    }
  }

  /** A retained input snapshot; `view` is its held identity while it is open. */
  datatype Snapshot = Snapshot(path: Option<string>, isOpen: bool, view: nat)

  predicate IsHeld(snapshots: seq<Snapshot>, path: string) {
    exists i :: 0 <= i < |snapshots| && snapshots[i].isOpen && snapshots[i].path == Some(path)
  }

  /** Every catalog source has an open snapshot. */
  predicate AllHeld(snapshots: seq<Snapshot>, sources: seq<Source>) {
    forall s :: 0 <= s < |sources| ==> IsHeld(snapshots, sources[s].outerPath)
  }

  predicate AllOpen(snapshots: seq<Snapshot>) {
    forall i :: 0 <= i < |snapshots| ==> snapshots[i].isOpen && snapshots[i].path.Some?
  }

  lemma OneMoreOpen(snapshots: seq<Snapshot>, index: nat)
    requires index < |snapshots|
    ensures AllOpen(snapshots[..index + 1]) <==>
        AllOpen(snapshots[..index]) && snapshots[index].isOpen && snapshots[index].path.Some?
  {
    var before, after := snapshots[..index], snapshots[..index + 1];
    assert after == before + [snapshots[index]];
  }

  ghost function HeldViews(snapshots: seq<Snapshot>): set<nat> {
    set i | 0 <= i < |snapshots| && snapshots[i].isOpen :: snapshots[i].view
  }

  ghost predicate ViewsDiffer(snapshots: seq<Snapshot>) {
    forall i, j :: 0 <= i < j < |snapshots| && snapshots[i].isOpen && snapshots[j].isOpen ==>
      snapshots[i].view != snapshots[j].view
  }

  /** The anchor of a record does not change and a failed record stays failed. */
  ghost predicate FailuresStay(before: seq<TextureRecord>, after: seq<TextureRecord>) {
    |before| == |after| && forall i :: 0 <= i < |after| ==>
      after[i].anchor == before[i].anchor && (before[i].status == TextureFailed ==> after[i].status == TextureFailed)
  }

  /** Every record that read one of the first `n` anchors has failed if that file was found changed. */
  ghost predicate AnchorsSettled(rs: seq<TextureRecord>, anchors: seq<Anchor>, n: nat, unstable: set<nat>) {
    n <= |anchors| && forall i :: 0 <= i < |rs| && rs[i].anchor.Some? && rs[i].anchor.value < n ==>
      anchors[rs[i].anchor.value].view in unstable ==> rs[i].status == TextureFailed
  }

  lemma NoAnchorSettled(rs: seq<TextureRecord>, anchors: seq<Anchor>, unstable: set<nat>)
    ensures AnchorsSettled(rs, anchors, 0, unstable)
  {
  }

  lemma OneMoreAnchorSettled(before: seq<TextureRecord>, after: seq<TextureRecord>, anchors: seq<Anchor>, at: nat,
                             unstable: set<nat>, stable: bool)
    requires AnchorsSettled(before, anchors, at, unstable) && FailuresStay(before, after) && PathsDistinct(anchors)
    requires at < |anchors| && anchors[at].view !in unstable
    requires !stable ==> forall i :: 0 <= i < |after| && after[i].anchor == Some(at) ==>
        after[i].status == TextureFailed
    ensures AnchorsSettled(after, anchors, at + 1, unstable + if stable then {} else {anchors[at].view})
  {
    forall i | 0 <= i < |after| && after[i].anchor.Some? && after[i].anchor.value < at
      ensures anchors[after[i].anchor.value].view != anchors[at].view
    {
    }
  }

  lemma OnlyGrows(a: set<nat>, b: set<nat>, c: set<nat>)
    requires a <= b <= c
    ensures c == a <==> b == a && c == b
  {
  }

  lemma NoneClosed(anchors: seq<Anchor>)
    ensures anchors[0..] == anchors
  {
  }

  lemma NoViewsLeft(anchors: seq<Anchor>)
    ensures ViewsOf(anchors[|anchors|..]) == {}
  {
  }

  lemma ViewsOneFewer(anchors: seq<Anchor>, at: nat, others: set<nat>)
    requires PathsDistinct(anchors) && at < |anchors| && ViewsOf(anchors) !! others
    ensures anchors[at].view in ViewsOf(anchors[at..]) && anchors[at].view !in others
    ensures ViewsOf(anchors[at..]) - {anchors[at].view} == ViewsOf(anchors[at + 1..])
  {
    var rest, fewer := anchors[at..], anchors[at + 1..];
    assert rest[0] == anchors[at] && anchors[at].view in ViewsOf(anchors);
    assert forall a :: 0 <= a < |fewer| ==> fewer[a] == rest[a + 1] && fewer[a] == anchors[at + 1 + a];
    forall v | v in ViewsOf(fewer)
      ensures v in ViewsOf(rest) && v != anchors[at].view
    {
      var a :| 0 <= a < |fewer| && fewer[a].view == v;
      assert rest[a + 1].view == v;
    }
    forall v | v in ViewsOf(rest) && v != anchors[at].view
      ensures v in ViewsOf(fewer)
    {
      var a :| 0 <= a < |rest| && rest[a].view == v;
      assert fewer[a - 1].view == v;
    }
  }

  /** A stream without a name resolves to no path. */
  ghost predicate NeedNames(env: Environment) {
    forall s :: env.paths(s, []).None?
  }

  lemma NamesAreNeeded(env: Environment, source: nat)
    requires NeedNames(env)
    ensures env.paths(source, []).None?
  {
  }

  lemma ElsewhereItself(rs: seq<TextureRecord>, source: nat)
    ensures SettledElsewhere(rs, rs, source)
  {
  }

  lemma ElsewhereThenStays(a: seq<TextureRecord>, b: seq<TextureRecord>, c: seq<TextureRecord>, source: nat)
    requires SettledElsewhere(a, b, source) && SettledStays(b, c)
    ensures SettledElsewhere(a, c, source)
  {
    hide IsSettledForStaging;
    forall j | 0 <= j < |c|
      ensures StaysSettled(b[j], c[j])
    {
    }
  }

  lemma ElsewhereAfterDecode(a: seq<TextureRecord>, b: seq<TextureRecord>, k: nat, r: TextureRecord, source: nat)
    requires SettledElsewhere(a, b, source) && k < |b| && r.target.sourceIndex == source
    ensures SettledElsewhere(a, b[k := r], source)
  {
    hide IsSettledForStaging;
  }

  lemma DecodedIsRead(targets: seq<TextureTarget>, rs: seq<TextureRecord>, anchors: seq<Anchor>, env: Environment,
                      k: nat, object_: TextureObject)
    requires AllRead(targets, rs, anchors, env) && k < |rs| && rs[k].object_.None?
    requires IsFitting(rs[k].(object_ := Some(object_)), env)
    ensures AllRead(targets, rs[k := rs[k].(object_ := Some(object_))], anchors, env)
  {
    ItIsRead(targets, rs, anchors, env, k);
    var r := rs[k].(object_ := Some(object_));
    assert IsRead(r, anchors, env);
    hide AllRead, IsRead;
    AllReadAfter(targets, rs, anchors, env, k, r);
  }

  lemma AllStaySettled(before: seq<TextureRecord>, after: seq<TextureRecord>)
    requires SettledStays(before, after)
    ensures AllSettled(before) ==> AllSettled(after)
  {
    hide IsSettledForStaging;
    if AllSettled(before) {
      forall j | 0 <= j < |after|
        ensures IsSettledForStaging(after[j])
      {
        assert StaysSettled(before[j], after[j]);
      }
    }
  }

  lemma AllSettledAgain(before: seq<TextureRecord>, decoded: seq<TextureRecord>, after: seq<TextureRecord>, source: nat)
    requires SettledElsewhere(before, decoded, source) && SettledStays(decoded, after) && SourceSettled(after, source)
    ensures AllSettled(before) ==> AllSettled(after)
  {
    hide IsSettledForStaging;
    if AllSettled(before) {
      forall j | 0 <= j < |after|
        ensures IsSettledForStaging(after[j])
      {
        assert StaysSettled(decoded[j], after[j]);
      }
    }
  }

  /** Every record of the source without a stream is out of the way. */
  ghost predicate PlainSettled(rs: seq<TextureRecord>, source: nat) {
    forall j :: 0 <= j < |rs| && rs[j].target.sourceIndex == source && !UsesStream(rs[j]) ==> IsSettledForStaging(rs[j])
  }

  lemma PlainIsSettled(rs: seq<TextureRecord>, source: nat, k: nat)
    requires PlainSettled(rs, source) && k < |rs|
    ensures rs[k].target.sourceIndex == source && !UsesStream(rs[k]) ==> IsSettledForStaging(rs[k])
  {
  }

  lemma PlainStaysSettled(before: seq<TextureRecord>, after: seq<TextureRecord>, source: nat)
    requires PlainSettled(before, source) && SettledStays(before, after)
    ensures PlainSettled(after, source)
  {
    hide IsSettledForStaging;
    forall j | 0 <= j < |after| && after[j].target.sourceIndex == source && !UsesStream(after[j])
      ensures IsSettledForStaging(after[j])
    {
      assert StaysSettled(before[j], after[j]);
    }
  }

  lemma PrefixStaysSettled(before: seq<TextureRecord>, after: seq<TextureRecord>, source: nat, n: nat)
    requires SettledStays(before, after) && n < |before|
    requires forall j :: 0 <= j < n && before[j].target.sourceIndex == source ==> IsSettledForStaging(before[j])
    ensures |after| == |before| && forall j :: 0 <= j < n && after[j].target.sourceIndex == source ==>
        IsSettledForStaging(after[j])
    ensures after[n].target == before[n].target && after[n].object_ == before[n].object_
  {
    hide IsSettledForStaging;
    forall j | 0 <= j < |after|
      ensures StaysSettled(before[j], after[j])
    {
    }
  }

  lemma UnsettledUsesStream(rs: seq<TextureRecord>, source: nat, k: nat)
    requires k < |rs| && PlainSettled(rs, source) && rs[k].target.sourceIndex == source
    requires rs[k].object_.Some? && rs[k].status == TexturePending && !rs[k].staged
    ensures UsesStream(rs[k])
  {
  }

  lemma SettledUnlessNamed(r: TextureRecord)
    ensures r.status != TexturePending || r.staged ==> IsSettledForStaging(r)
  {
  }

  lemma AnchoredIsRead(targets: seq<TextureTarget>, rs: seq<TextureRecord>, anchors: seq<Anchor>, env: Environment,
                       k: nat, anchor: nat)
    requires AllRead(targets, rs, anchors, env) && k < |rs| && anchor < |anchors| && UsesStream(rs[k])
    requires !rs[k].staged
    requires env.paths(rs[k].target.sourceIndex, StreamPath(rs[k])) == Some(anchors[anchor].path)
    ensures AllRead(targets, rs[k := rs[k].(resourceOk := true, anchor := Some(anchor))], anchors, env)
    ensures SettledStays(rs, rs[k := rs[k].(resourceOk := true, anchor := Some(anchor))])
  {
    ItIsRead(targets, rs, anchors, env, k);
    var r := rs[k].(resourceOk := true, anchor := Some(anchor));
    SettledStaysAfter(rs, k, r);
    hide AllRead, SettledStays;
    AllReadAfter(targets, rs, anchors, env, k, r);
  }

  /** A record that has been read further keeps what holds while sources are read. */
  lemma StagedKeeps(targets: seq<TextureTarget>, rs: seq<TextureRecord>, st: TextureStats, anchors: seq<Anchor>,
                    env: Environment,
                    k: nat, r: TextureRecord)
    requires AllRead(targets, rs, anchors, env) && CountersTrue(rs, st) && k < |rs|
    requires IsRead(r, anchors, env) && r.target == rs[k].target && r.status == rs[k].status
    ensures AllRead(targets, rs[k := r], anchors, env) && CountersTrue(rs[k := r], st)
  {
    AllReadAfter(targets, rs, anchors, env, k, r);
    CountersIgnore(rs, st, k, r);
  }

  lemma StagedSettles(rs: seq<TextureRecord>, k: nat, r: TextureRecord)
    requires k < |rs| && r.target == rs[k].target && r.object_ == rs[k].object_
    requires r.status == TexturePending ==> r.staged
    ensures IsSettledForStaging(r) && SettledStays(rs, rs[k := r])
  {
    SettledStaysAfter(rs, k, r);
  }

  lemma ItIsRead(targets: seq<TextureTarget>, rs: seq<TextureRecord>, anchors: seq<Anchor>, env: Environment, k: nat)
    requires AllRead(targets, rs, anchors, env) && k < |rs|
    ensures IsRead(rs[k], anchors, env)
  {
  }

  lemma StaysItself(rs: seq<TextureRecord>)
    ensures SettledStays(rs, rs)
  {
  }

  /** The counters depend on the statuses only. */
  lemma CountersIgnore(rs: seq<TextureRecord>, st: TextureStats, k: nat, r: TextureRecord)
    requires k < |rs| && CountersTrue(rs, st) && r.status == rs[k].status
    ensures CountersTrue(rs[k := r], st)
  {
    CountAfter(rs, k, r, TextureEmitted);
    CountAfter(rs, k, r, TextureUnchanged);
    CountAfter(rs, k, r, TextureFailed);
  }

  /** The resource status plays no part in what holds while sources are read. */
  lemma Relabel(targets: seq<TextureTarget>, rs: seq<TextureRecord>, anchors: seq<Anchor>, env: Environment, k: nat,
                resourceOk: bool)
    requires AllRead(targets, rs, anchors, env) && k < |rs| && (rs[k].status == TexturePending ==> resourceOk)
    ensures AllRead(targets, rs[k := rs[k].(resourceOk := resourceOk)], anchors, env)
    ensures SettledStays(rs, rs[k := rs[k].(resourceOk := resourceOk)])
  {
    AllReadAfter(targets, rs, anchors, env, k, rs[k].(resourceOk := resourceOk));
    SettledStaysAfter(rs, k, rs[k].(resourceOk := resourceOk));
  }

  /** The counters after record_fail. */
  function FailedStats(st: TextureStats, r: TextureRecord): TextureStats {
    if r.status == TextureFailed then st
    else if r.status == TextureEmitted && st.emitted != 0 then st.(emitted := st.emitted - 1, failed := st.failed + 1)
    else if r.status == TextureUnchanged && st.unmodified != 0 then
      st.(unmodified := st.unmodified - 1, failed := st.failed + 1)
    else st.(failed := st.failed + 1)
  }

  /** The guards against counting below zero never matter. */
  lemma CountersAfterFail(rs: seq<TextureRecord>, st: TextureStats, k: nat, failure: TextureFailure)
    requires k < |rs| && CountersTrue(rs, st)
    ensures CountersTrue(rs[k := FailedTexture(rs[k], failure)], FailedStats(st, rs[k]))
  {
    CountAfter(rs, k, FailedTexture(rs[k], failure), TextureEmitted);
    CountAfter(rs, k, FailedTexture(rs[k], failure), TextureUnchanged);
    CountAfter(rs, k, FailedTexture(rs[k], failure), TextureFailed);
    CountIsPositive(rs, k);
    hide CountOf, WroteFiles;
  }

  lemma FailKeeps(targets: seq<TextureTarget>, rs: seq<TextureRecord>, anchors: seq<Anchor>, env: Environment,
                  k: nat, failure: TextureFailure)
    requires k < |rs|
    ensures SettledStays(rs, rs[k := FailedTexture(rs[k], failure)])
    ensures AllRead(targets, rs, anchors, env) && IsReadFailure(failure) ==>
              AllRead(targets, rs[k := FailedTexture(rs[k], failure)], anchors, env)
  {
    SettledStaysAfter(rs, k, FailedTexture(rs[k], failure));
    FailedKeepsTarget(rs[k], failure);
    hide FailedTexture, IsRead, IsIdle, SettledStays;
    if AllRead(targets, rs, anchors, env) && IsReadFailure(failure) {
      FailedIsRead(rs[k], failure, anchors, env);
      AllReadAfter(targets, rs, anchors, env, k, FailedTexture(rs[k], failure));
    }
  }

  lemma FailedKeepsTarget(r: TextureRecord, failure: TextureFailure)
    ensures var f := FailedTexture(r, failure);
            && f.target == r.target && f.object_ == r.object_
            && f.status == TextureFailed && f.anchor == r.anchor && DrawsAlike(f, r)
  {
  }

  /** The fields of a finished batch the census reads. */
  datatype Outcome = Outcome(
    records: seq<TextureRecord>, stats: TextureStats, targetStats: TargetStats,
    complete: bool, reason: TextureFailure, cleanupComplete: bool, residueCount: nat)

  /** What an export guarantees of its result, made under the selection `sel`. */
  ghost predicate IsExport(c: Catalog, sel: seq<bool>, graph: PointerGraph, env: Environment, o: Outcome)
    requires |sel| == c.shaderCount
  {
    && AllFinished(Population(c, sel, graph), o.records, env) && CountersTrue(o.records, o.stats)
    && StatsOf(o.targetStats, Population(c, sel, graph))
    && o.cleanupComplete && o.residueCount == 0 && (o.complete <==> o.reason == NoTextureFailure)
  }
}
