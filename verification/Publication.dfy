/** Exact publication of a material and its two companions into an output tree that other processes
    may add to at any time. */
module Publication {
  import opened Basics
  import opened Decimals
  import opened MaterialLedger

  type Bytes = seq<Byte>

  datatype Preflight = PreflightMissing | PreflightUnchanged | PreflightCollision | PreflightIoError

  /** The files of the output tree, and those of them this process has written. */
  datatype Tree = Tree(files: map<string, Bytes>, written: map<string, Bytes>)

  /** Nothing is altered or removed: every file keeps its bytes. */
  ghost predicate Keeps(before: map<string, Bytes>, after: map<string, Bytes>) {
    forall p :: p in before ==> p in after && after[p] == before[p]
  }

  ghost predicate Holds(files: map<string, Bytes>, path: string, data: Bytes) {
    path in files && files[path] == data
  }

  /** Another file stands at the path. */
  ghost predicate Taken(files: map<string, Bytes>, path: string, data: Bytes) {
    path in files && files[path] != data
  }

  /** The files keep their bytes and the set of written files only grows. */
  ghost predicate Grows(before: Tree, after: Tree) {
    Keeps(before.files, after.files) && before.written.Keys <= after.written.Keys
  }

  lemma GrowsThrough(a: Tree, b: Tree, c: Tree)
    requires Grows(a, b) && Grows(b, c)
    ensures Grows(a, c)
  {
  }

  /** So it is between `start` and `now` in every state from number `low` on. */
  ghost predicate AlwaysGrows(start: Tree, now: Tree, history: seq<Tree>, low: nat) {
    Grows(start, now) && forall k :: low <= k < |history| ==> Grows(start, history[k]) && Grows(history[k], now)
  }

  lemma AlwaysGrowsThrough(start: Tree, middle: Tree, now: Tree, history: seq<Tree>, history': seq<Tree>, low: nat)
    requires low <= |history| && history <= history'
    requires AlwaysGrows(start, middle, history, low) && AlwaysGrows(middle, now, history', |history|)
    ensures AlwaysGrows(start, now, history', low)
  {
    hide Grows;
    GrowsThrough(start, middle, now);
    forall k | low <= k < |history'|
      ensures Grows(start, history'[k]) && Grows(history'[k], now)
    {
      if k < |history| {
        assert history'[k] == history[k];
        GrowsThrough(history[k], middle, now);
      } else {
        GrowsThrough(start, middle, history'[k]);
      }
    }
  }

  /** One exact publication: never overwrites; an I/O error may leave the exact file behind. */
  ghost predicate Step(before: Tree, after: Tree, path: string, data: Bytes, s: PublishStatus) {
    && Keeps(before.files, after.files)
    && (after.written == before.written
        || (path !in before.written && after.written == before.written[path := data] &&
          s in {PublishEmitted, PublishIoError}))
    && (s == PublishEmitted ==> path in after.written && path !in before.written)
    && (path in after.written && path !in before.written ==> path !in before.files)
    && (s in {PublishEmitted, PublishUnchanged} ==> Holds(after.files, path, data))
    && (s == PublishCollision ==> Taken(after.files, path, data))
    && (Holds(before.files, path, data) ==> s in {PublishUnchanged, PublishIoError} && after.written == before.written)
  }

  lemma StepCollides(before: Tree, after: Tree, path: string, data: Bytes, s: PublishStatus)
    requires Step(before, after, path, data, s) && s == PublishCollision
    ensures Taken(after.files, path, data)
  {
  }

  /** The files on disk; `errors` counts the input and output errors met. */
  class OutputStore {
    var files: map<string, Bytes>
    ghost var written: map<string, Bytes>
    ghost var history: seq<Tree>
    ghost var errors: nat

    ghost predicate Valid()
      reads this
    {
      forall p :: p in written ==> Holds(files, p, written[p])
    }

    constructor (initial: map<string, Bytes>)
      ensures Valid() && files == initial && written == map[] && history == [] && errors == 0
    {
      files, written, history, errors := initial, map[], [], 0;
    }

    /** Other processes create files at paths that are still free. */
    method OthersAct()
      requires Valid()
      modifies this`files
      ensures Valid() && Keeps(old(files), files)
    {
      var others: map<string, Bytes> := *;
      files := others + files;
    }

    /** common_output_preflight_exact. */
    method PreflightExact(path: string, data: Bytes) returns (s: Preflight)
      requires Valid()
      modifies this`files, this`errors
      ensures Valid() && Keeps(old(files), files)
      ensures errors == old(errors) + One(s == PreflightIoError)
      ensures s != PreflightIoError ==>
                s == if path !in old(files) then PreflightMissing
                     else if old(files)[path] == data then PreflightUnchanged else PreflightCollision
    {
      var failed: bool := *;
      s := if failed then PreflightIoError
           else if path !in files then PreflightMissing
           else if files[path] == data then PreflightUnchanged else PreflightCollision;
      errors := errors + One(failed);
      OthersAct();
    }

    ghost function Now(): Tree
      reads this
    {
      Tree(files, written)
    }

    /** common_output_publish_exact. */
    method PublishExact(path: string, data: Bytes) returns (s: PublishStatus)
      requires Valid()
      modifies this
      ensures Valid() && Step(old(Now()), Now(), path, data, s)
      ensures history == old(history) + [Now()] && errors == old(errors) + One(s == PublishIoError)
    {
      OthersAct();
      var failed: bool := *;
      errors := errors + One(failed);
      if path in files {
        s := if failed then PublishIoError else if files[path] == data then PublishUnchanged else PublishCollision;
      } else {
        var leftBehind: bool := *;
        s := if failed then PublishIoError else PublishEmitted;
        if !failed || leftBehind {
          files := files[path := data];
          written := written[path := data];
        }
      }
      history := history + [Tree(files, written)];
    }

    /** common_output_publish_exact_residue_possible. */
    method ResiduePossible(preflight: Preflight, s: PublishStatus, path: string, data: Bytes) returns (possible: bool)
      ensures possible <==> preflight == PreflightMissing && s == PublishIoError && Holds(files, path, data)
    {
      possible := preflight == PreflightMissing && s == PublishIoError && path in files && files[path] == data;
    }
  }

  // ---------- One material ----------

  /** What precedes publication: the emitted texts and the derived identity, or the step that failed. */
  datatype Prepared =
    | NotPrepared(failure: Failure, guid: string, identityHex: string, yamlOk: bool)
    | Ready(materialPath: string, yaml: Bytes, meta: Bytes, evidence: Bytes, guid: string, identityHex: string)

  /** The companions' paths are the material path with a suffix. */
  function MetaPath(p: Prepared): string
    requires p.Ready?
  {
    p.materialPath + ".meta"
  }

  function EvidencePath(p: Prepared): string
    requires p.Ready?
  {
    p.materialPath + ".dependencies.json"
  }

  ghost predicate IsPrepared(p: Prepared) {
    match p
    case NotPrepared(failure, _, _, _) =>
      failure in {MaterialYaml, MaterialGuid, MaterialMeta, OutputName, OutputDirectory, DependencyEvidence}
    case Ready(_, _, _, _, guid, hex) => IsHexText(guid, 32) && IsHexText(hex, 64)
  }

  /** Another file stands at one of the three paths. */
  ghost predicate AnyTaken(p: Prepared, files: map<string, Bytes>)
    requires p.Ready?
  {
    || Taken(files, p.materialPath, p.yaml) || Taken(files, MetaPath(p), p.meta)
    || Taken(files, EvidencePath(p), p.evidence)
  }

  lemma StaysTaken(p: Prepared, before: map<string, Bytes>, after: map<string, Bytes>)
    requires p.Ready? && AnyTaken(p, before) && Keeps(before, after)
    ensures AnyTaken(p, after)
  {
  }

  lemma CompanionNames(p: Prepared)
    requires p.Ready?
    ensures MetaPath(p) == p.materialPath + ".meta" && EvidencePath(p) == p.materialPath + ".dependencies.json"
  {
  }

  lemma PathsDiffer(p: Prepared)
    requires p.Ready?
    ensures p.materialPath != MetaPath(p) && p.materialPath != EvidencePath(p) && MetaPath(p) != EvidencePath(p)
  {
    assert |MetaPath(p)| == |p.materialPath| + 5 && |EvidencePath(p)| == |p.materialPath| + 18;
  }

  /** A material written by this run has both companions beside it, byte for byte. */
  ghost predicate CompanionsFirst(p: Prepared, before: map<string, Bytes>, t: Tree)
    requires p.Ready?
  {
    p.materialPath in t.written && p.materialPath !in before ==>
      Holds(t.files, MetaPath(p), p.meta) && Holds(t.files, EvidencePath(p), p.evidence)
  }

  /** A file written during the call stands in the record's ledger. */
  ghost predicate Accounted(path: string, a: Artifact, before: map<string, Bytes>, after: map<string, Bytes>) {
    path in after && path !in before ==> a.path == Some(path)
  }

  /** The outcomes of an attempt after which the file may be new. */
  predicate MayHaveWritten(s: PublishStatus) {
    s == PublishEmitted || s == PublishIoError
  }

  predicate Succeeded(s: PublishStatus) {
    s == PublishEmitted || s == PublishUnchanged
  }

  /** What one attempted or skipped publication leaves: the file is new only after an attempt that was
      emitted or failed with an I/O error, and stands exactly after an attempt that succeeded. */
  ghost predicate Attempted(path: string, data: Bytes, a: Artifact, before: Tree, after: Tree) {
    && a.path == None
    && (path in after.written && path !in before.written ==>
         a.attempted && a.status in {PublishEmitted, PublishIoError} && Holds(after.files, path, data))
    && (a.attempted && Succeeded(a.status) ==> Holds(after.files, path, data))
    && (a.attempted && a.status == PublishEmitted ==> path in after.written && path !in before.written)
    && (a.attempted && Holds(before.files, path, data) ==> a.status in {PublishUnchanged, PublishIoError})
    && (Holds(before.files, path, data) && path in after.written ==> path in before.written)
    && (!a.attempted ==> a.status == PublishIoError)
  }

  /** What the three attempts or non-attempts leave together. */
  ghost predicate Outcome(p: Prepared, material: Artifact, meta: Artifact, evidence: Artifact, before: Tree,
                          after: Tree)
    requires p.Ready?
  {
    && Attempted(p.materialPath, p.yaml, material, before, after)
    && Attempted(MetaPath(p), p.meta, meta, before, after)
    && Attempted(EvidencePath(p), p.evidence, evidence, before, after)
  }

  lemma NothingAttempted(path: string, data: Bytes, t: Tree)
    ensures Attempted(path, data, NO_ARTIFACT, t, t)
  {
  }

  lemma AttemptedByStep(path: string, data: Bytes, s: PublishStatus, before: Tree, middle: Tree, after: Tree)
    requires Attempted(path, data, NO_ARTIFACT, before, middle) && Grows(before, middle)
    requires Step(middle, after, path, data, s)
    requires forall q :: q in after.written ==> Holds(after.files, q, after.written[q])
    ensures Attempted(path, data, Artifact(None, true, s), before, after)
  {
  }

  lemma UnaffectedByStep(path: string, data: Bytes, a: Artifact, other: string, otherData: Bytes, s: PublishStatus,
                         before: Tree, middle: Tree, after: Tree)
    requires Attempted(path, data, a, before, middle) && Step(middle, after, other, otherData, s) && path != other
    ensures Attempted(path, data, a, before, after)
  {
  }

  /** Every state of the output tree from number `low` on lies between `before` and `after`, and in each
      of them a new material file has its companions; only the three files of `p` are new. */
  ghost predicate Progressed(p: Prepared, before: Tree, after: Tree, history: seq<Tree>, low: nat)
    requires p.Ready?
  {
    && Grows(before, after) && CompanionsFirst(p, before.written, after)
    && (forall k :: low <= k < |history| ==>
         Grows(before, history[k]) && Grows(history[k], after) && CompanionsFirst(p, before.written, history[k]))
    && (forall path :: path in after.written && path !in before.written ==>
          path !in before.files && path in {p.materialPath, MetaPath(p), EvidencePath(p)})
  }

  lemma NothingProgressed(p: Prepared, before: Tree, t: Tree, history: seq<Tree>)
    requires p.Ready? && Keeps(before.files, t.files) && before.written == t.written
    ensures Progressed(p, before, t, history, |history|)
  {
  }

  lemma ProgressedGrows(p: Prepared, before: Tree, after: Tree, history: seq<Tree>, low: nat)
    requires p.Ready? && Progressed(p, before, after, history, low)
    ensures Grows(before, after)
  {
  }

  lemma ProgressedFromEarlier(p: Prepared, earlier: Tree, before: Tree, after: Tree, history: seq<Tree>, low: nat)
    requires p.Ready? && Keeps(earlier.files, before.files) && earlier.written == before.written
    requires Progressed(p, before, after, history, low)
    ensures Progressed(p, earlier, after, history, low)
  {
  }

  lemma ProgressedByStep(p: Prepared, path: string, data: Bytes, s: PublishStatus, before: Tree, middle: Tree,
                         after: Tree, history: seq<Tree>, low: nat)
    requires p.Ready? && Progressed(p, before, middle, history, low) && Step(middle, after, path, data, s)
    requires path in {p.materialPath, MetaPath(p), EvidencePath(p)}
    requires path == p.materialPath ==>
        Holds(middle.files, MetaPath(p), p.meta) && Holds(middle.files, EvidencePath(p), p.evidence)
    ensures Progressed(p, before, after, history + [after], low)
  {
    assert Grows(middle, after);
    forall k | low <= k < |history|
      ensures Grows(history[k], after)
    {
      assert Grows(history[k], middle);
    }
    PathsDiffer(p);
  }

  /** The three publications: companions first, the material only after both succeeded. */
  method PublishInOrder(p: Prepared, store: OutputStore) returns (material: Artifact, meta: Artifact,
                        evidence: Artifact, last: PublishStatus)
    requires store.Valid() && p.Ready?
    modifies store
    ensures store.Valid() && old(store.history) <= store.history
    ensures Progressed(p, old(store.Now()), store.Now(), store.history, |old(store.history)|)
    ensures Outcome(p, material, meta, evidence, old(store.Now()), store.Now())
    ensures meta.attempted
    ensures last == PublishCollision ==> AnyTaken(p, store.files)
    ensures store.errors == old(store.errors) + One(last == PublishIoError)
    ensures if Succeeded(last) then evidence.attempted && material.attempted && Succeeded(meta.status) &&
        Succeeded(evidence.status) && material.status == last
            else !(Succeeded(material.status) && material.attempted)
  {
    hide Outcome, Progressed, Step, MetaPath, EvidencePath;
    material, evidence := NO_ARTIFACT, NO_ARTIFACT;
    ghost var t0, history := store.Now(), store.history;

    last := store.PublishExact(MetaPath(p), p.meta);
    meta := Artifact(None, true, last);
    ghost var t1 := store.Now();
    AfterMeta(p, last, t0, t1, history);
    if last == PublishCollision { StepCollides(t0, t1, MetaPath(p), p.meta, last); }
    if last == PublishCollision || last == PublishIoError { return; }

    last := store.PublishExact(EvidencePath(p), p.evidence);
    evidence := Artifact(None, true, last);
    ghost var t2 := store.Now();
    AfterEvidence(p, meta, last, t0, t1, t2, history + [t1], |history|);
    if last == PublishCollision { StepCollides(t1, t2, EvidencePath(p), p.evidence, last); }
    if last == PublishCollision || last == PublishIoError { return; }

    last := store.PublishExact(p.materialPath, p.yaml);
    material := Artifact(None, true, last);
    ghost var t3 := store.Now();
    AfterMaterial(p, meta, evidence, last, t0, t2, t3, history + [t1] + [t2], |history|);
    if last == PublishCollision { StepCollides(t2, t3, p.materialPath, p.yaml, last); }
  }

  ghost predicate AllExact(t: Tree) {
    forall q :: q in t.written ==> Holds(t.files, q, t.written[q])
  }

  lemma AfterMeta(p: Prepared, s: PublishStatus, t0: Tree, t1: Tree, history: seq<Tree>)
    requires p.Ready? && Step(t0, t1, MetaPath(p), p.meta, s) && AllExact(t1)
    ensures Progressed(p, t0, t1, history + [t1], |history|)
    ensures Outcome(p, NO_ARTIFACT, Artifact(None, true, s), NO_ARTIFACT, t0, t1)
  {
    hide Attempted, Progressed, Step, MetaPath, EvidencePath;
    PathsDiffer(p);
    NothingProgressed(p, t0, t0, history);
    ProgressedByStep(p, MetaPath(p), p.meta, s, t0, t0, t1, history, |history|);
    NothingAttempted(p.materialPath, p.yaml, t0);
    NothingAttempted(MetaPath(p), p.meta, t0);
    NothingAttempted(EvidencePath(p), p.evidence, t0);
    AttemptedByStep(MetaPath(p), p.meta, s, t0, t0, t1);
    UnaffectedByStep(EvidencePath(p), p.evidence, NO_ARTIFACT, MetaPath(p), p.meta, s, t0, t0, t1);
    UnaffectedByStep(p.materialPath, p.yaml, NO_ARTIFACT, MetaPath(p), p.meta, s, t0, t0, t1);
  }

  lemma AfterEvidence(p: Prepared, meta: Artifact, s: PublishStatus, t0: Tree, t1: Tree, t2: Tree, history: seq<Tree>,
                      low: nat)
    requires p.Ready? && Step(t1, t2, EvidencePath(p), p.evidence, s) && AllExact(t2)
    requires Progressed(p, t0, t1, history, low) && Outcome(p, NO_ARTIFACT, meta, NO_ARTIFACT, t0, t1)
    ensures Progressed(p, t0, t2, history + [t2], low)
    ensures Outcome(p, NO_ARTIFACT, meta, Artifact(None, true, s), t0, t2)
  {
    ProgressedGrows(p, t0, t1, history, low);
    hide Attempted, Progressed, Step, MetaPath, EvidencePath, Grows;
    PathsDiffer(p);
    ProgressedByStep(p, EvidencePath(p), p.evidence, s, t0, t1, t2, history, low);
    AttemptedByStep(EvidencePath(p), p.evidence, s, t0, t1, t2);
    UnaffectedByStep(MetaPath(p), p.meta, meta, EvidencePath(p), p.evidence, s, t0, t1, t2);
    UnaffectedByStep(p.materialPath, p.yaml, NO_ARTIFACT, EvidencePath(p), p.evidence, s, t0, t1, t2);
  }

  lemma AfterMaterial(p: Prepared, meta: Artifact, evidence: Artifact, s: PublishStatus, t0: Tree, t2: Tree, t3: Tree,
                      history: seq<Tree>, low: nat)
    requires p.Ready? && Step(t2, t3, p.materialPath, p.yaml, s) && AllExact(t3)
    requires Progressed(p, t0, t2, history, low) && Outcome(p, NO_ARTIFACT, meta, evidence, t0, t2)
    requires meta.attempted && evidence.attempted && Succeeded(meta.status) && Succeeded(evidence.status)
    ensures Progressed(p, t0, t3, history + [t3], low)
    ensures Outcome(p, Artifact(None, true, s), meta, evidence, t0, t3)
  {
    ProgressedGrows(p, t0, t2, history, low);
    StandsWhenSucceeded(MetaPath(p), p.meta, meta, t0, t2);
    StandsWhenSucceeded(EvidencePath(p), p.evidence, evidence, t0, t2);
    hide Attempted, Progressed, Step, MetaPath, EvidencePath, Grows;
    PathsDiffer(p);
    ProgressedByStep(p, p.materialPath, p.yaml, s, t0, t2, t3, history, low);
    AttemptedByStep(p.materialPath, p.yaml, s, t0, t2, t3);
    UnaffectedByStep(MetaPath(p), p.meta, meta, p.materialPath, p.yaml, s, t0, t2, t3);
    UnaffectedByStep(EvidencePath(p), p.evidence, evidence, p.materialPath, p.yaml, s, t0, t2, t3);
  }

  lemma StandsWhenSucceeded(path: string, data: Bytes, a: Artifact, before: Tree, after: Tree)
    requires Attempted(path, data, a, before, after) && a.attempted && Succeeded(a.status)
    ensures Holds(after.files, path, data)
  {
  }

  /** The residue ledger of one artifact after a failed publication. */
  method LedgerEntry(path: string, data: Bytes, a: Artifact, preflight: Preflight, store: OutputStore,
                     ghost before: Tree)
    returns (entry: Artifact, residue: bool)
    requires Attempted(path, data, a, before, store.Now())
    requires preflight == PreflightMissing ||
        (preflight == PreflightUnchanged && (path in store.written ==> path in before.written))
    requires preflight == PreflightMissing ==> path !in before.written
    ensures entry == if residue then a.(path := Some(path)) else a
    ensures Accounted(path, entry, before.written, store.written)
    ensures path in store.written && path !in before.written ==> residue
    ensures entry.status == PublishEmitted ==> residue && path in store.written && path !in before.written
    ensures residue ==> path in store.files && path !in before.written
  {
    var ambiguous := store.ResiduePossible(preflight, a.status, path, data);
    residue := a.attempted && (a.status == PublishEmitted || ambiguous);
    entry := if residue then a.(path := Some(path)) else a;
  }

  /** A file that was already there is not one of those this process writes later, and one that was
      missing has not been written by this process before. */
  ghost predicate Bystander(path: string, data: Bytes, preflight: Preflight, t: Tree) {
    match preflight
    case PreflightMissing => path !in t.written
    case PreflightUnchanged => Holds(t.files, path, data)
    case _ => false
  }

  /** The failed case: every artifact that was written, or may have been, keeps its path. */
  method SettleFailure(p: Prepared, record: MaterialRecord, material: Artifact, meta: Artifact, evidence: Artifact,
                       materialPreflight: Preflight, metaPreflight: Preflight, evidencePreflight: Preflight,
                       store: OutputStore, ghost before: Tree) returns (r: MaterialRecord)
    requires p.Ready? && !record.residue
    requires Bystander(p.materialPath, p.yaml, materialPreflight, before)
    requires Bystander(MetaPath(p), p.meta, metaPreflight, before)
    requires Bystander(EvidencePath(p), p.evidence, evidencePreflight, before)
    requires Outcome(p, material, meta, evidence, before, store.Now())
    ensures Accounted(p.materialPath, r.material, before.written, store.written)
    ensures Accounted(MetaPath(p), r.meta, before.written, store.written)
    ensures Accounted(EvidencePath(p), r.evidence, before.written, store.written)
    ensures (exists path :: path in {p.materialPath, MetaPath(p), EvidencePath(p)}
                            && path in store.written && path !in before.written) ==> r.residue
    ensures AnyEmitted(r) ==> r.residue
    ensures r.material.status == PublishEmitted ==>
        r.material.path == Some(p.materialPath) && p.materialPath in store.written && p.materialPath !in before.written
    ensures r.material.path.Some? ==>
        r.material.path == Some(p.materialPath) && p.materialPath in store.files && p.materialPath !in before.written
    ensures r == record.(material := r.material, meta := r.meta, evidence := r.evidence, residue := r.residue)
  {
    NotWrittenWhenPresent(p.materialPath, p.yaml, materialPreflight, material, before, store.Now());
    NotWrittenWhenPresent(MetaPath(p), p.meta, metaPreflight, meta, before, store.Now());
    NotWrittenWhenPresent(EvidencePath(p), p.evidence, evidencePreflight, evidence, before, store.Now());
    hide Attempted, Bystander, Accounted;
    var materialEntry, materialResidue :=
      LedgerEntry(p.materialPath, p.yaml, material, materialPreflight, store, before);
    var metaEntry, metaResidue := LedgerEntry(MetaPath(p), p.meta, meta, metaPreflight, store, before);
    var evidenceEntry, evidenceResidue :=
      LedgerEntry(EvidencePath(p), p.evidence, evidence, evidencePreflight, store, before);
    r := record.(material := materialEntry, meta := metaEntry, evidence := evidenceEntry,
                 residue := materialResidue || metaResidue || evidenceResidue);
  }

  /** The record names the file. */
  predicate Names(r: MaterialRecord, path: string) {
    r.material.path == Some(path) || r.meta.path == Some(path) || r.evidence.path == Some(path)
  }

  /** Every file written between two states stands in the record. */
  ghost predicate LedgerComplete(r: MaterialRecord, before: Tree, after: Tree) {
    forall path :: path in after.written && path !in before.written ==> Names(r, path)
  }

  /** The three preflights. */
  method PreflightAll(p: Prepared, store: OutputStore) returns (material: Preflight, meta: Preflight,
                      evidence: Preflight)
    requires store.Valid() && p.Ready?
    modifies store`files, store`errors
    ensures store.Valid() && Keeps(old(store.files), store.files)
    ensures PreflightCollision in {material, meta, evidence} ==> AnyTaken(p, store.files)
    ensures PreflightIoError in {material, meta, evidence} <==> store.errors > old(store.errors)
    ensures {PreflightCollision, PreflightIoError} !! {material, meta, evidence} ==>
              Bystander(p.materialPath, p.yaml, material, store.Now())
              && Bystander(MetaPath(p), p.meta, meta, store.Now())
              && Bystander(EvidencePath(p), p.evidence, evidence, store.Now())
              && store.errors == old(store.errors)
  {
    hide MetaPath, EvidencePath;
    PathsDiffer(p);
    material := store.PreflightExact(p.materialPath, p.yaml);
    meta := store.PreflightExact(MetaPath(p), p.meta);
    evidence := store.PreflightExact(EvidencePath(p), p.evidence);
  }

  /** publish_material from the preflights on. */
  method PublishPrepared(p: Prepared, record: MaterialRecord, store: OutputStore) returns (failure: Failure,
                         r: MaterialRecord)
    requires store.Valid() && p.Ready? && IsPrepared(p)
    requires record.material == record.meta == record.evidence == NO_ARTIFACT && !record.hasArtifacts && !record.residue
    modifies store
    ensures store.Valid() && old(store.history) <= store.history
    ensures Progressed(p, old(store.Now()), store.Now(), store.history, |old(store.history)|)
    ensures LedgerComplete(r, old(store.Now()), store.Now())
    ensures failure != NoFailure && store.written.Keys != old(store.written.Keys) ==> r.residue
    ensures failure == NoFailure ==> PublishedAs(p, r, store.files)
    ensures failure in {NoFailure, OutputCollision, OutputIo}
    ensures failure == OutputCollision ==> AnyTaken(p, store.files)
    ensures failure == OutputIo ==> store.errors > old(store.errors)
    ensures failure == NoFailure
         && Holds(old(store.files), p.materialPath, p.yaml) && Holds(old(store.files), MetaPath(p), p.meta)
         && Holds(old(store.files), EvidencePath(p), p.evidence)
         ==> r.status == Unchanged && r.material.status == r.meta.status == r.evidence.status == PublishUnchanged
    ensures failure != NoFailure ==> r.status == record.status && !r.hasArtifacts && (AnyEmitted(r) ==> r.residue)
    ensures r.material.status == PublishEmitted ==> r.material.path.Some? && p.materialPath in store.written
    ensures r.material.path.Some? ==> r.material.path == Some(p.materialPath) && p.materialPath in store.files
    ensures r.material.path.Some? && MayHaveWritten(r.material.status) ==> p.materialPath !in old(store.written)
    ensures r.failure == record.failure && r.shader == record.shader && r.dependencies == record.dependencies
    ensures r.closureComplete == record.closureComplete
  {
    hide Progressed, Step, CompanionsFirst, Attempted, LedgerComplete, HasPublication, PublishedAs, Outcome,
         MetaPath, EvidencePath, AnyTaken, Accounted, Bystander;
    PathsDiffer(p);
    ghost var start := store.Now();
    r := record.(guid := p.guid, identityHex := p.identityHex, yamlOk := true);
    var materialPreflight, metaPreflight, evidencePreflight := PreflightAll(p, store);
    ghost var before := store.Now();
    NothingProgressed(p, start, before, store.history);
    NothingWritten(p, r, start, before);
    if PreflightCollision in {materialPreflight, metaPreflight, evidencePreflight} { return OutputCollision, r; }
    if PreflightIoError in {materialPreflight, metaPreflight, evidencePreflight} { return OutputIo, r; }
    var material, meta, evidence, last := PublishInOrder(p, store);
    ProgressedFromEarlier(p, start, before, store.Now(), store.history, |old(store.history)|);
    if !Succeeded(last) {
      r := SettleFailure(p, r, material, meta, evidence, materialPreflight, metaPreflight, evidencePreflight, store,
        before);
      LedgerOfThree(p, r, start, store.Now(), store.history, |old(store.history)|);
      failure := if last == PublishCollision then OutputCollision else OutputIo;
      return;
    }
    AllPublished(p, material, meta, evidence, last, before, store.Now());
    r := r.(material := material.(path := Some(p.materialPath)), meta := meta.(path := Some(MetaPath(p))),
            evidence := evidence.(path := Some(EvidencePath(p))), hasArtifacts := true);
    r := r.(status := if AnyEmitted(r) then Emitted else Unchanged);
    ItsRecordIsAPublication(p, r, store.files);
    LedgerOfThree(p, r, start, store.Now(), store.history, |old(store.history)|);
    failure := NoFailure;
  }

  lemma ItsRecordIsAPublication(p: Prepared, r: MaterialRecord, files: map<string, Bytes>)
    requires p.Ready? && IsPrepared(p)
    requires r.guid == p.guid && r.identityHex == p.identityHex && r.yamlOk && r.hasArtifacts && !r.residue
    requires r.material.path == Some(p.materialPath) && r.meta.path == Some(MetaPath(p))
    requires r.evidence.path == Some(EvidencePath(p))
    requires r.material.attempted && r.meta.attempted && r.evidence.attempted
    requires Succeeded(r.material.status) && Succeeded(r.meta.status) && Succeeded(r.evidence.status)
    requires r.status == if AnyEmitted(r) then Emitted else Unchanged
    requires Holds(files, p.materialPath, p.yaml) && Holds(files, MetaPath(p), p.meta)
    requires Holds(files, EvidencePath(p), p.evidence)
    ensures PublishedAs(p, r, files)
  {
  }

  lemma NothingWritten(p: Prepared, r: MaterialRecord, before: Tree, after: Tree)
    requires p.Ready? && before.written == after.written
    ensures LedgerComplete(r, before, after)
  {
  }

  lemma LedgerOfThree(p: Prepared, r: MaterialRecord, before: Tree, after: Tree, history: seq<Tree>, low: nat)
    requires p.Ready? && Progressed(p, before, after, history, low)
    requires Accounted(p.materialPath, r.material, before.written, after.written)
    requires Accounted(MetaPath(p), r.meta, before.written, after.written)
    requires Accounted(EvidencePath(p), r.evidence, before.written, after.written)
    ensures LedgerComplete(r, before, after)
    ensures after.written.Keys != before.written.Keys ==>
      exists path :: path in {p.materialPath, MetaPath(p), EvidencePath(p)} && path in after.written &&
        path !in before.written
  {
    if after.written.Keys != before.written.Keys {
      assert exists path :: path in after.written.Keys && path !in before.written.Keys;
    }
  }

  /** The record of a published material and the three files behind it. */
  ghost predicate PublishedAs(p: Prepared, r: MaterialRecord, files: map<string, Bytes>)
    requires p.Ready?
  {
    && IsPublished(r) && HasPublication(r.(failure := NoFailure))
    && r.material.path == Some(p.materialPath) && r.meta.path == Some(MetaPath(p))
    && r.evidence.path == Some(EvidencePath(p))
    && Holds(files, p.materialPath, p.yaml) && Holds(files, MetaPath(p), p.meta)
    && Holds(files, EvidencePath(p), p.evidence)
  }

  lemma AllPublished(p: Prepared, material: Artifact, meta: Artifact, evidence: Artifact, last: PublishStatus,
                     before: Tree, after: Tree)
    requires p.Ready?
    requires Outcome(p, material, meta, evidence, before, after)
    requires meta.attempted
    requires Succeeded(last) ==>
        evidence.attempted && material.attempted && Succeeded(meta.status) && Succeeded(evidence.status) &&
          material.status == last
    ensures Succeeded(last) ==>
              && Holds(after.files, p.materialPath, p.yaml) && Holds(after.files, MetaPath(p), p.meta)
              && Holds(after.files, EvidencePath(p), p.evidence)
              && Accounted(p.materialPath, material.(path := Some(p.materialPath)), before.written, after.written)
              && Accounted(MetaPath(p), meta.(path := Some(MetaPath(p))), before.written, after.written)
              && (material.status == PublishEmitted ==>
                   p.materialPath in after.written && p.materialPath !in before.written)
              && (Holds(before.files, p.materialPath, p.yaml) ==> material.status == PublishUnchanged)
              && (Holds(before.files, MetaPath(p), p.meta) ==> meta.status == PublishUnchanged)
              && (Holds(before.files, EvidencePath(p), p.evidence) ==> evidence.status == PublishUnchanged)
              && Accounted(EvidencePath(p), evidence.(path := Some(EvidencePath(p))), before.written, after.written)
  {
  }

  lemma NotWrittenWhenPresent(path: string, data: Bytes, preflight: Preflight, a: Artifact, before: Tree, after: Tree)
    requires Attempted(path, data, a, before, after) && Bystander(path, data, preflight, before)
    ensures preflight == PreflightMissing ||
        (preflight == PreflightUnchanged && (path in after.written ==> path in before.written))
    ensures preflight == PreflightMissing ==> path !in before.written
  {
  }
}
