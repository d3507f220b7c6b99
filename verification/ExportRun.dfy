/** What holds of the records, the counters and the output tree at every step of a material export. */
module ExportRun {
  import opened Basics
  import opened Decimals
  import opened MaterialLedger
  import opened MaterialDependencies
  import opened Publication

  // ---------- Records and counters ----------

  /** A classified material of a selected shader before its publication is tried. */
  function Pending(m: CatalogMaterial): MaterialRecord {
    INITIAL_RECORD.(shader := Some(m.shaderIndex))
  }

  ghost predicate IsTried(m: CatalogMaterial, r: MaterialRecord) {
    r.shader == Some(m.shaderIndex) && (HasFailed(r) || (IsPublished(r) && HasPublication(r)))
  }

  /** The records with a status whose counter already includes them. */
  ghost function Settled(rs: seq<MaterialRecord>, waiting: set<nat>, s: RecordStatus): set<nat> {
    set i: nat | i < |rs| && i !in waiting && rs[i].status == s
  }

  /** One record: settled, tried but not settled, or still as classification or creation left it. */
  ghost predicate RecordRuns(c: Catalog, sel: seq<bool>, m: CatalogMaterial, r: MaterialRecord, waits: bool,
                             tried: bool, classified: bool)
    requires |sel| == c.shaderCount
  {
    if !waits then classified && RecordExplained(c, sel, m, r)
    else if !classified then !tried && r == INITIAL_RECORD
    else IsChosen(c, sel, m) && if tried then IsTried(m, r) else r == Pending(m)
  }

  ghost predicate RecordsRun(c: Catalog, sel: seq<bool>, rs: seq<MaterialRecord>, waiting: set<nat>, tried: set<nat>,
                             n: nat)
    requires |sel| == c.shaderCount
  {
    && |rs| == |c.materials| && n <= |rs|
    && (forall i :: i in waiting ==> i < |rs|)
    && forall i: nat :: i < |rs| ==> RecordRuns(c, sel, c.materials[i], rs[i], i in waiting, i in tried, i < n)
  }

  /** The first `n` materials are classified; those in `waiting` are not counted yet, except that a
      failure counts at once. */
  ghost predicate Running(c: Catalog, sel: seq<bool>, rs: seq<MaterialRecord>, st: Stats, waiting: set<nat>,
                          tried: set<nat>, n: nat)
    requires |sel| == c.shaderCount
  {
    && RecordsRun(c, sel, rs, waiting, tried, n) && |rs| == st.catalogMaterials
    && Counted(rs, st, waiting)
    && st.dependencies == TallyRecords(rs)
  }

  ghost predicate Counted(rs: seq<MaterialRecord>, st: Stats, waiting: set<nat>) {
    && st.unselected == |Settled(rs, waiting, Unselected)| && st.unassociated == |Settled(rs, waiting, Unassociated)|
    && st.emitted == |Settled(rs, waiting, Emitted)| && st.unmodified == |Settled(rs, waiting, Unchanged)|
    && st.failed == |Settled(rs, {}, Failed)|
  }

  /** The counters after one waiting record has reached a final status. */
  predicate CountsOne(before: Stats, after: Stats, from: RecordStatus, to: RecordStatus) {
    && after.unselected == before.unselected + One(to == Unselected)
    && after.unassociated == before.unassociated + One(to == Unassociated)
    && after.emitted == before.emitted + One(to == Emitted)
    && after.unmodified == before.unmodified + One(to == Unchanged)
    && after.failed + One(from == Failed) == before.failed + One(to == Failed)
  }

  /** Membership in `Settled`, one record at a time. */
  predicate IsSettledAs(rs: seq<MaterialRecord>, waiting: set<nat>, s: RecordStatus, i: nat) {
    i < |rs| && i !in waiting && rs[i].status == s
  }

  lemma SettledElsewhere(rs: seq<MaterialRecord>, k: nat, r: MaterialRecord, waiting: set<nat>, waiting': set<nat>,
                         s: RecordStatus)
    requires k < |rs| && forall i: nat :: i != k ==> (i in waiting <==> i in waiting')
    ensures Settled(rs[k := r], waiting', s) - {k} == Settled(rs, waiting, s) - {k}
  {
    var rs' := rs[k := r];
    forall i: nat | i != k
      ensures i in Settled(rs', waiting', s) <==> i in Settled(rs, waiting, s)
    {
      assert i in Settled(rs', waiting', s) <==> IsSettledAs(rs', waiting', s, i);
      assert i in Settled(rs, waiting, s) <==> IsSettledAs(rs, waiting, s, i);
    }
  }

  lemma SettledGains(rs: seq<MaterialRecord>, k: nat, r: MaterialRecord, waiting: set<nat>, s: RecordStatus)
    requires k < |rs| && k in waiting
    ensures |Settled(rs[k := r], waiting - {k}, s)| == |Settled(rs, waiting, s)| + One(r.status == s)
  {
    SettledElsewhere(rs, k, r, waiting, waiting - {k}, s);
    var before, after := Settled(rs, waiting, s), Settled(rs[k := r], waiting - {k}, s);
    assert k !in before && (k in after <==> r.status == s);
    hide Settled;
    assert before == before - {k};
    assert after == (after - {k}) + if r.status == s then {k} else {};
  }

  lemma WaitingDoesNotCount(rs: seq<MaterialRecord>, k: nat, r: MaterialRecord, waiting: set<nat>, s: RecordStatus)
    requires k < |rs| && k in waiting
    ensures Settled(rs[k := r], waiting, s) == Settled(rs, waiting, s)
  {
    SettledElsewhere(rs, k, r, waiting, waiting, s);
    var before, after := Settled(rs, waiting, s), Settled(rs[k := r], waiting, s);
    assert k !in before && k !in after;
    hide Settled;
    assert before == before - {k} && after == after - {k};
  }

  lemma FailedCounts(rs: seq<MaterialRecord>, k: nat, r: MaterialRecord)
    requires k < |rs|
    ensures |Settled(rs[k := r], {}, Failed)| + One(rs[k].status == Failed)
        == |Settled(rs, {}, Failed)| + One(r.status == Failed)
  {
    SettledElsewhere(rs, k, r, {}, {}, Failed);
    var before, after := Settled(rs, {}, Failed), Settled(rs[k := r], {}, Failed);
    assert (k in after <==> r.status == Failed) && (k in before <==> rs[k].status == Failed);
    hide Settled;
    assert |after - {k}| == |after| - One(k in after);
    assert |before - {k}| == |before| - One(k in before);
  }

  lemma CountedWhileWaiting(rs: seq<MaterialRecord>, st: Stats, k: nat, r: MaterialRecord, st': Stats,
                            waiting: set<nat>)
    requires Counted(rs, st, waiting) && k < |rs| && k in waiting && rs[k].status != Failed
    requires st'.unselected == st.unselected && st'.unassociated == st.unassociated && st'.emitted == st.emitted
    requires st'.unmodified == st.unmodified
    requires st'.failed == st.failed + One(r.status == Failed)
    ensures Counted(rs[k := r], st', waiting)
  {
    FailedCounts(rs, k, r);
    WaitingDoesNotCount(rs, k, r, waiting, Unselected);
    WaitingDoesNotCount(rs, k, r, waiting, Unassociated);
    WaitingDoesNotCount(rs, k, r, waiting, Emitted);
    WaitingDoesNotCount(rs, k, r, waiting, Unchanged);
  }

  lemma CountedWhenSettled(rs: seq<MaterialRecord>, st: Stats, k: nat, r: MaterialRecord, st': Stats, waiting: set<nat>)
    requires Counted(rs, st, waiting) && k < |rs| && k in waiting && CountsOne(st, st', rs[k].status, r.status)
    ensures Counted(rs[k := r], st', waiting - {k})
  {
    hide Settled;
    FailedCounts(rs, k, r);
    SettledGains(rs, k, r, waiting, Unselected);
    SettledGains(rs, k, r, waiting, Unassociated);
    SettledGains(rs, k, r, waiting, Emitted);
    SettledGains(rs, k, r, waiting, Unchanged);
  }

  lemma RecordsRunAfter(c: Catalog, sel: seq<bool>, rs: seq<MaterialRecord>, waiting: set<nat>, tried: set<nat>, n: nat,
                        k: nat, r: MaterialRecord, waiting': set<nat>, tried': set<nat>, n': nat)
    requires |sel| == c.shaderCount && RecordsRun(c, sel, rs, waiting, tried, n) && k < |rs|
    requires waiting' <= waiting && n' <= |rs|
    requires forall i: nat :: i != k ==>
        (i in waiting <==> i in waiting') && (i in tried <==> i in tried') && (i < n <==> i < n')
    requires RecordRuns(c, sel, c.materials[k], r, k in waiting', k in tried', k < n')
    ensures RecordsRun(c, sel, rs[k := r], waiting', tried', n')
  {
    hide RecordRuns;
  }

  lemma RecordRunsAt(c: Catalog, sel: seq<bool>, rs: seq<MaterialRecord>, waiting: set<nat>, tried: set<nat>, n: nat,
                     k: nat)
    requires |sel| == c.shaderCount && RecordsRun(c, sel, rs, waiting, tried, n) && k < |rs|
    ensures n <= |rs| && RecordRuns(c, sel, c.materials[k], rs[k], k in waiting, k in tried, k < n)
  {
  }

  /** A waiting record reaches its final status and is counted. */
  lemma Settles(c: Catalog, sel: seq<bool>, rs: seq<MaterialRecord>, st: Stats, waiting: set<nat>, tried: set<nat>,
                n: nat,
                k: nat, r: MaterialRecord, st': Stats)
    requires |sel| == c.shaderCount && Running(c, sel, rs, st, waiting, tried, n)
    requires k in waiting && k <= n && k < |rs| && r.dependencies == rs[k].dependencies
    requires RecordExplained(c, sel, c.materials[k], r)
    requires CountsOne(st, st', rs[k].status, r.status) && st'.dependencies == st.dependencies
    requires st'.catalogMaterials == st.catalogMaterials
    ensures Running(c, sel, rs[k := r], st', waiting - {k}, tried - {k}, if k == n then n + 1 else n)
  {
    RecordRunsAt(c, sel, rs, waiting, tried, n, k);
    hide RecordExplained, RecordsRun, Counted, TallyRecords;
    CountedWhenSettled(rs, st, k, r, st', waiting);
    TallyIgnoresOtherFields(rs, k, r);
    RecordsRunAfter(c, sel, rs, waiting, tried, n, k, r, waiting - {k}, tried - {k}, if k == n then n + 1 else n);
  }

  /** Classification leaves a chosen material waiting. */
  lemma Waits(c: Catalog, sel: seq<bool>, rs: seq<MaterialRecord>, st: Stats, waiting: set<nat>, tried: set<nat>,
              n: nat)
    requires |sel| == c.shaderCount && Running(c, sel, rs, st, waiting, tried, n)
    requires n in waiting && n < |rs| && IsChosen(c, sel, c.materials[n])
    ensures Running(c, sel, rs[n := Pending(c.materials[n])], st, waiting, tried, n + 1)
  {
    var r := Pending(c.materials[n]);
    RecordRunsAt(c, sel, rs, waiting, tried, n, n);
    hide RecordExplained, RecordsRun, Counted, TallyRecords, IsChosen;
    CountedWhileWaiting(rs, st, n, r, st, waiting);
    TallyIgnoresOtherFields(rs, n, r);
    RecordsRunAfter(c, sel, rs, waiting, tried, n, n, r, waiting, tried, n + 1);
  }

  lemma TriedRuns(c: Catalog, sel: seq<bool>, m: CatalogMaterial, before: MaterialRecord, r: MaterialRecord)
    requires |sel| == c.shaderCount && RecordRuns(c, sel, m, before, true, false, true) && IsTried(m, r)
    ensures before.dependencies == [] && before.status != Failed && RecordRuns(c, sel, m, r, true, true, true)
  {
    hide IsChosen, RecordExplained, IsTried;
  }

  /** Publication has been tried for a pending record; only its failure counts yet. */
  lemma IsTriedNow(c: Catalog, sel: seq<bool>, rs: seq<MaterialRecord>, st: Stats, waiting: set<nat>, tried: set<nat>,
                   k: nat, r: MaterialRecord, st': Stats)
    requires |sel| == c.shaderCount && Running(c, sel, rs, st, waiting, tried, |rs|)
    requires k in waiting && k !in tried && k < |rs| && IsTried(c.materials[k], r)
    requires st' == st.(failed := st.failed + One(r.status == Failed),
                        dependencies := Plus(st.dependencies, Tally(r.dependencies)))
    ensures Running(c, sel, rs[k := r], st', waiting, tried + {k}, |rs|)
  {
    RecordRunsAt(c, sel, rs, waiting, tried, |rs|, k);
    TriedRuns(c, sel, c.materials[k], rs[k], r);
    hide RecordRuns, RecordsRun, Counted, TallyRecords, Tally, Plus, IsTried;
    CountedWhileWaiting(rs, st, k, r, st', waiting);
    TallyAfterUpdate(rs, k, r);
    RecordsRunAfter(c, sel, rs, waiting, tried, |rs|, k, r, waiting, tried + {k}, |rs|);
  }

  lemma SettledOneMore(init: seq<MaterialRecord>, r: MaterialRecord, s: RecordStatus)
    ensures |Settled(init + [r], {}, s)| == |Settled(init, {}, s)| + One(r.status == s)
  {
    var more, before, after := init + [r], Settled(init, {}, s), Settled(init + [r], {}, s);
    forall i: nat
      ensures i in after && i != |init| <==> i in before
      ensures |init| in after <==> r.status == s
    {
      assert i in after <==> IsSettledAs(more, {}, s, i);
      assert i in before <==> IsSettledAs(init, {}, s, i);
      assert |init| in after <==> IsSettledAs(more, {}, s, |init|);
    }
    hide Settled;
    assert after - {|init|} == before;
    assert |after - {|init|}| == |after| - One(|init| in after);
  }

  lemma {:induction false} CountIsCardinality(rs: seq<MaterialRecord>, s: RecordStatus)
    ensures CountStatus(rs, s) == |Settled(rs, {}, s)|
  {
    if rs != [] {
      CountIsCardinality(rs[..|rs| - 1], s);
      SettledOneMore(rs[..|rs| - 1], rs[|rs| - 1], s);
      assert rs == rs[..|rs| - 1] + [rs[|rs| - 1]];
    }
  }

  ghost predicate PublishedWithin(c: Catalog, rs: seq<MaterialRecord>, bracketed: set<nat>)
    requires |rs| == |c.materials|
  {
    forall i :: 0 <= i < |rs| && IsPublished(rs[i]) ==> c.materials[i].shaderIndex in bracketed
  }

  ghost predicate GroupsHaveMaterials(c: Catalog, sel: seq<bool>, bracketed: set<nat>)
    requires |sel| == c.shaderCount
  {
    forall s :: s in bracketed ==>
      exists i :: 0 <= i < |c.materials| && IsChosen(c, sel, c.materials[i]) && c.materials[i].shaderIndex == s
  }

  /** A run with nothing left waiting is a finished export. */
  lemma RunIsExport(c: Catalog, sel: seq<bool>, rs: seq<MaterialRecord>, st: Stats, bracketed: set<nat>)
    requires |sel| == c.shaderCount && Running(c, sel, rs, st, {}, {}, |rs|)
    requires st.selected == CountChosen(c, sel, c.materials) && st.shaderGroups == |bracketed|
    requires PublishedWithin(c, rs, bracketed) && GroupsHaveMaterials(c, sel, bracketed)
    ensures Exported(c, sel, rs, st)
  {
    CountIsCardinality(rs, Unselected);
    CountIsCardinality(rs, Unassociated);
    CountIsCardinality(rs, Emitted);
    CountIsCardinality(rs, Unchanged);
    CountIsCardinality(rs, Failed);
    hide Settled, CountStatus, TallyRecords, CountChosen, HasPublication;
    forall i | 0 <= i < |rs|
      ensures RecordExplained(c, sel, c.materials[i], rs[i])
      ensures IsPublished(rs[i]) ==> rs[i].shader == Some(c.materials[i].shaderIndex)
    {
      RecordRunsAt(c, sel, rs, {}, {}, |rs|, i);
    }
    assert GroupsExplained(c, sel, rs, bracketed);
  }

  // ---------- Dependencies ----------

  /** A record's dependencies describe its material's texture properties one by one, as the graph and the
      policy answered; a published record has them all and none of them failed. */
  ghost predicate RecordTraced(c: Catalog, i: nat, graph: PointerGraph, options: Options, r: MaterialRecord)
    requires i < |c.materials|
  {
    && (r.dependencies != [] || IsPublished(r) ==>
         DependenciesTraced(c, i, graph, options, r.dependencies, r.closureComplete))
    && (IsPublished(r) ==> FirstFailure(r.dependencies) == NoFailure)
  }

  ghost predicate DependenciesTraced(c: Catalog, i: nat, graph: PointerGraph, options: Options, ds: seq<Dependency>,
                                     complete: bool)
    requires i < |c.materials|
  {
    && |ds| == |c.materials[i].textures|
    && (forall k :: 0 <= k < |ds| ==> DescribesProperty(ds[k], c, i, k, graph, options))
    && (complete <==> forall k :: 0 <= k < |ds| ==> IsNullOrExported(ds[k].status))
    && (!options.hasCloser ==> forall k :: 0 <= k < |ds| ==> ds[k].status != ResolvedExported)
  }

  ghost predicate Traced(c: Catalog, graph: PointerGraph, options: Options, rs: seq<MaterialRecord>) {
    |rs| == |c.materials| && forall i :: 0 <= i < |rs| ==> RecordTraced(c, i, graph, options, rs[i])
  }

  /** The policy is asked about a property whose name was copied and whose pointer leads to a target. */
  ghost predicate IsAsked(d: Dependency, c: Catalog, i: nat, k: nat, graph: PointerGraph, options: Options)
    requires i < |c.materials| && k < |c.materials[i].textures|
  {
    var r := graph(c.materials[i].sourceIndex, c.materials[i].textures[k].pointer);
    d.name.Some? && !IsNullResolution(r) && HasTarget(c, r) && options.hasResolver
  }

  /** Over the whole export: a reference is recorded exactly when the policy was asked and its answer
      stands, and it is the answered one; a rejected answer is one that is turned down, and any other
      refusal is recorded as answered. */
  lemma AnswersAreRecorded(c: Catalog, graph: PointerGraph, options: Options, rs: seq<MaterialRecord>, i: nat, k: nat)
    requires Traced(c, graph, options, rs) && i < |rs| && k < |rs[i].dependencies|
    ensures k < |c.materials[i].textures|
    ensures var d, a := rs[i].dependencies[k], options.policy(i, k);
            var asked, turnedDown := IsAsked(d, c, i, k, graph, options), IsTurnedDown(a, options.hasCloser);
            && (d.reference.Some? <==> asked && !turnedDown && a.status == ReferenceOk)
            && (d.reference.Some? ==> d.reference.value == a.reference)
            && (d.status == ReferenceInvalid <==> asked && turnedDown)
            && (asked && !turnedDown ==> d.referenceStatus == a.status)
            && (d.status == ResolvedExported <==>
                  asked && !turnedDown && a.status == ReferenceOk && a.reference.exported)
  {
    hide IsHexText, HasTarget, FirstFailure, PrintHex;
    assert RecordTraced(c, i, graph, options, rs[i]);
    assert DescribesProperty(rs[i].dependencies[k], c, i, k, graph, options);
  }

  // ---------- The output tree ----------

  ghost predicate CompanionsBeside(p: Prepared, t: Tree)
    requires p.Ready?
  {
    p.materialPath in t.written ==> Holds(t.files, MetaPath(p), p.meta) && Holds(t.files, EvidencePath(p), p.evidence)
  }

  /** `created` are the documents whose material file this run has written. */
  ghost predicate Created(created: seq<Prepared>, start: Tree, now: Tree) {
    forall j :: 0 <= j < |created| ==>
      created[j].Ready? && CompanionsBeside(created[j], now) && created[j].materialPath in now.written &&
        created[j].materialPath !in start.written
  }

  ghost predicate AlwaysBeside(created: seq<Prepared>, history: seq<Tree>, low: nat) {
    forall k, j :: low <= k < |history| && 0 <= j < |created| ==>
      created[j].Ready? && CompanionsBeside(created[j], history[k])
  }

  ghost predicate AllNamed(rs: seq<MaterialRecord>, start: Tree, now: Tree) {
    forall path :: path in now.written && path !in start.written ==> exists i :: 0 <= i < |rs| && Names(rs[i], path)
  }

  ghost predicate IsAmong(created: seq<Prepared>, path: Option<string>) {
    exists j :: 0 <= j < |created| && created[j].Ready? && path == Some(created[j].materialPath)
  }

  /** The record's material file is one of `created` if this run emitted it, and also if this run wrote
      it in an attempt that ended in an I/O error. */
  ghost predicate IsCreated(created: seq<Prepared>, r: MaterialRecord, start: Tree, now: Tree) {
    && (r.material.status == PublishEmitted ==> r.material.path.Some? && IsAmong(created, r.material.path))
    && (r.material.path.Some? && MayHaveWritten(r.material.status) ==>
          && r.material.path.value in now.files
          && (r.material.path.value in now.written && r.material.path.value !in start.written ==>
                IsAmong(created, r.material.path)))
  }

  /** Over the whole run: no file is altered or removed at any state; in every state each material file
      the run writes has both companions beside it, byte for byte; every file written stands in a
      record's ledger; and every material file that was emitted, or left behind by an I/O error, is one
      of those files. */
  ghost predicate RunKept(created: seq<Prepared>, rs: seq<MaterialRecord>, start: Tree, now: Tree, history: seq<Tree>,
                          low: nat) {
    && low <= |history| && AlwaysGrows(start, now, history, low)
    && Created(created, start, now) && AlwaysBeside(created, history, low)
    && AllNamed(rs, start, now)
    && forall i :: 0 <= i < |rs| ==> IsCreated(created, rs[i], start, now)
  }

  predicate SameArtifacts(r: MaterialRecord, s: MaterialRecord) {
    r.material == s.material && r.meta == s.meta && r.evidence == s.evidence
  }

  lemma RunKeptAtStart(rs: seq<MaterialRecord>, t: Tree, history: seq<Tree>)
    requires forall i :: 0 <= i < |rs| ==> SameArtifacts(rs[i], INITIAL_RECORD)
    ensures RunKept([], rs, t, t, history, |history|)
  {
  }

  lemma RunKeptByRelabel(created: seq<Prepared>, rs: seq<MaterialRecord>, k: nat, r: MaterialRecord, start: Tree,
                         now: Tree, history: seq<Tree>, low: nat)
    requires RunKept(created, rs, start, now, history, low) && k < |rs| && SameArtifacts(r, rs[k])
    ensures RunKept(created, rs[k := r], start, now, history, low)
  {
    hide AlwaysGrows, Created, AlwaysBeside;
    var rs' := rs[k := r];
    forall path | path in now.written && path !in start.written
      ensures exists i :: 0 <= i < |rs'| && Names(rs'[i], path)
    {
      var i :| 0 <= i < |rs| && Names(rs[i], path);
      assert Names(rs'[i], path);
    }
    assert IsCreated(created, rs[k], start, now);
  }

  lemma AllNamedByPublication(rs: seq<MaterialRecord>, k: nat, r: MaterialRecord, start: Tree, before: Tree, now: Tree)
    requires AllNamed(rs, start, before) && k < |rs| && SameArtifacts(rs[k], INITIAL_RECORD)
    requires LedgerComplete(r, before, now)
    ensures AllNamed(rs[k := r], start, now)
  {
    var rs' := rs[k := r];
    forall path | path in now.written && path !in start.written
      ensures exists i :: 0 <= i < |rs'| && Names(rs'[i], path)
    {
      if path in before.written {
        var i :| 0 <= i < |rs| && Names(rs[i], path);
        assert Names(rs'[i], path);
      } else {
        assert Names(rs'[k], path);
      }
    }
  }

  lemma AlwaysGrowsByPublication(p: Prepared, start: Tree, before: Tree, now: Tree, history: seq<Tree>,
                                 history': seq<Tree>, low: nat)
    requires p.Ready? && low <= |history| && AlwaysGrows(start, before, history, low)
    requires history <= history' && Progressed(p, before, now, history', |history|)
    ensures AlwaysGrows(start, now, history', low)
  {
    hide Grows, CompanionsFirst;
    AlwaysGrowsThrough(start, before, now, history, history', low);
  }

  /** Companions of an earlier material stay beside it. */
  lemma StaysBeside(q: Prepared, before: Tree, t: Tree)
    requires q.Ready? && CompanionsBeside(q, before) && q.materialPath in before.written && Grows(before, t)
    ensures CompanionsBeside(q, t)
  {
  }

  lemma CreatedByPublication(p: Prepared, created: seq<Prepared>, start: Tree, before: Tree, now: Tree,
                             history: seq<Tree>, history': seq<Tree>, low: nat)
    requires p.Ready? && low <= |history| && AlwaysGrows(start, before, history, low)
    requires Created(created, start, before) && AlwaysBeside(created, history, low)
    requires history <= history' && Progressed(p, before, now, history', |history|)
    ensures var isNew := p.materialPath in now.written && p.materialPath !in before.written;
            var created' := if isNew then created + [p] else created;
            Created(created', start, now) && AlwaysBeside(created', history', low)
  {
    hide CompanionsBeside, MetaPath, EvidencePath, Grows;
    forall j | 0 <= j < |created|
      ensures created[j].Ready? && CompanionsBeside(created[j], now) && created[j].materialPath in now.written
    {
      StaysBeside(created[j], before, now);
      WrittenStays(before, now, created[j].materialPath);
    }
    forall k, j | low <= k < |history'| && 0 <= j < |created|
      ensures CompanionsBeside(created[j], history'[k])
    {
      if k < |history| {
        assert history'[k] == history[k];
      } else {
        StaysBeside(created[j], before, history'[k]);
      }
    }
    if p.materialPath in now.written && p.materialPath !in before.written {
      NewlyBeside(p, before, now);
      WrittenStays(start, before, p.materialPath);
      forall k | low <= k < |history'|
        ensures CompanionsBeside(p, history'[k])
      {
        if k < |history| {
          assert history'[k] == history[k];
          NotYetBeside(p, history[k], before);
        } else {
          NewlyBeside(p, before, history'[k]);
        }
      }
    }
  }

  lemma WrittenStays(a: Tree, b: Tree, path: string)
    requires Grows(a, b)
    ensures path in a.written ==> path in b.written
  {
    assert path in a.written ==> path in a.written.Keys;
  }

  lemma NewlyBeside(p: Prepared, before: Tree, t: Tree)
    requires p.Ready? && CompanionsFirst(p, before.written, t) && p.materialPath !in before.written
    ensures CompanionsBeside(p, t)
  {
  }

  lemma NotYetBeside(p: Prepared, t: Tree, before: Tree)
    requires p.Ready? && Grows(t, before) && p.materialPath !in before.written
    ensures CompanionsBeside(p, t)
  {
    assert p.materialPath !in t.written.Keys;
  }

  /** What publication reports about its own material file. */
  ghost predicate ReportsFile(p: Prepared, r: MaterialRecord, before: Tree, now: Tree)
    requires p.Ready?
  {
    && (r.material.status == PublishEmitted ==> r.material.path.Some? && p.materialPath in now.written)
    && (r.material.path.Some? ==> r.material.path == Some(p.materialPath) && p.materialPath in now.files)
    && (r.material.path.Some? && MayHaveWritten(r.material.status) ==> p.materialPath !in before.written)
  }

  /** One publication extends the run. */
  lemma RunKeptByPublication(p: Prepared, created: seq<Prepared>, rs: seq<MaterialRecord>, k: nat, r: MaterialRecord,
                             start: Tree, before: Tree, now: Tree, history: seq<Tree>, history': seq<Tree>, low: nat)
    requires p.Ready? && RunKept(created, rs, start, before, history, low) && k < |rs|
    requires SameArtifacts(rs[k], INITIAL_RECORD)
    requires history <= history' && Progressed(p, before, now, history', |history|) && LedgerComplete(r, before, now)
    requires ReportsFile(p, r, before, now)
    ensures var isNew := p.materialPath in now.written && p.materialPath !in before.written;
            RunKept(if isNew then created + [p] else created, rs[k := r], start, now, history', low)
  {
    AlwaysGrowsByPublication(p, start, before, now, history, history', low);
    CreatedByPublication(p, created, start, before, now, history, history', low);
    AllNamedByPublication(rs, k, r, start, before, now);
    hide AlwaysGrows, Created, AlwaysBeside, AllNamed, LedgerComplete, Progressed, IsCreated, ReportsFile;
    var isNew := p.materialPath in now.written && p.materialPath !in before.written;
    var created' := if isNew then created + [p] else created;
    var rs' := rs[k := r];
    forall i | 0 <= i < |rs|
      ensures IsCreated(created', rs'[i], start, now)
    {
      if i != k {
        StillCreated(p, created, rs[i], start, before, now, history', |history|);
      } else {
        OwnFileIsCreated(p, created, r, start, before, now);
      }
    }
  }

  lemma StillAmong(p: Prepared, created: seq<Prepared>, path: Option<string>)
    requires IsAmong(created, path)
    ensures IsAmong(created + [p], path)
  {
    var j :| 0 <= j < |created| && created[j].Ready? && path == Some(created[j].materialPath);
    assert (created + [p])[j] == created[j];
  }

  /** A later publication writes no path that an earlier record's file occupies. */
  lemma StillCreated(p: Prepared, created: seq<Prepared>, r: MaterialRecord, start: Tree, before: Tree, now: Tree,
                     history: seq<Tree>, low: nat)
    requires p.Ready? && IsCreated(created, r, start, before) && Progressed(p, before, now, history, low)
    ensures IsCreated(created, r, start, now) && IsCreated(created + [p], r, start, now)
  {
    hide IsAmong, MetaPath, EvidencePath;
    if IsAmong(created, r.material.path) { StillAmong(p, created, r.material.path); }
  }

  lemma OwnFileIsCreated(p: Prepared, created: seq<Prepared>, r: MaterialRecord, start: Tree, before: Tree, now: Tree)
    requires p.Ready? && ReportsFile(p, r, before, now)
    ensures var isNew := p.materialPath in now.written && p.materialPath !in before.written;
            IsCreated(if isNew then created + [p] else created, r, start, now)
  {
    assert (created + [p])[|created|] == p;
  }

  // ---------- What the published files hold ----------

  /** The documents emitted for a material from its projected dependencies. */
  type Documents = (nat, seq<Dependency>) -> Prepared

  /** The record names the three files of `p`, and they hold its texts byte for byte. */
  ghost predicate StandsAt(p: Prepared, r: MaterialRecord, files: map<string, Bytes>) {
    && p.Ready?
    && r.material.path == Some(p.materialPath) && r.meta.path == Some(MetaPath(p))
    && r.evidence.path == Some(EvidencePath(p))
    && Holds(files, p.materialPath, p.yaml) && Holds(files, MetaPath(p), p.meta)
    && Holds(files, EvidencePath(p), p.evidence)
  }

  /** A published material's files hold the documents emitted from its recorded dependencies; one that
      failed by collision finds another file at one of their paths. */
  ghost predicate RecordStands(p: Prepared, r: MaterialRecord, files: map<string, Bytes>) {
    && (IsPublished(r) ==> StandsAt(p, r, files))
    && (r.failure == OutputCollision ==> p.Ready? && AnyTaken(p, files))
  }

  ghost predicate AllStand(documents: Documents, rs: seq<MaterialRecord>, files: map<string, Bytes>) {
    forall i :: 0 <= i < |rs| ==> RecordStands(documents(i, rs[i].dependencies), rs[i], files)
  }

  lemma AllStandByRelabel(documents: Documents, rs: seq<MaterialRecord>, k: nat, r: MaterialRecord,
                          files: map<string, Bytes>)
    requires AllStand(documents, rs, files) && k < |rs|
    requires r.dependencies == rs[k].dependencies && SameArtifacts(r, rs[k]) && (IsPublished(r) ==> IsPublished(rs[k]))
    requires r.failure == OutputCollision ==> rs[k].failure == OutputCollision
    ensures AllStand(documents, rs[k := r], files)
  {
    hide AnyTaken;
    assert RecordStands(documents(k, rs[k].dependencies), rs[k], files);
    assert RecordStands(documents(k, r.dependencies), r, files);
    hide RecordStands;
  }

  lemma AllStandByPublication(documents: Documents, rs: seq<MaterialRecord>, k: nat, r: MaterialRecord,
                              before: map<string, Bytes>, now: map<string, Bytes>)
    requires AllStand(documents, rs, before) && Keeps(before, now) && k < |rs|
    requires RecordStands(documents(k, r.dependencies), r, now)
    ensures AllStand(documents, rs[k := r], now)
  {
    hide RecordStands, Keeps;
    var rs' := rs[k := r];
    forall i: nat | i < |rs'|
      ensures RecordStands(documents(i, rs'[i].dependencies), rs'[i], now)
    {
      if i != k {
        assert rs'[i] == rs[i];
        RecordStandsLater(documents(i, rs[i].dependencies), rs[i], before, now);
      }
    }
  }

  lemma RecordStandsLater(p: Prepared, r: MaterialRecord, before: map<string, Bytes>, now: map<string, Bytes>)
    requires RecordStands(p, r, before) && Keeps(before, now)
    ensures RecordStands(p, r, now)
  {
    if IsPublished(r) { StandsLater(p, r, before, now); }
    if r.failure == OutputCollision { StaysTaken(p, before, now); }
  }

  lemma StandsLater(p: Prepared, r: MaterialRecord, before: map<string, Bytes>, now: map<string, Bytes>)
    requires StandsAt(p, r, before) && Keeps(before, now)
    ensures StandsAt(p, r, now)
  {
  }

  /** What the shader batch recorded about one shader. */
  datatype ShaderOutput = ShaderOutput(
    matchesCatalog: bool, authorized: bool, published: bool, hasMeta: bool, hasPaths: bool, guidIsValid: bool)

  /** Why a whole group fails before anything of it is published. */
  function GroupFailure(o: ShaderOutput): Failure {
    if !o.matchesCatalog then ShaderDependencyIdentity
    else if !o.authorized || !o.published then ShaderBatchNotReady
    else if !o.hasMeta || !o.hasPaths || !o.guidIsValid then ShaderMetaMissing
    else NoFailure
  }

  /** What one export is given and where it starts: the state of the tree, the number of its earlier
      states, and the number of the first lease it can take. */
  datatype Run = Run(
    graph: PointerGraph, documents: Documents, options: Options, outputs: seq<ShaderOutput>,
    start: Tree, low: nat, first: nat)

  // ---------- The files a published material relied on ----------

  /** The two files of a published shader while they are held open. */
  datatype ShaderViews = ShaderViews(shader: nat, meta: nat)

  /** What was held while a record was published: the accepted lease of each dependency, and the files
      of its shader once they are closed. */
  datatype Backing = Backing(held: seq<Option<nat>>, views: Option<ShaderViews>)

  /** Handed out since number `first`, closed, and not found changed. */
  ghost predicate ClosedStable(lease: nat, first: nat, b: Book) {
    first <= lease && lease in b.closed && lease !in b.unstable
  }

  ghost predicate HeldStable(ds: seq<Dependency>, held: seq<Option<nat>>, first: nat, b: Book) {
    && |held| == |ds| && HeldDistinct(held)
    && (forall k :: 0 <= k < |ds| ==> (held[k].Some? <==> ds[k].status == ResolvedExported))
    && (forall k :: 0 <= k < |ds| && held[k].Some? ==> ClosedStable(held[k].value, first, b))
  }

  ghost predicate ViewsStable(views: Option<ShaderViews>, first: nat, b: Book) {
    && views.Some? && views.value.shader != views.value.meta
    && ClosedStable(views.value.shader, first, b) && ClosedStable(views.value.meta, first, b)
  }

  /** A published record's exported dependencies were each held by a lease of their own that closed
      stably; once the group is settled, so did both files of its shader. */
  ghost predicate Backed(r: MaterialRecord, k: Backing, settled: bool, first: nat, b: Book) {
    IsPublished(r) ==> HeldStable(r.dependencies, k.held, first, b) && (settled ==> ViewsStable(k.views, first, b))
  }

  ghost predicate AllBacked(rs: seq<MaterialRecord>, backings: seq<Backing>, tried: set<nat>, first: nat, b: Book) {
    && first <= b.issued && |backings| == |rs|
    && forall i: nat :: i < |rs| ==> Backed(rs[i], backings[i], i !in tried, first, b)
  }

  lemma AllBackedLater(rs: seq<MaterialRecord>, backings: seq<Backing>, tried: set<nat>, first: nat, b: Book, b': Book)
    requires AllBacked(rs, backings, tried, first, b) && Grown(b, b')
    ensures AllBacked(rs, backings, tried, first, b')
  {
    hide IsPublished, HeldDistinct, Grown, HeldStable, ViewsStable;
    forall i: nat | i < |rs|
      ensures Backed(rs[i], backings[i], i !in tried, first, b')
    {
      assert Backed(rs[i], backings[i], i !in tried, first, b);
      if IsPublished(rs[i]) {
        StableLater(rs[i].dependencies, backings[i], first, b, b');
      }
    }
    BooksGrow(b, b');
  }

  lemma BooksGrow(b: Book, b': Book)
    requires Grown(b, b')
    ensures b.issued <= b'.issued
  {
  }

  lemma StableLater(ds: seq<Dependency>, k: Backing, first: nat, b: Book, b': Book)
    requires Grown(b, b')
    ensures HeldStable(ds, k.held, first, b) ==> HeldStable(ds, k.held, first, b')
    ensures ViewsStable(k.views, first, b) ==> ViewsStable(k.views, first, b')
  {
    hide HeldDistinct;
  }

  lemma AllBackedAfter(rs: seq<MaterialRecord>, backings: seq<Backing>, tried: set<nat>, first: nat, b: Book, k: nat,
                       r: MaterialRecord, backing: Backing, tried': set<nat>)
    requires AllBacked(rs, backings, tried, first, b) && k < |rs|
    requires forall i: nat :: i != k ==> (i in tried <==> i in tried')
    requires Backed(r, backing, k !in tried', first, b)
    ensures AllBacked(rs[k := r], backings[k := backing], tried', first, b)
  {
    hide Backed;
  }

  /** A record that is not published needs no backing. */
  lemma AllBackedByFailure(rs: seq<MaterialRecord>, backings: seq<Backing>, tried: set<nat>, first: nat, b: Book,
                           k: nat, r: MaterialRecord, backing: Backing, tried': set<nat>)
    requires AllBacked(rs, backings, tried, first, b) && k < |rs| && !IsPublished(r)
    requires forall i: nat :: i != k ==> (i in tried <==> i in tried')
    ensures AllBacked(rs[k := r], backings, tried', first, b)
    ensures AllBacked(rs[k := r], backings[k := backing], tried', first, b)
  {
    hide HeldStable, ViewsStable;
  }

  /** Leases that are closed in a stable way back the record they were held for. */
  lemma HeldIsStable(ds: seq<Dependency>, held: seq<Option<nat>>, hasCloser: bool, first: nat, before: Book,
                     after: Book)
    requires |held| == |ds| && HeldDistinct(held)
    requires forall k :: 0 <= k < |ds| ==> (held[k].Some? <==> ds[k].status == ResolvedExported)
    requires forall k :: 0 <= k < |held| && held[k].Some? ==> first <= held[k].value
    requires if hasCloser then HeldSet(held) <= before.open && HeldSet(held) <= after.closed else HeldSet(held) == {}
    requires before.open !! before.closed && before.unstable <= before.closed && after.unstable == before.unstable
    ensures HeldStable(ds, held, first, after)
  {
    hide HeldDistinct;
    forall k | 0 <= k < |held| && held[k].Some?
      ensures ClosedStable(held[k].value, first, after)
    {
      HeldByIndex(held, k);
    }
  }
}
