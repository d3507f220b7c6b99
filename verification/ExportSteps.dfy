/** How single steps of a material export change its records, its counters and its groups. */
module ExportSteps {
  import opened Basics
  import opened MaterialLedger
  import opened MaterialDependencies
  import opened MaterialGrouping
  import opened Publication
  import opened ExportRun

  /** The shader a material is grouped under. */
  ghost function Keys(c: Catalog, sel: seq<bool>, authorityComplete: bool): (keys: seq<Option<nat>>)
    requires |sel| == c.shaderCount
    ensures |keys| == |c.materials|
    ensures forall i :: 0 <= i < |keys| ==>
      keys[i] == if authorityComplete && IsChosen(c, sel, c.materials[i]) then Some(c.materials[i].shaderIndex)
        else None
  {
    seq(|c.materials|, i requires 0 <= i < |c.materials| =>
      if authorityComplete && IsChosen(c, sel, c.materials[i]) then Some(c.materials[i].shaderIndex) else None)
  }

  /** The materials from position `from` up to `to` of the grouped order. */
  ghost function Span(order: seq<nat>, from: nat, to: nat): set<nat>
    requires to <= |order|
  {
    set j: nat | from <= j < to :: order[j]
  }

  lemma SpanSteps(order: seq<nat>, from: nat, at: nat, to: nat)
    requires ListedOnce(order) && from <= at < to <= |order|
    ensures order[at] in Span(order, at, to) && Span(order, at, to) - {order[at]} == Span(order, at + 1, to)
    ensures order[at] !in Span(order, from, at) && Span(order, from, at) + {order[at]} == Span(order, from, at + 1)
    ensures order[at] in Span(order, from, to)
  {
  }

  lemma SpanHolds(order: seq<nat>, from: nat, at: nat, to: nat)
    requires from <= at < to <= |order|
    ensures order[at] in Span(order, from, to)
  {
  }

  lemma NoSpan(order: seq<nat>, at: nat)
    requires at <= |order|
    ensures Span(order, at, at) == {}
  {
  }

  /** The record after material_record_fail. */
  function FailedAs(r: MaterialRecord, failure: Failure): MaterialRecord {
    r.(status := Failed, failure := if r.failure == NoFailure then failure else r.failure)
  }

  /** The record after its group's shader files were found unstable. */
  function Destabilised(r: MaterialRecord): MaterialRecord {
    r.(residue := r.residue || AnyEmitted(r),
       status := Failed,
       failure := if r.failure == TextureDependencyIdentity then TextureDependencyIdentity
         else ShaderDependencyIdentity)
  }

  lemma NoMembersYet(keys: seq<Option<nat>>)
    ensures forall s: nat :: MembersOf(keys, s, 0) == []
  {
  }

  lemma NoneChosenYet(c: Catalog, sel: seq<bool>)
    requires |sel| == c.shaderCount
    ensures CountChosen(c, sel, c.materials[..0]) == 0
  {
  }

  // ---------- What classification does to the run ----------

  /** Nothing has been published for the record yet. */
  predicate IsFresh(r: MaterialRecord) {
    SameArtifacts(r, INITIAL_RECORD) && r.dependencies == [] && !IsPublished(r) && r.failure != OutputCollision
  }

  ghost function StillWaiting(keys: seq<Option<nat>>, n: nat): set<nat> {
    set i: nat | i < |keys| && (i >= n || keys[i].Some?)
  }

  lemma WaitingSteps(keys: seq<Option<nat>>, n: nat)
    requires n < |keys|
    ensures n in StillWaiting(keys, n)
    ensures StillWaiting(keys, n + 1) == if keys[n].Some? then StillWaiting(keys, n) else StillWaiting(keys, n) - {n}
  {
  }

  lemma AllInitialRuns(c: Catalog, sel: seq<bool>, rs: seq<MaterialRecord>, st: Stats, waiting: set<nat>)
    requires |sel| == c.shaderCount && |rs| == |c.materials|
    requires forall i :: 0 <= i < |rs| ==> rs[i] == INITIAL_RECORD
    requires st == Stats(|c.materials|, 0, 0, 0, 0, 0, 0, 0, NO_DEPENDENCIES)
    requires forall i: nat :: i in waiting <==> i < |rs|
    ensures Running(c, sel, rs, st, waiting, {}, 0)
  {
    NothingRecorded(rs);
    NothingSettled(rs, waiting, Unselected);
    NothingSettled(rs, waiting, Unassociated);
    NothingSettled(rs, waiting, Emitted);
    NothingSettled(rs, waiting, Unchanged);
    NoneFailed(rs);
    NothingRuns(c, sel, rs, waiting);
    hide TallyRecords, Settled, RecordsRun;
  }

  lemma NothingRuns(c: Catalog, sel: seq<bool>, rs: seq<MaterialRecord>, waiting: set<nat>)
    requires |sel| == c.shaderCount && |rs| == |c.materials|
    requires forall i :: 0 <= i < |rs| ==> rs[i] == INITIAL_RECORD
    requires forall i: nat :: i in waiting <==> i < |rs|
    ensures RecordsRun(c, sel, rs, waiting, {}, 0)
  {
    hide RecordExplained, IsChosen, IsTried;
  }

  lemma NothingSettled(rs: seq<MaterialRecord>, waiting: set<nat>, s: RecordStatus)
    requires forall i: nat :: i in waiting <==> i < |rs|
    ensures |Settled(rs, waiting, s)| == 0
  {
    assert Settled(rs, waiting, s) == {};
  }

  lemma NoneFailed(rs: seq<MaterialRecord>)
    requires forall i :: 0 <= i < |rs| ==> rs[i].status != Failed
    ensures |Settled(rs, {}, Failed)| == 0
  {
    assert Settled(rs, {}, Failed) == {};
  }

  lemma {:induction false} NothingRecorded(rs: seq<MaterialRecord>)
    requires forall i :: 0 <= i < |rs| ==> rs[i].dependencies == []
    ensures TallyRecords(rs) == NO_DEPENDENCIES
  {
    if rs != [] {
      NothingRecorded(rs[..|rs| - 1]);
      NothingMoreRecorded(rs);
    }
  }

  lemma NothingMoreRecorded(rs: seq<MaterialRecord>)
    requires rs != [] && rs[|rs| - 1].dependencies == [] && TallyRecords(rs[..|rs| - 1]) == NO_DEPENDENCIES
    ensures TallyRecords(rs) == NO_DEPENDENCIES
  {
    hide Tally, Plus;
    EmptyAddsNothing(TallyRecords(rs[..|rs| - 1]), rs[|rs| - 1].dependencies);
  }

  lemma ChosenOneMore(c: Catalog, sel: seq<bool>, n: nat)
    requires |sel| == c.shaderCount && n < |c.materials|
    ensures CountChosen(c, sel, c.materials[..n + 1])
        == CountChosen(c, sel, c.materials[..n]) + One(IsChosen(c, sel, c.materials[n]))
  {
    assert c.materials[..n + 1][..n] == c.materials[..n];
  }

  function ClassifiedRecord(c: Catalog, sel: seq<bool>, authorityComplete: bool, m: CatalogMaterial): MaterialRecord
    requires |sel| == c.shaderCount
  {
    if m.status == ShaderNull then INITIAL_RECORD.(status := Unassociated)
    else if m.status != MaterialReady || !m.decoded then FailedAs(INITIAL_RECORD, CatalogMaterialNotReady)
    else if m.shaderIndex >= c.shaderCount then FailedAs(INITIAL_RECORD, ShaderIndexInvalid)
    else if sel[m.shaderIndex] && !authorityComplete then FailedAs(Pending(m), DependencyAuthorityIncomplete)
    else Pending(m)
  }

  function ClassifiedStats(st: Stats, c: Catalog, sel: seq<bool>, authorityComplete: bool, m: CatalogMaterial): Stats
    requires |sel| == c.shaderCount
  {
    var r := ClassifiedRecord(c, sel, authorityComplete, m);
    st.(selected := st.selected + One(IsChosen(c, sel, m)),
        unselected := st.unselected + One(r.status == Unselected && !IsChosen(c, sel, m)),
        unassociated := st.unassociated + One(r.status == Unassociated),
        failed := st.failed + One(r.status == Failed))
  }

  lemma ClassifiedIsExplained(c: Catalog, sel: seq<bool>, authorityComplete: bool, m: CatalogMaterial)
    requires |sel| == c.shaderCount
    ensures var r := ClassifiedRecord(c, sel, authorityComplete, m);
            && r.dependencies == [] && SameArtifacts(r, INITIAL_RECORD) && !IsPublished(r)
            && if authorityComplete && IsChosen(c, sel, m) then r == Pending(m)
               else RecordExplained(c, sel, m, r) && (r.status == Unselected ==> !IsChosen(c, sel, m))
  {
  }

  /** One more material counted under its shader. */
  function CountUnder(counts: seq<nat>, shader: Option<nat>): (r: seq<nat>)
    ensures |r| == |counts|
  {
    if shader.Some? && shader.value < |counts| then counts[shader.value := counts[shader.value] + 1] else counts
  }

  /** The first `n` records are classified and the grouped ones among them marked and counted. */
  ghost predicate Grouping(keys: seq<Option<nat>>, grouped: seq<bool>, counts: seq<nat>, rs: seq<MaterialRecord>,
                           n: nat) {
    && |grouped| == |rs| == |keys| && n <= |keys|
    && (forall i :: 0 <= i < n ==> keys[i] == (if grouped[i] then rs[i].shader else None) && IsFresh(rs[i]))
    && (forall i :: 0 <= i < n && grouped[i] ==> rs[i].shader.Some?)
    && (forall i :: n <= i < |rs| ==> !grouped[i] && rs[i] == INITIAL_RECORD)
    && forall s: nat :: s < |counts| ==> counts[s] == |MembersOf(keys, s, n)|
  }

  lemma NothingClassified(c: Catalog, sel: seq<bool>, rs: seq<MaterialRecord>, st: Stats, keys: seq<Option<nat>>,
                          grouped: seq<bool>, counts: seq<nat>)
    requires |sel| == c.shaderCount && |rs| == |c.materials| == |keys| == |grouped|
    requires forall i :: 0 <= i < |rs| ==> rs[i] == INITIAL_RECORD && !grouped[i]
    requires forall s :: 0 <= s < |counts| ==> counts[s] == 0
    requires st == Stats(|c.materials|, 0, 0, 0, 0, 0, 0, 0, NO_DEPENDENCIES)
    ensures Running(c, sel, rs, st, StillWaiting(keys, 0), {}, 0)
    ensures Grouping(keys, grouped, counts, rs, 0) && CountChosen(c, sel, c.materials[..0]) == 0
  {
    AllInitialRuns(c, sel, rs, st, StillWaiting(keys, 0));
    NoMembersYet(keys);
    NoneChosenYet(c, sel);
  }

  lemma GroupingSteps(c: Catalog, sel: seq<bool>, authorityComplete: bool, grouped: seq<bool>, counts: seq<nat>,
                      rs: seq<MaterialRecord>, n: nat)
    requires |sel| == c.shaderCount == |counts| && n < |rs| == |c.materials| == |grouped|
    requires Grouping(Keys(c, sel, authorityComplete), grouped, counts, rs, n)
    ensures rs[n] == INITIAL_RECORD && !grouped[n]
    ensures var m, groups := c.materials[n], authorityComplete && IsChosen(c, sel, c.materials[n]);
            Grouping(Keys(c, sel, authorityComplete), grouped[n := groups],
                     CountUnder(counts, if groups then Some(m.shaderIndex) else None),
                     rs[n := ClassifiedRecord(c, sel, authorityComplete, m)], n + 1)
  {
    var keys, m := Keys(c, sel, authorityComplete), c.materials[n];
    assert keys[n] == if authorityComplete && IsChosen(c, sel, m) then Some(m.shaderIndex) else None;
    MembersOfOneMore(keys, n, n + 1);
    ClassifiedIsExplained(c, sel, authorityComplete, m);
    hide MembersOf, ClassifiedRecord, IsChosen, RecordExplained, SameArtifacts, Keys;
    var groups := authorityComplete && IsChosen(c, sel, m);
    GroupedOneMore(keys, grouped, counts, rs, n, n + 1, groups, ClassifiedRecord(c, sel, authorityComplete, m));
  }

  lemma GroupedOneMore(keys: seq<Option<nat>>, grouped: seq<bool>, counts: seq<nat>, rs: seq<MaterialRecord>, n: nat,
                       next: nat, groups: bool, r: MaterialRecord)
    requires n < |keys| && next == n + 1 && Grouping(keys, grouped, counts, rs, n) && IsFresh(r)
    requires forall s: nat :: MembersOf(keys, s, next) == MembersOf(keys, s, n) + if keys[n] == Some(s) then [n] else []
    requires if groups then r.shader.Some? && keys[n] == r.shader else keys[n] == None
    ensures Grouping(keys, grouped[n := groups], CountUnder(counts, keys[n]), rs[n := r], next)
  {
    hide MembersOf, IsFresh;
  }

  /** When all are classified, the counting sort has what it needs. */
  lemma GroupingIsDone(c: Catalog, sel: seq<bool>, authorityComplete: bool, grouped: seq<bool>, counts: seq<nat>,
                       rs: seq<MaterialRecord>)
    requires |sel| == c.shaderCount == |counts| && |rs| == |c.materials|
    requires Grouping(Keys(c, sel, authorityComplete), grouped, counts, rs, |rs|)
    ensures |grouped| == |rs|
    ensures var keys := Keys(c, sel, authorityComplete);
            && (forall i :: 0 <= i < |keys| ==> keys[i] == if grouped[i] then rs[i].shader else None)
            && (forall i :: 0 <= i < |keys| && grouped[i] ==> rs[i].shader.Some? && rs[i].shader.value < |counts|)
            && (forall s: nat :: s < |counts| ==> counts[s] == |MembersOf(keys, s, |keys|)|)
    ensures forall i :: 0 <= i < |rs| ==> IsFresh(rs[i])
  {
    hide MembersOf, IsFresh;
  }

  /** Classifying one more material keeps the run's invariant; a grouped material goes on waiting. */
  lemma ClassifiedRuns(c: Catalog, sel: seq<bool>, authorityComplete: bool, rs: seq<MaterialRecord>, st: Stats,
                       waiting: set<nat>, n: nat)
    requires |sel| == c.shaderCount && Running(c, sel, rs, st, waiting, {}, n) && n in waiting
    requires n < |rs| == |c.materials|
    ensures rs[n] == INITIAL_RECORD
    ensures var m := c.materials[n];
            Running(c, sel, rs[n := ClassifiedRecord(c, sel, authorityComplete, m)],
              ClassifiedStats(st, c, sel, authorityComplete, m),
                    if authorityComplete && IsChosen(c, sel, m) then waiting else waiting - {n}, {}, n + 1)
  {
    var m := c.materials[n];
    RecordRunsAt(c, sel, rs, waiting, {}, n, n);
    ClassifiedIsExplained(c, sel, authorityComplete, m);
    ClassifiedCountsOne(c, sel, authorityComplete, m, st);
    hide Running, RecordExplained, ClassifiedRecord, ClassifiedStats, CountsOne, SameArtifacts, IsChosen;
    var r, st' := ClassifiedRecord(c, sel, authorityComplete, m), ClassifiedStats(st, c, sel, authorityComplete, m);
    var chosen := st.(selected := st'.selected);
    SelectedIsFree(c, sel, rs, st, waiting, n, st'.selected, st.shaderGroups);
    if authorityComplete && IsChosen(c, sel, m) {
      Waits(c, sel, rs, st', waiting, {}, n);
    } else {
      var nothing: set<nat> := {};
      assert nothing - {n} == nothing;
      Settles(c, sel, rs, chosen, waiting, {}, n, n, r, st');
    }
  }

  /** Classification counts a material under the status it gives it, and a chosen one as selected. */
  lemma ClassifiedCountsOne(c: Catalog, sel: seq<bool>, authorityComplete: bool, m: CatalogMaterial, st: Stats)
    requires |sel| == c.shaderCount
    ensures var r, st' := ClassifiedRecord(c, sel, authorityComplete, m),
        ClassifiedStats(st, c, sel, authorityComplete, m);
            var chosen := st.(selected := st'.selected);
            && st'.dependencies == st.dependencies && st'.catalogMaterials == st.catalogMaterials
            && chosen == st.(selected := st'.selected, shaderGroups := st.shaderGroups)
            && if authorityComplete && IsChosen(c, sel, m) then st' == chosen
               else CountsOne(chosen, st', INITIAL_RECORD.status, r.status)
  {
  }

  /** The counters of selections and groups play no part in the running invariant. */
  lemma SelectedIsFree(c: Catalog, sel: seq<bool>, rs: seq<MaterialRecord>, st: Stats, waiting: set<nat>, n: nat,
                       chosen: nat, groups: nat)
    requires |sel| == c.shaderCount && Running(c, sel, rs, st, waiting, {}, n)
    ensures Running(c, sel, rs, st.(selected := chosen, shaderGroups := groups), waiting, {}, n)
  {
  }

  // ---------- What one publication does to the run ----------

  lemma PendingHere(c: Catalog, sel: seq<bool>, rs: seq<MaterialRecord>, st: Stats, waiting: set<nat>, tried: set<nat>,
                    k: nat)
    requires |sel| == c.shaderCount && Running(c, sel, rs, st, waiting, tried, |rs|) && k in waiting && k !in tried
    ensures k < |rs| == |c.materials| && rs[k] == Pending(c.materials[k]) && IsChosen(c, sel, c.materials[k])
  {
    RecordRunsAt(c, sel, rs, waiting, tried, |rs|, k);
  }

  lemma InBounds(c: Catalog, sel: seq<bool>, rs: seq<MaterialRecord>, st: Stats, waiting: set<nat>, tried: set<nat>,
                 k: nat)
    requires |sel| == c.shaderCount && Running(c, sel, rs, st, waiting, tried, |rs|) && k in waiting
    ensures k < |rs|
  {
  }

  lemma TriedHere(c: Catalog, sel: seq<bool>, rs: seq<MaterialRecord>, st: Stats, waiting: set<nat>, tried: set<nat>,
                  k: nat)
    requires |sel| == c.shaderCount && Running(c, sel, rs, st, waiting, tried, |rs|) && k in waiting && k in tried
    ensures k < |rs| == |c.materials| && IsTried(c.materials[k], rs[k]) && IsChosen(c, sel, c.materials[k])
  {
    RecordRunsAt(c, sel, rs, waiting, tried, |rs|, k);
  }

  /** The record once its leases are closed: unstable leases turn every outcome into a failure. */
  function LeasesClosed(r: MaterialRecord, failure: Failure, stable: bool): MaterialRecord {
    var r' := if stable then r else r.(residue := r.residue || AnyEmitted(r));
    var failure' := if stable then failure else TextureDependencyIdentity;
    if failure' == NoFailure then r' else FailedAs(r', failure')
  }

  lemma LeasesClosedIsTried(m: CatalogMaterial, r: MaterialRecord, failure: Failure, stable: bool)
    requires r.shader == Some(m.shaderIndex) && r.failure == NoFailure
    requires if failure == NoFailure then IsPublished(r) && HasPublication(r)
        else !IsPublished(r) && r.status != Failed && (AnyEmitted(r) ==> r.residue)
    ensures var final := LeasesClosed(r, failure, stable);
            && IsTried(m, final) && SameArtifacts(final, r) && final.dependencies == r.dependencies
            && final.closureComplete == r.closureComplete
            && (IsPublished(final) <==> failure == NoFailure && stable)
            && (final.status == Failed <==> !IsPublished(final))
  {
  }

  lemma LeasesClosedCounts(r: MaterialRecord, failure: Failure, stable: bool)
    requires r.status != Failed
    ensures LeasesClosed(r, failure, stable).status == Failed <==> failure != NoFailure || !stable
  {
  }

  lemma FailedIsTried(m: CatalogMaterial, failure: Failure)
    requires failure != NoFailure
    ensures var r := FailedAs(Pending(m), failure);
            IsTried(m, r) && r.status == Failed && SameArtifacts(r, Pending(m)) && r.dependencies == [] &&
              !IsPublished(r)
  {
  }

  lemma TracedAfter(c: Catalog, graph: PointerGraph, options: Options, rs: seq<MaterialRecord>, k: nat,
                    r: MaterialRecord)
    requires Traced(c, graph, options, rs) && k < |rs| && RecordTraced(c, k, graph, options, r)
    ensures Traced(c, graph, options, rs[k := r])
  {
    hide RecordTraced;
  }

  /** A record that is relabelled without being published stays traced. */
  lemma TracedByRelabel(c: Catalog, graph: PointerGraph, options: Options, rs: seq<MaterialRecord>, k: nat,
                        r: MaterialRecord)
    requires Traced(c, graph, options, rs) && k < |rs|
    requires r.dependencies == rs[k].dependencies && r.closureComplete == rs[k].closureComplete
    requires IsPublished(r) ==> IsPublished(rs[k])
    ensures Traced(c, graph, options, rs[k := r])
  {
    assert RecordTraced(c, k, graph, options, rs[k]);
    hide DependenciesTraced, FirstFailure;
    assert RecordTraced(c, k, graph, options, r);
    TracedAfter(c, graph, options, rs, k, r);
  }

  /** Every accepted lease is open. */
  ghost predicate AcceptedAreHeld(ds: seq<Dependency>, held: seq<Option<nat>>, open: set<nat>) {
    |ds| == |held| && forall k :: 0 <= k < |ds| && ds[k].status == ResolvedExported ==>
      held[k].Some? && held[k].value in open
  }

  lemma HeldWhileOpen(ds: seq<Dependency>, held: seq<Option<nat>>, open: set<nat>, hasCloser: bool)
    requires |ds| == |held| && forall k :: 0 <= k < |ds| ==> (held[k].Some? <==> ds[k].status == ResolvedExported)
    requires if hasCloser then HeldSet(held) <= open else HeldSet(held) == {}
    ensures AcceptedAreHeld(ds, held, open)
    ensures !hasCloser ==> forall k :: 0 <= k < |ds| ==> ds[k].status != ResolvedExported
  {
    forall k | 0 <= k < |held|
      ensures held[k].Some? ==> held[k].value in HeldSet(held)
    {
      HeldByIndex(held, k);
    }
  }

  lemma LeasesClosedIsTraced(c: Catalog, k: nat, graph: PointerGraph, options: Options, r: MaterialRecord,
                             failure: Failure, final: MaterialRecord)
    requires k < |c.materials| && DependenciesTraced(c, k, graph, options, r.dependencies, r.closureComplete)
    requires failure == NoFailure ==> FirstFailure(r.dependencies) == NoFailure
    requires final.dependencies == r.dependencies && final.closureComplete == r.closureComplete
    requires IsPublished(final) ==> failure == NoFailure
    ensures RecordTraced(c, k, graph, options, final)
  {
  }

  /** A record whose publication was tried and whose leases are closed extends the run. */
  lemma RecordFinished(c: Catalog, sel: seq<bool>, graph: PointerGraph, options: Options, rs: seq<MaterialRecord>,
                       st: Stats,
                       waiting: set<nat>, tried: set<nat>, k: nat, r: MaterialRecord, failure: Failure, stable: bool,
                       st': Stats,
                       created: seq<Prepared>, start: Tree, now: Tree, history: seq<Tree>, low: nat)
    requires |sel| == c.shaderCount && Running(c, sel, rs, st, waiting, tried, |rs|) && k in waiting && k !in tried
    requires k < |rs| == |c.materials|
    requires r.shader == Some(c.materials[k].shaderIndex) && r.failure == NoFailure
    requires if failure == NoFailure then IsPublished(r) && HasPublication(r)
        else !IsPublished(r) && r.status != Failed && (AnyEmitted(r) ==> r.residue)
    requires DependenciesTraced(c, k, graph, options, r.dependencies, r.closureComplete)
    requires failure == NoFailure ==> FirstFailure(r.dependencies) == NoFailure
    requires st' == st.(failed := st.failed + One(LeasesClosed(r, failure, stable).status == Failed),
        dependencies := Plus(st.dependencies, Tally(r.dependencies)))
    requires RunKept(created, rs[k := r], start, now, history, low) && Traced(c, graph, options, rs)
    ensures var rs' := rs[k := LeasesClosed(r, failure, stable)];
            && Running(c, sel, rs', st', waiting, tried + {k}, |rs|)
            && RunKept(created, rs', start, now, history, low) && Traced(c, graph, options, rs')
  {
    hide Running, RunKept, Traced, DependenciesTraced, FirstFailure, LeasesClosed, IsTried, HasPublication,
         AnyEmitted, IsPublished, SameArtifacts, Tally, Plus;
    LeasesClosedIsTried(c.materials[k], r, failure, stable);
    var final := LeasesClosed(r, failure, stable);
    LeasesClosedIsTraced(c, k, graph, options, r, failure, final);
    assert SameArtifacts(final, rs[k := r][k]);
    assert Traced(c, graph, options, rs);
    IsTriedNow(c, sel, rs, st, waiting, tried, k, final, st');
    RunKeptByRelabel(created, rs[k := r], k, final, start, now, history, low);
    assert rs[k := r][k := final] == rs[k := final];
    TracedAfter(c, graph, options, rs, k, final);
  }

  /** Closing the leases leaves a published record standing. */
  lemma FinishedStands(documents: Documents, rs: seq<MaterialRecord>, k: nat, r: MaterialRecord, failure: Failure,
                       stable: bool,
                       before: map<string, Bytes>, now: map<string, Bytes>)
    requires AllStand(documents, rs, before) && Keeps(before, now) && k < |rs| && r.status != Failed
    requires failure == NoFailure ==> StandsAt(documents(k, r.dependencies), r, now)
    requires failure != NoFailure ==> !IsPublished(r)
    requires r.failure == NoFailure
    requires failure == OutputCollision ==>
               documents(k, r.dependencies).Ready? && AnyTaken(documents(k, r.dependencies), now)
    ensures AllStand(documents, rs[k := LeasesClosed(r, failure, stable)], now)
    ensures IsPublished(LeasesClosed(r, failure, stable)) ==> failure == NoFailure && stable
  {
    hide AllStand, AnyEmitted, AnyTaken;
    AllStandByPublication(documents, rs, k, LeasesClosed(r, failure, stable), before, now);
  }

  /** Whether a publication has written the material file. */
  ghost predicate IsNew(p: Prepared, before: Tree, after: Tree) {
    p.Ready? && p.materialPath in after.written && p.materialPath !in before.written
  }

  // ---------- What a group does to the run ----------

  /** Only records listed in `span` may have been published since. */
  ghost predicate PublishedOnlyIn(before: seq<MaterialRecord>, after: seq<MaterialRecord>, span: set<nat>) {
    |before| == |after| && forall i: nat :: i < |after| && IsPublished(after[i]) ==> IsPublished(before[i]) || i in span
  }

  lemma Unpublishes(rs: seq<MaterialRecord>, k: nat, r: MaterialRecord)
    requires k < |rs| && (IsPublished(r) ==> IsPublished(rs[k]))
    ensures PublishedOnlyIn(rs, rs[k := r], {})
  {
    hide IsPublished;
  }

  lemma PendingFails(c: Catalog, sel: seq<bool>, m: CatalogMaterial, st: Stats, failure: Failure)
    requires |sel| == c.shaderCount && IsChosen(c, sel, m) && failure != NoFailure
    ensures var p, r := Pending(m), FailedAs(Pending(m), failure);
            && p.status != Failed && p.failure == NoFailure
            && RecordExplained(c, sel, m, r) && CountsOne(st, st.(failed := st.failed + 1), p.status, r.status)
            && SameArtifacts(r, p) && r.dependencies == p.dependencies && r.closureComplete == p.closureComplete
            && !IsPublished(r)
  {
    FailedIsTried(m, failure);
  }

  /** A waiting material of a group that cannot be published fails and is counted. */
  lemma GroupMemberFails(c: Catalog, sel: seq<bool>, graph: PointerGraph, documents: Documents, options: Options,
                         rs: seq<MaterialRecord>,
                         st: Stats, waiting: set<nat>,
                         k: nat, failure: Failure, created: seq<Prepared>, start: Tree, now: Tree,
                         history: seq<Tree>, low: nat)
    requires |sel| == c.shaderCount && Running(c, sel, rs, st, waiting, {}, |rs|) && k in waiting
    requires failure != NoFailure && failure != OutputCollision && k < |rs|
    requires RunKept(created, rs, start, now, history, low) && Traced(c, graph, options, rs)
    requires AllStand(documents, rs, now.files)
    ensures rs[k].status != Failed && rs[k].failure == NoFailure
    ensures var rs' := rs[k := FailedAs(rs[k], failure)];
            && Running(c, sel, rs', st.(failed := st.failed + 1), waiting - {k}, {}, |rs|)
            && RunKept(created, rs', start, now, history, low) && Traced(c, graph, options, rs')
            && AllStand(documents, rs', now.files) && PublishedOnlyIn(rs, rs', {})
  {
    PendingHere(c, sel, rs, st, waiting, {}, k);
    PendingFails(c, sel, c.materials[k], st, failure);
    hide Running, RunKept, Traced, AllStand, RecordExplained, SameArtifacts, FailedAs, IsPublished, CountsOne, IsChosen;
    var r, nothing: set<nat> := FailedAs(rs[k], failure), {};
    assert nothing - {k} == nothing;
    Unpublishes(rs, k, r);
    Settles(c, sel, rs, st, waiting, {}, |rs|, k, r, st.(failed := st.failed + 1));
    RunKeptByRelabel(created, rs, k, r, start, now, history, low);
    TracedByRelabel(c, graph, options, rs, k, r);
    AllStandByRelabel(documents, rs, k, r, now.files);
  }

  /** The record after its group's shader files are closed. */
  function ShaderClosed(r: MaterialRecord, stable: bool): MaterialRecord {
    if stable then r else Destabilised(r)
  }

  function ShaderClosedStats(st: Stats, r: MaterialRecord, stable: bool): Stats {
    if stable then
      st.(emitted := st.emitted + One(r.status == Emitted), unmodified := st.unmodified + One(r.status == Unchanged))
    else st.(failed := st.failed + One(r.status != Failed))
  }

  lemma ShaderClosedIsExplained(c: Catalog, sel: seq<bool>, m: CatalogMaterial, r: MaterialRecord, st: Stats,
                                stable: bool)
    requires |sel| == c.shaderCount && IsChosen(c, sel, m) && IsTried(m, r)
    ensures var r' := ShaderClosed(r, stable);
            && RecordExplained(c, sel, m, r') && SameArtifacts(r', r) && r'.dependencies == r.dependencies
            && r'.closureComplete == r.closureComplete
            && (IsPublished(r') <==> IsPublished(r) && stable)
            && (r'.failure == OutputCollision ==> r.failure == OutputCollision)
            && CountsOne(st, ShaderClosedStats(st, r, stable), r.status, r'.status)
  {
  }

  /** A tried material of a group is counted once its shader files are closed. */
  lemma GroupMemberSettles(c: Catalog, sel: seq<bool>, graph: PointerGraph, documents: Documents, options: Options,
                           rs: seq<MaterialRecord>,
                           st: Stats,
                           waiting: set<nat>, tried: set<nat>, k: nat, stable: bool,
                           created: seq<Prepared>, start: Tree, now: Tree, history: seq<Tree>, low: nat)
    requires |sel| == c.shaderCount && Running(c, sel, rs, st, waiting, tried, |rs|) && k in waiting && k in tried
    requires k < |rs|
    requires RunKept(created, rs, start, now, history, low) && Traced(c, graph, options, rs)
    requires AllStand(documents, rs, now.files)
    ensures var rs' := rs[k := ShaderClosed(rs[k], stable)];
            && Running(c, sel, rs', ShaderClosedStats(st, rs[k], stable), waiting - {k}, tried - {k}, |rs|)
            && RunKept(created, rs', start, now, history, low) && Traced(c, graph, options, rs')
            && AllStand(documents, rs', now.files) && PublishedOnlyIn(rs, rs', {})
  {
    hide Running, RunKept, Traced, AllStand, RecordExplained, IsTried, IsPublished, ShaderClosed, CountsOne;
    TriedHere(c, sel, rs, st, waiting, tried, k);
    ShaderClosedIsExplained(c, sel, c.materials[k], rs[k], st, stable);
    var r := ShaderClosed(rs[k], stable);
    Settles(c, sel, rs, st, waiting, tried, |rs|, k, r, ShaderClosedStats(st, rs[k], stable));
    RunKeptByRelabel(created, rs, k, r, start, now, history, low);
    TracedByRelabel(c, graph, options, rs, k, r);
    AllStandByRelabel(documents, rs, k, r, now.files);
  }

  /** Every record of the span failed for this reason. */
  ghost predicate AllFailedFor(rs: seq<MaterialRecord>, span: set<nat>, failure: Failure) {
    forall i: nat :: i in span ==> i < |rs| && rs[i].status == Failed && rs[i].failure == failure
  }

  lemma OneMoreFailedFor(rs: seq<MaterialRecord>, span: set<nat>, k: nat, failure: Failure)
    requires AllFailedFor(rs, span, failure) && k < |rs| && rs[k].failure == NoFailure && failure != NoFailure
    ensures AllFailedFor(rs[k := FailedAs(rs[k], failure)], span + {k}, failure)
  {
  }

  ghost predicate NonePublishedIn(rs: seq<MaterialRecord>, span: set<nat>) {
    forall i: nat :: i in span && i < |rs| ==> !IsPublished(rs[i])
  }

  lemma PublishedOnlyOne(before: seq<MaterialRecord>, middle: seq<MaterialRecord>, after: seq<MaterialRecord>,
                         span: set<nat>, k: nat)
    requires PublishedOnlyIn(before, middle, span) && k < |middle| == |after| && after == middle[k := after[k]]
    ensures PublishedOnlyIn(before, after, span + {k})
  {
  }

  lemma PublishedOnlyFewer(before: seq<MaterialRecord>, middle: seq<MaterialRecord>, after: seq<MaterialRecord>,
                           span: set<nat>)
    requires PublishedOnlyIn(before, middle, span) && PublishedOnlyIn(middle, after, {})
    ensures PublishedOnlyIn(before, after, span)
  {
  }

  // ---------- The groups of the catalog ----------

  /** The materials that wait after classification are those of the grouped order. */
  lemma AllGrouped(keys: seq<Option<nat>>, shaderCount: nat)
    requires forall i :: 0 <= i < |keys| && keys[i].Some? ==> keys[i].value < shaderCount
    ensures var order := GroupsBelow(keys, shaderCount);
            ListedOnce(order) && Span(order, 0, |order|) == StillWaiting(keys, |keys|)
  {
    GroupsArePermutation(keys, shaderCount);
    hide GroupsBelow, ListedOnce;
    var order := GroupsBelow(keys, shaderCount);
    forall i: nat
      ensures i in Span(order, 0, |order|) <==> i in StillWaiting(keys, |keys|)
    {
      assert i in order <==> i in Span(order, 0, |order|);
    }
  }

  ghost predicate AreOfShader(c: Catalog, sel: seq<bool>, span: set<nat>, shader: nat)
    requires |sel| == c.shaderCount
  {
    forall i: nat :: i in span ==>
      i < |c.materials| && IsChosen(c, sel, c.materials[i]) && c.materials[i].shaderIndex == shader
  }

  /** A group's part of the order lists chosen materials of its shader. */
  lemma GroupIsOfShader(c: Catalog, sel: seq<bool>, authorityComplete: bool, shader: nat)
    requires |sel| == c.shaderCount && shader < c.shaderCount
    ensures var keys := Keys(c, sel, authorityComplete);
            var order := GroupsBelow(keys, c.shaderCount);
            Offset(keys, shader) <= Offset(keys, shader + 1) <= |order|
            && AreOfShader(c, sel, Span(order, Offset(keys, shader), Offset(keys, shader + 1)), shader)
  {
    hide GroupsBelow, MembersOf, IsChosen, Offset;
    var keys := Keys(c, sel, authorityComplete);
    var order := GroupsBelow(keys, c.shaderCount);
    SliceIsGroup(keys, shader, c.shaderCount);
    LastOffset(keys, c.shaderCount);
    MembersAscend(keys, shader, |keys|);
    SpanOfSlice(order, Offset(keys, shader), Offset(keys, shader + 1));
  }

  lemma SpanOfSlice(order: seq<nat>, begin: nat, end: nat)
    requires begin <= end <= |order|
    ensures forall i: nat :: i in Span(order, begin, end) ==> i in order[begin..end]
  {
    forall i: nat | i in Span(order, begin, end)
      ensures i in order[begin..end]
    {
      var j: nat :| begin <= j < end && order[j] == i;
      assert order[begin..end][j - begin] == i;
    }
  }

  lemma SameLength(before: seq<MaterialRecord>, after: seq<MaterialRecord>, span: set<nat>)
    requires PublishedOnlyIn(before, after, span)
    ensures |before| == |after|
  {
  }

  lemma NoGroups(c: Catalog, sel: seq<bool>)
    requires |sel| == c.shaderCount
    ensures GroupsHaveMaterials(c, sel, {})
  {
  }

  lemma KeysInRange(c: Catalog, sel: seq<bool>, authorityComplete: bool)
    requires |sel| == c.shaderCount
    ensures var keys := Keys(c, sel, authorityComplete); forall i :: 0 <= i < |keys| && keys[i].Some? ==>
        keys[i].value < c.shaderCount
  {
  }

  lemma FirstOffset(keys: seq<Option<nat>>)
    ensures Offset(keys, 0) == 0
  {
  }

  lemma LastOffset(keys: seq<Option<nat>>, shaderCount: nat)
    ensures Offset(keys, shaderCount) == |GroupsBelow(keys, shaderCount)|
  {
  }

  lemma SpanIsNotEmpty(order: seq<nat>, begin: nat, end: nat)
    requires begin < end <= |order|
    ensures Span(order, begin, end) != {}
  {
    assert order[begin] in Span(order, begin, end);
  }

  lemma BracketedOneMore(c: Catalog, sel: seq<bool>, before: seq<MaterialRecord>, after: seq<MaterialRecord>,
                         span: set<nat>, bracketed: set<nat>, shader: nat)
    requires |sel| == c.shaderCount && |before| == |after| == |c.materials|
    requires PublishedWithin(c, before, bracketed) && GroupsHaveMaterials(c, sel, bracketed)
    requires PublishedOnlyIn(before, after, span) && span != {}
    requires AreOfShader(c, sel, span, shader)
    ensures PublishedWithin(c, after, bracketed + {shader}) && GroupsHaveMaterials(c, sel, bracketed + {shader})
  {
    hide IsChosen;
    var i :| i in span;
    assert IsChosen(c, sel, c.materials[i]) && c.materials[i].shaderIndex == shader;
  }

  lemma BracketedAsBefore(c: Catalog, before: seq<MaterialRecord>, after: seq<MaterialRecord>, bracketed: set<nat>)
    requires |before| == |after| == |c.materials| && PublishedWithin(c, before, bracketed)
    requires PublishedOnlyIn(before, after, {})
    ensures PublishedWithin(c, after, bracketed)
  {
  }

  /** A freshly classified batch has published nothing and traced nothing. */
  lemma FreshRun(c: Catalog, graph: PointerGraph, documents: Documents, options: Options, rs: seq<MaterialRecord>,
                 t: Tree, history: seq<Tree>)
    requires |rs| == |c.materials| && forall i :: 0 <= i < |rs| ==> IsFresh(rs[i])
    ensures AllStand(documents, rs, t.files)
    ensures RunKept([], rs, t, t, history, |history|) && Traced(c, graph, options, rs) && PublishedWithin(c, rs, {})
  {
    RunKeptAtStart(rs, t, history);
  }

  // ---------- What one step does to the leases ----------

  /** With a closer the held leases are closed and nothing else changes among the open ones. */
  ghost predicate HeldClosed(hasCloser: bool, held: seq<Option<nat>>, before: Book, after: Book) {
    && Grown(before, after) && after.issued == before.issued && after.unstable <= before.unstable + HeldSet(held)
    && if hasCloser then after.open == before.open - HeldSet(held) && HeldSet(held) <= after.closed
       else after.open == before.open
  }

  /** Each exported dependency, and no other, has a lease of this run. */
  ghost predicate HeldFor(ds: seq<Dependency>, held: seq<Option<nat>>, first: nat) {
    && |held| == |ds|
    && (forall k :: 0 <= k < |ds| ==> (held[k].Some? <==> ds[k].status == ResolvedExported))
    && (forall k :: 0 <= k < |held| && held[k].Some? ==> first <= held[k].value)
  }

  /** What projecting the dependencies says about the leases it holds. */
  lemma HeldBookFacts(hasCloser: bool, held: seq<Option<nat>>, before: Book, after: Book)
    requires HeldOnly(hasCloser, held, before, after)
    ensures Grown(before, after) && HeldDistinct(held)
    ensures forall k :: 0 <= k < |held| && held[k].Some? ==> before.issued <= held[k].value
    ensures hasCloser ==> HeldSet(held) <= after.open
    ensures !hasCloser ==> HeldSet(held) == {}
  {
  }

  /** Taking leases and closing exactly those leaves nothing open that was not open before. */
  lemma HeldThenClosed(hasCloser: bool, held: seq<Option<nat>>, a: Book, b: Book, c: Book)
    requires HeldOnly(hasCloser, held, a, b) && HeldClosed(hasCloser, held, b, c)
    requires BookIsValid(a) && BookIsValid(b) && BookIsValid(c)
    ensures LeasesKept(hasCloser, a, c)
  {
    HeldIsFresh(hasCloser, held, a, b);
    hide HeldSet, HeldSince;
    GrownThrough(a, b, c);
    if hasCloser {
      assert c.open == a.open;
      ClosedWhenNotOpen(a, c);
    }
  }

  /** A lease that was handed out and is not open is closed. */
  lemma ClosedWhenNotOpen(before: Book, after: Book)
    requires BookIsValid(before) && BookIsValid(after) && after.open <= before.open
    ensures AllClosedSince(before, after)
  {
  }

  lemma KeptHere(hasCloser: bool, b: Book)
    ensures LeasesKept(hasCloser, b, b) && Grown(b, b)
  {
  }

  lemma KeptWithout(hasCloser: bool, before: Book, after: Book)
    requires LeasesKept(true, before, after)
    ensures LeasesKept(hasCloser, before, after)
  {
  }

  lemma StillOpen(hasCloser: bool, before: Book, after: Book)
    requires LeasesKept(hasCloser, before, after)
    ensures before.open <= after.open && Grown(before, after)
  {
  }

  /** The shader files are closed after the group's records. */
  lemma ViewsClosed(hasCloser: bool, views: ShaderViews, stable: bool, first: nat, before: Book, open: Book,
                    after: Book)
    requires LeasesKept(hasCloser, before, open) && Grown(open, after) && after.issued == open.issued
    requires after.open == open.open - {views.shader, views.meta} && {views.shader, views.meta} <= after.closed
    requires views.shader != views.meta && first <= views.shader && first <= views.meta
    requires stable <==> views.shader !in after.unstable && views.meta !in after.unstable
    ensures LeasesKept(hasCloser, before.(open := before.open - {views.shader, views.meta}), after)
    ensures stable ==> ViewsStable(Some(views), first, after)
  {
    GrownThrough(before, open, after);
  }

  /** The shader files themselves were handed out and closed meanwhile. */
  lemma GroupKeepsLeases(hasCloser: bool, views: ShaderViews, before: Book, open: Book, after: Book)
    requires BookIsValid(before) && BookIsValid(after) && Grown(before, open)
    requires open.open == before.open + {views.shader, views.meta} && {views.shader, views.meta} !! before.open
    requires LeasesKept(hasCloser, open.(open := open.open - {views.shader, views.meta}), after)
    ensures LeasesKept(hasCloser, before, after)
  {
    assert open.open - {views.shader, views.meta} == before.open;
    GrownThrough(before, open, after);
    if hasCloser { ClosedWhenNotOpen(before, after); }
  }

  lemma FirstIsEarlier(rs: seq<MaterialRecord>, backings: seq<Backing>, tried: set<nat>, first: nat, b: Book)
    requires AllBacked(rs, backings, tried, first, b)
    ensures first <= b.issued
  {
  }

  /** Closing the leases of a record backs it with them, if it is still published. */
  lemma ReleasedIsBacked(rs: seq<MaterialRecord>, backings: seq<Backing>, tried: set<nat>, first: nat, before: Book,
                         after: Book, k: nat, r: MaterialRecord, held: seq<Option<nat>>, hasCloser: bool, stable: bool)
    requires AllBacked(rs, backings, tried, first, before) && k < |rs|
    requires HeldDistinct(held) && HeldFor(r.dependencies, held, first) && HeldClosed(hasCloser, held, before, after)
    requires if hasCloser then HeldSet(held) <= before.open else HeldSet(held) == {}
    requires before.open !! before.closed && before.unstable <= before.closed
    requires stable ==> after.unstable == before.unstable
    requires IsPublished(r) ==> stable
    ensures AllBacked(rs[k := r], backings[k := Backing(held, None)], tried + {k}, first, after)
  {
    hide AllBacked, HeldSet, HeldDistinct, IsPublished, HeldStable;
    AllBackedLater(rs, backings, tried, first, before, after);
    BackedLength(rs, backings, tried, first, before);
    if IsPublished(r) {
      HeldIsStable(r.dependencies, held, hasCloser, first, before, after);
    }
    AllBackedAfter(rs, backings, tried, first, after, k, r, Backing(held, None), tried + {k});
  }

  lemma BackedLength(rs: seq<MaterialRecord>, backings: seq<Backing>, tried: set<nat>, first: nat, b: Book)
    requires AllBacked(rs, backings, tried, first, b)
    ensures |backings| == |rs|
  {
  }

  /** Settling a record backs it with its shader's files too, if they closed stably. */
  lemma SettledIsBacked(rs: seq<MaterialRecord>, backings: seq<Backing>, tried: set<nat>, first: nat, b: Book, k: nat,
                        views: ShaderViews, stable: bool)
    requires AllBacked(rs, backings, tried, first, b) && k < |rs| && k in tried
    requires stable ==> ViewsStable(Some(views), first, b)
    ensures k < |backings|
    ensures AllBacked(rs[k := ShaderClosed(rs[k], stable)], backings[k := backings[k].(views := Some(views))],
                      tried - {k}, first, b)
  {
    assert Backed(rs[k], backings[k], false, first, b);
    hide AllBacked, HeldStable, ViewsStable;
    AllBackedAfter(rs, backings, tried, first, b, k, ShaderClosed(rs[k], stable), backings[k].(views := Some(views)),
                   tried - {k});
  }

  lemma FailedIsUnpublished(r: MaterialRecord, failure: Failure)
    ensures !IsPublished(FailedAs(r, failure))
  {
  }

  lemma FreshIsBacked(rs: seq<MaterialRecord>, backings: seq<Backing>, b: Book)
    requires |backings| == |rs| && forall i :: 0 <= i < |rs| ==> IsFresh(rs[i])
    ensures AllBacked(rs, backings, {}, b.issued, b)
  {
  }

  // ---------- Groups, step by step ----------

  lemma NothingFailedYet(rs: seq<MaterialRecord>, failure: Failure)
    ensures AllFailedFor(rs, {}, failure) && PublishedOnlyIn(rs, rs, {})
  {
  }

  lemma NothingPublishedYet(rs: seq<MaterialRecord>)
    ensures PublishedOnlyIn(rs, rs, {}) && NonePublishedIn(rs, {})
  {
  }

  /** Settling an unstable group takes one more publication back; a stable one changes no record. */
  lemma SettledPublishesNothing(rs: seq<MaterialRecord>, span: set<nat>, k: nat, stable: bool)
    requires k < |rs|
    ensures stable ==> rs[k := ShaderClosed(rs[k], stable)] == rs
    ensures !stable && NonePublishedIn(rs, span) ==> NonePublishedIn(rs[k := ShaderClosed(rs[k], stable)], span + {k})
  {
  }
}
