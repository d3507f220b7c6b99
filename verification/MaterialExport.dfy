/** The material export: classification, grouping by shader, publication of each group between the
    opening and the closing of its shader's files, and the counters that follow every step. */
module MaterialExport {
  import opened Basics
  import opened MaterialLedger
  import opened MaterialDependencies
  import opened MaterialGrouping
  import opened Publication
  import opened ExportRun
  import opened ExportSteps
  import opened ExportReasons

  /** open_published_shader_dependencies: both files are held, or neither. */
  method OpenShaderViews(leases: LeaseBook) returns (views: Option<ShaderViews>)
    requires leases.Valid()
    modifies leases
    ensures leases.Valid() && Grown(old(leases.Now()), leases.Now())
    ensures views.None? ==> LeasesKept(true, old(leases.Now()), leases.Now())
    ensures views.Some? ==>
        && views.value.shader != views.value.meta
        && old(leases.issued) <= views.value.shader && old(leases.issued) <= views.value.meta
        && {views.value.shader, views.value.meta} !! old(leases.open)
        && leases.open == old(leases.open) + {views.value.shader, views.value.meta}
  {
    var opens: bool := *;
    if !opens { return None; }
    var shader := leases.Issue();
    opens := *;
    if !opens {
      var _ := leases.Close(shader);
      return None;
    }
    var meta := leases.Issue();
    var matches: bool := *;
    if !matches {
      var _ := leases.Close(meta);
      var _ := leases.Close(shader);
      return None;
    }
    views := Some(ShaderViews(shader, meta));
  }

  /** close_published_shader_dependencies. */
  method CloseShaderViews(views: ShaderViews, leases: LeaseBook) returns (stable: bool)
    requires leases.Valid() && views.shader != views.meta && {views.shader, views.meta} <= leases.open
    modifies leases
    ensures leases.Valid() && Grown(old(leases.Now()), leases.Now()) && leases.issued == old(leases.issued)
    ensures leases.open == old(leases.open) - {views.shader, views.meta}
    ensures {views.shader, views.meta} <= leases.closed
    ensures stable <==> views.shader !in leases.unstable && views.meta !in leases.unstable
  {
    stable := true;
    var ok := leases.Close(views.meta);
    if !ok { stable := false; }
    ok := leases.Close(views.shader);
    if !ok { stable := false; }
  }

  ghost predicate AllPrepared(documents: Documents) {
    forall i, ds :: IsPrepared(documents(i, ds))
  }

  lemma ItIsPrepared(documents: Documents, index: nat, ds: seq<Dependency>)
    requires AllPrepared(documents)
    ensures IsPrepared(documents(index, ds))
  {
  }

  /** The record of the pending projection, before anything is published for it. */
  predicate IsUnpublished(r: MaterialRecord) {
    SameArtifacts(r, INITIAL_RECORD) && !r.hasArtifacts && !r.residue && r.failure == NoFailure &&
      r.status == Unselected
  }

  function RunOf(outputs: seq<ShaderOutput>, graph: PointerGraph, options: Options, documents: Documents, start: Tree,
                 low: nat, first: nat): Run
  {
    Run(graph, documents, options, outputs, start, low, first)
  }

  class MaterialBatch {
    const catalog: Catalog
    const selected: seq<bool>
    var records: seq<MaterialRecord>
    var stats: Stats
    ghost var created: seq<Prepared>
    ghost var backings: seq<Backing>

    constructor (c: Catalog, sel: seq<bool>)
      requires |sel| == c.shaderCount
      ensures catalog == c && selected == sel && created == []
      ensures backings == seq(|c.materials|, _ => Backing([], None))
      ensures records == seq(|c.materials|, _ => INITIAL_RECORD)
      ensures stats == Stats(|c.materials|, 0, 0, 0, 0, 0, 0, 0, NO_DEPENDENCIES)
    {
      catalog, selected := c, sel;
      records := seq(|c.materials|, _ => INITIAL_RECORD);
      stats := Stats(|c.materials|, 0, 0, 0, 0, 0, 0, 0, NO_DEPENDENCIES);
      created, backings := [], seq(|c.materials|, _ => Backing([], None));
    }

    ghost predicate Runs(waiting: set<nat>, tried: set<nat>, n: nat)
      requires |selected| == catalog.shaderCount
      reads this
    {
      Running(catalog, selected, records, stats, waiting, tried, n)
    }

    /** material_record_fail. */
    method Fail(index: nat, failure: Failure)
      requires index < |records|
      modifies this`records, this`stats
      ensures records == old(records)[index := FailedAs(old(records[index]), failure)]
      ensures stats == old(stats).(failed := old(stats).failed + One(old(records[index]).status != Failed))
    {
      var r := records[index];
      if r.status != Failed {
        r := r.(status := Failed);
        stats := stats.(failed := stats.failed + 1);
      }
      if r.failure == NoFailure {
        r := r.(failure := failure);
      }
      records := records[index := r];
    }

    // ---------- Classification ----------

    /** The body of the first loop for material `index`. */
    method Classify(index: nat, authorityComplete: bool, grouped: array<bool>, counts: array<nat>)
      requires |selected| == catalog.shaderCount && index < |records| == |catalog.materials|
      requires records[index] == INITIAL_RECORD
      requires grouped.Length == |records| && counts.Length == catalog.shaderCount && !grouped[index]
      modifies this`records, this`stats, grouped, counts
      ensures records == old(records)[index := ClassifiedRecord(catalog, selected, authorityComplete,
          catalog.materials[index])]
      ensures stats == ClassifiedStats(old(stats), catalog, selected, authorityComplete, catalog.materials[index])
      ensures var groups := authorityComplete && IsChosen(catalog, selected, catalog.materials[index]);
              && grouped[..] == old(grouped[..])[index := groups]
              && |counts[..]| == |old(counts[..])|
              && counts[..] == CountUnder(old(counts[..]), if groups then Some(catalog.materials[index].shaderIndex)
                   else None)
    {
      var m := catalog.materials[index];
      if m.status == ShaderNull {
        records := records[index := records[index].(status := Unassociated)];
        stats := stats.(unassociated := stats.unassociated + 1);
        return;
      }
      if m.status != MaterialReady || !m.decoded {
        Fail(index, CatalogMaterialNotReady);
        return;
      }
      if m.shaderIndex >= catalog.shaderCount {
        Fail(index, ShaderIndexInvalid);
        return;
      }
      records := records[index := records[index].(shader := Some(m.shaderIndex))];
      if !selected[m.shaderIndex] {
        records := records[index := records[index].(status := Unselected)];
        stats := stats.(unselected := stats.unselected + 1);
        return;
      }
      stats := stats.(selected := stats.selected + 1);
      if !authorityComplete {
        Fail(index, DependencyAuthorityIncomplete);
        return;
      }
      grouped[index] := true;
      counts[m.shaderIndex] := counts[m.shaderIndex] + 1;
    }

    /** The first loop: every record is classified, and the grouped materials are marked and counted. */
    method ClassifyAll(authorityComplete: bool) returns (grouped: array<bool>, counts: array<nat>)
      requires |selected| == catalog.shaderCount && |records| == |catalog.materials|
      requires forall i :: 0 <= i < |records| ==> records[i] == INITIAL_RECORD
      requires stats == Stats(|catalog.materials|, 0, 0, 0, 0, 0, 0, 0, NO_DEPENDENCIES)
      modifies this`records, this`stats
      ensures fresh(grouped) && fresh(counts) && grouped.Length == |records| == |catalog.materials|
      ensures counts.Length == catalog.shaderCount
      ensures Runs(StillWaiting(Keys(catalog, selected, authorityComplete), |records|), {}, |records|)
      ensures Grouping(Keys(catalog, selected, authorityComplete), grouped[..], counts[..], records, |records|)
      ensures ClassifiedUpTo(catalog, selected, authorityComplete, records, |records|)
      ensures stats.selected == CountChosen(catalog, selected, catalog.materials) && stats.shaderGroups == 0
    {
      hide Running, ClassifiedRecord, MembersOf, IsChosen, CountChosen, Grouping, CountUnder, Keys, StillWaiting,
           ClassifiedUpTo;
      NoneClassified(catalog, selected, authorityComplete, records);
      ghost var keys := Keys(catalog, selected, authorityComplete);
      grouped := new bool[|catalog.materials|](_ => false);
      counts := new nat[catalog.shaderCount](_ => 0);
      NothingClassified(catalog, selected, records, stats, keys, grouped[..], counts[..]);
      for index := 0 to |records|
        invariant |records| == |catalog.materials| && Runs(StillWaiting(keys, index), {}, index)
        invariant Grouping(keys, grouped[..], counts[..], records, index)
        invariant ClassifiedUpTo(catalog, selected, authorityComplete, records, index)
        invariant stats.selected == CountChosen(catalog, selected, catalog.materials[..index])
        invariant stats.shaderGroups == 0
      {
        WaitingSteps(keys, index);
        ClassifiedRuns(catalog, selected, authorityComplete, records, stats, StillWaiting(keys, index), index);
        GroupingSteps(catalog, selected, authorityComplete, grouped[..], counts[..], records, index);
        ChosenOneMore(catalog, selected, index);
        ClassifiedOneMore(catalog, selected, authorityComplete, records, index);
        Classify(index, authorityComplete, grouped, counts);
      }
      assert catalog.materials[..|records|] == catalog.materials;
    }

    // ---------- Publication of one record ----------

    /** publish_material, while every accepted lease is still open; skipped when the projection failed. */
    method PublishMaterial(index: nat, projection: Failure, p: Prepared, r0: MaterialRecord, store: OutputStore,
                           ghost held: seq<Option<nat>>, ghost open: set<nat>, ghost x: Run)
      returns (failure: Failure, r: MaterialRecord)
      requires store.Valid() && IsPrepared(p) && index < |records| && AcceptedAreHeld(r0.dependencies, held, open)
      requires SameArtifacts(records[index], INITIAL_RECORD) && IsUnpublished(r0) && projection != OutputCollision
      requires RunKept(created, records, x.start, store.Now(), store.history, x.low)
      modifies this`created, store
      ensures store.Valid() && old(store.history) <= store.history
      ensures RunKept(created, records[index := r], x.start, store.Now(), store.history, x.low)
      ensures r.failure == NoFailure && r.shader == r0.shader && r.dependencies == r0.dependencies
      ensures r.closureComplete == r0.closureComplete
      ensures if failure == NoFailure then IsPublished(r) && HasPublication(r)
              else !IsPublished(r) && r.status != Failed && (AnyEmitted(r) ==> r.residue)
      ensures r.status != Failed && (failure != NoFailure ==> MaterialReason(projection, p, failure))
      ensures projection != NoFailure ==> failure == projection
      ensures failure == OutputCollision ==> p.Ready? && AnyTaken(p, store.files)
      ensures failure == OutputIo && projection == NoFailure ==> store.errors > old(store.errors)
      ensures failure == NoFailure ==> StandsAt(p, r, store.files)
      ensures Keeps(old(store.files), store.files)
    {
      hide RunKept, Progressed, LedgerComplete, HasPublication, MetaPath, EvidencePath, AnyTaken, Grows, Step;
      if projection != NoFailure {
        failure, r := projection, r0;
        RunKeptByRelabel(created, records, index, r, x.start, store.Now(), store.history, x.low);
        return;
      }
      match p {
        case NotPrepared(reason, guid, identityHex, yamlOk) =>
          failure, r := reason, r0.(guid := guid, identityHex := identityHex, yamlOk := yamlOk);
          RunKeptByRelabel(created, records, index, r, x.start, store.Now(), store.history, x.low);
        case Ready(_, _, _, _, _, _) =>
          ghost var before, history := store.Now(), store.history;
          failure, r := PublishPrepared(p, r0, store);
          ProgressedGrows(p, before, store.Now(), store.history, |history|);
          RunKeptByPublication(p, created, records, index, r, x.start, before, store.Now(), history, store.history,
                               x.low);
          if IsNew(p, before, store.Now()) { created := created + [p]; }
          assert r.(failure := NoFailure) == r;
      }
    }

    /** publish_material_record: project, publish while every accepted lease is held, close the leases,
        and let an unstable lease override the outcome. */
    method PublishRecord(index: nat, graph: PointerGraph, options: Options, documents: Documents, leases: LeaseBook,
                         store: OutputStore, ghost waiting: set<nat>, ghost tried: set<nat>, ghost x: Run)
      requires IsRunOf(x, graph, options, documents)
      requires leases.Valid() && InRun(store, leases.Now(), x, waiting, tried) && index in waiting && index !in tried
      requires index < |catalog.materials| && IsInOrder(x, catalog, selected, catalog.materials[index])
      modifies this, leases, store
      ensures leases.Valid() && InRun(store, leases.Now(), x, waiting, tried + {index})
      ensures index < |records| == |old(records)| && records == old(records)[index := records[index]]
      ensures stats.selected == old(stats).selected && stats.shaderGroups == old(stats).shaderGroups
      ensures LeasesKept(options.hasCloser, old(leases.Now()), leases.Now())
      ensures old(store.history) <= store.history
      ensures leases.unstable != old(leases.unstable) ==> !IsPublished(records[index])
    {
      hide Running, RunKept, AllStand, IsPublished, LeasesClosed, RecordTraced, FirstFailure, Tally, Plus,
           HasPublication, AllPrepared, DescribesProperty, HeldSet, HeldDistinct, IsNullOrExported, AllBacked, HeldOnly,
           AllReasoned, IsInOrder;
      PendingHere(catalog, selected, records, stats, waiting, tried, index);
      var hasMemory: bool := *;
      if !hasMemory {
        FailProjection(index, leases.Now(), store, waiting, tried, x);
        return;
      }
      ghost var before := leases.Now();
      var ds, held, failure, complete, after :=
        ProjectDependencies(catalog, index, graph, options, leases, stats.dependencies);
      ghost var middle := leases.Now();
      FirstIsEarlier(records, backings, tried, x.first, before);
      HeldBookFacts(options.hasCloser, held, before, middle);
      HeldWhileOpen(ds, held, leases.open, options.hasCloser);
      ItIsPrepared(documents, index, ds);
      AllBackedLater(records, backings, tried, x.first, before, middle);
      AllReasonedLater(x, catalog, selected, records, backings, tried, before, middle);
      ghost var st := stats;
      stats := stats.(dependencies := after);
      PublishAndRelease(index, options, documents, ds, held, failure, complete, leases, store, waiting, tried, st, x);
      HeldThenClosed(options.hasCloser, held, before, middle, leases.Now());
    }

    /** No memory for the projection: the record fails and nothing is asked for. */
    method FailProjection(index: nat, ghost book: Book, ghost store: OutputStore, ghost waiting: set<nat>,
                          ghost tried: set<nat>, ghost x: Run)
      requires InRun(store, book, x, waiting, tried) && index in waiting && index !in tried
      requires index < |catalog.materials| && IsInOrder(x, catalog, selected, catalog.materials[index])
      modifies this`records, this`stats
      ensures InRun(store, book, x, waiting, tried + {index})
      ensures index < |records| == |old(records)| && records == old(records)[index := records[index]]
      ensures stats.selected == old(stats).selected && stats.shaderGroups == old(stats).shaderGroups
    {
      hide Running, RunKept, AllStand, IsPublished, RecordTraced, Tally, Plus, AllBacked, IsTried, Traced,
           AllReasoned, IsInOrder;
      PendingHere(catalog, selected, records, stats, waiting, tried, index);
      ghost var rs, st := records, stats;
      Fail(index, ProjectionAllocation);
      FailedIsTried(catalog.materials[index], ProjectionAllocation);
      EmptyAddsNothing(st.dependencies, records[index].dependencies);
      IsTriedNow(catalog, selected, rs, st, waiting, tried, index, records[index], stats);
      RunKeptByRelabel(created, rs, index, records[index], x.start, store.Now(), store.history, x.low);
      TracedByRelabel(catalog, x.graph, x.options, rs, index, records[index]);
      AllStandByRelabel(x.documents, rs, index, records[index], store.files);
      AllBackedByFailure(rs, backings, tried, x.first, book, index, records[index], Backing([], None), tried + {index});
      ProjectionIsReasoned(x, catalog, selected, rs, backings, tried, book, index);
    }

    /** The leases are closed after the publication attempt; an unstable one turns its outcome into a
        failure that keeps what was emitted as residue. */
    method Release(index: nat, options: Options, published: MaterialRecord, outcome: Failure, held: seq<Option<nat>>,
                   leases: LeaseBook) returns (stable: bool)
      requires index < |records| && leases.Valid() && HeldDistinct(held)
      requires options.hasCloser ==> HeldSet(held) <= leases.open
      modifies this`records, this`stats, leases
      ensures records == old(records)[index := LeasesClosed(published, outcome, stable)]
      ensures stats == old(stats).(failed := old(stats).failed
                                   + One(published.status != Failed && (outcome != NoFailure || !stable)))
      ensures leases.Valid() && HeldClosed(options.hasCloser, held, old(leases.Now()), leases.Now())
      ensures stable ==> leases.unstable == old(leases.unstable)
      ensures !stable && (options.hasCloser || HeldSet(held) == {}) ==> leases.unstable != old(leases.unstable)
    {
      hide HeldSet, HeldDistinct, AnyEmitted, Grown;
      stable := CloseLeases(options, held, leases);
      Conclude(index, published, outcome, stable);
    }

    /** The outcome of a record once its leases are closed. */
    method Conclude(index: nat, published: MaterialRecord, outcome: Failure, stable: bool)
      requires index < |records|
      modifies this`records, this`stats
      ensures records == old(records)[index := LeasesClosed(published, outcome, stable)]
      ensures stats == old(stats).(failed := old(stats).failed
                                   + One(published.status != Failed && (outcome != NoFailure || !stable)))
    {
      hide AnyEmitted;
      var r, failure := published, outcome;
      if !stable {
        if AnyEmitted(r) { r := r.(residue := true); }
        failure := TextureDependencyIdentity;
      }
      records := records[index := r];
      if failure != NoFailure { Fail(index, failure); }
    }

    /** The rest of publish_material_record after the projection. */
    method PublishAndRelease(index: nat, options: Options, documents: Documents,
                             ds: seq<Dependency>, held: seq<Option<nat>>, projection: Failure, complete: bool,
                             leases: LeaseBook, store: OutputStore,
                             ghost waiting: set<nat>, ghost tried: set<nat>, ghost st: Stats, ghost x: Run)
      requires documents == x.documents && options == x.options && |x.outputs| == catalog.shaderCount
      requires |selected| == catalog.shaderCount && Running(catalog, selected, records, st, waiting, tried, |records|)
      requires stats == st.(dependencies := Plus(st.dependencies, Tally(ds)))
      requires index in waiting && index !in tried && index < |records| == |catalog.materials|
      requires leases.Valid() && store.Valid() && AllPrepared(documents) && IsPrepared(documents(index, ds))
      requires RunKept(created, records, x.start, store.Now(), store.history, x.low)
      requires Traced(catalog, x.graph, x.options, records) && AllStand(documents, records, store.files)
      requires AllBacked(records, backings, tried, x.first, leases.Now())
      requires AllReasoned(x, catalog, selected, records, backings, tried, leases.Now())
      requires IsInOrder(x, catalog, selected, catalog.materials[index])
      requires projection == FirstFailure(ds)
      requires DependenciesTraced(catalog, index, x.graph, x.options, ds, complete)
      requires HeldDistinct(held) && AcceptedAreHeld(ds, held, leases.open) && HeldFor(ds, held, x.first)
      requires if options.hasCloser then HeldSet(held) <= leases.open else HeldSet(held) == {}
      modifies this, leases, store
      ensures leases.Valid() && InRun(store, leases.Now(), x, waiting, tried + {index})
      ensures |records| == |old(records)| && records == old(records)[index := records[index]]
      ensures stats.selected == st.selected && stats.shaderGroups == st.shaderGroups
      ensures HeldClosed(options.hasCloser, held, old(leases.Now()), leases.Now())
      ensures leases.unstable != old(leases.unstable) || projection != NoFailure ==> !IsPublished(records[index])
      ensures old(store.history) <= store.history
    {
      hide Running, RunKept, AllStand, StandsAt, Keeps, Traced, DependenciesTraced, AcceptedAreHeld, FirstFailure,
           Tally, Plus, HasPublication, IsPrepared, AllPrepared, HeldSet, HeldDistinct, AnyEmitted, IsPublished,
           IsChosen, AllBacked, HeldFor, HeldClosed, LeasesClosed, AllReasoned, IsInOrder, MaterialReason, HeldChanged;
      PendingHere(catalog, selected, records, st, waiting, tried, index);
      ghost var rs, m, book := records, catalog.materials[index], leases.Now();
      var r := records[index].(dependencies := ds, closureComplete := complete);
      ProjectionDoesNotCollide(ds);
      var failure;
      failure, r := PublishMaterial(index, projection, documents(index, ds), r, store, held, leases.open, x);
      ghost var before := old(store.files);
      FinishedStands(documents, rs, index, r, failure, true, before, store.files);
      FinishedStands(documents, rs, index, r, failure, false, before, store.files);
      var stable := Release(index, options, r, failure, held, leases);
      LeasesClosedIsTried(m, r, failure, stable);
      LeasesClosedCounts(r, failure, stable);
      RecordFinished(catalog, selected, x.graph, x.options, rs, st, waiting, tried, index, r, failure, stable, stats,
                     created, x.start, store.Now(), store.history, x.low);
      ReleasedIsBacked(rs, backings, tried, x.first, book, leases.Now(), index, records[index], held, options.hasCloser,
                       stable);
      BackedLength(rs, backings, tried, x.first, book);
      UnstableIsAReason(held, options.hasCloser, stable, book, leases.Now());
      ReleasedIsReasoned(x, catalog, selected, rs, backings, tried, book, leases.Now(), index, r, failure, held,
                         stable);
      backings := backings[index := Backing(held, None)];
    }

    // ---------- Groups ----------

    /** Everything that holds between two steps of the export. */
    ghost predicate InRun(store: OutputStore, book: Book, x: Run, waiting: set<nat>, tried: set<nat>)
      reads this, store
    {
      && |selected| == catalog.shaderCount == |x.outputs| && |records| == |catalog.materials|
      && Runs(waiting, tried, |records|) && store.Valid()
      && RunKept(created, records, x.start, store.Now(), store.history, x.low)
      && Traced(catalog, x.graph, x.options, records) && AllStand(x.documents, records, store.files)
      && AllBacked(records, backings, tried, x.first, book)
      && AllReasoned(x, catalog, selected, records, backings, tried, book)
    }

    ghost predicate IsRunOf(x: Run, graph: PointerGraph, options: Options, documents: Documents) {
      && x.graph == graph && x.documents == documents && x.options == options
      && AllPrepared(documents)
    }

    /** Every material of a group fails for the same reason. */
    method FailGroup(indices: array<nat>, begin: nat, end: nat, failure: Failure, ghost store: OutputStore,
                     ghost book: Book, ghost x: Run)
      requires begin <= end <= indices.Length && ListedOnce(indices[..])
      requires failure != NoFailure && failure != OutputCollision
      requires InRun(store, book, x, Span(indices[..], begin, indices.Length), {})
      requires AllFailBeforehand(x, catalog, selected, Span(indices[..], begin, end), failure)
      modifies this`records, this`stats, this`backings
      ensures InRun(store, book, x, Span(indices[..], end, indices.Length), {})
      ensures PublishedOnlyIn(old(records), records, {})
      ensures AllFailedFor(records, Span(indices[..], begin, end), failure)
      ensures stats.selected == old(stats).selected && stats.shaderGroups == old(stats).shaderGroups
    {
      hide Running, RunKept, Traced, AllStand, Span, ListedOnce, IsPublished, FailedAs, AllBacked, AllFailedFor,
           PublishedOnlyIn, AllReasoned, AllFailBeforehand, FailsBeforehand;
      ghost var order := indices[..];
      NoSpan(order, begin);
      NothingFailedYet(records, failure);
      for cursor := begin to end
        invariant InRun(store, book, x, Span(order, cursor, |order|), {})
        invariant PublishedOnlyIn(old(records), records, {})
        invariant AllFailedFor(records, Span(order, begin, cursor), failure)
        invariant stats.selected == old(stats).selected && stats.shaderGroups == old(stats).shaderGroups
      {
        SpanSteps(order, begin, cursor, end);
        SpanSteps(order, cursor, cursor, |order|);
        ghost var before, waiting, k := records, Span(order, cursor, |order|), order[cursor];
        InBounds(catalog, selected, records, stats, waiting, {}, k);
        GroupMemberFails(catalog, selected, x.graph, x.documents, x.options, records, stats, waiting, k, failure,
                         created, x.start, store.Now(), store.history, x.low);
        OneMoreFailedFor(records, Span(order, begin, cursor), k, failure);
        SpanHolds(order, begin, cursor, end);
        FailsHere(x, catalog, selected, Span(order, begin, end), k, failure);
        GroupFailureIsReasoned(x, catalog, selected, before, backings, book, k, failure);
        Fail(indices[cursor], failure);
        FailedIsUnpublished(before[k], failure);
        AllBackedByFailure(before, backings, {}, x.first, book, k, records[k], Backing([], None), {});
        BackedLength(before, backings, {}, x.first, book);
        backings := backings[k := Backing([], None)];
        PublishedOnlyFewer(old(records), before, records, {});
      }
    }

    /** The body of the loop over a group after its shader files are closed. */
    method SettleRecord(index: nat, stable: bool)
      requires index < |records|
      modifies this`records, this`stats
      ensures records == old(records)[index := ShaderClosed(old(records)[index], stable)]
      ensures stats == ShaderClosedStats(old(stats), old(records)[index], stable)
    {
      var r := records[index];
      if !stable {
        if AnyEmitted(r) { r := r.(residue := true); }
        if r.failure != TextureDependencyIdentity { r := r.(failure := ShaderDependencyIdentity); }
        records := records[index := r];
        Fail(index, ShaderDependencyIdentity);
      } else if r.status == Emitted {
        stats := stats.(emitted := stats.emitted + 1);
      } else if r.status == Unchanged {
        stats := stats.(unmodified := stats.unmodified + 1);
      }
    }

    /** Publication of a whole group while its shader files are held open. */
    method PublishGroup(indices: array<nat>, begin: nat, end: nat, graph: PointerGraph, options: Options,
                        documents: Documents, views: ShaderViews, leases: LeaseBook, store: OutputStore, ghost x: Run)
      requires begin <= end <= indices.Length && ListedOnce(indices[..]) && IsRunOf(x, graph, options, documents)
      requires leases.Valid() && x.first <= views.shader && x.first <= views.meta
      requires views.shader != views.meta && {views.shader, views.meta} <= leases.open
      requires InRun(store, leases.Now(), x, Span(indices[..], begin, indices.Length), {})
      requires AllInOrder(x, catalog, selected, Span(indices[..], begin, end))
      modifies this, leases, store
      ensures leases.Valid() && InRun(store, leases.Now(), x, Span(indices[..], end, indices.Length), {})
      ensures PublishedOnlyIn(old(records), records, Span(indices[..], begin, end))
      ensures views.shader in leases.unstable || views.meta in leases.unstable ==>
          NonePublishedIn(records, Span(indices[..], begin, end))
      ensures stats.selected == old(stats).selected && stats.shaderGroups == old(stats).shaderGroups
      ensures LeasesKept(options.hasCloser, old(leases.Now()).(open := old(leases.open) - {views.shader, views.meta}),
                         leases.Now())
      ensures {views.shader, views.meta} <= leases.closed
      ensures old(store.history) <= store.history
    {
      hide Running, RunKept, Traced, AllStand, Span, ListedOnce, IsPublished, AllPrepared, AllBacked, LeasesKept,
           PublishedOnlyIn, InRun, Grown, ViewsStable, AllInOrder, IsInOrder;
      ghost var order, book := indices[..], leases.Now();
      RunLengths(store, book, x, Span(order, begin, |order|), {});
      NoSpan(order, begin);
      NothingPublishedYet(records);
      KeptHere(options.hasCloser, book);
      for cursor := begin to end
        invariant indices[..] == order
        invariant leases.Valid()
        invariant InRun(store, leases.Now(), x, Span(order, begin, |order|), Span(order, begin, cursor))
        invariant PublishedOnlyIn(old(records), records, Span(order, begin, cursor))
        invariant stats.selected == old(stats).selected && stats.shaderGroups == old(stats).shaderGroups
        invariant LeasesKept(options.hasCloser, book, leases.Now())
        invariant old(store.history) <= store.history
      {
        SpanSteps(order, begin, cursor, |order|);
        SpanHolds(order, begin, cursor, end);
        InOrderHere(x, catalog, selected, Span(order, begin, end), order[cursor]);
        ghost var before, earlier := records, leases.Now();
        PublishRecord(indices[cursor], graph, options, documents, leases, store, Span(order, begin, |order|),
                      Span(order, begin, cursor), x);
        PublishedOnlyOne(old(records), before, records, Span(order, begin, cursor), order[cursor]);
        LeasesKeptThrough(options.hasCloser, book, earlier, leases.Now());
      }
      ghost var open := leases.Now();
      StillOpen(options.hasCloser, book, open);
      var stable := CloseShaderViews(views, leases);
      ViewsClosed(options.hasCloser, views, stable, x.first, book, open, leases.Now());
      InRunLater(store, open, leases.Now(), x, Span(order, begin, |order|), Span(order, begin, end));
      ghost var tried := records;
      SettleGroup(indices, begin, end, stable, views, store, leases.Now(), x);
      PublishedOnlyFewer(old(records), tried, records, Span(order, begin, end));
    }

    lemma RunLengths(store: OutputStore, book: Book, x: Run, waiting: set<nat>, tried: set<nat>)
      requires InRun(store, book, x, waiting, tried)
      ensures |selected| == catalog.shaderCount == |x.outputs| && |records| == |catalog.materials|
    {
    }

    /** What has been closed stably stays so. */
    lemma InRunLater(store: OutputStore, b: Book, b': Book, x: Run, waiting: set<nat>, tried: set<nat>)
      requires InRun(store, b, x, waiting, tried) && Grown(b, b')
      ensures InRun(store, b', x, waiting, tried)
    {
      hide Running, RunKept, Traced, AllStand, AllBacked, AllReasoned;
      AllBackedLater(records, backings, tried, x.first, b, b');
      AllReasonedLater(x, catalog, selected, records, backings, tried, b, b');
    }

    /** The loop over a group after its shader files are closed, stably or not. */
    method SettleGroup(indices: array<nat>, begin: nat, end: nat, stable: bool, ghost views: ShaderViews,
                       ghost store: OutputStore, ghost book: Book, ghost x: Run)
      requires begin <= end <= indices.Length && ListedOnce(indices[..])
      requires stable ==> ViewsStable(Some(views), x.first, book)
      requires InRun(store, book, x, Span(indices[..], begin, indices.Length), Span(indices[..], begin, end))
      requires !stable ==> ShaderLost(Some(views), book)
      requires AllInOrder(x, catalog, selected, Span(indices[..], begin, end))
      modifies this`records, this`stats, this`backings
      ensures InRun(store, book, x, Span(indices[..], end, indices.Length), {})
      ensures PublishedOnlyIn(old(records), records, {})
      ensures if stable then records == old(records) else NonePublishedIn(records, Span(indices[..], begin, end))
      ensures stats.selected == old(stats).selected && stats.shaderGroups == old(stats).shaderGroups
    {
      hide Running, RunKept, Traced, AllStand, Span, ListedOnce, IsPublished, Destabilised, AllBacked, ViewsStable,
           PublishedOnlyIn, NonePublishedIn, ShaderClosed, AllReasoned, AllInOrder, IsInOrder, ShaderLost, IsTried;
      ghost var order := indices[..];
      NoSpan(order, begin);
      NoSpan(order, end);
      NothingPublishedYet(records);
      for cursor := begin to end
        invariant InRun(store, book, x, Span(order, cursor, |order|), Span(order, cursor, end))
        invariant PublishedOnlyIn(old(records), records, {})
        invariant if stable then records == old(records) else NonePublishedIn(records, Span(order, begin, cursor))
        invariant stats.selected == old(stats).selected && stats.shaderGroups == old(stats).shaderGroups
      {
        SpanSteps(order, cursor, cursor, |order|);
        SpanSteps(order, begin, cursor, end);
        SpanSteps(order, cursor, cursor, end);
        ghost var before, waiting, tried, k :=
          records, Span(order, cursor, |order|), Span(order, cursor, end), order[cursor];
        InBounds(catalog, selected, records, stats, waiting, tried, k);
        GroupMemberSettles(catalog, selected, x.graph, x.documents, x.options, records, stats, waiting, tried, k,
                           stable, created, x.start, store.Now(), store.history, x.low);
        SpanHolds(order, begin, cursor, end);
        InOrderHere(x, catalog, selected, Span(order, begin, end), k);
        TriedHere(catalog, selected, records, stats, waiting, tried, k);
        SettledIsReasoned(x, catalog, selected, records, backings, tried, book, k, views, stable);
        SettledIsBacked(records, backings, tried, x.first, book, k, views, stable);
        SettledPublishesNothing(records, Span(order, begin, cursor), k, stable);
        SettleRecord(indices[cursor], stable);
        backings := backings[k := backings[k].(views := Some(views))];
        PublishedOnlyFewer(old(records), before, records, {});
      }
    }

    // ---------- The export ----------

    /** What the loop over the shaders checks of a shader before it opens its files. */
    method CheckShaderOutput(output: ShaderOutput) returns (failure: Failure)
      ensures failure == GroupFailure(output) && failure != OutputCollision
    {
      failure := NoFailure;
      if !output.matchesCatalog {
        failure := ShaderDependencyIdentity;
      } else if !output.authorized || !output.published {
        failure := ShaderBatchNotReady;
      } else if !output.hasMeta || !output.hasPaths || !output.guidIsValid {
        failure := ShaderMetaMissing;
      }
    }

    /** One round of the loop over the shaders. */
    method ExportGroup(indices: array<nat>, begin: nat, end: nat, output: ShaderOutput, graph: PointerGraph,
                       options: Options, documents: Documents, leases: LeaseBook, store: OutputStore,
                       ghost shader: nat, ghost x: Run)
      returns (bracketed: bool)
      requires begin < end <= indices.Length && ListedOnce(indices[..]) && IsRunOf(x, graph, options, documents)
      requires leases.Valid() && InRun(store, leases.Now(), x, Span(indices[..], begin, indices.Length), {})
      requires shader < catalog.shaderCount && x.outputs[shader] == output && options.authorityComplete
      requires AreOfShader(catalog, selected, Span(indices[..], begin, end), shader)
      modifies this, leases, store
      ensures leases.Valid() && InRun(store, leases.Now(), x, Span(indices[..], end, indices.Length), {})
      ensures PublishedOnlyIn(old(records), records, if bracketed then Span(indices[..], begin, end) else {})
      ensures GroupFailure(output) != NoFailure ==> !bracketed
      ensures !bracketed ==> AllFailedFor(records, Span(indices[..], begin, end),
                                          if GroupFailure(output) != NoFailure then GroupFailure(output)
                                          else ShaderDependencyIdentity)
      ensures stats.selected == old(stats).selected
      ensures stats.shaderGroups == old(stats).shaderGroups + One(bracketed)
      ensures LeasesKept(options.hasCloser, old(leases.Now()), leases.Now())
      ensures old(store.history) <= store.history
    {
      hide Running, RunKept, Traced, AllStand, Span, ListedOnce, IsPublished, AllPrepared, AllBacked, LeasesKept,
           PublishedOnlyIn, AllFailedFor, Grown, GroupFailure, AreOfShader, AllInOrder, AllFailBeforehand, AllReasoned;
      GroupSharesOutput(x, catalog, selected, Span(indices[..], begin, end), shader);
      bracketed := false;
      ghost var before := leases.Now();
      var failure := CheckShaderOutput(output);
      KeptHere(options.hasCloser, before);
      if failure != NoFailure {
        FailGroup(indices, begin, end, failure, store, before, x);
        return;
      }
      var views := OpenShaderViews(leases);
      ghost var open := leases.Now();
      InRunLater(store, before, open, x, Span(indices[..], begin, indices.Length), {});
      if views.None? {
        KeptWithout(options.hasCloser, before, open);
        FailGroup(indices, begin, end, ShaderDependencyIdentity, store, open, x);
        return;
      }
      bracketed := true;
      FirstIsEarlier(records, backings, {}, x.first, before);
      SelectedIsFree(catalog, selected, records, stats, Span(indices[..], begin, indices.Length), |records|,
                     stats.selected, stats.shaderGroups + 1);
      stats := stats.(shaderGroups := stats.shaderGroups + 1);
      PublishGroup(indices, begin, end, graph, options, documents, views.value, leases, store, x);
      GroupKeepsLeases(options.hasCloser, views.value, before, open, leases.Now());
    }

    /** The loop over the shaders, in catalog order. */
    method ExportGroups(outputs: seq<ShaderOutput>, offsets: array<nat>, indices: array<nat>, graph: PointerGraph,
                        options: Options, documents: Documents, leases: LeaseBook, store: OutputStore, ghost x: Run)
      returns (ghost bracketed: set<nat>)
      requires |selected| == catalog.shaderCount == |outputs| && |records| == |catalog.materials|
      requires offsets.Length == catalog.shaderCount + 1
      requires forall s: nat :: s < offsets.Length ==>
          offsets[s] == Offset(Keys(catalog, selected, options.authorityComplete), s)
      requires indices[..] == GroupsBelow(Keys(catalog, selected, options.authorityComplete), catalog.shaderCount)
      requires leases.Valid() && IsRunOf(x, graph, options, documents) && x.outputs == outputs
      requires InRun(store, leases.Now(), x, Span(indices[..], 0, indices.Length), {})
      requires PublishedWithin(catalog, records, {}) && stats.shaderGroups == 0
      modifies this, leases, store
      ensures leases.Valid() && InRun(store, leases.Now(), x, {}, {}) && |records| == |catalog.materials|
      ensures PublishedWithin(catalog, records, bracketed) && GroupsHaveMaterials(catalog, selected, bracketed)
      ensures stats.selected == old(stats).selected && stats.shaderGroups == |bracketed|
      ensures LeasesKept(options.hasCloser, old(leases.Now()), leases.Now())
      ensures old(store.history) <= store.history
    {
      hide Running, RunKept, Traced, AllStand, Span, ListedOnce, IsPublished, AllPrepared, Offset, GroupsBelow,
           PublishedWithin, PublishedOnlyIn, AreOfShader, GroupsHaveMaterials, AllFailedFor, GroupFailure, InRun,
           AllBacked, LeasesKept, IsRunOf;
      ghost var keys, order := Keys(catalog, selected, options.authorityComplete), indices[..];
      KeysInRange(catalog, selected, options.authorityComplete);
      AllGrouped(keys, catalog.shaderCount);
      FirstOffset(keys);
      NoGroups(catalog, selected);
      KeptHere(options.hasCloser, leases.Now());
      bracketed := {};
      for shader := 0 to catalog.shaderCount
        invariant leases.Valid() && InRun(store, leases.Now(), x, Span(order, Offset(keys, shader), |order|), {})
        invariant |records| == |catalog.materials| && Offset(keys, shader) <= |order|
        invariant PublishedWithin(catalog, records, bracketed) && GroupsHaveMaterials(catalog, selected, bracketed)
        invariant stats.shaderGroups == |bracketed| && forall s :: s in bracketed ==> s < shader
        invariant stats.selected == old(stats).selected
        invariant LeasesKept(options.hasCloser, old(leases.Now()), leases.Now())
        invariant old(store.history) <= store.history
      {
        GroupIsOfShader(catalog, selected, options.authorityComplete, shader);
        var begin, end := offsets[shader], offsets[shader + 1];
        assert begin == Offset(keys, shader) && end == Offset(keys, shader + 1);
        if begin == end { continue; }
        GroupNeedsAuthority(catalog, selected, options.authorityComplete, shader);
        ghost var before, held := records, leases.Now();
        var wasBracketed :=
          ExportGroup(indices, begin, end, outputs[shader], graph, options, documents, leases, store, shader, x);
        LeasesKeptThrough(options.hasCloser, old(leases.Now()), held, leases.Now());
        SpanIsNotEmpty(order, begin, end);
        SameLength(before, records, if wasBracketed then Span(order, begin, end) else {});
        if wasBracketed {
          BracketedOneMore(catalog, selected, before, records, Span(order, begin, end), bracketed, shader);
          bracketed := bracketed + {shader};
        } else {
          BracketedAsBefore(catalog, before, records, bracketed);
        }
      }
      LastOffset(keys, catalog.shaderCount);
      NoSpan(order, |order|);
    }

    /** material_batch_export. */
    method Export(outputs: seq<ShaderOutput>, graph: PointerGraph, options: Options, documents: Documents,
                  leases: LeaseBook, store: OutputStore)
      requires |selected| == catalog.shaderCount == |outputs| && |records| == |catalog.materials| == |backings|
      requires created == []
      requires forall i :: 0 <= i < |records| ==> records[i] == INITIAL_RECORD
      requires stats == Stats(|catalog.materials|, 0, 0, 0, 0, 0, 0, 0, NO_DEPENDENCIES)
      requires leases.Valid() && store.Valid() && AllPrepared(documents)
      modifies this, leases, store
      ensures Exported(catalog, selected, records, stats)
      ensures Traced(catalog, graph, options, records) && AllStand(documents, records, store.files)
      ensures leases.Valid() && LeasesKept(options.hasCloser, old(leases.Now()), leases.Now())
      ensures AllBacked(records, backings, {}, old(leases.issued), leases.Now())
      ensures AllReasoned(RunOf(outputs, graph, options, documents, old(store.Now()), |old(store.history)|,
                                old(leases.issued)), catalog, selected, records, backings, {}, leases.Now())
      ensures old(store.history) <= store.history
      ensures RunKept(created, records, old(store.Now()), store.Now(), store.history, |old(store.history)|)
    {
      hide Running, RunKept, Traced, AllStand, Span, ListedOnce, IsPublished, AllPrepared, Offset, GroupsBelow,
           MembersOf, IsChosen, IsFresh, CountChosen, Exported, PublishedWithin, AllBacked, LeasesKept, Grown,
           AllReasoned, ClassifiedUpTo;
      ghost var x := RunOf(outputs, graph, options, documents, store.Now(), |store.history|, leases.issued);
      ghost var keys := Keys(catalog, selected, options.authorityComplete);
      KeysInRange(catalog, selected, options.authorityComplete);
      var grouped, counts := ClassifyAll(options.authorityComplete);
      GroupingIsDone(catalog, selected, options.authorityComplete, grouped[..], counts[..], records);
      FreshRun(catalog, graph, documents, options, records, x.start, store.history);
      FreshIsBacked(records, backings, leases.Now());
      ClassifiedIsReasoned(x, catalog, selected, records, backings, leases.Now());
      var offsets, indices := GroupByShader(keys, grouped, records, counts);
      AllGrouped(keys, catalog.shaderCount);
      ghost var bracketed := ExportGroups(outputs, offsets, indices, graph, options, documents, leases, store, x);
      RunIsExport(catalog, selected, records, stats, bracketed);
    }
  }
}
