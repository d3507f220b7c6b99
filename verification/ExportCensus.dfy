/** The texture-dependency census applied to the result of an export. */
module ExportCensus {
  import opened Basics
  import opened Decimals
  import opened MaterialLedger
  import opened MaterialDependencies
  import opened Publication
  import opened ExportRun

  /** What the pointer resolver promises about an answer it calls resolved. */
  predicate IsSane(source: nat, p: Pointer, r: Resolution) {
    r.resolved ==>
      && (r.target.Some? ==>
            r.target.value.classId > 0 && r.target.value.pathId == p.pathId)
      && match r.status
         case ResolveNull => p.pathId == 0 && r.externalIndex.None? && !r.hasExternal
         case ResolveLocal =>
           p.pathId != 0 && p.fileId == 0 && r.targetIndex == source && r.externalIndex.None? && !r.hasExternal
         case ResolveExternalExact =>
           p.pathId != 0 && p.fileId > 0 && r.externalIndex == Some(p.fileId - 1) && r.hasExternal
         case _ => true
  }

  ghost predicate AllSane(c: Catalog, graph: PointerGraph) {
    && (forall s :: 0 <= s < |c.sources| ==> |c.sources[s].digest| == 32)
    && forall i, k :: 0 <= i < |c.materials| && 0 <= k < |c.materials[i].textures| ==>
      var m := c.materials[i];
      IsSane(m.sourceIndex, m.textures[k].pointer, graph(m.sourceIndex, m.textures[k].pointer))
  }

  /** No dependency carries an empty property name, which the decoder and the projection let through. */
  predicate NamesAreFull(ds: seq<Dependency>) {
    forall k :: 0 <= k < |ds| ==> ds[k].name.Some? ==> |ds[k].name.value| > 0
  }

  /** What the material emitter promises: it rejects an empty property name. */
  ghost predicate EmitsFullNames(documents: Documents) {
    forall i, ds :: documents(i, ds).Ready? ==> NamesAreFull(ds)
  }

  lemma EvidenceNeedsName(d: Dependency, k: nat)
    requires EvidenceIsValid(d, k)
    ensures d.name.Some? && |d.name.value| > 0
  {
  }

  /** A dependency the projection recorded as null or exported carries valid evidence. */
  lemma ProjectedEvidenceIsValid(d: Dependency, c: Catalog, i: nat, k: nat, graph: PointerGraph, options: Options)
    requires DescribesProperty(d, c, i, k, graph, options) && AllSane(c, graph)
    requires d.name.Some? ==> |d.name.value| > 0
    requires IsNullOrExported(d.status) && FailureOf(d) == NoFailure
    ensures EvidenceIsValid(d, k)
  {
    hide PrintHex;
    SaneHere(c, graph, i, k);
  }

  /** A published record's dependencies are closed exactly when none of them is unexported or unnamed. */
  lemma PublishedIsClosed(c: Catalog, i: nat, graph: PointerGraph, options: Options, r: MaterialRecord)
    requires i < |c.materials| && AllSane(c, graph) && IsPublished(r)
    requires RecordTraced(c, i, graph, options, r)
    ensures ClosedDependencies(r.dependencies) <==>
              Tally(r.dependencies).unexported == 0 && NamesAreFull(r.dependencies)
    ensures ClosedDependencies(r.dependencies) ==> r.closureComplete
  {
    var ds := r.dependencies;
    hide NamesAreFull, Tally, EvidenceIsValid, DescribesProperty, AllSane, FailureOf, FirstFailure, IsNullOrExported,
         ClosedDependencies;
    FirstFailureMeaning(ds);
    NothingFailed(ds);
    ClosedTally(ds);
    ClosedWhenTraced(c, i, graph, options, ds, r.closureComplete);
  }

  lemma SaneHere(c: Catalog, graph: PointerGraph, i: nat, k: nat)
    requires AllSane(c, graph) && i < |c.materials| && k < |c.materials[i].textures|
    ensures var m := c.materials[i];
            IsSane(m.sourceIndex, m.textures[k].pointer, graph(m.sourceIndex, m.textures[k].pointer))
  {
    hide IsSane;
  }

  /** Dependencies none of which failed are closed exactly when all are null or exported, and named. */
  lemma ClosedWhenTraced(c: Catalog, i: nat, graph: PointerGraph, options: Options, ds: seq<Dependency>, complete: bool)
    requires i < |c.materials| && AllSane(c, graph)
    requires DependenciesTraced(c, i, graph, options, ds, complete)
    requires forall k :: 0 <= k < |ds| ==> FailureOf(ds[k]) == NoFailure
    ensures ClosedDependencies(ds) <==>
              NamesAreFull(ds) && forall k :: 0 <= k < |ds| ==> IsNullOrExported(ds[k].status)
    ensures ClosedDependencies(ds) ==> complete
  {
    hide EvidenceIsValid, DescribesProperty, IsSane, AllSane, FailureOf, IsNullOrExported;
    forall k | 0 <= k < |ds| && IsNullOrExported(ds[k].status) && NamesAreFull(ds)
      ensures IsClosedDependency(ds[k], k)
    {
      assert FailureOf(ds[k]) == NoFailure;
      assert DescribesProperty(ds[k], c, i, k, graph, options);
      ProjectedEvidenceIsValid(ds[k], c, i, k, graph, options);
    }
    forall k | 0 <= k < |ds| && ClosedDependencies(ds)
      ensures IsNullOrExported(ds[k].status) && ds[k].name.Some? && |ds[k].name.value| > 0
    {
      assert IsClosedDependency(ds[k], k);
      EvidenceNeedsName(ds[k], k);
    }
  }

  lemma {:induction false} NothingFailed(ds: seq<Dependency>)
    requires forall k :: 0 <= k < |ds| ==> FailureOf(ds[k]) == NoFailure
    ensures Tally(ds).failed == 0
  {
    hide FailureOf, TallyOf;
    if ds != [] {
      NothingFailed(ds[..|ds| - 1]);
      NotFailedCountsNothing(ds[|ds| - 1]);
    }
  }

  lemma NotFailedCountsNothing(d: Dependency)
    requires FailureOf(d) == NoFailure
    ensures TallyOf(d.status).failed == 0
  {
  }

  lemma {:induction false} NoneUnexported(rs: seq<MaterialRecord>)
    ensures TallyRecords(rs).unexported == 0 <==> forall i :: 0 <= i < |rs| ==>
        Tally(rs[i].dependencies).unexported == 0
  {
    hide Tally;
    if rs != [] {
      NoneUnexported(rs[..|rs| - 1]);
      assert rs == rs[..|rs| - 1] + [rs[|rs| - 1]];
    }
  }

  lemma UntouchedCountsNothing(r: MaterialRecord)
    requires IsUntouched(r)
    ensures Tally(r.dependencies).unexported == 0
  {
  }

  /** The dependency census accepts an export exactly when no material failed, no texture was left
      unexported, and no published material has a texture property without a name. */
  lemma ClosureCensusOfExport(c: Catalog, sel: seq<bool>, graph: PointerGraph, options: Options,
                              rs: seq<MaterialRecord>, st: Stats)
    requires |sel| == c.shaderCount && Exported(c, sel, rs, st) && Traced(c, graph, options, rs) && AllSane(c, graph)
    ensures Closed(c, sel, rs, st) <==>
              && st.failed == 0 && st.dependencies.unexported == 0
              && forall i :: 0 <= i < |rs| && IsPublished(rs[i]) ==> NamesAreFull(rs[i].dependencies)
  {
    hide NamesAreFull, Closed, Tally, TallyRecords, ClosedDependencies, Exported, Traced, AllSane, RecordExplained;
    ExportIsTallied(c, sel, rs, st);
    NoneUnexported(rs);
    forall i | 0 <= i < |rs| && IsPublished(rs[i])
      ensures ClosedDependencies(rs[i].dependencies) <==>
                Tally(rs[i].dependencies).unexported == 0 && NamesAreFull(rs[i].dependencies)
      ensures ClosedDependencies(rs[i].dependencies) ==> rs[i].closureComplete
    {
      PublishedIsTraced(c, graph, options, rs, i);
      PublishedIsClosed(c, i, graph, options, rs[i]);
    }
    DependencyCensusOfExport(c, sel, rs, st);
    if st.failed == 0 {
      forall i | 0 <= i < |rs| && !IsPublished(rs[i])
        ensures Tally(rs[i].dependencies).unexported == 0
      {
        UnpublishedIsUntouched(c, sel, rs, st, i);
        UntouchedCountsNothing(rs[i]);
      }
    }
  }

  /** With an emitter that rejects empty names, the names need not be asked for. */
  lemma ClosureCensusOfEmitted(c: Catalog, sel: seq<bool>, graph: PointerGraph, options: Options, documents: Documents,
                               rs: seq<MaterialRecord>, st: Stats, files: map<string, seq<Byte>>)
    requires |sel| == c.shaderCount && Exported(c, sel, rs, st) && Traced(c, graph, options, rs) && AllSane(c, graph)
    requires AllStand(documents, rs, files) && EmitsFullNames(documents)
    ensures Closed(c, sel, rs, st) <==> st.failed == 0 && st.dependencies.unexported == 0
  {
    ClosureCensusOfExport(c, sel, graph, options, rs, st);
    hide NamesAreFull, Closed, Exported, Traced, AllSane;
    forall i | 0 <= i < |rs| && IsPublished(rs[i])
      ensures NamesAreFull(rs[i].dependencies)
    {
      assert documents(i, rs[i].dependencies).Ready?;
    }
  }

  lemma ExportIsTallied(c: Catalog, sel: seq<bool>, rs: seq<MaterialRecord>, st: Stats)
    requires |sel| == c.shaderCount && Exported(c, sel, rs, st)
    ensures st.dependencies == TallyRecords(rs)
  {
  }

  lemma PublishedIsTraced(c: Catalog, graph: PointerGraph, options: Options, rs: seq<MaterialRecord>, i: nat)
    requires Traced(c, graph, options, rs) && i < |rs|
    ensures |rs| == |c.materials| && RecordTraced(c, i, graph, options, rs[i])
  {
  }

  /** In an export without failures a record that is not published has not been touched. */
  lemma UnpublishedIsUntouched(c: Catalog, sel: seq<bool>, rs: seq<MaterialRecord>, st: Stats, i: nat)
    requires |sel| == c.shaderCount && Exported(c, sel, rs, st) && st.failed == 0 && i < |rs| && !IsPublished(rs[i])
    ensures IsUntouched(rs[i])
  {
    NoneCounted(rs, Failed);
    hide IsUntouched, HasPublication, CountStatus, TallyRecords;
    assert RecordExplained(c, sel, c.materials[i], rs[i]);
  }
}
