/** The result ledger of a material export, the two censuses that re-derive it, and the theorem that
    relates what an export guarantees to what the censuses accept. */
module MaterialLedger {
  import opened Basics
  import opened Decimals

  // ---------- Catalog ----------

  datatype CatalogStatus = MaterialReady | ShaderNull | SchemaError | DecodeError | LinkError

  datatype Pointer = Pointer(fileId: int, pathId: int)

  datatype TextureProperty = TextureProperty(name: seq<Byte>, pointer: Pointer)

  datatype CatalogMaterial = CatalogMaterial(
    status: CatalogStatus, decoded: bool, shaderIndex: nat, sourceIndex: nat, textures: seq<TextureProperty>)

  /** A serialized source: its outer file, the digest of its bytes, its occurrence, and the objects it
      lists as class and path. */
  datatype Source = Source(outerPath: string, digest: seq<Byte>, occurrence: string, objects: set<(int, int)>)

  datatype Catalog = Catalog(shaderCount: nat, sources: seq<Source>, materials: seq<CatalogMaterial>)

  // ---------- Records ----------

  datatype RecordStatus = Unselected | Unassociated | Emitted | Unchanged | Failed

  datatype Failure =
    NoFailure | CatalogMaterialNotReady | ShaderIndexInvalid | ShaderBatchNotReady | ShaderMetaMissing
    | ShaderDependencyIdentity | TextureDependencyIdentity | DependencyAuthorityIncomplete | TextureResolution
    | TextureClassUnsupported | TextureTargetAssetUnexported | TextureReferenceAuthorityMissing
    | TextureReferenceInvalid | ProjectionAllocation | MaterialGuid | MaterialYaml | MaterialMeta
    | DependencyEvidence | OutputDirectory | OutputName | OutputCollision | OutputIo

  datatype PublishStatus = PublishEmitted | PublishUnchanged | PublishCollision | PublishIoError

  datatype ReferenceStatus =
    ReferenceOk | AuthorityMissing | TargetClassUnsupported | TargetAssetUnexported | ReferenceRejected

  datatype DependencyStatus =
    DependencyNull | ResolvedExported | ResolvedNotExported | ResolutionFailed | ClassUnsupported
    | TargetUnexported | ReferenceAuthorityMissing | ReferenceInvalid

  datatype ResolveStatus = ResolveNull | ResolveLocal | ResolveExternalExact | ResolveOutOfScope | ResolveTargetMissing

  datatype Target = Target(sourceIndex: nat, classId: int, pathId: int, digest: string)

  /** A Unity text reference; `exported` needs a publication lease. */
  datatype Reference = Reference(fileId: int, guid: string, kind: int, exported: bool)

  /** `name` is absent when its copy failed. */
  datatype Dependency = Dependency(
    propertyIndex: nat, name: Option<seq<Byte>>, pointer: Pointer, sourceIndex: nat, resolveStatus: ResolveStatus,
    target: Option<Target>, externalIndex: Option<nat>, hasExternalGuid: bool, reference: Option<Reference>,
    status: DependencyStatus, referenceStatus: ReferenceStatus)

  datatype Artifact = Artifact(path: Option<string>, attempted: bool, status: PublishStatus)

  datatype MaterialRecord = MaterialRecord(
    status: RecordStatus, failure: Failure, shader: Option<nat>, guid: string, identityHex: string, yamlOk: bool,
    material: Artifact, meta: Artifact, evidence: Artifact, hasArtifacts: bool, residue: bool,
    dependencies: seq<Dependency>, closureComplete: bool)

  const NO_ARTIFACT := Artifact(None, false, PublishIoError)

  const INITIAL_RECORD := MaterialRecord(
    Unselected, NoFailure, None, "", "", false, NO_ARTIFACT, NO_ARTIFACT, NO_ARTIFACT, false, false, [], false)

  datatype DependencyStats = DependencyStats(total: nat, null_: nat, resolved: nat, exported: nat, unexported: nat,
    failed: nat)

  datatype Stats = Stats(
    catalogMaterials: nat, selected: nat, unselected: nat, unassociated: nat, emitted: nat, unmodified: nat,
    failed: nat,
    shaderGroups: nat, dependencies: DependencyStats)

  const NO_DEPENDENCIES := DependencyStats(0, 0, 0, 0, 0, 0)

  // ---------- Counting ----------

  function Plus(x: DependencyStats, y: DependencyStats): DependencyStats {
    DependencyStats(x.total + y.total, x.null_ + y.null_, x.resolved + y.resolved, x.exported + y.exported,
                    x.unexported + y.unexported, x.failed + y.failed)
  }

  /** What one dependency adds to each of the six counters; a target that is not exported counts as
      both unexported and failed. */
  function TallyOf(s: DependencyStatus): DependencyStats {
    match s
    case DependencyNull => DependencyStats(1, 1, 0, 0, 0, 0)
    case ResolvedExported => DependencyStats(1, 0, 1, 1, 0, 0)
    case ResolvedNotExported => DependencyStats(1, 0, 1, 0, 1, 0)
    case ResolutionFailed => DependencyStats(1, 0, 0, 0, 0, 1)
    case ClassUnsupported => DependencyStats(1, 0, 1, 0, 0, 1)
    case ReferenceAuthorityMissing => DependencyStats(1, 0, 1, 0, 0, 1)
    case ReferenceInvalid => DependencyStats(1, 0, 1, 0, 0, 1)
    case TargetUnexported => DependencyStats(1, 0, 1, 0, 1, 1)
  }

  function Tally(ds: seq<Dependency>): DependencyStats {
    if ds == [] then NO_DEPENDENCIES else Plus(Tally(ds[..|ds| - 1]), TallyOf(ds[|ds| - 1].status))
  }

  function TallyRecords(rs: seq<MaterialRecord>): DependencyStats {
    if rs == [] then NO_DEPENDENCIES else Plus(TallyRecords(rs[..|rs| - 1]), Tally(rs[|rs| - 1].dependencies))
  }

  function CountStatus(rs: seq<MaterialRecord>, s: RecordStatus): nat {
    if rs == [] then 0 else CountStatus(rs[..|rs| - 1], s) + if rs[|rs| - 1].status == s then 1 else 0
  }

  predicate IsPublished(r: MaterialRecord) {
    r.status == Emitted || r.status == Unchanged
  }

  function PublishedShaders(rs: seq<MaterialRecord>): set<nat> {
    set i | 0 <= i < |rs| && IsPublished(rs[i]) && rs[i].shader.Some? :: rs[i].shader.value
  }

  lemma {:induction false} CountsAddUp(rs: seq<MaterialRecord>)
    ensures |rs| == CountStatus(rs, Unselected) + CountStatus(rs, Unassociated) + CountStatus(rs, Emitted)
                  + CountStatus(rs, Unchanged) + CountStatus(rs, Failed)
  {
    if rs != [] {
      CountsAddUp(rs[..|rs| - 1]);
    }
  }

  lemma {:induction false} NoneCounted(rs: seq<MaterialRecord>, s: RecordStatus)
    ensures CountStatus(rs, s) == 0 <==> forall i :: 0 <= i < |rs| ==> rs[i].status != s
  {
    if rs != [] {
      NoneCounted(rs[..|rs| - 1], s);
      assert rs == rs[..|rs| - 1] + [rs[|rs| - 1]];
    }
  }

  lemma {:induction false} TallyAfterUpdate(rs: seq<MaterialRecord>, k: nat, r: MaterialRecord)
    requires k < |rs| && rs[k].dependencies == []
    ensures TallyRecords(rs[k := r]) == Plus(TallyRecords(rs), Tally(r.dependencies))
  {
    hide Tally;
    assert Tally([]) == NO_DEPENDENCIES by { TallyOfNone(); }
    var init := rs[..|rs| - 1];
    if k == |rs| - 1 {
      assert rs[k := r][..k] == init;
    } else {
      TallyAfterUpdate(init, k, r);
      assert rs[k := r][..|rs| - 1] == init[k := r];
    }
  }

  lemma TallyOfNone()
    ensures Tally([]) == NO_DEPENDENCIES
  {
  }

  lemma {:induction false} TallyIgnoresOtherFields(rs: seq<MaterialRecord>, k: nat, r: MaterialRecord)
    requires k < |rs| && rs[k].dependencies == r.dependencies
    ensures TallyRecords(rs[k := r]) == TallyRecords(rs)
  {
    hide Tally;
    var init := rs[..|rs| - 1];
    if k == |rs| - 1 {
      assert rs[k := r][..k] == init;
    } else {
      TallyIgnoresOtherFields(init, k, r);
      assert rs[k := r][..|rs| - 1] == init[k := r];
    }
  }

  // ---------- The completeness census ----------

  /** Nothing was published or projected for this record. */
  ghost predicate IsUntouched(r: MaterialRecord) {
    && r.failure == NoFailure && !r.hasArtifacts && !r.residue
    && !r.material.attempted && !r.meta.attempted && !r.evidence.attempted
    && r.material.path.None? && r.meta.path.None? && r.evidence.path.None?
    && r.dependencies == [] && r.guid == "" && r.identityHex == "" && !r.closureComplete
  }

  ghost predicate PublishedExactly(a: Artifact) {
    a.path.Some? && a.attempted && (a.status == PublishEmitted || a.status == PublishUnchanged)
  }

  predicate AnyEmitted(r: MaterialRecord) {
    r.material.status == PublishEmitted || r.meta.status == PublishEmitted || r.evidence.status == PublishEmitted
  }

  ghost predicate HasPublication(r: MaterialRecord) {
    && r.failure == NoFailure && r.hasArtifacts && !r.residue
    && PublishedExactly(r.material) && PublishedExactly(r.meta) && PublishedExactly(r.evidence)
    && IsHexText(r.guid, 32) && IsHexText(r.identityHex, 64) && r.yamlOk
    && ((r.status == Emitted) == AnyEmitted(r))
  }

  predicate IsAssociated(c: Catalog, m: CatalogMaterial) {
    m.status == MaterialReady && m.decoded && m.shaderIndex < c.shaderCount
  }

  /** The census's verdict on one record under the selection bits `sel`. */
  ghost predicate RecordAccepted(c: Catalog, sel: seq<bool>, m: CatalogMaterial, r: MaterialRecord)
    requires |sel| == c.shaderCount
  {
    match r.status
    case Unselected => IsAssociated(c, m) && r.shader == Some(m.shaderIndex) && !sel[m.shaderIndex] && IsUntouched(r)
    case Unassociated => m.status == ShaderNull && r.shader.None? && IsUntouched(r)
    case Emitted => IsAssociated(c, m) && r.shader == Some(m.shaderIndex) && sel[m.shaderIndex] && HasPublication(r)
    case Unchanged => IsAssociated(c, m) && r.shader == Some(m.shaderIndex) && sel[m.shaderIndex] && HasPublication(r)
    case Failed => true
  }

  ghost predicate Complete(c: Catalog, sel: seq<bool>, rs: seq<MaterialRecord>, st: Stats)
    requires |sel| == c.shaderCount
  {
    && |rs| == |c.materials| == st.catalogMaterials
    && (forall i :: 0 <= i < |rs| ==> RecordAccepted(c, sel, c.materials[i], rs[i]))
    && st.unselected == CountStatus(rs, Unselected) && st.unassociated == CountStatus(rs, Unassociated)
    && st.emitted == CountStatus(rs, Emitted) && st.unmodified == CountStatus(rs, Unchanged)
    && st.failed == CountStatus(rs, Failed) == 0
    && st.shaderGroups == |PublishedShaders(rs)|
    && st.selected == CountStatus(rs, Emitted) + CountStatus(rs, Unchanged)
  }

  /** The switch of the census over one record. */
  method CheckRecord(c: Catalog, sel: seq<bool>, m: CatalogMaterial, r: MaterialRecord) returns (ok: bool)
    requires |sel| == c.shaderCount
    ensures ok == RecordAccepted(c, sel, m, r)
  {
    var untouched := r.failure == NoFailure && !r.hasArtifacts && !r.residue && !r.material.attempted
      && !r.meta.attempted && !r.evidence.attempted && r.material.path.None? && r.meta.path.None?
      && r.evidence.path.None? && |r.dependencies| == 0 && |r.guid| == 0 && |r.identityHex| == 0 && !r.closureComplete;
    var ready := m.status == MaterialReady && m.decoded && m.shaderIndex < c.shaderCount
      && r.shader == Some(m.shaderIndex);
    match r.status {
      case Unselected =>
        ok := ready && !sel[m.shaderIndex] && untouched;
      case Unassociated =>
        ok := m.status == ShaderNull && r.shader.None? && untouched;
      case Failed =>
        ok := true;
      case Emitted | Unchanged =>
        ok := ready && sel[m.shaderIndex];
        if ok { ok := CheckPublication(r); }
    }
  }

  /** What the census asks of a published record. */
  method CheckPublication(r: MaterialRecord) returns (ok: bool)
    ensures ok == HasPublication(r)
  {
    hide IsHexText;
    if r.failure != NoFailure || !r.hasArtifacts || r.residue { return false; }
    if r.material.path.None? || r.meta.path.None? || r.evidence.path.None? { return false; }
    if !IsHexText(r.guid, 32) || !IsHexText(r.identityHex, 64) || !r.yamlOk { return false; }
    if !r.material.attempted || !r.meta.attempted || !r.evidence.attempted { return false; }
    var emitted := r.material.status == PublishEmitted || r.meta.status == PublishEmitted
      || r.evidence.status == PublishEmitted;
    if r.material.status != PublishEmitted && r.material.status != PublishUnchanged { return false; }
    if r.meta.status != PublishEmitted && r.meta.status != PublishUnchanged { return false; }
    if r.evidence.status != PublishEmitted && r.evidence.status != PublishUnchanged { return false; }
    ok := (r.status == Emitted) == emitted;
  }

  /** material_batch_is_complete. */
  method IsComplete(c: Catalog, sel: seq<bool>, rs: seq<MaterialRecord>, st: Stats) returns (ok: bool)
    requires |sel| == c.shaderCount
    ensures ok == Complete(c, sel, rs, st)
  {
    if |c.materials| != |rs| || |rs| != st.catalogMaterials { return false; }
    hide RecordAccepted, CountStatus;
    NothingInStatus(rs);
    var unselected, unassociated, emitted, unmodified, failed := 0, 0, 0, 0, 0;
    for index := 0 to |rs|
      invariant forall i :: 0 <= i < index ==> RecordAccepted(c, sel, c.materials[i], rs[i])
      invariant unselected == CountStatus(rs[..index], Unselected)
      invariant unassociated == CountStatus(rs[..index], Unassociated)
      invariant emitted == CountStatus(rs[..index], Emitted) && unmodified == CountStatus(rs[..index], Unchanged)
      invariant failed == CountStatus(rs[..index], Failed)
    {
      OneMoreInStatus(rs, index);
      var accepted := CheckRecord(c, sel, c.materials[index], rs[index]);
      if !accepted { return false; }
      match rs[index].status {
        case Unselected => unselected := unselected + 1;
        case Unassociated => unassociated := unassociated + 1;
        case Emitted => emitted := emitted + 1;
        case Unchanged => unmodified := unmodified + 1;
        case Failed => failed := failed + 1;
      }
    }
    assert rs[..|rs|] == rs;
    var groups := CountShaderGroups(c, sel, rs);
    CountsAddUp(rs);
    ok := st.unselected == unselected && st.unassociated == unassociated && st.emitted == emitted
      && st.unmodified == unmodified && st.failed == failed && failed == 0 && st.shaderGroups == groups
      && st.selected == emitted + unmodified && |rs| == unselected + unassociated + emitted + unmodified;
  }

  lemma NothingInStatus(rs: seq<MaterialRecord>)
    ensures forall s :: CountStatus(rs[..0], s) == 0
  {
  }

  lemma OneMoreInStatus(rs: seq<MaterialRecord>, k: nat)
    requires k < |rs|
    ensures forall s :: CountStatus(rs[..k + 1], s) == CountStatus(rs[..k], s) + One(rs[k].status == s)
  {
    assert rs[..k + 1][..k] == rs[..k];
  }

  /** The second loop of the census: distinct shaders among the published records. */
  method CountShaderGroups(c: Catalog, sel: seq<bool>, rs: seq<MaterialRecord>) returns (groups: nat)
    requires |sel| == c.shaderCount && |rs| == |c.materials|
    requires forall i :: 0 <= i < |rs| ==> RecordAccepted(c, sel, c.materials[i], rs[i])
    ensures groups == |PublishedShaders(rs)|
  {
    assert forall i :: 0 <= i < |rs| && IsPublished(rs[i]) ==> rs[i].shader.Some? && rs[i].shader.value < c.shaderCount;
    hide RecordAccepted, IsPublished, PublishedShaders, Marks;
    NoShaders(rs, c.shaderCount);
    var seen := new bool[c.shaderCount](_ => false);
    groups := 0;
    assert seen[..] == seq(c.shaderCount, _ => false);
    for index := 0 to |rs|
      invariant Marks(seen[..], PublishedShaders(rs[..index]))
      invariant groups == |PublishedShaders(rs[..index])|
    {
      ShadersOfOneMore(rs, index);
      PublishedMeans(rs[index]);
      if rs[index].status != Emitted && rs[index].status != Unchanged { continue; }
      var shader := rs[index].shader.value;
      MarkAdded(seen[..], PublishedShaders(rs[..index]), shader);
      if !seen[shader] {
        ghost var before := seen[..];
        seen[shader] := true;
        assert seen[..] == before[shader := true];
        groups := groups + 1;
      }
    }
    assert rs[..|rs|] == rs;
  }

  lemma PublishedMeans(r: MaterialRecord)
    ensures IsPublished(r) <==> r.status == Emitted || r.status == Unchanged
  {
  }

  /** `seen` marks exactly the shaders in `shaders`. */
  ghost predicate Marks(seen: seq<bool>, shaders: set<nat>) {
    forall s: nat :: s in shaders <==> s < |seen| && seen[s]
  }

  lemma MarkAdded(seen: seq<bool>, shaders: set<nat>, shader: nat)
    requires Marks(seen, shaders) && shader < |seen|
    ensures seen[shader] <==> shader in shaders
    ensures seen[shader] ==> shaders + {shader} == shaders
    ensures Marks(seen[shader := true], shaders + {shader})
  {
  }

  lemma NoShaders(rs: seq<MaterialRecord>, shaderCount: nat)
    ensures PublishedShaders(rs[..0]) == {} && Marks(seq(shaderCount, _ => false), {})
  {
  }

  lemma ShadersOfOneMore(rs: seq<MaterialRecord>, k: nat)
    requires k < |rs| && (IsPublished(rs[k]) ==> rs[k].shader.Some?)
    ensures PublishedShaders(rs[..k + 1])
         == PublishedShaders(rs[..k]) + if IsPublished(rs[k]) then {rs[k].shader.value} else {}
  {
    var before, after := rs[..k], rs[..k + 1];
    forall s | s in PublishedShaders(after)
      ensures s in PublishedShaders(before) + if IsPublished(rs[k]) then {rs[k].shader.value} else {}
    {
      var i :| 0 <= i < |after| && IsPublished(after[i]) && after[i].shader == Some(s);
      if i < k {
        assert before[i] == after[i];
      }
    }
    forall s | s in PublishedShaders(before)
      ensures s in PublishedShaders(after)
    {
      var i :| 0 <= i < |before| && IsPublished(before[i]) && before[i].shader == Some(s);
      assert after[i] == before[i];
    }
    if IsPublished(rs[k]) {
      assert after[k] == rs[k];
    }
  }

  // ---------- What an export guarantees ----------

  /** A material whose shader is selected. */
  predicate IsChosen(c: Catalog, sel: seq<bool>, m: CatalogMaterial)
    requires |sel| == c.shaderCount
  {
    IsAssociated(c, m) && sel[m.shaderIndex]
  }

  /** A failed record names its first reason, and a file it wrote is kept as residue. */
  ghost predicate HasFailed(r: MaterialRecord) {
    r.status == Failed && r.failure != NoFailure && (AnyEmitted(r) ==> r.residue)
  }

  /** Each record is in the state its catalog entry calls for; a chosen one is published or failed. */
  ghost predicate RecordExplained(c: Catalog, sel: seq<bool>, m: CatalogMaterial, r: MaterialRecord)
    requires |sel| == c.shaderCount
  {
    if m.status == ShaderNull then r.status == Unassociated && r.shader.None? && IsUntouched(r)
    else if !IsAssociated(c, m) then HasFailed(r)
    else
      && r.shader == Some(m.shaderIndex)
      && if !sel[m.shaderIndex] then r.status == Unselected && IsUntouched(r)
         else HasFailed(r) || (IsPublished(r) && HasPublication(r))
  }

  function CountChosen(c: Catalog, sel: seq<bool>, ms: seq<CatalogMaterial>): nat
    requires |sel| == c.shaderCount
  {
    if ms == [] then 0 else CountChosen(c, sel, ms[..|ms| - 1]) + if IsChosen(c, sel, ms[|ms| - 1]) then 1 else 0
  }

  /** `bracketed` are the shaders whose dependency views were bracketed for a group of chosen materials. */
  ghost predicate GroupsExplained(c: Catalog, sel: seq<bool>, rs: seq<MaterialRecord>, bracketed: set<nat>)
    requires |sel| == c.shaderCount && |rs| == |c.materials|
  {
    && PublishedShaders(rs) <= bracketed
    && forall s :: s in bracketed ==>
         exists i :: 0 <= i < |rs| && IsChosen(c, sel, c.materials[i]) && c.materials[i].shaderIndex == s
  }

  ghost predicate Exported(c: Catalog, sel: seq<bool>, rs: seq<MaterialRecord>, st: Stats)
    requires |sel| == c.shaderCount
  {
    && |rs| == |c.materials| == st.catalogMaterials
    && (forall i :: 0 <= i < |rs| ==> RecordExplained(c, sel, c.materials[i], rs[i]))
    && st.unselected == CountStatus(rs, Unselected) && st.unassociated == CountStatus(rs, Unassociated)
    && st.emitted == CountStatus(rs, Emitted) && st.unmodified == CountStatus(rs, Unchanged)
    && st.failed == CountStatus(rs, Failed)
    && st.selected == CountChosen(c, sel, c.materials)
    && (exists bracketed :: |bracketed| == st.shaderGroups && GroupsExplained(c, sel, rs, bracketed))
    && st.dependencies == TallyRecords(rs)
  }

  lemma {:induction false} ChosenArePublished(c: Catalog, sel: seq<bool>, rs: seq<MaterialRecord>, n: nat)
    requires |sel| == c.shaderCount && n <= |rs| == |c.materials|
    requires forall i :: 0 <= i < n ==> RecordExplained(c, sel, c.materials[i], rs[i]) && rs[i].status != Failed
    ensures CountChosen(c, sel, c.materials[..n]) == CountStatus(rs[..n], Emitted) + CountStatus(rs[..n], Unchanged)
  {
    hide RecordExplained, IsChosen;
    if n > 0 {
      ChosenArePublished(c, sel, rs, n - 1);
      ChosenIsPublished(c, sel, c.materials[n - 1], rs[n - 1]);
      assert rs[..n][..n - 1] == rs[..n - 1] && c.materials[..n][..n - 1] == c.materials[..n - 1];
    }
  }

  lemma ChosenIsPublished(c: Catalog, sel: seq<bool>, m: CatalogMaterial, r: MaterialRecord)
    requires |sel| == c.shaderCount && RecordExplained(c, sel, m, r) && r.status != Failed
    ensures IsChosen(c, sel, m) <==> IsPublished(r)
  {
  }

  /** The five counters partition the records of every export. */
  lemma ExportPartitionsRecords(c: Catalog, sel: seq<bool>, rs: seq<MaterialRecord>, st: Stats)
    requires |sel| == c.shaderCount && Exported(c, sel, rs, st)
    ensures st.unselected + st.unassociated + st.emitted + st.unmodified + st.failed == |rs|
    ensures forall i :: 0 <= i < |rs| && IsChosen(c, sel, c.materials[i]) ==>
        IsPublished(rs[i]) || rs[i].status == Failed
  {
    CountsAddUp(rs);
  }

  /** No chosen shader's bit differs between the two selections. */
  ghost predicate SelectionsAgree(c: Catalog, sel: seq<bool>, sel': seq<bool>)
    requires |sel| == |sel'| == c.shaderCount
  {
    forall i :: 0 <= i < |c.materials| && IsAssociated(c, c.materials[i]) ==>
      sel[c.materials[i].shaderIndex] == sel'[c.materials[i].shaderIndex]
  }

  lemma GroupsOfCleanExport(c: Catalog, sel: seq<bool>, rs: seq<MaterialRecord>, bracketed: set<nat>)
    requires |sel| == c.shaderCount && |rs| == |c.materials| && GroupsExplained(c, sel, rs, bracketed)
    requires forall i :: 0 <= i < |rs| ==> RecordExplained(c, sel, c.materials[i], rs[i]) && rs[i].status != Failed
    ensures bracketed == PublishedShaders(rs)
  {
    forall s | s in bracketed
      ensures s in PublishedShaders(rs)
    {
      var i :| 0 <= i < |rs| && IsChosen(c, sel, c.materials[i]) && c.materials[i].shaderIndex == s;
      assert IsPublished(rs[i]) && rs[i].shader == Some(s);
    }
  }

  /** Producer meets checker: the census accepts an export, under selection bits read later, exactly
      when nothing failed and no shader of a ready material has changed its bit since. */
  lemma CensusAcceptsExport(c: Catalog, sel: seq<bool>, sel': seq<bool>, rs: seq<MaterialRecord>, st: Stats)
    requires |sel| == |sel'| == c.shaderCount && Exported(c, sel, rs, st)
    ensures Complete(c, sel', rs, st) <==> st.failed == 0 && SelectionsAgree(c, sel, sel')
  {
    NoneCounted(rs, Failed);
    if st.failed == 0 {
      ChosenArePublished(c, sel, rs, |rs|);
      assert rs[..|rs|] == rs && c.materials[..|rs|] == c.materials;
      var bracketed :| |bracketed| == st.shaderGroups && GroupsExplained(c, sel, rs, bracketed);
      GroupsOfCleanExport(c, sel, rs, bracketed);
      RecordsAcceptedWhenUnchanged(c, sel, sel', rs);
    }
  }

  lemma RecordsAcceptedWhenUnchanged(c: Catalog, sel: seq<bool>, sel': seq<bool>, rs: seq<MaterialRecord>)
    requires |sel| == |sel'| == c.shaderCount && |rs| == |c.materials|
    requires forall i :: 0 <= i < |rs| ==> RecordExplained(c, sel, c.materials[i], rs[i]) && rs[i].status != Failed
    ensures SelectionsAgree(c, sel, sel') <==> forall i :: 0 <= i < |rs| ==>
        RecordAccepted(c, sel', c.materials[i], rs[i])
  {
    forall i | 0 <= i < |rs|
      ensures RecordAccepted(c, sel', c.materials[i], rs[i]) <==>
              (IsAssociated(c, c.materials[i]) ==> sel[c.materials[i].shaderIndex] == sel'[c.materials[i].shaderIndex])
    {
    }
  }

  // ---------- The dependency census ----------

  predicate ResolveSucceeded(s: ResolveStatus) {
    s == ResolveLocal || s == ResolveExternalExact
  }

  /** closed_dependency_evidence_is_valid. */
  ghost predicate EvidenceIsValid(d: Dependency, index: nat) {
    && d.propertyIndex == index && d.name.Some? && |d.name.value| > 0
    && match d.status
       case DependencyNull =>
         && d.pointer.pathId == 0 && d.resolveStatus == ResolveNull && d.referenceStatus == ReferenceOk
         && d.target.None? && d.externalIndex.None? && !d.hasExternalGuid && d.reference.None?
       case ResolvedExported =>
         && d.pointer.pathId != 0 && ResolveSucceeded(d.resolveStatus) && d.referenceStatus == ReferenceOk
         && d.target.Some? && d.target.value.classId > 0 && d.target.value.pathId == d.pointer.pathId
         && IsHexText(d.target.value.digest, 64)
         && d.reference.Some? && d.reference.value.fileId != 0 && IsHexText(d.reference.value.guid, 32)
         && 0 <= d.reference.value.kind <= 3 && d.reference.value.exported
         && (if d.resolveStatus == ResolveLocal
             then d.pointer.fileId == 0 && d.target.value.sourceIndex == d.sourceIndex && d.externalIndex.None? &&
               !d.hasExternalGuid
             else d.pointer.fileId > 0 && d.externalIndex == Some(d.pointer.fileId - 1) && d.hasExternalGuid)
       case _ => true
  }

  ghost predicate IsClosedDependency(d: Dependency, index: nat) {
    IsNullOrExported(d.status) && EvidenceIsValid(d, index)
  }

  ghost predicate ClosedDependencies(ds: seq<Dependency>) {
    forall k :: 0 <= k < |ds| ==> IsClosedDependency(ds[k], k)
  }

  /** material_batch_texture_dependencies_are_closed: every counter is re-derived from the records. */
  ghost predicate Closed(c: Catalog, sel: seq<bool>, rs: seq<MaterialRecord>, st: Stats)
    requires |sel| == c.shaderCount
  {
    && Complete(c, sel, rs, st)
    && (forall i :: 0 <= i < |rs| ==> RecordClosed(rs[i]))
    && st.dependencies == TallyRecords(rs)
  }

  predicate IsNullOrExported(s: DependencyStatus) {
    s == DependencyNull || s == ResolvedExported
  }

  lemma TallyOfOne(s: DependencyStatus)
    ensures var t := TallyOf(s);
            && t.total == 1 && t.exported <= t.resolved
            && ((t.failed == 0 && t.unexported == 0) <==> IsNullOrExported(s))
            && (IsNullOrExported(s) ==> t.resolved == t.exported)
  {
  }

  lemma {:induction false} ClosedTally(ds: seq<Dependency>)
    ensures var t := Tally(ds); t.total == |ds| && t.exported <= t.resolved
    ensures var t := Tally(ds); (t.failed == 0 && t.unexported == 0) <==>
              forall k :: 0 <= k < |ds| ==> IsNullOrExported(ds[k].status)
    ensures var t := Tally(ds); t.failed == 0 && t.unexported == 0 ==> t.resolved == t.exported
  {
    hide TallyOf, IsNullOrExported;
    if ds != [] {
      ClosedTally(ds[..|ds| - 1]);
      TallyOfOne(ds[|ds| - 1].status);
      assert ds == ds[..|ds| - 1] + [ds[|ds| - 1]];
    }
  }

  ghost predicate IsClosedTally(t: DependencyStats) {
    t.failed == 0 && t.unexported == 0 && t.resolved == t.exported
  }

  /** What the census asks of one record. */
  ghost predicate RecordClosed(r: MaterialRecord) {
    if IsPublished(r) then r.closureComplete && ClosedDependencies(r.dependencies) else r.dependencies == []
  }

  lemma ClosedTotals(totals: DependencyStats, ds: seq<Dependency>)
    requires IsClosedTally(totals) && ClosedDependencies(ds)
    ensures IsClosedTally(Plus(totals, Tally(ds)))
  {
    hide Tally, EvidenceIsValid, IsNullOrExported;
    ClosedTally(ds);
  }

  method TexturesAreClosed(c: Catalog, sel: seq<bool>, rs: seq<MaterialRecord>, st: Stats) returns (ok: bool)
    requires |sel| == c.shaderCount
    ensures ok == Closed(c, sel, rs, st)
  {
    hide Complete, Tally, ClosedDependencies, IsClosedTally, Plus;
    ok := IsComplete(c, sel, rs, st);
    if !ok { return; }
    var totals := NO_DEPENDENCIES;
    var closed := true;
    assert IsClosedTally(totals) by { NothingIsClosed(); }
    for index := 0 to |rs|
      invariant totals == TallyRecords(rs[..index])
      invariant forall i :: 0 <= i < index && !IsPublished(rs[i]) ==> RecordClosed(rs[i])
      invariant closed <==> forall i :: 0 <= i < index ==> RecordClosed(rs[i])
      invariant closed ==> IsClosedTally(totals)
    {
      assert rs[..index + 1][..index] == rs[..index];
      var r := rs[index];
      if r.status != Emitted && r.status != Unchanged {
        if |r.dependencies| != 0 {
          assert !RecordClosed(rs[index]);
          return false;
        }
        EmptyAddsNothing(totals, r.dependencies);
        continue;
      }
      var counted, fine := CensusOf(r.dependencies);
      if IsClosedTally(totals) && fine {
        ClosedTotals(totals, r.dependencies);
      }
      totals := Plus(totals, counted);
      closed := closed && r.closureComplete && fine;
    }
    assert rs[..|rs|] == rs;
    ClosedTallyMeans(totals);
    ok := st.dependencies == totals && closed && totals.failed == 0 && totals.unexported == 0
      && totals.resolved == totals.exported;
  }

  lemma ClosedTallyMeans(t: DependencyStats)
    ensures IsClosedTally(t) <==> t.failed == 0 && t.unexported == 0 && t.resolved == t.exported
  {
  }

  lemma NothingIsClosed()
    ensures IsClosedTally(NO_DEPENDENCIES)
  {
  }

  lemma EmptyAddsNothing(totals: DependencyStats, ds: seq<Dependency>)
    requires |ds| == 0
    ensures Plus(totals, Tally(ds)) == totals && ds == []
  {
  }

  lemma ClosedNeedsStatus(s: DependencyStatus)
    ensures IsNullOrExported(s) <==> s == DependencyNull || s == ResolvedExported
  {
  }

  /** closed_dependency_evidence_is_valid. */
  method CheckEvidence(d: Dependency, index: nat) returns (valid: bool)
    ensures valid == EvidenceIsValid(d, index)
  {
    hide IsHexText;
    if d.propertyIndex != index || d.name.None? || |d.name.value| == 0 { return false; }
    if d.status == DependencyNull {
      return d.pointer.pathId == 0 && d.resolveStatus == ResolveNull && d.referenceStatus == ReferenceOk
        && d.target.None? && d.externalIndex.None? && !d.hasExternalGuid && d.reference.None?;
    }
    if d.status != ResolvedExported { return true; }
    if d.pointer.pathId == 0 || d.referenceStatus != ReferenceOk || d.target.None? || d.reference.None? {
      return false;
    }
    if d.resolveStatus != ResolveLocal && d.resolveStatus != ResolveExternalExact { return false; }
    if d.target.value.classId <= 0 || d.target.value.pathId != d.pointer.pathId
       || !IsHexText(d.target.value.digest, 64) {
      return false;
    }
    var reference := d.reference.value;
    if reference.fileId == 0 || !IsHexText(reference.guid, 32) || reference.kind < 0 || reference.kind > 3
       || !reference.exported {
      return false;
    }
    if d.resolveStatus == ResolveLocal {
      return d.pointer.fileId == 0 && d.target.value.sourceIndex == d.sourceIndex && d.externalIndex.None?
        && !d.hasExternalGuid;
    }
    valid := d.pointer.fileId > 0 && d.externalIndex == Some(d.pointer.fileId - 1) && d.hasExternalGuid;
  }

  /** The inner loop of the census over one record's dependencies. */
  method CensusOf(ds: seq<Dependency>) returns (counted: DependencyStats, fine: bool)
    ensures counted == Tally(ds) && fine == ClosedDependencies(ds)
  {
    hide TallyOf, EvidenceIsValid, IsNullOrExported;
    counted, fine := NO_DEPENDENCIES, true;
    for index := 0 to |ds|
      invariant counted == Tally(ds[..index])
      invariant fine <==> forall k :: 0 <= k < index ==> IsClosedDependency(ds[k], k)
    {
      assert ds[..index + 1][..index] == ds[..index];
      var valid := CheckEvidence(ds[index], index);
      ClosedNeedsStatus(ds[index].status);
      if !valid || (ds[index].status != DependencyNull && ds[index].status != ResolvedExported) { fine := false; }
      counted := CountDependency(counted, ds[index].status);
    }
    assert ds[..|ds|] == ds;
  }

  /** The switch of the census. */
  method CountDependency(before: DependencyStats, s: DependencyStatus) returns (t: DependencyStats)
    ensures t == Plus(before, TallyOf(s))
  {
    t := before.(total := before.total + 1);
    match s {
      case DependencyNull => t := t.(null_ := t.null_ + 1);
      case ResolvedExported => t := t.(resolved := t.resolved + 1, exported := t.exported + 1);
      case ResolvedNotExported => t := t.(resolved := t.resolved + 1, unexported := t.unexported + 1);
      case ResolutionFailed => t := t.(failed := t.failed + 1);
      case TargetUnexported => t :=
        t.(resolved := t.resolved + 1, unexported := t.unexported + 1, failed := t.failed + 1);
      case _ => t := t.(resolved := t.resolved + 1, failed := t.failed + 1);
    }
  }

  /** For an export the dependency census adds to completeness only that every dependency of every
      published material is null or exported, with its evidence in order. */
  lemma DependencyCensusOfExport(c: Catalog, sel: seq<bool>, rs: seq<MaterialRecord>, st: Stats)
    requires |sel| == c.shaderCount && Exported(c, sel, rs, st)
    requires forall i :: 0 <= i < |rs| && IsPublished(rs[i]) && ClosedDependencies(rs[i].dependencies) ==>
        rs[i].closureComplete
    ensures Closed(c, sel, rs, st) <==>
              st.failed == 0 && forall i :: 0 <= i < |rs| && IsPublished(rs[i]) ==>
                ClosedDependencies(rs[i].dependencies)
  {
    CensusAcceptsExport(c, sel, sel, rs, st);
    NoneCounted(rs, Failed);
  }
}
