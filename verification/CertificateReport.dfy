/** The report of release_shader_object_certify_equal: nineteen verdicts, each written once. */
module CertificateReport {
  import opened Basics
  import opened TypeTree
  import opened CanonicalCompare
  import opened FieldCompare
  import opened References
  import opened Archives

  const FIELD_COUNT: nat := 19

  /** Field numbers, in the order of ReleaseShaderObjectField. */
  const SCHEMA_PROFILE := 0
  const SHADER_IDENTITY := 1
  const PROPERTIES := 2
  const KEYWORDS := 3
  const PARSED_DEPENDENCIES := 4
  const CUSTOM_EDITORS := 5
  const SUBSHADER_TOPOLOGY := 6
  const SUBSHADER_METADATA := 7
  const PASS_IDENTITY := 8
  const PASS_TAGS := 9
  const RENDER_STATE := 10
  const PROGRAM_VARIANTS := 11
  const PARAMETER_BINDINGS := 12
  const PARSED_FORM_RESIDUAL := 13
  const OBJECT_DEPENDENCIES := 14
  const TEXTURES := 15
  const SHADER_IS_BAKED := 16
  const PLATFORM_ARCHIVES := 17
  const COMPILED_ARTIFACTS := 18

  datatype CertificateStatus =
    CertificateOk | InvalidArgument | InputNotDecoded | SchemaAuthorityInvalid | CertificateAuthorityInvalid
    | CertificateAuthorityUnavailable | ObjectsDiffer

  /** `schemaValid` is the answer of the profile validator; `open` opens a platform's archive. */
  datatype ShaderObject = ShaderObject(
    decoded: bool, schemaValid: bool, profile: nat, fileVersion: nat, targetPlatform: nat, root: Value, open: Opener)

  // ---------- The ledger ----------

  function CountEvaluated(fields: seq<FieldStatus>): nat {
    if fields == [] then 0
    else CountEvaluated(fields[..|fields| - 1]) + if fields[|fields| - 1] != NotEvaluated then 1 else 0
  }

  function CountMatched(fields: seq<FieldStatus>): nat {
    if fields == [] then 0
    else CountMatched(fields[..|fields| - 1]) + if fields[|fields| - 1] == Match then 1 else 0
  }

  predicate IsProblem(s: FieldStatus) {
    s != Match && s != NotEvaluated
  }

  /** `first` is the least evaluated field that does not match, or FIELD_COUNT when there is none. */
  ghost predicate IsFirstProblem(fields: seq<FieldStatus>, first: nat) {
    && first <= |fields|
    && (first < |fields| ==> IsProblem(fields[first]))
    && forall k :: 0 <= k < first ==> !IsProblem(fields[k])
  }

  /** The fields below `n` that are still open get `s`. */
  ghost function Filled(fields: seq<FieldStatus>, s: FieldStatus, n: nat): (r: seq<FieldStatus>)
    requires n <= |fields|
    ensures |r| == |fields|
  {
    seq(|fields|, i requires 0 <= i < |fields| => if i < n && fields[i] == NotEvaluated then s else fields[i])
  }

  lemma {:induction false} CountsAfterUpdate(fields: seq<FieldStatus>, k: nat, s: FieldStatus)
    requires k < |fields| && fields[k] == NotEvaluated && s != NotEvaluated
    ensures CountEvaluated(fields[k := s]) == CountEvaluated(fields) + 1
    ensures CountMatched(fields[k := s]) == CountMatched(fields) + if s == Match then 1 else 0
  {
    var init := fields[..|fields| - 1];
    if k == |fields| - 1 {
      assert fields[k := s][..k] == init;
    } else {
      CountsAfterUpdate(init, k, s);
      assert fields[k := s][..|fields| - 1] == init[k := s];
    }
  }

  lemma {:induction false} FullCounts(fields: seq<FieldStatus>)
    ensures CountEvaluated(fields) <= |fields| && CountMatched(fields) <= CountEvaluated(fields)
    ensures CountEvaluated(fields) == |fields| <==> forall k :: 0 <= k < |fields| ==> fields[k] != NotEvaluated
    ensures CountMatched(fields) == |fields| <==> forall k :: 0 <= k < |fields| ==> fields[k] == Match
  {
    if fields != [] {
      var init := fields[..|fields| - 1];
      FullCounts(init);
      assert fields == init + [fields[|fields| - 1]];
    }
  }

  lemma {:induction false} NothingEvaluated(n: nat)
    ensures CountEvaluated(seq(n, i => NotEvaluated)) == 0 && CountMatched(seq(n, i => NotEvaluated)) == 0
  {
    if n > 0 {
      NothingEvaluated(n - 1);
      assert seq(n, i => NotEvaluated)[..n - 1] == seq(n - 1, i => NotEvaluated);
    }
  }

  function ToField(v: Verdict): FieldStatus {
    match v
    case Equal => Match
    case Different => Mismatch
    case Unavailable => AuthorityUnavailable
    case Invalid => AuthorityInvalid
  }

  // ---------- The nineteen verdicts ----------

  datatype Entry = Entry(status: FieldStatus, location: Location)

  function FromLocated(l: Located): Entry {
    Entry(ToField(l.verdict), l.location)
  }

  function Unlocated(v: Verdict): Entry {
    FromLocated(Located(v, NO_LOCATION))
  }

  /** A status with the coordinates the comparison set, which record_field reads only for a problem. */
  function FromFound(f: Found): Entry {
    Entry(f.status, NO_LOCATION.(element := f.element))
  }

  function FromArtifacts(r: ArtifactResult): Entry {
    Entry(r.status, NO_LOCATION.(platform := r.platform, archiveEntry := r.entry, archiveByte := r.byte))
  }

  function FromPlatforms(p: PlatformResult): Entry {
    Entry(p.status, NO_LOCATION.(platform := p.platform))
  }

  function RootArray(o: ShaderObject, name: string): Option<Value> {
    RequiredArray(Some(o.root), name)
  }

  function BakedFlag(o: ShaderObject): Option<int> {
    match FindChild(o.root, "m_ShaderIsBaked")
    case None => None
    case Some(v) => if GetInt(v) == Some(0) || GetInt(v) == Some(1) then GetInt(v) else None
  }

  function BakedStatus(e: ShaderObject, a: ShaderObject): FieldStatus {
    if BakedFlag(e).None? || BakedFlag(a).None? then AuthorityInvalid
    else if BakedFlag(e) == BakedFlag(a) then Match else Mismatch
  }

  /** compare_baked_flag. */
  method CompareBakedFlag(e: ShaderObject, a: ShaderObject) returns (s: FieldStatus)
    ensures s == BakedStatus(e, a)
  {
    var x, y := FindChild(e.root, "m_ShaderIsBaked"), FindChild(a.root, "m_ShaderIsBaked");
    if x.None? || y.None? { return AuthorityInvalid; }
    var expectedFlag, actualFlag := GetInt(x.value), GetInt(y.value);
    if expectedFlag.None? || actualFlag.None?
       || (expectedFlag.value != 0 && expectedFlag.value != 1) || (actualFlag.value != 0 && actualFlag.value != 1) {
      return AuthorityInvalid;
    }
    s := if expectedFlag.value == actualFlag.value then Match else Mismatch;
  }

  function Dependencies(e: ShaderObject, a: ShaderObject, r: Resolver): Found {
    DependencyStatus(PointerArray(RootArray(e, "m_Dependencies")), PointerArray(RootArray(a, "m_Dependencies")), r)
  }

  function Textures(e: ShaderObject, a: ShaderObject, r: Resolver): Found {
    TextureStatus(TextureTable(RootArray(e, "m_NonModifiableTextures")),
                  TextureTable(RootArray(a, "m_NonModifiableTextures")), r)
  }

  function PlatformSets(e: ShaderObject, a: ShaderObject): PlatformResult {
    PlatformSetStatus(Platforms(e), Platforms(a))
  }

  function Platforms(o: ShaderObject): (r: Option<seq<int>>)
    ensures r.Some? ==> Distinct(r.value)
  {
    PlatformsOf(RootArray(o, "platforms"))
  }

  function Artifacts(e: ShaderObject, a: ShaderObject): ArtifactResult {
    ArtifactsOf(Platforms(e), Platforms(a), e.open, a.open)
  }

  /** The fields read off the two m_ParsedForm trees. */
  function ParsedVerdict(field: nat, eRoot: Value, aRoot: Value, ep: Value, ap: Value): Located
    requires SHADER_IDENTITY <= field <= PARSED_FORM_RESIDUAL
  {
    if field == SHADER_IDENTITY then Located(IdentityVerdict(eRoot, aRoot, ep, ap), NO_LOCATION)
    else if field == PROPERTIES then Located(NamedVerdict(ep, ap, "m_PropInfo"), NO_LOCATION)
    else if field == KEYWORDS then Located(NamedListVerdict(ep, ap, KeywordFields()), NO_LOCATION)
    else if field == PARSED_DEPENDENCIES then Located(NamedVerdict(ep, ap, "m_Dependencies"), NO_LOCATION)
    else if field == CUSTOM_EDITORS then Located(NamedVerdict(ep, ap, "m_CustomEditorForRenderPipelines"), NO_LOCATION)
    else if field == SUBSHADER_TOPOLOGY then TopologyVerdict(ep, ap)
    else if field == PARSED_FORM_RESIDUAL then Located(ValueVerdict(ep, ap), NO_LOCATION)
    else SequencesVerdict(ep, ap, KindOfField(field))
  }

  function KindOfField(field: nat): SequenceKind {
    if field == SUBSHADER_METADATA then SubshaderMetadata
    else if field == PASS_IDENTITY then PassIdentity
    else if field == PASS_TAGS then PassTags
    else if field == RENDER_STATE then RenderState
    else if field == PROGRAM_VARIANTS then ProgramVariants
    else Parameters
  }

  /** The fields read off the object roots. */
  function ObjectEntry(field: nat, e: ShaderObject, a: ShaderObject, r: Resolver): Entry
    requires OBJECT_DEPENDENCIES <= field < FIELD_COUNT
  {
    if field == OBJECT_DEPENDENCIES then FromFound(Dependencies(e, a, r))
    else if field == TEXTURES then FromFound(Textures(e, a, r))
    else if field == SHADER_IS_BAKED then Entry(BakedStatus(e, a), NO_LOCATION)
    else if field == PLATFORM_ARCHIVES then FromPlatforms(PlatformSets(e, a))
    else FromArtifacts(Artifacts(e, a))
  }

  method CheckDependencies(e: ShaderObject, a: ShaderObject, r: Resolver) returns (entry: Entry)
    ensures entry == FromFound(Dependencies(e, a, r))
  {
    hide DependencyStatus, RequiredArray;
    var found := CompareDependencies(RootArray(e, "m_Dependencies"), RootArray(a, "m_Dependencies"), r);
    entry := Entry(found.status, Location(-1, -1, -1, found.element, -1, -1, None));
  }

  method CheckTextures(e: ShaderObject, a: ShaderObject, r: Resolver) returns (entry: Entry)
    ensures entry == FromFound(Textures(e, a, r))
  {
    hide TextureStatus, TextureTable, RequiredArray;
    var found := CompareTextures(RootArray(e, "m_NonModifiableTextures"), RootArray(a, "m_NonModifiableTextures"), r);
    entry := Entry(found.status, Location(-1, -1, -1, found.element, -1, -1, None));
  }

  method CheckPlatforms(e: ShaderObject, a: ShaderObject) returns (entry: Entry)
    ensures entry == FromPlatforms(PlatformSets(e, a))
  {
    hide PlatformSetStatus, PlatformsOf, RequiredArray;
    var sets := ComparePlatforms(RootArray(e, "platforms"), RootArray(a, "platforms"));
    entry := Entry(sets.status, Location(-1, -1, -1, -1, sets.platform, -1, None));
  }

  method WalkArtifacts(e: ShaderObject, a: ShaderObject) returns (r: ArtifactResult)
    requires PlatformCountFits(e)
    ensures r == Artifacts(e, a)
  {
    hide PlatformsOf, ArtifactsOf;
    var expected := ReadPlatforms(RootArray(e, "platforms"));
    var actual := ReadPlatforms(RootArray(a, "platforms"));
    r := CompareArtifacts(expected, actual, e.open, a.open);
  }

  /** What each field reports once both m_ParsedForm trees `ep` and `ap` are at hand. */
  function EntryOf(field: nat, e: ShaderObject, a: ShaderObject, ep: Value, ap: Value, r: Resolver): Entry
    requires field < FIELD_COUNT
  {
    if field == SCHEMA_PROFILE then Entry(Match, NO_LOCATION)
    else if field <= PARSED_FORM_RESIDUAL then FromLocated(ParsedVerdict(field, e.root, a.root, ep, ap))
    else ObjectEntry(field, e, a, r)
  }

  /** The parsed-form fields, one equation each. */
  lemma ParsedEntries(e: ShaderObject, a: ShaderObject, ep: Value, ap: Value, r: Resolver)
    ensures EntryOf(SCHEMA_PROFILE, e, a, ep, ap, r) == Entry(Match, NO_LOCATION)
    ensures EntryOf(SHADER_IDENTITY, e, a, ep, ap, r) == Unlocated(IdentityVerdict(e.root, a.root, ep, ap))
    ensures EntryOf(PROPERTIES, e, a, ep, ap, r) == Unlocated(NamedVerdict(ep, ap, "m_PropInfo"))
    ensures EntryOf(KEYWORDS, e, a, ep, ap, r) == Unlocated(NamedListVerdict(ep, ap, KeywordFields()))
    ensures EntryOf(PARSED_DEPENDENCIES, e, a, ep, ap, r) == Unlocated(NamedVerdict(ep, ap, "m_Dependencies"))
    ensures EntryOf(CUSTOM_EDITORS, e, a, ep, ap, r)
        == Unlocated(NamedVerdict(ep, ap, "m_CustomEditorForRenderPipelines"))
    ensures EntryOf(SUBSHADER_TOPOLOGY, e, a, ep, ap, r) == FromLocated(TopologyVerdict(ep, ap))
    ensures EntryOf(PARSED_FORM_RESIDUAL, e, a, ep, ap, r) == Unlocated(ValueVerdict(ep, ap))
    ensures forall field :: SUBSHADER_METADATA <= field <= PARAMETER_BINDINGS ==>
              EntryOf(field, e, a, ep, ap, r) == FromLocated(SequencesVerdict(ep, ap, KindOfField(field)))
  {
    hide NamedVerdict, NamedListVerdict, IdentityVerdict, TopologyVerdict, SequencesVerdict, ValueVerdict;
  }

  /** The entries of dependencies, textures, the baked flag and the platform sets. */
  lemma ReferenceEntries(e: ShaderObject, a: ShaderObject, ep: Value, ap: Value, r: Resolver)
    ensures EntryOf(OBJECT_DEPENDENCIES, e, a, ep, ap, r) == FromFound(Dependencies(e, a, r))
    ensures EntryOf(TEXTURES, e, a, ep, ap, r) == FromFound(Textures(e, a, r))
    ensures EntryOf(SHADER_IS_BAKED, e, a, ep, ap, r) == Entry(BakedStatus(e, a), NO_LOCATION)
    ensures EntryOf(PLATFORM_ARCHIVES, e, a, ep, ap, r) == FromPlatforms(PlatformSets(e, a))
  {
    hide Dependencies, Textures, BakedStatus, PlatformSets;
  }

  lemma ArtifactsEntry(e: ShaderObject, a: ShaderObject, ep: Value, ap: Value, r: Resolver)
    ensures EntryOf(COMPILED_ARTIFACTS, e, a, ep, ap, r) == FromArtifacts(Artifacts(e, a))
  {
    hide Artifacts;
  }

  lemma EntriesAreEvaluated(field: nat, e: ShaderObject, a: ShaderObject, ep: Value, ap: Value, r: Resolver)
    requires field < FIELD_COUNT
    ensures EntryOf(field, e, a, ep, ap, r).status != NotEvaluated
  {
    hide ParsedVerdict, PlatformsOf, TextureTable, PointerArray, RootArray,
         DependencyStatus, TextureStatus, PlatformSetStatus, ArtifactsOf;
    ReferencesAreEvaluated(
      PointerArray(RootArray(e, "m_Dependencies")), PointerArray(RootArray(a, "m_Dependencies")),
      TextureTable(RootArray(e, "m_NonModifiableTextures")), TextureTable(RootArray(a, "m_NonModifiableTextures")), r);
    ArtifactsAreEvaluated(PlatformsOf(RootArray(e, "platforms")), PlatformsOf(RootArray(a, "platforms")), e.open,
                          a.open);
  }

  lemma ReferencesAreEvaluated(ed: Option<seq<Option<PPtr>>>, ad: Option<seq<Option<PPtr>>>,
                               et: Option<seq<TableRow>>, at: Option<seq<TableRow>>, r: Resolver)
    ensures DependencyStatus(ed, ad, r).status != NotEvaluated && TextureStatus(et, at, r).status != NotEvaluated
  {
    if ed.Some? && ad.Some? && |ed.value| == |ad.value| {
      DependenciesAreEvaluated(ed.value, ad.value, r, 0);
    }
    if et.Some? && at.Some? {
      TexturesAreEvaluated(et.value, at.value, r, 0);
    }
  }

  lemma ArtifactsAreEvaluated(es: Option<seq<int>>, acts: Option<seq<int>>, openE: Opener, openA: Opener)
    ensures PlatformSetStatus(es, acts).status != NotEvaluated
    ensures ArtifactsOf(es, acts, openE, openA).status != NotEvaluated
  {
    if es.Some? && acts.Some? {
      PlatformsAreEvaluated(es.value, acts.value, openE, openA, 0);
    }
  }

  lemma DependenciesAreEvaluated(es: seq<Option<PPtr>>, acts: seq<Option<PPtr>>, r: Resolver, i: nat)
    requires i <= |es| == |acts|
    ensures DependenciesFrom(es, acts, r, i).status != NotEvaluated
    decreases |es| - i
  {
  }

  lemma TexturesAreEvaluated(es: seq<TableRow>, acts: seq<TableRow>, r: Resolver, i: nat)
    requires i <= |es|
    ensures TexturesFrom(es, acts, r, i).status != NotEvaluated
    decreases |es| - i
  {
    if i < |es| {
      LookupIsEvaluated(es[i], acts, r, 0);
    }
  }

  lemma LookupIsEvaluated(row: TableRow, acts: seq<TableRow>, r: Resolver, j: nat)
    requires j <= |acts|
    ensures TextureLookup(row, acts, r, j) != NotEvaluated
    decreases |acts| - j
  {
  }

  lemma PlatformsAreEvaluated(es: seq<int>, acts: seq<int>, openE: Opener, openA: Opener, i: nat)
    requires i <= |es|
    ensures PlatformsFrom(es, acts, i).status != NotEvaluated
    ensures ArtifactsFrom(es, acts, openE, openA, i).status != NotEvaluated
    decreases |es| - i
  {
    hide ReportOf;
  }

  /** The nineteen statuses of the fully evaluated path. */
  ghost function Statuses(e: ShaderObject, a: ShaderObject, ep: Value, ap: Value, r: Resolver): seq<FieldStatus> {
    seq(FIELD_COUNT, i requires 0 <= i < FIELD_COUNT => EntryOf(i, e, a, ep, ap, r).status)
  }

  /** Field 0 says why the comparison stopped, the other eighteen repeat `rest`. */
  ghost function Stopped(first: FieldStatus, rest: FieldStatus): seq<FieldStatus> {
    seq(FIELD_COUNT, i => if i == 0 then first else rest)
  }

  /** The platform count is a C int. */
  predicate PlatformCountFits(o: ShaderObject) {
    Platforms(o).Some? ==> |Platforms(o).value| <= INT_MAX
  }

  ghost predicate SameProfile(e: ShaderObject, a: ShaderObject) {
    e.profile == a.profile && e.fileVersion == a.fileVersion && e.targetPlatform == a.targetPlatform
  }

  /** The fields a finished report holds, path by path. */
  ghost function ReportedFields(e: ShaderObject, a: ShaderObject, r: Resolver): seq<FieldStatus> {
    var ep, ap := FindChild(e.root, "m_ParsedForm"), FindChild(a.root, "m_ParsedForm");
    if !e.decoded || !a.decoded then Stopped(AuthorityUnavailable, AuthorityUnavailable)
    else if !e.schemaValid || !a.schemaValid then Stopped(AuthorityInvalid, AuthorityUnavailable)
    else if !SameProfile(e, a) then Stopped(Mismatch, AuthorityUnavailable)
    else if ep.None? || ap.None? then Stopped(Match, AuthorityInvalid)
    else Statuses(e, a, ep.value, ap.value, r)
  }

  /** The inputs of the fully evaluated path: decoded, of one valid schema, with both m_ParsedForm trees. */
  ghost predicate Comparable(e: ShaderObject, a: ShaderObject) {
    && e.decoded && a.decoded && e.schemaValid && a.schemaValid && SameProfile(e, a)
    && FindChild(e.root, "m_ParsedForm").Some? && FindChild(a.root, "m_ParsedForm").Some?
  }

  /** Where the first problem lies: only the fully evaluated path has coordinates. */
  ghost function ReportedLocation(e: ShaderObject, a: ShaderObject, r: Resolver, first: nat): Location {
    var ep, ap := FindChild(e.root, "m_ParsedForm"), FindChild(a.root, "m_ParsedForm");
    if Comparable(e, a) && first < FIELD_COUNT then EntryOf(first, e, a, ep.value, ap.value, r).location
    else NO_LOCATION
  }

  /** The worst severity: invalid, then unavailable, then mismatch. */
  ghost function WorstSeverity(fields: seq<FieldStatus>): CertificateStatus {
    if AuthorityInvalid in fields then CertificateAuthorityInvalid
    else if AuthorityUnavailable in fields then CertificateAuthorityUnavailable
    else if Mismatch in fields then ObjectsDiffer
    else CertificateOk
  }

  lemma OkMeansAllMatch(fields: seq<FieldStatus>)
    requires forall k :: 0 <= k < |fields| ==> fields[k] != NotEvaluated
    ensures WorstSeverity(fields) == CertificateOk <==> forall k :: 0 <= k < |fields| ==> fields[k] == Match
  {
    forall k | 0 <= k < |fields| && fields[k] != Match
      ensures WorstSeverity(fields) != CertificateOk
    {
      assert fields[k] in fields;
    }
  }

  ghost function ReportedStatus(e: ShaderObject, a: ShaderObject, r: Resolver): CertificateStatus {
    if !e.decoded || !a.decoded then InputNotDecoded
    else if !e.schemaValid || !a.schemaValid then SchemaAuthorityInvalid
    else if !SameProfile(e, a) then ObjectsDiffer
    else if FindChild(e.root, "m_ParsedForm").None? || FindChild(a.root, "m_ParsedForm").None?
    then SchemaAuthorityInvalid
    else WorstSeverity(ReportedFields(e, a, r))
  }

  // ---------- The report object ----------

  class Report {
    const fields: array<FieldStatus>
    var status: CertificateStatus
    var firstProblem: nat
    var location: Location
    var evaluated: nat
    var matched: nat
    var expectedArtifacts: nat
    var actualArtifacts: nat
    var matchedArtifacts: nat
    var identityCertified: bool
    var artifactsExact: bool
    var sourceCertified: bool
    var visualCertified: bool

    /** Counters, first problem and unconditional claims agree with the recorded fields. */
    ghost predicate Valid()
      reads fields, `evaluated, `matched, `firstProblem, `location, `sourceCertified, `visualCertified
    {
      && fields.Length == FIELD_COUNT
      && evaluated == CountEvaluated(fields[..])
      && matched == CountMatched(fields[..])
      && firstProblem <= FIELD_COUNT
      && !sourceCertified && !visualCertified
    }

    constructor ()
      ensures Valid() && fresh(fields)
      ensures forall k :: 0 <= k < FIELD_COUNT ==> fields[k] == NotEvaluated
      ensures status == InvalidArgument && firstProblem == 19
      ensures location == Location(-1, -1, -1, -1, -1, -1, None)
      ensures expectedArtifacts == actualArtifacts == matchedArtifacts == 0
      ensures !identityCertified && !artifactsExact
    {
      fields := new FieldStatus[FIELD_COUNT](_ => NotEvaluated);
      status, firstProblem, location := InvalidArgument, FIELD_COUNT, NO_LOCATION;
      evaluated, matched := 0, 0;
      expectedArtifacts, actualArtifacts, matchedArtifacts := 0, 0, 0;
      identityCertified, artifactsExact, sourceCertified, visualCertified := false, false, false, false;
      new;
      NothingEvaluated(FIELD_COUNT);
      assert fields[..] == seq(FIELD_COUNT, i => NotEvaluated);
    }

    /** record_field: a field is written once, and the first problem keeps its coordinates. */
    method RecordField(field: nat, s: FieldStatus, where: Location)
      requires Valid() && s != NotEvaluated && field < FIELD_COUNT
      modifies fields, `evaluated, `matched, `firstProblem, `location
      ensures Valid()
      ensures if old(fields[field]) != NotEvaluated
              then fields[..] == old(fields[..]) && firstProblem == old(firstProblem) && location == old(location)
              else
                && fields[..] == old(fields[..])[field := s]
                && (s != Match && old(firstProblem) == FIELD_COUNT ==> firstProblem == field && location == where)
                && (s == Match || old(firstProblem) != FIELD_COUNT ==>
                     firstProblem == old(firstProblem) && location == old(location))
      ensures old(IsFirstProblem(fields[..], firstProblem)) ==>
                (IsFirstProblem(fields[..], firstProblem) <==>
                 old(fields[field] != NotEvaluated || firstProblem == FIELD_COUNT || firstProblem < field) ||
                   s == Match)
    {
      if fields[field] != NotEvaluated { return; }
      CountsAfterUpdate(fields[..], field, s);
      fields[field] := s;
      evaluated := evaluated + 1;
      if s == Match {
        matched := matched + 1;
        return;
      }
      if firstProblem != FIELD_COUNT { return; }
      firstProblem := field;
      location := where;
    }

    /** Fields below `n` are written in order and the rest are still open. */
    ghost predicate WrittenUpTo(n: nat, all: seq<FieldStatus>)
      requires n <= FIELD_COUNT == |all|
      reads fields, `evaluated, `matched, `firstProblem, `location, `sourceCertified, `visualCertified
    {
      && Valid()
      && (forall k :: 0 <= k < n ==> fields[k] == all[k])
      && (forall k :: n <= k < FIELD_COUNT ==> fields[k] == NotEvaluated)
      && (firstProblem < n ==> IsProblem(all[firstProblem]))
      && (firstProblem >= n ==> firstProblem == FIELD_COUNT)
      && (forall k :: 0 <= k < firstProblem && k < n ==> !IsProblem(all[k]))
    }

    /** fill_remaining_fields: every field still open gets `s`, whatever was recorded before. */
    method FillRemaining(s: FieldStatus)
      requires Valid() && s != NotEvaluated
      modifies fields, `evaluated, `matched, `firstProblem, `location
      ensures Valid() && evaluated == FIELD_COUNT
      ensures fields[..] == Filled(old(fields[..]), s, FIELD_COUNT)
      ensures s == Match || old(firstProblem) != FIELD_COUNT ==>
                firstProblem == old(firstProblem) && location == old(location)
      ensures s != Match && old(firstProblem) == FIELD_COUNT ==> FoundOpen(old(fields[..]), old(location), FIELD_COUNT)
    {
      for field := 0 to FIELD_COUNT
        invariant Valid() && fields[..] == Filled(old(fields[..]), s, field)
        invariant s == Match || old(firstProblem) != FIELD_COUNT ==>
                    firstProblem == old(firstProblem) && location == old(location)
        invariant s != Match && old(firstProblem) == FIELD_COUNT ==> FoundOpen(old(fields[..]), old(location), field)
      {
        if fields[field] == NotEvaluated {
          RecordField(field, s, NO_LOCATION);
        }
      }
      FullCounts(fields[..]);
    }

    /** The first problem is the first field that was open below `n`, without coordinates. */
    ghost predicate FoundOpen(before: seq<FieldStatus>, where: Location, n: nat)
      requires n <= |before| == FIELD_COUNT
      reads `firstProblem, `location
    {
      && (forall k :: 0 <= k < n && before[k] == NotEvaluated ==> firstProblem <= k)
      && (firstProblem < n ==> before[firstProblem] == NotEvaluated && location == NO_LOCATION)
      && (firstProblem >= n ==> firstProblem == FIELD_COUNT && location == where)
    }

    method RecordNext(field: nat, entry: Entry, ghost all: seq<FieldStatus>)
      requires field < FIELD_COUNT == |all| && WrittenUpTo(field, all)
      requires all[field] == entry.status != NotEvaluated
      modifies fields, `evaluated, `matched, `firstProblem, `location
      ensures WrittenUpTo(field + 1, all)
      ensures old(firstProblem) < FIELD_COUNT ==> firstProblem == old(firstProblem) && location == old(location)
      ensures old(firstProblem) == FIELD_COUNT && entry.status != Match ==>
          firstProblem == field && location == entry.location
      ensures old(firstProblem) == FIELD_COUNT && entry.status == Match ==>
          firstProblem == FIELD_COUNT && location == old(location)
    {
      RecordField(field, entry.status, entry.location);
    }

    ghost predicate IsFresh()
      reads this, fields
    {
      && Valid() && status == InvalidArgument && firstProblem == FIELD_COUNT && location == NO_LOCATION
      && (forall k :: 0 <= k < FIELD_COUNT ==> fields[k] == NotEvaluated)
      && expectedArtifacts == actualArtifacts == matchedArtifacts == 0 && !identityCertified && !artifactsExact
    }

    /** What holds of the report once both objects are given, on every path. */
    ghost predicate Certifies(e: ShaderObject, a: ShaderObject, r: Resolver)
      reads this, fields
    {
      && Valid()
      && evaluated == FIELD_COUNT
      && fields[..] == ReportedFields(e, a, r)
      && status == ReportedStatus(e, a, r)
      && IsFirstProblem(fields[..], firstProblem)
      && location == ReportedLocation(e, a, r, firstProblem)
      && (identityCertified <==> forall k :: 0 <= k < FIELD_COUNT ==> fields[k] == Match)
      && (artifactsExact <==> fields[COMPILED_ARTIFACTS] == Match)
      && (artifactsExact ==> expectedArtifacts == actualArtifacts == matchedArtifacts)
      && (if Comparable(e, a) then CountsAre(Artifacts(e, a))
          else expectedArtifacts == actualArtifacts == matchedArtifacts == 0)
    }

    /** release_shader_object_certify_equal, on a freshly initialised report. */
    method CertifyEqual(expected: Option<ShaderObject>, actual: Option<ShaderObject>, r: Resolver)
      requires IsFresh()
      requires expected.Some? ==> PlatformCountFits(expected.value)
      modifies this, fields
      ensures Valid()
      ensures expected.None? || actual.None? ==> IsFresh()
      ensures expected.Some? && actual.Some? ==> Certifies(expected.value, actual.value, r)
    {
      hide EntryOf, Statuses, PlatformCountFits, WrittenUpTo, Artifacts, FindChild;
      if expected.None? || actual.None? { return; }
      var e, a := expected.value, actual.value;
      if !e.decoded || !a.decoded {
        status := InputNotDecoded;
        FillOpen(AuthorityUnavailable);
        return;
      }
      if !e.schemaValid || !a.schemaValid {
        StopAt(AuthorityInvalid, AuthorityUnavailable);
        status := SchemaAuthorityInvalid;
        return;
      }
      if e.profile != a.profile || e.fileVersion != a.fileVersion || e.targetPlatform != a.targetPlatform {
        StopAt(Mismatch, AuthorityUnavailable);
        status := ObjectsDiffer;
        return;
      }
      var ep, ap := FindChild(e.root, "m_ParsedForm"), FindChild(a.root, "m_ParsedForm");
      if ep.None? || ap.None? {
        StopAt(Match, AuthorityInvalid);
        status := SchemaAuthorityInvalid;
        return;
      }
      CertifyFields(e, a, ep.value, ap.value, r);
    }

    /** The early paths: field 0 is recorded, fill_remaining_fields settles the others. */
    method StopAt(first: FieldStatus, rest: FieldStatus)
      requires Valid() && firstProblem == FIELD_COUNT && location == NO_LOCATION
      requires first != NotEvaluated && IsProblem(rest)
      requires forall k :: 0 <= k < FIELD_COUNT ==> fields[k] == NotEvaluated
      modifies fields, `evaluated, `matched, `firstProblem, `location
      ensures Valid() && evaluated == FIELD_COUNT && fields[..] == Stopped(first, rest)
      ensures IsFirstProblem(fields[..], firstProblem) && location == NO_LOCATION
    {
      RecordField(SCHEMA_PROFILE, first, NO_LOCATION);
      FillRemaining(rest);
      assert fields[..] == Stopped(first, rest);
    }

    /** The path of undecoded inputs: nothing is recorded before fill_remaining_fields. */
    method FillOpen(s: FieldStatus)
      requires Valid() && firstProblem == FIELD_COUNT && location == NO_LOCATION && IsProblem(s)
      requires forall k :: 0 <= k < FIELD_COUNT ==> fields[k] == NotEvaluated
      modifies fields, `evaluated, `matched, `firstProblem, `location
      ensures Valid() && evaluated == FIELD_COUNT && fields[..] == Stopped(s, s)
      ensures IsFirstProblem(fields[..], firstProblem) && location == NO_LOCATION
    {
      assert fields[..][SCHEMA_PROFILE] == NotEvaluated;
      FillRemaining(s);
      assert fields[..] == Stopped(s, s);
    }

    lemma FreshIsRecorded(e: ShaderObject, a: ShaderObject, ep: Value, ap: Value, r: Resolver)
      requires IsFresh()
      ensures Recorded(0, e, a, ep, ap, r)
    {
    }

    lemma AllRecorded(e: ShaderObject, a: ShaderObject, ep: Value, ap: Value, r: Resolver)
      requires Recorded(FIELD_COUNT, e, a, ep, ap, r)
      ensures var all := Statuses(e, a, ep, ap, r);
              && |all| == FIELD_COUNT && WrittenUpTo(FIELD_COUNT, all)
              && (forall k :: 0 <= k < FIELD_COUNT ==> all[k] != NotEvaluated)
              && all[COMPILED_ARTIFACTS] == EntryOf(COMPILED_ARTIFACTS, e, a, ep, ap, r).status
      ensures location
           == if firstProblem < FIELD_COUNT then EntryOf(firstProblem, e, a, ep, ap, r).location else NO_LOCATION
    {
      hide EntryOf;
    }

    /** The fully evaluated path. */
    method CertifyFields(e: ShaderObject, a: ShaderObject, ep: Value, ap: Value, r: Resolver)
      requires IsFresh() && PlatformCountFits(e)
      modifies this, fields
      ensures Valid() && evaluated == FIELD_COUNT && fields[..] == Statuses(e, a, ep, ap, r)
      ensures status == WorstSeverity(fields[..])
      ensures IsFirstProblem(fields[..], firstProblem)
      ensures location == if firstProblem < FIELD_COUNT then EntryOf(firstProblem, e, a, ep, ap, r).location
          else NO_LOCATION
      ensures identityCertified <==> forall k :: 0 <= k < FIELD_COUNT ==> fields[k] == Match
      ensures artifactsExact <==> fields[COMPILED_ARTIFACTS] == Match
      ensures artifactsExact ==> expectedArtifacts == actualArtifacts == matchedArtifacts
      ensures CountsAre(Artifacts(e, a))
    {
      hide EntryOf, PlatformCountFits, Artifacts, WrittenUpTo, CountMatched, CountEvaluated, WorstSeverity,
           IsFirstProblem, Recorded, Statuses;
      FreshIsRecorded(e, a, ep, ap, r);
      RecordParsedForm(e, a, ep, ap, r);
      RecordObjectFields(e, a, ep, ap, r);
      AllRecorded(e, a, ep, ap, r);
      Conclude(Statuses(e, a, ep, ap, r));
      CompiledArtifactsEntry(e, a, ep, ap, r);
    }

    /** The closing part: the worst severity decides the status, the counters the certificate. */
    method Conclude(ghost all: seq<FieldStatus>)
      requires |all| == FIELD_COUNT && WrittenUpTo(FIELD_COUNT, all)
      requires forall k :: 0 <= k < FIELD_COUNT ==> all[k] != NotEvaluated
      modifies `status, `artifactsExact, `identityCertified
      ensures Valid() && fields[..] == all && evaluated == FIELD_COUNT
      ensures IsFirstProblem(fields[..], firstProblem)
      ensures status == WorstSeverity(fields[..])
      ensures identityCertified <==> forall k :: 0 <= k < FIELD_COUNT ==> fields[k] == Match
      ensures artifactsExact <==> fields[COMPILED_ARTIFACTS] == Match
    {
      Finished(all);
      hide WorstSeverity, IsFirstProblem, WrittenUpTo, CountMatched, CountEvaluated;
      OkMeansAllMatch(fields[..]);
      status := Severity();
      artifactsExact := fields[COMPILED_ARTIFACTS] == Match;
      identityCertified := status == CertificateOk && evaluated == FIELD_COUNT && matched == FIELD_COUNT;
    }

    /** One recording of the fully evaluated path. */
    method RecordEntry(field: nat, entry: Entry, ghost e: ShaderObject, ghost a: ShaderObject, ghost ep: Value,
                       ghost ap: Value, ghost r: Resolver)
      requires field < FIELD_COUNT && Recorded(field, e, a, ep, ap, r)
      requires entry == EntryOf(field, e, a, ep, ap, r)
      modifies fields, `evaluated, `matched, `firstProblem, `location
      ensures Recorded(field + 1, e, a, ep, ap, r)
    {
      hide EntryOf;
      EntriesAreEvaluated(field, e, a, ep, ap, r);
      RecordNext(field, entry, Statuses(e, a, ep, ap, r));
    }

    /** The first `n` fields hold their verdicts, and the first problem its coordinates. */
    ghost predicate Recorded(n: nat, e: ShaderObject, a: ShaderObject, ep: Value, ap: Value, r: Resolver)
      requires n <= FIELD_COUNT
      reads fields, `evaluated, `matched, `firstProblem, `location, `sourceCertified, `visualCertified
    {
      && WrittenUpTo(n, Statuses(e, a, ep, ap, r))
      && (forall k :: 0 <= k < n ==> EntryOf(k, e, a, ep, ap, r).status != NotEvaluated)
      && location == if firstProblem < FIELD_COUNT then EntryOf(firstProblem, e, a, ep, ap, r).location else NO_LOCATION
    }

    /** The recordings of the fully evaluated path, in field order. */
    method RecordParsedForm(e: ShaderObject, a: ShaderObject, ep: Value, ap: Value, ghost r: Resolver)
      requires Recorded(0, e, a, ep, ap, r)
      modifies fields, `evaluated, `matched, `firstProblem, `location
      ensures Recorded(OBJECT_DEPENDENCIES, e, a, ep, ap, r)
    {
      RecordNamedFields(e, a, ep, ap, r);
      RecordSequences(e, a, ep, ap, r);
    }

    method RecordNamedFields(e: ShaderObject, a: ShaderObject, ep: Value, ap: Value, ghost r: Resolver)
      requires Recorded(0, e, a, ep, ap, r)
      modifies fields, `evaluated, `matched, `firstProblem, `location
      ensures Recorded(SUBSHADER_TOPOLOGY, e, a, ep, ap, r)
    {
      ParsedEntries(e, a, ep, ap, r);
      hide Recorded, EntryOf, NamedVerdict, NamedListVerdict, IdentityVerdict, TopologyVerdict, SequencesVerdict,
           ValueVerdict, FromLocated, KindOfField;
      RecordEntry(SCHEMA_PROFILE, Entry(Match, NO_LOCATION), e, a, ep, ap, r);
      RecordIdentity(e, a, ep, ap, r);
      RecordNamed(PROPERTIES, "m_PropInfo", e, a, ep, ap, r);
      RecordKeywords(e, a, ep, ap, r);
      RecordNamed(PARSED_DEPENDENCIES, "m_Dependencies", e, a, ep, ap, r);
      RecordNamed(CUSTOM_EDITORS, "m_CustomEditorForRenderPipelines", e, a, ep, ap, r);
    }

    method RecordIdentity(e: ShaderObject, a: ShaderObject, ep: Value, ap: Value, ghost r: Resolver)
      requires Recorded(SHADER_IDENTITY, e, a, ep, ap, r)
      modifies fields, `evaluated, `matched, `firstProblem, `location
      ensures Recorded(SHADER_IDENTITY + 1, e, a, ep, ap, r)
    {
      ParsedEntries(e, a, ep, ap, r);
      hide Recorded, EntryOf, NamedVerdict, NamedListVerdict, IdentityVerdict, FromLocated;
      var verdict := CompareIdentity(e.root, a.root, ep, ap);
      RecordValue(SHADER_IDENTITY, Located(verdict, NO_LOCATION), e, a, ep, ap, r);
    }

    method RecordKeywords(e: ShaderObject, a: ShaderObject, ep: Value, ap: Value, ghost r: Resolver)
      requires Recorded(KEYWORDS, e, a, ep, ap, r)
      modifies fields, `evaluated, `matched, `firstProblem, `location
      ensures Recorded(KEYWORDS + 1, e, a, ep, ap, r)
    {
      ParsedEntries(e, a, ep, ap, r);
      hide Recorded, EntryOf, NamedVerdict, NamedListVerdict, IdentityVerdict, FromLocated;
      var names := ["m_KeywordNames", "m_KeywordFlags"];
      assert names == KeywordFields();
      var verdict := CompareNamedList(ep, ap, names);
      RecordValue(KEYWORDS, Located(verdict, NO_LOCATION), e, a, ep, ap, r);
    }

    method RecordNamed(field: nat, name: string, ghost e: ShaderObject, ghost a: ShaderObject, ep: Value, ap: Value,
                       ghost r: Resolver)
      requires field < FIELD_COUNT && Recorded(field, e, a, ep, ap, r)
      requires EntryOf(field, e, a, ep, ap, r) == Unlocated(NamedVerdict(ep, ap, name))
      modifies fields, `evaluated, `matched, `firstProblem, `location
      ensures Recorded(field + 1, e, a, ep, ap, r)
    {
      hide Recorded, EntryOf, NamedVerdict, FromLocated;
      var verdict := CompareNamed(ep, ap, name);
      RecordValue(field, Located(verdict, NO_LOCATION), e, a, ep, ap, r);
    }

    method RecordSequence(field: nat, kind: SequenceKind, ghost e: ShaderObject, ghost a: ShaderObject, ep: Value,
                          ap: Value, ghost r: Resolver)
      requires field < FIELD_COUNT && Recorded(field, e, a, ep, ap, r)
      requires EntryOf(field, e, a, ep, ap, r) == FromLocated(SequencesVerdict(ep, ap, kind))
      modifies fields, `evaluated, `matched, `firstProblem, `location
      ensures Recorded(field + 1, e, a, ep, ap, r)
    {
      hide Recorded, EntryOf, SequencesVerdict, FromLocated;
      var found := CompareSequences(ep, ap, kind);
      RecordValue(field, found, e, a, ep, ap, r);
    }

    method RecordSequences(e: ShaderObject, a: ShaderObject, ep: Value, ap: Value, ghost r: Resolver)
      requires Recorded(SUBSHADER_TOPOLOGY, e, a, ep, ap, r)
      modifies fields, `evaluated, `matched, `firstProblem, `location
      ensures Recorded(OBJECT_DEPENDENCIES, e, a, ep, ap, r)
    {
      ParsedEntries(e, a, ep, ap, r);
      hide Recorded, EntryOf, NamedVerdict, NamedListVerdict, IdentityVerdict, TopologyVerdict, SequencesVerdict,
           ValueVerdict, FromLocated;
      RecordTopology(e, a, ep, ap, r);
      RecordSequence(SUBSHADER_METADATA, SubshaderMetadata, e, a, ep, ap, r);
      RecordSequence(PASS_IDENTITY, PassIdentity, e, a, ep, ap, r);
      RecordSequence(PASS_TAGS, PassTags, e, a, ep, ap, r);
      RecordSequence(RENDER_STATE, RenderState, e, a, ep, ap, r);
      RecordSequence(PROGRAM_VARIANTS, ProgramVariants, e, a, ep, ap, r);
      RecordSequence(PARAMETER_BINDINGS, Parameters, e, a, ep, ap, r);
      var residual := CompareValues(ep, ap);
      RecordValue(PARSED_FORM_RESIDUAL, Located(residual, NO_LOCATION), e, a, ep, ap, r);
    }

    method RecordTopology(e: ShaderObject, a: ShaderObject, ep: Value, ap: Value, ghost r: Resolver)
      requires Recorded(SUBSHADER_TOPOLOGY, e, a, ep, ap, r)
      modifies fields, `evaluated, `matched, `firstProblem, `location
      ensures Recorded(SUBSHADER_TOPOLOGY + 1, e, a, ep, ap, r)
    {
      ParsedEntries(e, a, ep, ap, r);
      hide Recorded, EntryOf, TopologyVerdict, FromLocated;
      var found := CompareTopology(ep, ap);
      RecordValue(SUBSHADER_TOPOLOGY, found, e, a, ep, ap, r);
    }

    /** record_value_field. */
    method RecordValue(field: nat, l: Located, ghost e: ShaderObject, ghost a: ShaderObject, ghost ep: Value,
                       ghost ap: Value, ghost r: Resolver)
      requires field < FIELD_COUNT && Recorded(field, e, a, ep, ap, r)
      requires FromLocated(l) == EntryOf(field, e, a, ep, ap, r)
      modifies fields, `evaluated, `matched, `firstProblem, `location
      ensures Recorded(field + 1, e, a, ep, ap, r)
    {
      hide EntryOf, Recorded;
      var s := match l.verdict {
        case Equal => Match
        case Different => Mismatch
        case Unavailable => AuthorityUnavailable
        case Invalid => AuthorityInvalid
      };
      RecordEntry(field, Entry(s, l.location), e, a, ep, ap, r);
    }

    method RecordObjectFields(e: ShaderObject, a: ShaderObject, ghost ep: Value, ghost ap: Value, r: Resolver)
      requires Recorded(OBJECT_DEPENDENCIES, e, a, ep, ap, r)
      requires PlatformCountFits(e)
      modifies fields, `evaluated, `matched, `firstProblem, `location,
               `expectedArtifacts, `actualArtifacts, `matchedArtifacts
      ensures Recorded(FIELD_COUNT, e, a, ep, ap, r)
      ensures CountsAre(Artifacts(e, a))
    {
      hide Recorded, PlatformCountFits, Artifacts, CountsAre;
      RecordReferences(e, a, ep, ap, r);
      RecordArtifacts(e, a, ep, ap, r);
    }

    /** The three totals are those of the walk over the platforms. */
    ghost predicate CountsAre(artifacts: ArtifactResult)
      reads `expectedArtifacts, `actualArtifacts, `matchedArtifacts
    {
      && expectedArtifacts == artifacts.expected
      && actualArtifacts == artifacts.actual
      && matchedArtifacts == artifacts.matched
    }

    method RecordReferences(e: ShaderObject, a: ShaderObject, ghost ep: Value, ghost ap: Value, r: Resolver)
      requires Recorded(OBJECT_DEPENDENCIES, e, a, ep, ap, r)
      modifies fields, `evaluated, `matched, `firstProblem, `location
      ensures Recorded(COMPILED_ARTIFACTS, e, a, ep, ap, r)
    {
      hide Recorded, EntryOf, Dependencies, Textures, BakedStatus, PlatformSets, FromFound, FromPlatforms;
      RecordPointers(e, a, ep, ap, r);
      RecordFlagAndPlatforms(e, a, ep, ap, r);
    }

    method RecordPointers(e: ShaderObject, a: ShaderObject, ghost ep: Value, ghost ap: Value, r: Resolver)
      requires Recorded(OBJECT_DEPENDENCIES, e, a, ep, ap, r)
      modifies fields, `evaluated, `matched, `firstProblem, `location
      ensures Recorded(SHADER_IS_BAKED, e, a, ep, ap, r)
    {
      hide Recorded, EntryOf, Dependencies, Textures, BakedStatus, PlatformSets, FromFound, FromPlatforms;
      ReferenceEntries(e, a, ep, ap, r);
      var entry := CheckDependencies(e, a, r);
      RecordEntry(OBJECT_DEPENDENCIES, entry, e, a, ep, ap, r);
      entry := CheckTextures(e, a, r);
      RecordEntry(TEXTURES, entry, e, a, ep, ap, r);
    }

    method RecordFlagAndPlatforms(e: ShaderObject, a: ShaderObject, ghost ep: Value, ghost ap: Value, ghost r: Resolver)
      requires Recorded(SHADER_IS_BAKED, e, a, ep, ap, r)
      modifies fields, `evaluated, `matched, `firstProblem, `location
      ensures Recorded(COMPILED_ARTIFACTS, e, a, ep, ap, r)
    {
      hide Recorded, EntryOf, Dependencies, Textures, BakedStatus, PlatformSets, FromFound, FromPlatforms;
      ReferenceEntries(e, a, ep, ap, r);
      var baked := CompareBakedFlag(e, a);
      RecordEntry(SHADER_IS_BAKED, Entry(baked, NO_LOCATION), e, a, ep, ap, r);
      var entry := CheckPlatforms(e, a);
      RecordEntry(PLATFORM_ARCHIVES, entry, e, a, ep, ap, r);
    }

    method RecordArtifacts(e: ShaderObject, a: ShaderObject, ghost ep: Value, ghost ap: Value, ghost r: Resolver)
      requires Recorded(COMPILED_ARTIFACTS, e, a, ep, ap, r)
      requires PlatformCountFits(e)
      modifies fields, `evaluated, `matched, `firstProblem, `location,
               `expectedArtifacts, `actualArtifacts, `matchedArtifacts
      ensures Recorded(FIELD_COUNT, e, a, ep, ap, r)
      ensures CountsAre(Artifacts(e, a))
    {
      hide Recorded, EntryOf, Artifacts, PlatformCountFits;
      ArtifactsEntry(e, a, ep, ap, r);
      var artifacts := WalkArtifacts(e, a);
      expectedArtifacts, actualArtifacts, matchedArtifacts := artifacts.expected, artifacts.actual, artifacts.matched;
      var where := Location(-1, -1, -1, -1, artifacts.platform, artifacts.entry, artifacts.byte);
      RecordEntry(COMPILED_ARTIFACTS, Entry(artifacts.status, where), e, a, ep, ap, r);
    }

    /** The closing loop over the fields. */
    method Severity() returns (s: CertificateStatus)
      requires Valid()
      ensures s == WorstSeverity(fields[..])
    {
      var hasInvalid, hasUnavailable, hasMismatch := false, false, false;
      for field := 0 to FIELD_COUNT
        invariant hasInvalid <==> AuthorityInvalid in fields[..field]
        invariant hasUnavailable <==> AuthorityUnavailable in fields[..field]
        invariant hasMismatch <==> Mismatch in fields[..field]
      {
        assert fields[..field + 1] == fields[..field] + [fields[field]];
        match fields[field] {
          case AuthorityInvalid => hasInvalid := true;
          case AuthorityUnavailable => hasUnavailable := true;
          case Mismatch => hasMismatch := true;
          case _ =>
        }
      }
      assert fields[..FIELD_COUNT] == fields[..];
      s := if hasInvalid then CertificateAuthorityInvalid
           else if hasUnavailable then CertificateAuthorityUnavailable
           else if hasMismatch then ObjectsDiffer else CertificateOk;
    }

    lemma Finished(all: seq<FieldStatus>)
      requires |all| == FIELD_COUNT && WrittenUpTo(FIELD_COUNT, all)
      requires forall k :: 0 <= k < FIELD_COUNT ==> all[k] != NotEvaluated
      ensures Valid() && fields[..] == all && evaluated == FIELD_COUNT && IsFirstProblem(fields[..], firstProblem)
      ensures matched == FIELD_COUNT <==> forall k :: 0 <= k < FIELD_COUNT ==> fields[k] == Match
    {
      assert fields[..] == all;
      FullCounts(fields[..]);
    }
  }

  lemma CompiledArtifactsEntry(e: ShaderObject, a: ShaderObject, ep: Value, ap: Value, r: Resolver)
    ensures EntryOf(COMPILED_ARTIFACTS, e, a, ep, ap, r).status == Artifacts(e, a).status
    ensures var artifacts := Artifacts(e, a);
            artifacts.status == Match ==> artifacts.expected == artifacts.actual == artifacts.matched
  {
    hide Artifacts;
    ArtifactsEntry(e, a, ep, ap, r);
    if Artifacts(e, a).status == Match {
      ArtifactCountsAgree(e, a);
    }
  }

  lemma ArtifactCountsAgree(e: ShaderObject, a: ShaderObject)
    requires Artifacts(e, a).status == Match
    ensures var r := Artifacts(e, a); r.expected == r.actual == r.matched
  {
    ArtifactsDecideObjects(Platforms(e).value, Platforms(a).value, e.open, a.open);
  }

  /** No category reports a mismatch while the backstop field matches. */
  lemma NoMismatchUnderBackstop(e: ShaderObject, a: ShaderObject, ep: Value, ap: Value, r: Resolver, field: nat)
    requires ValueVerdict(ep, ap) == Equal && PROPERTIES <= field <= PARSED_FORM_RESIDUAL
    ensures EntryOf(field, e, a, ep, ap, r).status != Mismatch
    ensures SchemaShaped(ep) && SchemaShaped(ap) ==>
              EntryOf(field, e, a, ep, ap, r).status in
                (if field == PROGRAM_VARIANTS && !HasNoEditorPrograms(ep) then {Match, AuthorityUnavailable}
                 else {Match})
  {
    ParsedEntries(e, a, ep, ap, r);
    if SUBSHADER_METADATA <= field <= PARAMETER_BINDINGS {
      SequenceUnderBackstop(field, e, a, ep, ap, r);
    } else if field == SUBSHADER_TOPOLOGY {
      TopologyUnderBackstop(e, a, ep, ap, r);
    } else {
      NamedUnderBackstop(field, e, a, ep, ap, r);
    }
  }

  lemma SequenceUnderBackstop(field: nat, e: ShaderObject, a: ShaderObject, ep: Value, ap: Value, r: Resolver)
    requires ValueVerdict(ep, ap) == Equal && SUBSHADER_METADATA <= field <= PARAMETER_BINDINGS
    ensures EntryOf(field, e, a, ep, ap, r).status != Mismatch
    ensures SchemaShaped(ep) && SchemaShaped(ap) ==>
              EntryOf(field, e, a, ep, ap, r).status in
                (if field == PROGRAM_VARIANTS && !HasNoEditorPrograms(ep) then {Match, AuthorityUnavailable}
                 else {Match})
  {
    ParsedEntries(e, a, ep, ap, r);
    hide EntryOf, ValueVerdict, SequencesVerdict, TopologyVerdict, SchemaShaped, HasNoEditorPrograms;
    BackstopSubsumesSequences(ep, ap, KindOfField(field));
  }

  lemma TopologyUnderBackstop(e: ShaderObject, a: ShaderObject, ep: Value, ap: Value, r: Resolver)
    requires ValueVerdict(ep, ap) == Equal
    ensures EntryOf(SUBSHADER_TOPOLOGY, e, a, ep, ap, r).status != Mismatch
    ensures SchemaShaped(ep) && SchemaShaped(ap) ==> EntryOf(SUBSHADER_TOPOLOGY, e, a, ep, ap, r).status == Match
  {
    ParsedEntries(e, a, ep, ap, r);
    hide EntryOf, ValueVerdict, SequencesVerdict, TopologyVerdict, SchemaShaped, HasNoEditorPrograms, Consistent;
    BackstopSubsumesSequences(ep, ap, Parameters);
  }

  lemma NamedUnderBackstop(field: nat, e: ShaderObject, a: ShaderObject, ep: Value, ap: Value, r: Resolver)
    requires ValueVerdict(ep, ap) == Equal && (PROPERTIES <= field <= CUSTOM_EDITORS || field == PARSED_FORM_RESIDUAL)
    ensures EntryOf(field, e, a, ep, ap, r).status != Mismatch
    ensures SchemaShaped(ep) && SchemaShaped(ap) ==> EntryOf(field, e, a, ep, ap, r).status == Match
  {
    ParsedEntries(e, a, ep, ap, r);
    hide EntryOf, ValueVerdict, NamedVerdict, NamedListVerdict, SubshaderShaped, RequiredArray;
    BackstopSubsumesFields(ep, ap);
    var three := ["m_PropInfo", "m_Dependencies", "m_CustomEditorForRenderPipelines"];
    assert SchemaShaped(ep) ==>
        FindChild(ep, three[0]).Some? && FindChild(ep, three[1]).Some? && FindChild(ep, three[2]).Some?;
  }
}
