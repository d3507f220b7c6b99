/** What a certificate of identity says of two shader objects, in terms of the objects alone. */
module ReleaseIdentity {
  import opened Basics
  import opened TypeTree
  import opened CanonicalCompare
  import opened FieldCompare
  import opened References
  import opened Archives
  import opened CertificateReport

  // ---------- When a category matches ----------

  /** Both sides have a child of that name, and the two compare as EQUAL. */
  ghost predicate SameChild(e: Value, a: Value, name: string) {
    var x, y := FindChild(e, name), FindChild(a, name);
    x.Some? && y.Some? && ValueVerdict(x.value, y.value) == Equal
  }

  ghost predicate SameChildren(e: Value, a: Value, names: seq<string>) {
    forall i :: 0 <= i < |names| ==> SameChild(e, a, names[i])
  }

  /** Both sides keep the array of that name by element, with as many elements. */
  ghost predicate SameCount(e: Value, a: Value, name: string) {
    var x, y := RequiredArray(Some(e), name), RequiredArray(Some(a), name);
    x.Some? && y.Some? && x.value.ArrayValue? && y.value.ArrayValue? && |x.value.elements| == |y.value.elements|
  }

  /** The elements of the array of that name, when it is kept by element. */
  ghost function Elements(v: Value, name: string): seq<Value> {
    var x := RequiredArray(Some(v), name);
    if x.Some? && x.value.ArrayValue? then x.value.elements else []
  }

  ghost predicate IsEmptyArray(v: Value, name: string) {
    var x := RequiredArray(Some(v), name);
    x.Some? && (x.value == ArrayValue(x.value.header, []) || x.value == PackedValue(x.value.header, []))
  }

  ghost predicate SameProgram(e: Value, a: Value, kind: SequenceKind) {
    if kind == ProgramVariants then
      && IsEmptyArray(e, "m_SubPrograms") && IsEmptyArray(a, "m_SubPrograms")
      && SameChild(e, a, "m_PlayerSubPrograms") && SameChild(e, a, "m_ParameterBlobIndices")
    else SameChild(e, a, "m_CommonParameters")
  }

  ghost predicate SameStage(e: Value, a: Value, kind: SequenceKind, stage: string) {
    var x, y := FindChild(e, stage), FindChild(a, stage);
    x.Some? && y.Some? && SameProgram(x.value, y.value, kind)
  }

  ghost predicate SamePass(e: Value, a: Value, kind: SequenceKind) {
    match kind
    case PassIdentity =>
      && SameChildren(e, a, ["m_EditorDataHash", "m_Platforms", "m_NameIndices", "m_Type", "m_ProgramMask"])
      && SameChildren(e, a, ["m_HasInstancingVariant", "m_HasProceduralInstancingVariant", "m_UseName"])
      && SameChildren(e, a, ["m_Name", "m_TextureName", "m_SerializedKeywordStateMask"])
    case PassTags => SameChild(e, a, "m_Tags")
    case RenderState => SameChild(e, a, "m_State")
    case SubshaderMetadata => false
    case _ =>
      && SameStage(e, a, kind, "progVertex") && SameStage(e, a, kind, "progFragment")
      && SameStage(e, a, kind, "progGeometry") && SameStage(e, a, kind, "progHull")
      && SameStage(e, a, kind, "progDomain") && SameStage(e, a, kind, "progRayTracing")
  }

  ghost predicate SameSubshader(e: Value, a: Value, kind: SequenceKind) {
    if kind == SubshaderMetadata then SameChild(e, a, "m_Tags") && SameChild(e, a, "m_LOD")
    else
      var es, acts := Elements(e, "m_Passes"), Elements(a, "m_Passes");
      SameCount(e, a, "m_Passes") && forall i :: 0 <= i < |es| == |acts| ==> SamePass(es[i], acts[i], kind)
  }

  /** Every subshader, and in it every pass, has the same of what the category reads. */
  ghost predicate SameSequences(e: Value, a: Value, kind: SequenceKind) {
    var es, acts := Elements(e, "m_SubShaders"), Elements(a, "m_SubShaders");
    SameCount(e, a, "m_SubShaders") && forall i :: 0 <= i < |es| == |acts| ==> SameSubshader(es[i], acts[i], kind)
  }

  lemma NamedMeaning(e: Value, a: Value, name: string)
    ensures NamedVerdict(e, a, name) == Equal <==> SameChild(e, a, name)
  {
    hide ValueVerdict, FindChild;
  }

  lemma {:induction false} NamedListMeaning(e: Value, a: Value, names: seq<string>)
    ensures NamedListVerdict(e, a, names) == Equal <==> SameChildren(e, a, names)
  {
    hide NamedVerdict, SameChild;
    if names != [] {
      var init, last := names[..|names| - 1], names[|names| - 1];
      NamedListMeaning(e, a, init);
      NamedMeaning(e, a, last);
      assert names == init + [last];
    }
  }

  lemma SameChildrenJoin(e: Value, a: Value, names: seq<string>, more: seq<string>)
    ensures SameChildren(e, a, names + more) <==> SameChildren(e, a, names) && SameChildren(e, a, more)
  {
    hide SameChild;
    if SameChildren(e, a, names + more) {
      forall i | 0 <= i < |names|
        ensures SameChild(e, a, names[i])
      {
        assert (names + more)[i] == names[i];
      }
      forall i | 0 <= i < |more|
        ensures SameChild(e, a, more[i])
      {
        assert (names + more)[|names| + i] == more[i];
      }
    }
  }

  lemma PassIdentityMeaning(e: Value, a: Value)
    ensures PassVerdict(e, a, PassIdentity).verdict == Equal <==> SamePass(e, a, PassIdentity)
  {
    hide NamedListVerdict, SameChildren, SameChild;
    var x := ["m_EditorDataHash", "m_Platforms", "m_NameIndices", "m_Type", "m_ProgramMask"];
    var y := ["m_HasInstancingVariant", "m_HasProceduralInstancingVariant", "m_UseName"];
    var z := ["m_Name", "m_TextureName", "m_SerializedKeywordStateMask"];
    assert PassIdentityFields() == x + y + z;
    SameChildrenJoin(e, a, x, y);
    SameChildrenJoin(e, a, x + y, z);
    NamedListMeaning(e, a, PassIdentityFields());
  }

  lemma TwoNames(e: Value, a: Value, first: string, second: string)
    ensures NamedListVerdict(e, a, [first, second]) == Equal <==> SameChild(e, a, first) && SameChild(e, a, second)
  {
    hide NamedListVerdict, SameChild;
    var two := [first, second];
    NamedListMeaning(e, a, two);
    assert SameChildren(e, a, two) ==> SameChild(e, a, two[0]) && SameChild(e, a, two[1]);
  }

  lemma ProgramMeaning(e: Value, a: Value, kind: SequenceKind)
    ensures ProgramVerdict(e, a, kind) == Equal <==> SameProgram(e, a, kind)
  {
    hide NamedVerdict, NamedListVerdict, SameChild, FindChild;
    TwoNames(e, a, "m_PlayerSubPrograms", "m_ParameterBlobIndices");
    NamedMeaning(e, a, "m_CommonParameters");
  }

  lemma {:induction false} ProgramsMeaning(e: Value, a: Value, kind: SequenceKind, stage: nat)
    requires stage <= |ProgramNames()|
    ensures ProgramsFrom(e, a, kind, stage).verdict == Equal <==>
              forall k :: stage <= k < |ProgramNames()| ==> SameStage(e, a, kind, ProgramNames()[k])
    decreases |ProgramNames()| - stage
  {
    hide ProgramVerdict, SameProgram, FindChild;
    if stage < |ProgramNames()| {
      var x, y := FindChild(e, ProgramNames()[stage]), FindChild(a, ProgramNames()[stage]);
      if x.Some? && y.Some? {
        ProgramMeaning(x.value, y.value, kind);
      }
      ProgramsMeaning(e, a, kind, stage + 1);
    }
  }

  lemma StagesMeaning(e: Value, a: Value, kind: SequenceKind)
    requires kind == ProgramVariants || kind == Parameters
    ensures PassVerdict(e, a, kind).verdict == Equal <==> SamePass(e, a, kind)
  {
    hide ProgramsFrom, SameStage;
    ProgramsMeaning(e, a, kind, 0);
    SixStages(e, a, kind, "progVertex", "progFragment", "progGeometry", "progHull", "progDomain", "progRayTracing");
  }

  lemma SixStages(e: Value, a: Value, kind: SequenceKind, s0: string, s1: string, s2: string, s3: string, s4: string,
                  s5: string)
    requires ProgramNames() == [s0, s1, s2, s3, s4, s5]
    ensures (forall k :: 0 <= k < |ProgramNames()| ==> SameStage(e, a, kind, ProgramNames()[k])) <==>
              SameStage(e, a, kind, s0) && SameStage(e, a, kind, s1) && SameStage(e, a, kind, s2)
              && SameStage(e, a, kind, s3) && SameStage(e, a, kind, s4) && SameStage(e, a, kind, s5)
  {
    hide SameStage, ProgramNames;
    var names := ProgramNames();
    assert names[0] == s0 && names[1] == s1 && names[2] == s2 && names[3] == s3 && names[4] == s4 && names[5] == s5;
  }

  lemma PassMeaning(e: Value, a: Value, kind: SequenceKind)
    ensures PassVerdict(e, a, kind).verdict == Equal <==> SamePass(e, a, kind)
  {
    match kind {
      case PassIdentity => PassIdentityMeaning(e, a);
      case PassTags => NamedMeaning(e, a, "m_Tags");
      case RenderState => NamedMeaning(e, a, "m_State");
      case SubshaderMetadata =>
      case _ => StagesMeaning(e, a, kind);
    }
  }

  lemma {:induction false} PassesMeaning(es: seq<Value>, acts: seq<Value>, kind: SequenceKind, subshader: nat, i: nat)
    requires i <= |es| == |acts|
    ensures PassesFrom(es, acts, kind, subshader, i).verdict == Equal <==>
              forall k :: i <= k < |es| ==> SamePass(es[k], acts[k], kind)
    decreases |es| - i
  {
    hide PassVerdict, SamePass;
    if i < |es| {
      PassMeaning(es[i], acts[i], kind);
      PassesMeaning(es, acts, kind, subshader, i + 1);
    }
  }

  lemma SubshaderMeaning(e: Value, a: Value, kind: SequenceKind, i: nat)
    ensures SubshaderVerdict(e, a, kind, i).verdict == Equal <==> SameSubshader(e, a, kind)
  {
    hide RequiredArray, PassesFrom, NamedListVerdict, SamePass, SameChild;
    TwoNames(e, a, "m_Tags", "m_LOD");
    if SameCount(e, a, "m_Passes") {
      PassesMeaning(Elements(e, "m_Passes"), Elements(a, "m_Passes"), kind, i, 0);
    }
  }

  lemma {:induction false} SubshadersMeaning(es: seq<Value>, acts: seq<Value>, kind: SequenceKind, i: nat)
    requires i <= |es| == |acts|
    ensures SubshadersFrom(es, acts, kind, i).verdict == Equal <==>
              forall k :: i <= k < |es| ==> SameSubshader(es[k], acts[k], kind)
    decreases |es| - i
  {
    hide SubshaderVerdict, SameSubshader;
    if i < |es| {
      SubshaderMeaning(es[i], acts[i], kind, i);
      SubshadersMeaning(es, acts, kind, i + 1);
    }
  }

  /** A sequence category is EQUAL exactly when every subshader and pass has the same of what it reads. */
  lemma SequencesMeaning(e: Value, a: Value, kind: SequenceKind)
    ensures SequencesVerdict(e, a, kind).verdict == Equal <==> SameSequences(e, a, kind)
  {
    hide RequiredArray, SubshadersFrom, SameSubshader;
    if SameCount(e, a, "m_SubShaders") {
      SubshadersMeaning(Elements(e, "m_SubShaders"), Elements(a, "m_SubShaders"), kind, 0);
    }
  }

  // ---------- What a certificate of identity says ----------

  /** One list of pointers on each side, naming one object position by position. */
  ghost predicate SameDependencies(e: ShaderObject, a: ShaderObject, r: Resolver) {
    && SameCount(e.root, a.root, "m_Dependencies")
    && var es, acts := Elements(e.root, "m_Dependencies"), Elements(a.root, "m_Dependencies");
       forall i :: 0 <= i < |es| == |acts| ==> PointToSame(es[i], acts[i], r)
  }

  /** Both hold a pointer, and the two name one object. */
  ghost predicate PointToSame(e: Value, a: Value, r: Resolver) {
    exists x, y :: HoldsPointer(e, x) && HoldsPointer(a, y) && SameObject(x, y, r)
  }

  /** One table of textures on each side, with the same keys and one object under each. */
  ghost predicate SameTextures(e: ShaderObject, a: ShaderObject, r: Resolver) {
    var es := TextureTable(RequiredArray(Some(e.root), "m_NonModifiableTextures"));
    var acts := TextureTable(RequiredArray(Some(a.root), "m_NonModifiableTextures"));
    es.Some? && acts.Some? && TablesAgree(MapOf(es.value), MapOf(acts.value), r)
  }

  ghost predicate SameFlag(e: ShaderObject, a: ShaderObject) {
    var x, y := FindChild(e.root, "m_ShaderIsBaked"), FindChild(a.root, "m_ShaderIsBaked");
    && x.Some? && y.Some?
    && ((HasNumber(x.value, 0) && HasNumber(y.value, 0)) || (HasNumber(x.value, 1) && HasNumber(y.value, 1)))
  }

  /** The same platforms, and for each of them archives of one stage count with the same payloads. */
  ghost predicate SameArchives(e: ShaderObject, a: ShaderObject) {
    var es := PlatformsOf(RequiredArray(Some(e.root), "platforms"));
    var acts := PlatformsOf(RequiredArray(Some(a.root), "platforms"));
    && es.Some? && acts.Some? && (set p | p in es.value) == (set p | p in acts.value)
    && forall p :: p in es.value ==> SameStored(e.open(p), a.open(p))
  }

  ghost predicate SameStored(x: Option<Archive>, y: Option<Archive>) {
    && x.Some? && y.Some? && x.value.stageCount == y.value.stageCount
    && exists payloads :: HoldsPayloads(x.value, payloads) && HoldsPayloads(y.value, payloads)
  }

  /** Both m_ParsedForm trees are EQUAL as wholes, have every field the categories read and record no
      editor programs. */
  ghost predicate SameParsedForm(ep: Value, ap: Value) {
    && ValueVerdict(ep, ap) == Equal && SchemaShaped(ep) && SchemaShaped(ap) && HasNoEditorPrograms(ep)
  }

  ghost predicate SameRelease(e: ShaderObject, a: ShaderObject, r: Resolver) {
    && e.decoded && a.decoded && e.schemaValid && a.schemaValid
    && e.profile == a.profile && e.fileVersion == a.fileVersion && e.targetPlatform == a.targetPlatform
    && FindChild(e.root, "m_ParsedForm").Some? && FindChild(a.root, "m_ParsedForm").Some?
    && SameParsedForm(FindChild(e.root, "m_ParsedForm").value, FindChild(a.root, "m_ParsedForm").value)
    && SameChild(e.root, a.root, "m_Name")
    && SameDependencies(e, a, r) && SameTextures(e, a, r) && SameFlag(e, a) && SameArchives(e, a)
  }

  /** Every sequence category is EQUAL. */
  ghost predicate SameInAllKinds(e: Value, a: Value) {
    forall kind: SequenceKind :: SameSequences(e, a, kind)
  }

  lemma ChildrenAreThere(e: Value, a: Value, names: seq<string>)
    requires SameChildren(e, a, names)
    ensures HasChildren(e, names) && HasChildren(a, names)
  {
    hide FindChild, ValueVerdict;
    forall i | 0 <= i < |names|
      ensures FindChild(e, names[i]).Some? && FindChild(a, names[i]).Some?
    {
      assert SameChild(e, a, names[i]);
    }
  }

  lemma TwoChildren(e: Value, a: Value, first: string, second: string)
    requires SameChild(e, a, first) && SameChild(e, a, second)
    ensures SameChildren(e, a, [first, second])
  {
    hide SameChild;
  }

  lemma ProgramIsReadable(e: Value, a: Value)
    requires SameProgram(e, a, ProgramVariants) && SameProgram(e, a, Parameters)
    ensures ProgramShaped(e) && ProgramShaped(a) && ProgramIsBare(e)
  {
    hide FindChild, ValueVerdict, RequiredArray;
    var two := VariantFields();
    assert SameChildren(e, a, two);
    ChildrenAreThere(e, a, two);
    var one := ["m_CommonParameters"];
    assert SameChildren(e, a, one);
    ChildrenAreThere(e, a, one);
  }

  lemma StagesAreReadable(e: Value, a: Value)
    requires SamePass(e, a, ProgramVariants) && SamePass(e, a, Parameters)
    ensures HasChildren(e, ProgramNames()) && HasChildren(a, ProgramNames()) && PassIsBare(e)
    ensures forall i :: 0 <= i < |ProgramNames()| ==> ProgramShaped(FindChild(e, ProgramNames()[i]).value)
    ensures forall i :: 0 <= i < |ProgramNames()| ==> ProgramShaped(FindChild(a, ProgramNames()[i]).value)
  {
    hide FindChild, SameProgram, ProgramShaped, ProgramIsBare;
    forall i | 0 <= i < |ProgramNames()|
      ensures FindChild(e, ProgramNames()[i]).Some? && FindChild(a, ProgramNames()[i]).Some?
      ensures ProgramShaped(FindChild(e, ProgramNames()[i]).value)
      ensures ProgramShaped(FindChild(a, ProgramNames()[i]).value)
      ensures ProgramIsBare(FindChild(e, ProgramNames()[i]).value)
    {
      var stage := ProgramNames()[i];
      assert SameStage(e, a, ProgramVariants, stage) && SameStage(e, a, Parameters, stage);
      ProgramIsReadable(FindChild(e, stage).value, FindChild(a, stage).value);
    }
  }

  lemma PassIsReadable(e: Value, a: Value)
    requires forall kind: SequenceKind :: kind != SubshaderMetadata ==> SamePass(e, a, kind)
    ensures PassShaped(e) && PassShaped(a) && PassIsBare(e)
  {
    assert SamePass(e, a, ProgramVariants) && SamePass(e, a, Parameters);
    assert SamePass(e, a, PassIdentity) && SamePass(e, a, PassTags) && SamePass(e, a, RenderState);
    hide FindChild, SameStage, SameChild, SameChildren, HasChildren, ProgramShaped, PassIsBare, NamedListVerdict;
    StagesAreReadable(e, a);
    PassIdentityMeaning(e, a);
    NamedListMeaning(e, a, PassIdentityFields());
    ChildrenAreThere(e, a, PassIdentityFields());
    TwoChildren(e, a, "m_Tags", "m_State");
    ChildrenAreThere(e, a, ["m_Tags", "m_State"]);
  }

  lemma SubshaderIsReadable(e: Value, a: Value)
    requires forall kind: SequenceKind :: SameSubshader(e, a, kind)
    ensures SubshaderShaped(e) && SubshaderShaped(a) && SubshaderIsBare(e)
  {
    hide FindChild, SamePass, ValueVerdict, PassShaped, PassIsBare, RequiredArray;
    assert SameSubshader(e, a, SubshaderMetadata) && SameSubshader(e, a, PassTags);
    var two := MetadataFields();
    assert SameChildren(e, a, two);
    ChildrenAreThere(e, a, two);
    var es, acts := Elements(e, "m_Passes"), Elements(a, "m_Passes");
    forall i | 0 <= i < |es|
      ensures PassShaped(es[i]) && PassShaped(acts[i]) && PassIsBare(es[i])
    {
      forall kind: SequenceKind | kind != SubshaderMetadata
        ensures SamePass(es[i], acts[i], kind)
      {
        assert SameSubshader(e, a, kind);
      }
      PassIsReadable(es[i], acts[i]);
    }
  }

  lemma SequencesAreReadable(e: Value, a: Value)
    requires SameInAllKinds(e, a)
    ensures HasNoEditorPrograms(e)
    ensures var x, y := ElementsAt(e, "m_SubShaders"), ElementsAt(a, "m_SubShaders");
            && x.Some? && y.Some? && (forall i :: 0 <= i < |x.value| ==> SubshaderShaped(x.value[i]))
            && (forall i :: 0 <= i < |y.value| ==> SubshaderShaped(y.value[i]))
  {
    hide FindChild, SameSubshader, ValueVerdict, SubshaderShaped, SubshaderIsBare, RequiredArray;
    assert SameSequences(e, a, PassTags);
    var es, acts := Elements(e, "m_SubShaders"), Elements(a, "m_SubShaders");
    forall i | 0 <= i < |es|
      ensures SubshaderShaped(es[i]) && SubshaderShaped(acts[i]) && SubshaderIsBare(es[i])
    {
      forall kind: SequenceKind
        ensures SameSubshader(es[i], acts[i], kind)
      {
        assert SameSequences(e, a, kind);
      }
      SubshaderIsReadable(es[i], acts[i]);
    }
  }

  /** The categories read by name are all EQUAL. */
  ghost predicate SameNamedFields(ep: Value, ap: Value) {
    && SameChildren(ep, ap, IdentityFields()) && SameChildren(ep, ap, KeywordFields())
    && SameChild(ep, ap, "m_PropInfo") && SameChild(ep, ap, "m_Dependencies")
    && SameChild(ep, ap, "m_CustomEditorForRenderPipelines")
  }

  /** On EQUAL trees all categories are EQUAL exactly when the fields they read are there and no editor
      programs are recorded. */
  lemma CategoriesUnderBackstop(ep: Value, ap: Value)
    requires ValueVerdict(ep, ap) == Equal
    ensures SameNamedFields(ep, ap) && SameInAllKinds(ep, ap) <==> SameParsedForm(ep, ap)
  {
    hide ValueVerdict, FindChild, SameSequences, SubshaderShaped, ElementsAt, SequencesVerdict, HasNoEditorPrograms;
    var three := ["m_PropInfo", "m_Dependencies", "m_CustomEditorForRenderPipelines"];
    if SameNamedFields(ep, ap) && SameInAllKinds(ep, ap) {
      assert SameChildren(ep, ap, three);
      ChildrenAreThere(ep, ap, three);
      ChildrenAreThere(ep, ap, IdentityFields());
      ChildrenAreThere(ep, ap, KeywordFields());
      SequencesAreReadable(ep, ap);
    }
    if SameParsedForm(ep, ap) {
      NamedFieldsUnderBackstop(ep, ap);
      forall kind: SequenceKind
        ensures SameSequences(ep, ap, kind)
      {
        BackstopSubsumesSequences(ep, ap, kind);
        SequencesMeaning(ep, ap, kind);
      }
    }
  }

  lemma NamedFieldsUnderBackstop(ep: Value, ap: Value)
    requires ValueVerdict(ep, ap) == Equal && SchemaShaped(ep)
    ensures SameNamedFields(ep, ap)
  {
    hide ValueVerdict, FindChild, SubshaderShaped, ElementsAt, NamedListVerdict, NamedVerdict, SameChild;
    BackstopSubsumesFields(ep, ap);
    NamedListMeaning(ep, ap, IdentityFields());
    NamedListMeaning(ep, ap, KeywordFields());
    NamedMeaning(ep, ap, "m_PropInfo");
    NamedMeaning(ep, ap, "m_Dependencies");
    NamedMeaning(ep, ap, "m_CustomEditorForRenderPipelines");
    var three := ["m_PropInfo", "m_Dependencies", "m_CustomEditorForRenderPipelines"];
    assert FindChild(ep, three[0]).Some? && FindChild(ep, three[1]).Some? && FindChild(ep, three[2]).Some?;
  }

  lemma IdentityMeaning(eRoot: Value, aRoot: Value, ep: Value, ap: Value)
    ensures IdentityVerdict(eRoot, aRoot, ep, ap) == Equal <==>
              SameChild(eRoot, aRoot, "m_Name") && SameChildren(ep, ap, IdentityFields())
  {
    hide NamedVerdict, NamedListVerdict, SameChild, SameChildren;
    NamedMeaning(eRoot, aRoot, "m_Name");
    NamedListMeaning(ep, ap, IdentityFields());
  }

  lemma SequenceFieldsMatch(e: ShaderObject, a: ShaderObject, ep: Value, ap: Value, r: Resolver)
    ensures (forall k :: SUBSHADER_METADATA <= k <= PARAMETER_BINDINGS ==> EntryOf(k, e, a, ep, ap, r).status == Match)
       <==> SameInAllKinds(ep, ap)
  {
    hide EntryOf, SequencesVerdict, SameSequences, NamedVerdict, NamedListVerdict, ValueVerdict, TopologyVerdict,
         IdentityVerdict;
    ParsedEntries(e, a, ep, ap, r);
    forall k | SUBSHADER_METADATA <= k <= PARAMETER_BINDINGS
      ensures EntryOf(k, e, a, ep, ap, r).status == Match <==> SameSequences(ep, ap, KindOfField(k))
    {
      SequencesMeaning(ep, ap, KindOfField(k));
    }
    if forall k :: SUBSHADER_METADATA <= k <= PARAMETER_BINDINGS ==> EntryOf(k, e, a, ep, ap, r).status == Match {
      forall kind: SequenceKind
        ensures SameSequences(ep, ap, kind)
      {
        assert KindOfField(FieldOfKind(kind)) == kind;
      }
    }
  }

  ghost function FieldOfKind(kind: SequenceKind): (field: nat)
    ensures SUBSHADER_METADATA <= field <= PARAMETER_BINDINGS
  {
    match kind
    case SubshaderMetadata => 7
    case PassIdentity => 8
    case PassTags => 9
    case RenderState => 10
    case ProgramVariants => 11
    case Parameters => 12
  }

  lemma ParsedFieldsMatch(e: ShaderObject, a: ShaderObject, ep: Value, ap: Value, r: Resolver)
    ensures (forall k :: SHADER_IDENTITY <= k <= PARSED_FORM_RESIDUAL ==> EntryOf(k, e, a, ep, ap, r).status == Match)
       <==> SameParsedForm(ep, ap) && SameChild(e.root, a.root, "m_Name")
  {
    hide EntryOf, ValueVerdict, FindChild, SchemaShaped, HasNoEditorPrograms, SequencesVerdict, TopologyVerdict,
         NamedVerdict, NamedListVerdict, SameChild, SameChildren, SameSequences;
    ParsedEntries(e, a, ep, ap, r);
    IdentityMeaning(e.root, a.root, ep, ap);
    NamedListMeaning(ep, ap, KeywordFields());
    NamedMeaning(ep, ap, "m_PropInfo");
    NamedMeaning(ep, ap, "m_Dependencies");
    NamedMeaning(ep, ap, "m_CustomEditorForRenderPipelines");
    SequenceFieldsMatch(e, a, ep, ap, r);
    if ValueVerdict(ep, ap) == Equal {
      CategoriesUnderBackstop(ep, ap);
      BackstopSubsumesSequences(ep, ap, Parameters);
    }
  }

  lemma DependenciesMatch(e: ShaderObject, a: ShaderObject, r: Resolver)
    ensures Dependencies(e, a, r).status == Match <==> SameDependencies(e, a, r)
  {
    hide RequiredArray, DependencyStatus, SamePointer, PointToSame, ParsePPtr;
    var x, y := RootArray(e, "m_Dependencies"), RootArray(a, "m_Dependencies");
    if SameCount(e.root, a.root, "m_Dependencies") {
      var es, acts := x.value.elements, y.value.elements;
      DependencyStatusDecidesLists(PointersOf(es), PointersOf(acts), r);
      forall i | 0 <= i < |es|
        ensures SamePointer(PointersOf(es)[i], PointersOf(acts)[i], r) <==> PointToSame(es[i], acts[i], r)
      {
        PointersMeaning(es[i], acts[i], r);
      }
    } else {
      DependenciesDiffer(PointerArray(x), PointerArray(y), r);
    }
  }

  lemma DependenciesDiffer(es: Option<seq<Option<PPtr>>>, acts: Option<seq<Option<PPtr>>>, r: Resolver)
    requires es.None? || acts.None? || |es.value| != |acts.value|
    ensures DependencyStatus(es, acts, r).status != Match
  {
  }

  lemma PointersMeaning(e: Value, a: Value, r: Resolver)
    ensures SamePointer(ParsePPtr(e), ParsePPtr(a), r) <==> PointToSame(e, a, r)
  {
    hide ParsePPtr, HoldsPointer, SameObject;
    forall p
      ensures ParsePPtr(e) == Some(p) <==> HoldsPointer(e, p)
      ensures ParsePPtr(a) == Some(p) <==> HoldsPointer(a, p)
    {
      ParsedPointerMeaning(e, p);
      ParsedPointerMeaning(a, p);
    }
  }

  lemma TexturesMatch(e: ShaderObject, a: ShaderObject, r: Resolver)
    ensures Textures(e, a, r).status == Match <==> SameTextures(e, a, r)
  {
    hide RequiredArray, TextureStatus, TextureTable, TablesAgree;
    var es := TextureTable(RequiredArray(Some(e.root), "m_NonModifiableTextures"));
    var acts := TextureTable(RequiredArray(Some(a.root), "m_NonModifiableTextures"));
    if es.Some? && acts.Some? {
      TextureStatusDecidesTables(es.value, acts.value, r);
    } else {
      TablesDiffer(es, acts, r);
    }
  }

  lemma TablesDiffer(es: Option<seq<TableRow>>, acts: Option<seq<TableRow>>, r: Resolver)
    requires es.None? || acts.None?
    ensures TextureStatus(es, acts, r).status != Match
  {
  }

  lemma FlagMatches(e: ShaderObject, a: ShaderObject)
    ensures BakedStatus(e, a) == Match <==> SameFlag(e, a)
  {
    hide FindChild;
  }

  lemma ArchivesMatch(e: ShaderObject, a: ShaderObject)
    ensures Artifacts(e, a).status == Match <==> SameArchives(e, a)
    ensures SameArchives(e, a) ==> PlatformSets(e, a).status == Match
  {
    hide RequiredArray, PlatformsOf, ArtifactsOf, PlatformSetStatus, SameArtifacts, SameStored;
    var es, acts := Platforms(e), Platforms(a);
    if es.Some? && acts.Some? {
      ArtifactsDecideObjects(es.value, acts.value, e.open, a.open);
      PlatformStatusDecidesSets(es.value, acts.value);
      forall p
        ensures SameArtifacts(e.open(p), a.open(p)) <==> SameStored(e.open(p), a.open(p))
      {
        StoredMeaning(e.open(p), a.open(p));
      }
    } else {
      ArtifactsNeedPlatforms(es, acts, e.open, a.open);
    }
  }

  lemma StoredMeaning(x: Option<Archive>, y: Option<Archive>)
    ensures SameArtifacts(x, y) <==> SameStored(x, y)
  {
    hide ArchiveIsValid, HoldsPayloads;
    if x.Some? && y.Some? {
      ValidHoldsPayloads(x.value);
      ValidHoldsPayloads(y.value);
    }
  }

  lemma ArtifactsNeedPlatforms(es: Option<seq<int>>, acts: Option<seq<int>>, openE: Opener, openA: Opener)
    requires es.None? || acts.None?
    ensures ArtifactsOf(es, acts, openE, openA).status != Match
  {
  }

  lemma ObjectFieldsMatch(e: ShaderObject, a: ShaderObject, ep: Value, ap: Value, r: Resolver)
    ensures (forall k :: OBJECT_DEPENDENCIES <= k < FIELD_COUNT ==> EntryOf(k, e, a, ep, ap, r).status == Match)
       <==> SameDependencies(e, a, r) && SameTextures(e, a, r) && SameFlag(e, a) && SameArchives(e, a)
  {
    hide EntryOf, Dependencies, Textures, BakedStatus, PlatformSets, Artifacts, SameDependencies, SameTextures,
         SameFlag, SameArchives;
    ReferenceEntries(e, a, ep, ap, r);
    ArtifactsEntry(e, a, ep, ap, r);
    DependenciesMatch(e, a, r);
    TexturesMatch(e, a, r);
    FlagMatches(e, a);
    ArchivesMatch(e, a);
  }

  /** Identity is certified exactly for the same release. */
  lemma CertifiedExactlyWhenSame(e: ShaderObject, a: ShaderObject, r: Resolver)
    ensures (forall k :: 0 <= k < FIELD_COUNT ==> ReportedFields(e, a, r)[k] == Match) <==> SameRelease(e, a, r)
  {
    hide EntryOf, ValueVerdict, FindChild, SchemaShaped, HasNoEditorPrograms, SameDependencies, SameTextures, SameFlag,
         SameArchives, SameChild, SameParsedForm;
    var ep, ap := FindChild(e.root, "m_ParsedForm"), FindChild(a.root, "m_ParsedForm");
    if Comparable(e, a) {
      ParsedFieldsMatch(e, a, ep.value, ap.value, r);
      ObjectFieldsMatch(e, a, ep.value, ap.value, r);
      ParsedEntries(e, a, ep.value, ap.value, r);
      assert forall k :: 0 <= k < FIELD_COUNT ==>
          ReportedFields(e, a, r)[k] == EntryOf(k, e, a, ep.value, ap.value, r).status;
    } else {
      assert ReportedFields(e, a, r)[1] != Match;
    }
  }

  /** A finished report claims identity exactly for the same release. */
  lemma ReportCertifies(report: Report, e: ShaderObject, a: ShaderObject, r: Resolver)
    requires report.Certifies(e, a, r)
    ensures report.identityCertified <==> SameRelease(e, a, r)
  {
    hide SameRelease;
    CertifiedExactlyWhenSame(e, a, r);
    assert forall k :: 0 <= k < FIELD_COUNT ==> report.fields[k] == report.fields[..][k];
  }
}
