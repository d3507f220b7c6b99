/** The per-category comparisons of m_ParsedForm and their relation to the whole-tree backstop. */
module FieldCompare {
  import opened Basics
  import opened TypeTree
  import opened CanonicalCompare

  /** Where a problem lies; -1 and None mean that a coordinate does not apply. */
  datatype Location = Location(
    subshader: int, pass: int, stage: int, element: int, platform: int, archiveEntry: int, archiveByte: Option<nat>)

  const NO_LOCATION := Location(-1, -1, -1, -1, -1, -1, None)

  datatype Located = Located(verdict: Verdict, location: Location)

  datatype SequenceKind =
    SubshaderMetadata | PassIdentity | PassTags | RenderState | ProgramVariants | Parameters

  function IdentityFields(): seq<string> {
    ["m_Name", "m_CustomEditorName", "m_FallbackName", "m_DisableNoSubshadersMessage"]
  }

  function KeywordFields(): seq<string> {
    ["m_KeywordNames", "m_KeywordFlags"]
  }

  function MetadataFields(): seq<string> {
    ["m_Tags", "m_LOD"]
  }

  function PassIdentityFields(): seq<string> {
    [
    "m_EditorDataHash", "m_Platforms", "m_NameIndices", "m_Type", "m_ProgramMask", "m_HasInstancingVariant",
    "m_HasProceduralInstancingVariant", "m_UseName", "m_Name", "m_TextureName", "m_SerializedKeywordStateMask"]
  }

  function ProgramNames(): seq<string> {
    [
    "progVertex", "progFragment", "progGeometry", "progHull", "progDomain", "progRayTracing"]
  }

  function VariantFields(): seq<string> {
    ["m_PlayerSubPrograms", "m_ParameterBlobIndices"]
  }


  // ---------- The comparisons ----------

  function NamedVerdict(e: Value, a: Value, name: string): Verdict {
    var x, y := FindChild(e, name), FindChild(a, name);
    if x.None? || y.None? then Invalid else ValueVerdict(x.value, y.value)
  }

  function Combine(aggregate: Verdict, next: Verdict): Verdict {
    if aggregate == Invalid || next == Invalid then Invalid
    else if aggregate == Different || next == Different then Different
    else if aggregate == Unavailable || next == Unavailable then Unavailable
    else Equal
  }

  /** compare_named_list: every name is compared, the worst verdict wins. */
  function NamedListVerdict(e: Value, a: Value, names: seq<string>): Verdict {
    if names == [] then Equal
    else Combine(NamedListVerdict(e, a, names[..|names| - 1]), NamedVerdict(e, a, names[|names| - 1]))
  }

  function IdentityVerdict(eRoot: Value, aRoot: Value, e: Value, a: Value): Verdict {
    Combine(NamedVerdict(eRoot, aRoot, "m_Name"), NamedListVerdict(e, a, IdentityFields()))
  }

  predicate IsValuesArray(v: Option<Value>) {
    v.Some? && v.value.ArrayValue?
  }

  function ElementsAt(parent: Value, name: string): Option<seq<Value>> {
    var v := RequiredArray(Some(parent), name);
    if IsValuesArray(v) then Some(v.value.elements) else None
  }

  function TopologyVerdict(e: Value, a: Value): Located {
    var es, acts := ElementsAt(e, "m_SubShaders"), ElementsAt(a, "m_SubShaders");
    if es.None? || acts.None? then Located(Invalid, NO_LOCATION)
    else if |es.value| != |acts.value| then Located(Different, NO_LOCATION)
    else PassCountsFrom(es.value, acts.value, 0)
  }

  /** Pass counts only; the storage of m_Passes does not matter here. */
  function PassCountsFrom(es: seq<Value>, acts: seq<Value>, i: nat): Located
    requires i <= |es| == |acts|
    decreases |es| - i
  {
    if i == |es| then Located(Equal, NO_LOCATION)
    else
      var ep, ap := RequiredArray(Some(es[i]), "m_Passes"), RequiredArray(Some(acts[i]), "m_Passes");
      if ep.None? || ap.None? || !ArrayIsValid(ep.value) || !ArrayIsValid(ap.value) then
        Located(Invalid, NO_LOCATION.(subshader := i))
      else if Count(ep.value) != Count(ap.value) then Located(Different, NO_LOCATION.(subshader := i))
      else PassCountsFrom(es, acts, i + 1)
  }

  function ProgramVerdict(e: Value, a: Value, kind: SequenceKind): Verdict {
    if kind.ProgramVariants? then
      var ee, ae := RequiredArray(Some(e), "m_SubPrograms"), RequiredArray(Some(a), "m_SubPrograms");
      if ee.None? || ae.None? || !ArrayIsValid(ee.value) || !ArrayIsValid(ae.value) then Invalid
      // Editor subprogram records are not modelled, so their presence is never accepted.
      else if Count(ee.value) != 0 || Count(ae.value) != 0 then Unavailable
      else NamedListVerdict(e, a, VariantFields())
    else NamedVerdict(e, a, "m_CommonParameters")
  }

  /** compare_program_part, from stage `stage` on. */
  function ProgramsFrom(e: Value, a: Value, kind: SequenceKind, stage: nat): Located
    requires stage <= |ProgramNames()|
    decreases |ProgramNames()| - stage
  {
    if stage == |ProgramNames()| then Located(Equal, NO_LOCATION)
    else
      var ep, ap := FindChild(e, ProgramNames()[stage]), FindChild(a, ProgramNames()[stage]);
      var r := if ep.None? || ap.None? then Invalid else ProgramVerdict(ep.value, ap.value, kind);
      if r != Equal then Located(r, NO_LOCATION.(stage := stage)) else ProgramsFrom(e, a, kind, stage + 1)
  }

  function PassVerdict(e: Value, a: Value, kind: SequenceKind): Located {
    match kind
    case PassIdentity => Located(NamedListVerdict(e, a, PassIdentityFields()), NO_LOCATION)
    case PassTags => Located(NamedVerdict(e, a, "m_Tags"), NO_LOCATION)
    case RenderState => Located(NamedVerdict(e, a, "m_State"), NO_LOCATION)
    case ProgramVariants => ProgramsFrom(e, a, kind, 0)
    case Parameters => ProgramsFrom(e, a, kind, 0)
    case SubshaderMetadata => Located(Invalid, NO_LOCATION)
  }

  function PassesFrom(es: seq<Value>, acts: seq<Value>, kind: SequenceKind, subshader: nat, i: nat): Located
    requires i <= |es| == |acts|
    decreases |es| - i
  {
    if i == |es| then Located(Equal, NO_LOCATION)
    else
      var r := PassVerdict(es[i], acts[i], kind);
      if r.verdict != Equal then r.(location := r.location.(subshader := subshader, pass := i))
      else PassesFrom(es, acts, kind, subshader, i + 1)
  }

  function SubshaderVerdict(e: Value, a: Value, kind: SequenceKind, i: nat): Located {
    if kind.SubshaderMetadata? then Located(NamedListVerdict(e, a, MetadataFields()), NO_LOCATION.(subshader := i))
    else
      var ep, ap := ElementsAt(e, "m_Passes"), ElementsAt(a, "m_Passes");
      if ep.None? || ap.None? then Located(Invalid, NO_LOCATION.(subshader := i))
      else if |ep.value| != |ap.value| then Located(Different, NO_LOCATION.(subshader := i))
      else PassesFrom(ep.value, ap.value, kind, i, 0)
  }

  function SubshadersFrom(es: seq<Value>, acts: seq<Value>, kind: SequenceKind, i: nat): Located
    requires i <= |es| == |acts|
    decreases |es| - i
  {
    if i == |es| then Located(Equal, NO_LOCATION)
    else
      var r := SubshaderVerdict(es[i], acts[i], kind, i);
      if r.verdict != Equal then r else SubshadersFrom(es, acts, kind, i + 1)
  }

  /** compare_parsed_sequences. */
  function SequencesVerdict(e: Value, a: Value, kind: SequenceKind): Located {
    var es, acts := ElementsAt(e, "m_SubShaders"), ElementsAt(a, "m_SubShaders");
    if es.None? || acts.None? then Located(Invalid, NO_LOCATION)
    else if |es.value| != |acts.value| then Located(Different, NO_LOCATION)
    else SubshadersFrom(es.value, acts.value, kind, 0)
  }

  // ---------- The comparisons as the loops that run them ----------

  /** compare_named. */
  method CompareNamed(e: Value, a: Value, name: string) returns (r: Verdict)
    ensures r == NamedVerdict(e, a, name)
  {
    var x, y := FindChild(e, name), FindChild(a, name);
    if x.None? || y.None? { return Invalid; }
    r := CompareValues(x.value, y.value);
  }

  /** compare_named_list. */
  method CompareNamedList(e: Value, a: Value, names: seq<string>) returns (r: Verdict)
    ensures r == NamedListVerdict(e, a, names)
  {
    hide NamedVerdict, NamedListVerdict;
    NoNames(e, a, names);
    r := Equal;
    for index := 0 to |names|
      invariant r == NamedListVerdict(e, a, names[..index])
    {
      OneMoreName(e, a, names, index);
      var next := CompareNamed(e, a, names[index]);
      if r == Invalid || next == Invalid {
        r := Invalid;
      } else if r == Different || next == Different {
        r := Different;
      } else if r == Unavailable || next == Unavailable {
        r := Unavailable;
      } else {
        r := Equal;
      }
    }
    assert names[..|names|] == names;
  }

  lemma NoNames(e: Value, a: Value, names: seq<string>)
    ensures NamedListVerdict(e, a, names[..0]) == Equal
  {
  }

  lemma OneMoreName(e: Value, a: Value, names: seq<string>, k: nat)
    requires k < |names|
    ensures NamedListVerdict(e, a, names[..k + 1])
         == Combine(NamedListVerdict(e, a, names[..k]), NamedVerdict(e, a, names[k]))
  {
    hide NamedVerdict;
    assert names[..k + 1][..k] == names[..k];
  }

  /** The comparison of the shader's names: the root's own, then the four of m_ParsedForm. */
  method CompareIdentity(eRoot: Value, aRoot: Value, e: Value, a: Value) returns (r: Verdict)
    ensures r == IdentityVerdict(eRoot, aRoot, e, a)
  {
    hide NamedVerdict, NamedListVerdict;
    r := CompareNamed(eRoot, aRoot, "m_Name");
    var parsed := CompareNamedList(
      e, a, ["m_Name", "m_CustomEditorName", "m_FallbackName", "m_DisableNoSubshadersMessage"]);
    r := Combine(r, parsed);
  }

  /** compare_topology. */
  method CompareTopology(e: Value, a: Value) returns (r: Located)
    ensures r == TopologyVerdict(e, a)
  {
    hide FindChild;
    var es, acts := RequiredArray(Some(e), "m_SubShaders"), RequiredArray(Some(a), "m_SubShaders");
    if es.None? || acts.None? || !es.value.ArrayValue? || !acts.value.ArrayValue? {
      return Located(Invalid, NO_LOCATION);
    }
    if |es.value.elements| != |acts.value.elements| { return Located(Different, NO_LOCATION); }
    for subshader := 0 to |es.value.elements|
      invariant TopologyVerdict(e, a) == PassCountsFrom(es.value.elements, acts.value.elements, subshader)
    {
      var ep := RequiredArray(Some(es.value.elements[subshader]), "m_Passes");
      var ap := RequiredArray(Some(acts.value.elements[subshader]), "m_Passes");
      if ep.None? || ap.None? || ep.value.BrokenArray? || ap.value.BrokenArray? {
        return Located(Invalid, NO_LOCATION.(subshader := subshader));
      }
      if Count(ep.value) != Count(ap.value) { return Located(Different, NO_LOCATION.(subshader := subshader)); }
    }
    r := Located(Equal, NO_LOCATION);
  }

  /** compare_program_part. */
  method CompareProgramPart(e: Value, a: Value, kind: SequenceKind) returns (r: Located)
    ensures r == ProgramsFrom(e, a, kind, 0)
  {
    hide NamedVerdict, NamedListVerdict, ProgramVerdict, FindChild;
    var names := ["progVertex", "progFragment", "progGeometry", "progHull", "progDomain", "progRayTracing"];
    assert names == ProgramNames();
    for stage := 0 to 6
      invariant ProgramsFrom(e, a, kind, 0) == ProgramsFrom(e, a, kind, stage)
    {
      var ep, ap := FindChild(e, names[stage]), FindChild(a, names[stage]);
      if ep.None? || ap.None? { return Located(Invalid, NO_LOCATION.(stage := stage)); }
      var verdict := CompareProgram(ep.value, ap.value, kind);
      if verdict != Equal { return Located(verdict, NO_LOCATION.(stage := stage)); }
    }
    r := Located(Equal, NO_LOCATION);
  }

  /** The body of compare_program_part's loop, once both programs are found. */
  method CompareProgram(e: Value, a: Value, kind: SequenceKind) returns (r: Verdict)
    ensures r == ProgramVerdict(e, a, kind)
  {
    hide NamedVerdict, NamedListVerdict, FindChild;
    if kind == ProgramVariants {
      var ee, ae := RequiredArray(Some(e), "m_SubPrograms"), RequiredArray(Some(a), "m_SubPrograms");
      if ee.None? || ae.None? || ee.value.BrokenArray? || ae.value.BrokenArray? { return Invalid; }
      if Count(ee.value) != 0 || Count(ae.value) != 0 { return Unavailable; }
      r := CompareNamedList(e, a, ["m_PlayerSubPrograms", "m_ParameterBlobIndices"]);
    } else {
      r := CompareNamed(e, a, "m_CommonParameters");
    }
  }

  /** The switch of compare_parsed_sequences over one pass. */
  method ComparePass(e: Value, a: Value, kind: SequenceKind) returns (r: Located)
    ensures r == PassVerdict(e, a, kind)
  {
    hide NamedVerdict, NamedListVerdict, ProgramsFrom, PassIdentityFields;
    match kind {
      case PassIdentity =>
        r := ComparePassIdentity(e, a);
      case PassTags =>
        var verdict := CompareNamed(e, a, "m_Tags");
        r := Located(verdict, NO_LOCATION);
      case RenderState =>
        var verdict := CompareNamed(e, a, "m_State");
        r := Located(verdict, NO_LOCATION);
      case SubshaderMetadata =>
        r := Located(Invalid, NO_LOCATION);
      case _ =>
        r := CompareProgramPart(e, a, kind);
    }
  }

  method ComparePassIdentity(e: Value, a: Value) returns (r: Located)
    ensures r == PassVerdict(e, a, PassIdentity)
  {
    hide NamedVerdict, NamedListVerdict;
    var names := [
      "m_EditorDataHash", "m_Platforms", "m_NameIndices", "m_Type", "m_ProgramMask", "m_HasInstancingVariant",
      "m_HasProceduralInstancingVariant", "m_UseName", "m_Name", "m_TextureName", "m_SerializedKeywordStateMask"];
    assert names == PassIdentityFields();
    var verdict := CompareNamedList(e, a, names);
    r := Located(verdict, NO_LOCATION);
  }

  /** compare_parsed_sequences. */
  method CompareSequences(e: Value, a: Value, kind: SequenceKind) returns (r: Located)
    ensures r == SequencesVerdict(e, a, kind)
  {
    hide RequiredArray, NamedListVerdict, PassesFrom, PassVerdict;
    var es, acts := RequiredArray(Some(e), "m_SubShaders"), RequiredArray(Some(a), "m_SubShaders");
    if es.None? || acts.None? || !es.value.ArrayValue? || !acts.value.ArrayValue? {
      return Located(Invalid, NO_LOCATION);
    }
    if |es.value.elements| != |acts.value.elements| { return Located(Different, NO_LOCATION); }
    for subshader := 0 to |es.value.elements|
      invariant SequencesVerdict(e, a, kind)
             == SubshadersFrom(es.value.elements, acts.value.elements, kind, subshader)
    {
      r := CompareSubshader(es.value.elements[subshader], acts.value.elements[subshader], kind, subshader);
      if r.verdict != Equal { return; }
    }
    r := Located(Equal, NO_LOCATION);
  }

  /** The body of compare_parsed_sequences' outer loop. */
  method CompareSubshader(e: Value, a: Value, kind: SequenceKind, subshader: nat) returns (r: Located)
    ensures r.verdict == SubshaderVerdict(e, a, kind, subshader).verdict
    ensures r.verdict != Equal ==> r == SubshaderVerdict(e, a, kind, subshader)
  {
    hide RequiredArray, NamedListVerdict, PassVerdict;
    if kind == SubshaderMetadata {
      var verdict := CompareNamedList(e, a, ["m_Tags", "m_LOD"]);
      return Located(verdict, NO_LOCATION.(subshader := subshader));
    }
    var ep, ap := RequiredArray(Some(e), "m_Passes"), RequiredArray(Some(a), "m_Passes");
    if ep.None? || ap.None? || !ep.value.ArrayValue? || !ap.value.ArrayValue? {
      return Located(Invalid, NO_LOCATION.(subshader := subshader));
    }
    var eps, aps := ep.value.elements, ap.value.elements;
    if |eps| != |aps| { return Located(Different, NO_LOCATION.(subshader := subshader)); }
    for pass := 0 to |eps|
      invariant SubshaderVerdict(e, a, kind, subshader) == PassesFrom(eps, aps, kind, subshader, pass)
    {
      r := ComparePass(eps[pass], aps[pass], kind);
      if r.verdict != Equal {
        return r.(location := r.location.(subshader := subshader, pass := pass));
      }
    }
    r := Located(Equal, NO_LOCATION);
  }

  // ---------- What EQUAL says about the parts of a tree ----------

  lemma {:induction false} EqualMembers(es: seq<Value>, acts: seq<Value>, i: nat)
    requires i <= |es| == |acts| && MembersVerdict(es, acts, i) == Equal
    ensures forall k :: i <= k < |es| ==> ValueVerdict(es[k], acts[k]) == Equal
    decreases |es| - i
  {
    hide ValueVerdict;
    if i < |es| {
      EqualMembers(es, acts, i + 1);
    }
  }

  lemma EqualHeaders(e: Value, a: Value)
    requires ValueVerdict(e, a) == Equal
    ensures HeaderIsValid(e) && e.header == a.header && KindOf(e) == KindOf(a)
  {
  }

  /** Equal trees find their children at the same place, and those are equal again. */
  lemma EqualChildren(e: Value, a: Value, name: string)
    requires ValueVerdict(e, a) == Equal
    ensures FindChild(e, name).Some? <==> FindChild(a, name).Some?
    ensures FindChild(e, name).Some? ==> ValueVerdict(FindChild(e, name).value, FindChild(a, name).value) == Equal
  {
    if e.StructValue? {
      EqualMembers(e.members, a.members, 0);
      forall k | 0 <= k < |e.members|
        ensures e.members[k].header == a.members[k].header
      {
        EqualHeaders(e.members[k], a.members[k]);
      }
      SameFirstNamed(e.members, a.members, name, 0);
    }
  }

  lemma {:induction false} SameFirstNamed(es: seq<Value>, acts: seq<Value>, name: string, i: nat)
    requires i <= |es| == |acts|
    requires forall k :: 0 <= k < |es| ==> es[k].header == acts[k].header
    ensures FirstNamed(es, name, i) == FirstNamed(acts, name, i)
    decreases |es| - i
  {
    if i < |es| {
      SameFirstNamed(es, acts, name, i + 1);
    }
  }

  lemma EqualArrays(e: Value, a: Value, name: string)
    requires ValueVerdict(e, a) == Equal
    ensures var x, y := RequiredArray(Some(e), name), RequiredArray(Some(a), name);
            && (x.Some? <==> y.Some?)
            && (x.Some? ==> ValueVerdict(x.value, y.value) == Equal && KindOf(x.value) == ArrayKind)
  {
    hide ValueVerdict, FindChild;
    EqualChildren(e, a, name);
    var x, y := FindChild(e, name), FindChild(a, name);
    if x.Some? {
      EqualHeaders(x.value, y.value);
      EqualChildren(x.value, y.value, "Array");
      if FindChild(x.value, "Array").Some? {
        EqualHeaders(FindChild(x.value, "Array").value, FindChild(y.value, "Array").value);
      }
    }
  }

  lemma EqualCounts(e: Value, a: Value)
    requires ValueVerdict(e, a) == Equal && KindOf(e) == ArrayKind
    ensures ArrayIsValid(e) && ArrayIsValid(a) && Count(e) == Count(a)
  {
  }

  /** Corresponding elements of two equal arrays: equal, or two entries of maps. */
  ghost predicate Alike(e: Value, a: Value) {
    ValueVerdict(e, a) == Equal || (IsPair(e) && IsPair(a))
  }

  lemma EqualElements(e: Value, a: Value)
    requires ValueVerdict(e, a) == Equal && e.ArrayValue? && a.ArrayValue?
    ensures |e.elements| == |a.elements|
    ensures forall k :: 0 <= k < |e.elements| ==> Alike(e.elements[k], a.elements[k])
  {
    if !IsMapType(e) {
      EqualMembers(e.elements, a.elements, 0);
    } else {
      assert ArrayVerdict(e, a) == MapVerdict(e.elements, a.elements) == Equal;
      assert MapIsValid(e.elements) && MapIsValid(a.elements);
    }
  }

  /** A map entry has no members besides its two parts. */
  lemma PairHasNoOtherChild(v: Value, name: string)
    requires IsPair(v) && name != "first" && name != "second"
    ensures FindChild(v, name).None? && RequiredArray(Some(v), name).None?
  {
    var i, j := FirstNamed(v.members, "first", 0).value, FirstNamed(v.members, "second", 0).value;
    assert i != j && {i, j} == {0, 1};
  }

  // ---------- Subsumption ----------

  predicate HasChildren(v: Value, names: seq<string>) {
    forall i :: 0 <= i < |names| ==> FindChild(v, names[i]).Some?
  }

  /** Every field the categories read is there, the sequences in per-element storage. */
  ghost predicate SchemaShaped(parsed: Value) {
    && HasChildren(parsed, IdentityFields()) && HasChildren(parsed, KeywordFields())
    && HasChildren(parsed, ["m_PropInfo", "m_Dependencies", "m_CustomEditorForRenderPipelines"])
    && var s := ElementsAt(parsed, "m_SubShaders");
    s.Some? && forall i :: 0 <= i < |s.value| ==> SubshaderShaped(s.value[i])
  }

  ghost predicate SubshaderShaped(subshader: Value) {
    && HasChildren(subshader, MetadataFields())
    && var p := ElementsAt(subshader, "m_Passes");
    p.Some? && forall i :: 0 <= i < |p.value| ==> PassShaped(p.value[i])
  }

  ghost predicate PassShaped(pass: Value) {
    && HasChildren(pass, PassIdentityFields()) && HasChildren(pass, ["m_Tags", "m_State"])
    && HasChildren(pass, ProgramNames())
    && forall i :: 0 <= i < |ProgramNames()| ==> ProgramShaped(FindChild(pass, ProgramNames()[i]).value)
  }

  ghost predicate ProgramShaped(program: Value) {
    && HasChildren(program, VariantFields()) && HasChildren(program, ["m_CommonParameters"])
    && RequiredArray(Some(program), "m_SubPrograms").Some?
  }

  /** No editor subprogram is recorded for a program. */
  ghost predicate ProgramIsBare(program: Value) {
    var x := RequiredArray(Some(program), "m_SubPrograms");
    x.Some? ==> (x.value.ArrayValue? ==> x.value.elements == []) && (x.value.PackedValue? ==> x.value.bytes == [])
  }

  ghost predicate PassIsBare(pass: Value) {
    forall i :: 0 <= i < |ProgramNames()| && FindChild(pass, ProgramNames()[i]).Some? ==>
      ProgramIsBare(FindChild(pass, ProgramNames()[i]).value)
  }

  ghost predicate SubshaderIsBare(subshader: Value) {
    var p := ElementsAt(subshader, "m_Passes");
    p.Some? ==> forall i :: 0 <= i < |p.value| ==> PassIsBare(p.value[i])
  }

  ghost predicate HasNoEditorPrograms(parsed: Value) {
    var s := ElementsAt(parsed, "m_SubShaders");
    s.Some? ==> forall i :: 0 <= i < |s.value| ==> SubshaderIsBare(s.value[i])
  }

  /** The verdicts a category may report while the whole tree is equal. */
  ghost predicate Consistent(r: Verdict, kind: SequenceKind, shaped: bool, bare: bool) {
    && r != Different
    && (r == Unavailable ==> kind.ProgramVariants? && !bare)
    && (shaped ==> r != Invalid)
  }

  /** A named child of two equal trees compares equal when present and is INVALID when absent. */
  lemma NamedUnderEqual(e: Value, a: Value, name: string)
    requires ValueVerdict(e, a) == Equal
    ensures NamedVerdict(e, a, name) == if FindChild(e, name).Some? then Equal else Invalid
  {
    EqualChildren(e, a, name);
  }

  lemma {:induction false} NamedListUnderEqual(e: Value, a: Value, names: seq<string>)
    requires ValueVerdict(e, a) == Equal
    ensures NamedListVerdict(e, a, names) == if HasChildren(e, names) then Equal else Invalid
  {
    hide ValueVerdict, FindChild, NamedVerdict;
    if names != [] {
      var init, last := names[..|names| - 1], names[|names| - 1];
      NamedListUnderEqual(e, a, init);
      NamedUnderEqual(e, a, last);
      assert HasChildren(e, names) <==> HasChildren(e, init) && FindChild(e, last).Some? by {
        assert names == init + [last];
        assert forall i :: 0 <= i < |init| ==> names[i] == init[i];
        assert names[|names| - 1] == last;
      }
    }
  }

  lemma ProgramUnderEqual(e: Value, a: Value, kind: SequenceKind)
    requires ValueVerdict(e, a) == Equal
    ensures Consistent(ProgramVerdict(e, a, kind), kind, ProgramShaped(e), ProgramIsBare(e))
  {
    hide ValueVerdict, FindChild, NamedVerdict, NamedListVerdict;
    EqualArrays(e, a, "m_SubPrograms");
    var x, y := RequiredArray(Some(e), "m_SubPrograms"), RequiredArray(Some(a), "m_SubPrograms");
    if x.Some? {
      EqualCounts(x.value, y.value);
    }
    NamedListUnderEqual(e, a, VariantFields());
    NamedUnderEqual(e, a, "m_CommonParameters");
    assert ProgramShaped(e) ==> FindChild(e, ["m_CommonParameters"][0]).Some?;
  }

  lemma {:induction false} ProgramsUnderEqual(e: Value, a: Value, kind: SequenceKind, stage: nat)
    requires ValueVerdict(e, a) == Equal && stage <= |ProgramNames()|
    ensures Consistent(ProgramsFrom(e, a, kind, stage).verdict, kind, PassShaped(e), PassIsBare(e))
    decreases |ProgramNames()| - stage
  {
    hide ValueVerdict, FindChild, ProgramVerdict, ProgramShaped, ProgramIsBare;
    if stage < |ProgramNames()| {
      EqualChildren(e, a, ProgramNames()[stage]);
      var x, y := FindChild(e, ProgramNames()[stage]), FindChild(a, ProgramNames()[stage]);
      if x.Some? {
        ProgramUnderEqual(x.value, y.value, kind);
      }
      ProgramsUnderEqual(e, a, kind, stage + 1);
    }
  }

  /** In a map typed sequence no category finds its fields. */
  lemma PassEntryIsInvalid(e: Value, a: Value, kind: SequenceKind)
    requires IsPair(e) && !kind.SubshaderMetadata?
    ensures PassVerdict(e, a, kind).verdict == Invalid && !PassShaped(e)
  {
    hide ValueVerdict, FindChild, IsPair, ProgramVerdict, ProgramShaped;
    PairHasNoOtherChild(e, "m_Tags");
    PairHasNoOtherChild(e, "m_State");
    PairHasNoOtherChild(e, "progVertex");
    PairHasNoOtherChild(e, "m_SerializedKeywordStateMask");
    assert PassIdentityFields()[|PassIdentityFields()| - 1] == "m_SerializedKeywordStateMask";
    assert NamedListVerdict(e, a, PassIdentityFields()) == Invalid;
    assert ProgramsFrom(e, a, kind, 0).verdict == Invalid;
    var two := ["m_Tags", "m_State"];
    assert !HasChildren(e, two) by { assert FindChild(e, two[0]).None?; }
  }

  lemma SubshaderEntryIsInvalid(e: Value, a: Value, kind: SequenceKind, i: nat)
    requires IsPair(e)
    ensures SubshaderVerdict(e, a, kind, i).verdict == Invalid && !SubshaderShaped(e)
  {
    hide ValueVerdict, FindChild, IsPair, PassesFrom;
    PairHasNoOtherChild(e, "m_LOD");
    PairHasNoOtherChild(e, "m_Passes");
    assert MetadataFields()[|MetadataFields()| - 1] == "m_LOD";
    assert NamedListVerdict(e, a, MetadataFields()) == Invalid;
    assert !HasChildren(e, MetadataFields()) by { assert FindChild(e, MetadataFields()[1]).None?; }
  }

  lemma PassUnderEqual(e: Value, a: Value, kind: SequenceKind)
    requires Alike(e, a) && !kind.SubshaderMetadata?
    ensures Consistent(PassVerdict(e, a, kind).verdict, kind, PassShaped(e), PassIsBare(e))
  {
    hide ValueVerdict, FindChild, NamedVerdict, NamedListVerdict, ProgramsFrom, ProgramShaped, ProgramIsBare, IsPair;
    if ValueVerdict(e, a) != Equal {
      PassEntryIsInvalid(e, a, kind);
      return;
    }
    NamedListUnderEqual(e, a, PassIdentityFields());
    NamedUnderEqual(e, a, "m_Tags");
    NamedUnderEqual(e, a, "m_State");
    ProgramsUnderEqual(e, a, kind, 0);
    var two := ["m_Tags", "m_State"];
    assert PassShaped(e) ==> FindChild(e, two[0]).Some? && FindChild(e, two[1]).Some?;
  }

  lemma {:induction false} PassesUnderEqual(es: seq<Value>, acts: seq<Value>, kind: SequenceKind, subshader: nat,
                                            i: nat)
    requires i <= |es| == |acts| && !kind.SubshaderMetadata?
    requires forall k :: 0 <= k < |es| ==> Alike(es[k], acts[k])
    ensures Consistent(PassesFrom(es, acts, kind, subshader, i).verdict, kind,
              forall k :: 0 <= k < |es| ==> PassShaped(es[k]),
              forall k :: 0 <= k < |es| ==> PassIsBare(es[k]))
    decreases |es| - i
  {
    hide Alike, PassVerdict, PassShaped, PassIsBare;
    if i < |es| {
      PassUnderEqual(es[i], acts[i], kind);
      PassesUnderEqual(es, acts, kind, subshader, i + 1);
    }
  }

  lemma SubshaderUnderEqual(e: Value, a: Value, kind: SequenceKind, i: nat)
    requires Alike(e, a)
    ensures Consistent(SubshaderVerdict(e, a, kind, i).verdict, kind, SubshaderShaped(e) && SubshaderShaped(a),
              SubshaderIsBare(e))
  {
    hide ValueVerdict, FindChild, NamedListVerdict, RequiredArray, PassesFrom, PassShaped, PassIsBare, IsPair;
    if ValueVerdict(e, a) != Equal {
      SubshaderEntryIsInvalid(e, a, kind, i);
      return;
    }
    NamedListUnderEqual(e, a, MetadataFields());
    EqualArrays(e, a, "m_Passes");
    var x, y := RequiredArray(Some(e), "m_Passes"), RequiredArray(Some(a), "m_Passes");
    if IsValuesArray(x) && IsValuesArray(y) {
      EqualElements(x.value, y.value);
      if !kind.SubshaderMetadata? {
        PassesUnderEqual(x.value.elements, y.value.elements, kind, i, 0);
      }
    }
  }

  lemma {:induction false} SubshadersUnderEqual(es: seq<Value>, acts: seq<Value>, kind: SequenceKind, i: nat)
    requires i <= |es| == |acts|
    requires forall k :: 0 <= k < |es| ==> Alike(es[k], acts[k])
    ensures Consistent(SubshadersFrom(es, acts, kind, i).verdict, kind,
              forall k :: 0 <= k < |es| ==> SubshaderShaped(es[k]) && SubshaderShaped(acts[k]),
              forall k :: 0 <= k < |es| ==> SubshaderIsBare(es[k]))
    decreases |es| - i
  {
    hide Alike, SubshaderVerdict, SubshaderShaped, SubshaderIsBare;
    if i < |es| {
      SubshaderUnderEqual(es[i], acts[i], kind, i);
      SubshadersUnderEqual(es, acts, kind, i + 1);
    }
  }

  lemma {:induction false} PassCountsUnderEqual(es: seq<Value>, acts: seq<Value>, i: nat)
    requires i <= |es| == |acts|
    requires forall k :: 0 <= k < |es| ==> Alike(es[k], acts[k])
    ensures PassCountsFrom(es, acts, i).verdict in {Equal, Invalid}
    ensures (forall k :: 0 <= k < |es| ==> SubshaderShaped(es[k])) ==> PassCountsFrom(es, acts, i).verdict == Equal
    decreases |es| - i
  {
    hide ValueVerdict, RequiredArray, PassShaped, IsPair;
    if i < |es| {
      if ValueVerdict(es[i], acts[i]) != Equal {
        PairHasNoOtherChild(es[i], "m_Passes");
        return;
      }
      EqualArrays(es[i], acts[i], "m_Passes");
      var x, y := RequiredArray(Some(es[i]), "m_Passes"), RequiredArray(Some(acts[i]), "m_Passes");
      if x.Some? {
        EqualCounts(x.value, y.value);
      }
      PassCountsUnderEqual(es, acts, i + 1);
    }
  }

  /** While the whole of m_ParsedForm is equal no category reports a mismatch; on schema-shaped objects
      every category matches, program variants being unavailable when editor programs are recorded. */
  lemma BackstopSubsumesSequences(e: Value, a: Value, kind: SequenceKind)
    requires ValueVerdict(e, a) == Equal
    ensures Consistent(SequencesVerdict(e, a, kind).verdict, kind, SchemaShaped(e) && SchemaShaped(a),
              HasNoEditorPrograms(e))
    ensures TopologyVerdict(e, a).verdict in {Equal, Invalid}
    ensures SchemaShaped(e) && SchemaShaped(a) ==> TopologyVerdict(e, a).verdict == Equal
  {
    hide ValueVerdict, RequiredArray, SubshadersFrom, PassCountsFrom, SubshaderShaped, SubshaderIsBare, Alike;
    EqualArrays(e, a, "m_SubShaders");
    var x, y := RequiredArray(Some(e), "m_SubShaders"), RequiredArray(Some(a), "m_SubShaders");
    if IsValuesArray(x) && IsValuesArray(y) {
      EqualElements(x.value, y.value);
      SubshadersUnderEqual(x.value.elements, y.value.elements, kind, 0);
      PassCountsUnderEqual(x.value.elements, y.value.elements, 0);
    }
  }

  lemma BackstopSubsumesFields(e: Value, a: Value)
    requires ValueVerdict(e, a) == Equal
    ensures NamedVerdict(e, a, "m_PropInfo") == if FindChild(e, "m_PropInfo").Some? then Equal else Invalid
    ensures NamedVerdict(e, a, "m_Dependencies") == if FindChild(e, "m_Dependencies").Some? then Equal else Invalid
    ensures NamedVerdict(e, a, "m_CustomEditorForRenderPipelines")
         == if FindChild(e, "m_CustomEditorForRenderPipelines").Some? then Equal else Invalid
    ensures NamedListVerdict(e, a, KeywordFields()) == if HasChildren(e, KeywordFields()) then Equal else Invalid
    ensures NamedListVerdict(e, a, IdentityFields()) == if HasChildren(e, IdentityFields()) then Equal else Invalid
  {
    hide ValueVerdict, FindChild, NamedVerdict, NamedListVerdict, HasChildren;
    NamedUnderEqual(e, a, "m_PropInfo");
    NamedUnderEqual(e, a, "m_Dependencies");
    NamedUnderEqual(e, a, "m_CustomEditorForRenderPipelines");
    NamedListUnderEqual(e, a, KeywordFields());
    NamedListUnderEqual(e, a, IdentityFields());
  }
}
