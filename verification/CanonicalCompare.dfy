/** The canonical comparison of two type trees: structs and arrays by position, maps by key, floats
    by bits, byte arrays by content whatever their storage.  The functions give the verdict, branch
    for branch; the methods at the end are the loops that compute it. */
module CanonicalCompare {
  import opened Basics
  import opened TypeTree

  datatype Verdict = Equal | Different | Unavailable | Invalid

  function ValueVerdict(e: Value, a: Value): Verdict
    decreases Max(Depth(e), Depth(a)), 1, 0
  {
    if !HeaderIsValid(e) || !HeaderIsValid(a) then Invalid
    else if !HeadersMatch(e, a) then Different
    else match KindOf(e)
      case IntKind =>
        if e.isUnsigned == a.isUnsigned && e.number == a.number then Equal else Different
      case FloatKind =>
        if e.bits == a.bits then Equal else Different
      case StringKind =>
        if !StringIsValid(e) || !StringIsValid(a) then Invalid
        else if e.text == a.text then Equal else Different
      case ArrayKind =>
        ArrayVerdict(e, a)
      case StructKind =>
        if e.BrokenStruct? || a.BrokenStruct? then Invalid
        else if |e.members| != |a.members| then Different
        else MembersVerdict(e.members, a.members, 0)
      case NoneKind =>
        Equal
      case UnknownKind =>
        Invalid
  }

  /** The verdict of the first position, from `i` on, where the two sequences are not equal. */
  function MembersVerdict(es: seq<Value>, acts: seq<Value>, i: nat): Verdict
    requires i <= |es| == |acts|
    decreases Max(DepthOfAll(es), DepthOfAll(acts)), 2, |es| - i
  {
    if i == |es| then Equal
    else
      var r := ValueVerdict(es[i], acts[i]);
      if r != Equal then r else MembersVerdict(es, acts, i + 1)
  }

  function ArrayVerdict(e: Value, a: Value): Verdict
    requires KindOf(e) == ArrayKind && KindOf(a) == ArrayKind
    decreases Max(Depth(e), Depth(a)), 0
  {
    if !ArrayIsValid(e) || !ArrayIsValid(a) then Invalid
    else if Count(e) != Count(a) then Different
    else if IsMapType(e) || IsMapType(a) then
      if !IsMapType(e) || !IsMapType(a) then Different
      else if e.PackedValue? || a.PackedValue? then Invalid
      else MapVerdict(e.elements, a.elements)
    else if e.PackedValue? || a.PackedValue? then BytesVerdict(e, a, 0)
    else MembersVerdict(e.elements, a.elements, 0)
  }

  /** At least one side is packed: both are read as unsigned numbers. */
  function BytesVerdict(e: Value, a: Value, i: nat): Verdict
    requires ArrayIsValid(e) && ArrayIsValid(a) && i <= Count(e) == Count(a)
    decreases Count(e) - i
  {
    if i == Count(e) then Equal
    else
      var x, y := ArrayGetUint(e, i), ArrayGetUint(a, i);
      if x.None? || y.None? then Invalid
      else if x.value != y.value then Different
      else BytesVerdict(e, a, i + 1)
  }

  /** Two earlier and later entries of one map carry keys that compare as different. */
  predicate KeysDiffer(later: Value, earlier: Value)
    requires IsPair(later) && IsPair(earlier)
    decreases Max(Depth(later), Depth(earlier)), 0
  {
    var r := ValueVerdict(PairKey(later), PairKey(earlier));
    r != Invalid && r != Equal
  }

  /** Every element is a key-value pair and no key compares equal to an earlier one. */
  predicate MapIsValid(s: seq<Value>)
    decreases DepthOfAll(s), 1
  {
    && AllPairs(s)
    && forall i, j :: 0 <= j < i < |s| ==> KeysDiffer(s[i], s[j])
  }

  function MapVerdict(es: seq<Value>, acts: seq<Value>): Verdict
    requires |es| == |acts|
    decreases Max(DepthOfAll(es), DepthOfAll(acts)), 3
  {
    if !MapIsValid(es) || !MapIsValid(acts) then Invalid
    else EntriesVerdict(es, acts, 0)
  }

  /** Expected entries are looked up one after the other; the first that is not matched decides. */
  function EntriesVerdict(es: seq<Value>, acts: seq<Value>, i: nat): Verdict
    requires i <= |es| && AllPairs(es) && AllPairs(acts)
    decreases Max(DepthOfAll(es), DepthOfAll(acts)), 2, |es| - i
  {
    if i == |es| then Equal
    else
      var r := LookupVerdict(es[i], acts, 0);
      if r != Equal then r else EntriesVerdict(es, acts, i + 1)
  }

  function LookupVerdict(entry: Value, acts: seq<Value>, j: nat): Verdict
    requires j <= |acts| && IsPair(entry) && AllPairs(acts)
    decreases Max(Depth(entry), DepthOfAll(acts)), 1, |acts| - j
  {
    if j == |acts| then Different
    else
      var k := ValueVerdict(PairKey(entry), PairKey(acts[j]));
      if k == Invalid then Invalid
      else if k == Equal then ValueVerdict(PairValue(entry), PairValue(acts[j]))
      else LookupVerdict(entry, acts, j + 1)
  }

  // ---------- The comparison as the loops that run it ----------

  /** canonical_value_compare. */
  method CompareValues(e: Value, a: Value) returns (r: Verdict)
    ensures r == ValueVerdict(e, a)
    decreases Max(Depth(e), Depth(a)), 1
  {
    if !HeaderIsValid(e) || !HeaderIsValid(a) { return Invalid; }
    if !HeadersMatch(e, a) { return Different; }
    match KindOf(e) {
      case ArrayKind =>
        r := CompareArrays(e, a);
      case StructKind =>
        if e.BrokenStruct? || a.BrokenStruct? { return Invalid; }
        if |e.members| != |a.members| { return Different; }
        r := CompareMembers(e.members, a.members);
      case IntKind =>
        r := if e.isUnsigned == a.isUnsigned && e.number == a.number then Equal else Different;
      case FloatKind =>
        r := if e.bits == a.bits then Equal else Different;
      case StringKind =>
        if !StringIsValid(e) || !StringIsValid(a) { return Invalid; }
        r := if e.text == a.text then Equal else Different;
      case NoneKind =>
        r := Equal;
      case UnknownKind =>
        r := Invalid;
    }
  }

  method CompareMembers(es: seq<Value>, acts: seq<Value>) returns (r: Verdict)
    requires |es| == |acts|
    ensures r == MembersVerdict(es, acts, 0)
    decreases Max(DepthOfAll(es), DepthOfAll(acts)), 2
  {
    for index := 0 to |es|
      invariant MembersVerdict(es, acts, 0) == MembersVerdict(es, acts, index)
    {
      r := CompareValues(es[index], acts[index]);
      if r != Equal { return; }
    }
    r := Equal;
  }

  /** canonical_array_compare. */
  method CompareArrays(e: Value, a: Value) returns (r: Verdict)
    requires KindOf(e) == ArrayKind && KindOf(a) == ArrayKind
    ensures r == ArrayVerdict(e, a)
    decreases Max(Depth(e), Depth(a)), 0
  {
    if !ArrayIsValid(e) || !ArrayIsValid(a) { return Invalid; }
    if Count(e) != Count(a) { return Different; }
    if IsMapType(e) || IsMapType(a) {
      if !IsMapType(e) || !IsMapType(a) { return Different; }
      if e.PackedValue? || a.PackedValue? { return Invalid; }
      r := CompareMaps(e.elements, a.elements);
      return;
    }
    if e.PackedValue? || a.PackedValue? {
      for index := 0 to Count(e)
        invariant BytesVerdict(e, a, 0) == BytesVerdict(e, a, index)
      {
        var x, y := ArrayGetUint(e, index), ArrayGetUint(a, index);
        if x.None? || y.None? { return Invalid; }
        if x.value != y.value { return Different; }
      }
      return Equal;
    }
    r := CompareMembers(e.elements, a.elements);
  }

  /** The key-uniqueness scan of one side of a map. */
  method KeysAreValid(s: seq<Value>) returns (ok: bool)
    ensures ok == MapIsValid(s)
    decreases DepthOfAll(s), 2
  {
    hide ValueVerdict, FindChild, Depth;
    for index := 0 to |s|
      invariant forall i :: 0 <= i < index ==> IsPair(s[i])
      invariant forall i, j :: 0 <= j < i < index ==> KeysDiffer(s[i], s[j])
    {
      if !IsPair(s[index]) { return false; }
      for previous := 0 to index
        invariant forall j :: 0 <= j < previous ==> KeysDiffer(s[index], s[j])
      {
        var duplicate := CompareValues(PairKey(s[index]), PairKey(s[previous]));
        if duplicate == Invalid || duplicate == Equal {
          assert !KeysDiffer(s[index], s[previous]);
          return false;
        }
      }
    }
    ok := true;
  }

  /** canonical_map_compare, for two arrays of equal length. */
  method CompareMaps(es: seq<Value>, acts: seq<Value>) returns (r: Verdict)
    requires |es| == |acts|
    ensures r == MapVerdict(es, acts)
    decreases Max(DepthOfAll(es), DepthOfAll(acts)), 3
  {
    var valid := KeysAreValid(es);
    if !valid { return Invalid; }
    valid := KeysAreValid(acts);
    if !valid { return Invalid; }
    for expectedIndex := 0 to |es|
      invariant EntriesVerdict(es, acts, 0) == EntriesVerdict(es, acts, expectedIndex)
    {
      r := LookUpEntry(es[expectedIndex], acts);
      if r != Equal { return; }
    }
    r := Equal;
  }

  /** The inner search of canonical_map_compare: one expected entry among the actual ones. */
  method LookUpEntry(entry: Value, acts: seq<Value>) returns (r: Verdict)
    requires IsPair(entry) && AllPairs(acts)
    ensures r == LookupVerdict(entry, acts, 0)
    decreases Max(Depth(entry), DepthOfAll(acts)), 2
  {
    for actualIndex := 0 to |acts|
      invariant LookupVerdict(entry, acts, 0) == LookupVerdict(entry, acts, actualIndex)
    {
      var key := CompareValues(PairKey(entry), PairKey(acts[actualIndex]));
      if key == Invalid { return Invalid; }
      if key == Equal {
        r := CompareValues(PairValue(entry), PairValue(acts[actualIndex]));
        return;
      }
    }
    r := Different;
  }
}
