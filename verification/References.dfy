/** Object references: the resolver, the dependency list and the texture table. */
module References {
  import opened Basics
  import opened TypeTree

  datatype FieldStatus = NotEvaluated | Match | Mismatch | AuthorityUnavailable | AuthorityInvalid

  datatype PPtr = PPtr(fileId: int, pathId: int)

  datatype Side = ExpectedSide | ActualSide

  type StableId = seq<Byte>

  /** None models an absent callback; a callback fails by returning None. */
  type Resolver = Option<(Side, PPtr) -> Option<StableId>>

  predicate IsNull(p: PPtr) {
    p.fileId == 0 && p.pathId == 0
  }

  function ParsePPtr(v: Value): Option<PPtr> {
    var file, path := FindChild(v, "m_FileID"), FindChild(v, "m_PathID");
    if file.None? || path.None? then None
    else
      var f, p := GetInt(file.value), GetInt(path.value);
      if f.None? || p.None? || f.value < INT_MIN || f.value > INT_MAX then None
      else Some(PPtr(f.value, p.value))
  }

  /** compare_pptr, on the parsed pointers. */
  function PointerStatus(e: Option<PPtr>, a: Option<PPtr>, r: Resolver): FieldStatus {
    if e.None? || a.None? then AuthorityInvalid
    else if IsNull(e.value) || IsNull(a.value) then
      if IsNull(e.value) == IsNull(a.value) then Match else Mismatch
    else if r.None? then AuthorityUnavailable
    else
      var x, y := r.value(ExpectedSide, e.value), r.value(ActualSide, a.value);
      if x.None? || y.None? then AuthorityUnavailable
      else if x.value == y.value then Match else Mismatch
  }

  /** A status and, when a single element is at fault, its index. */
  datatype Found = Found(status: FieldStatus, element: int)

  function PointersOf(vs: seq<Value>): (r: seq<Option<PPtr>>)
    ensures |r| == |vs|
  {
    seq(|vs|, i requires 0 <= i < |vs| => ParsePPtr(vs[i]))
  }

  /** compare_dependency_ptrs on the two arrays of pointers; None is a missing or malformed array. */
  function DependencyStatus(es: Option<seq<Option<PPtr>>>, acts: Option<seq<Option<PPtr>>>, r: Resolver): Found {
    if es.None? || acts.None? then Found(AuthorityInvalid, -1)
    else if |es.value| != |acts.value| then Found(Mismatch, -1)
    else DependenciesFrom(es.value, acts.value, r, 0)
  }

  function DependenciesFrom(es: seq<Option<PPtr>>, acts: seq<Option<PPtr>>, r: Resolver, i: nat): Found
    requires i <= |es| == |acts|
    decreases |es| - i
  {
    if i == |es| then Found(Match, -1)
    else
      var s := PointerStatus(es[i], acts[i], r);
      if s != Match then Found(s, i) else DependenciesFrom(es, acts, r, i + 1)
  }

  // ---------- The texture table ----------

  type TableRow = (string, PPtr)

  /** nonmodifiable_pair plus the pointer parse that the uniqueness scan performs on every entry. */
  function TextureRow(v: Value): Option<TableRow> {
    if IsPair(v) && StringIsValid(PairKey(v)) && ParsePPtr(PairValue(v)).Some? then
      Some((PairKey(v).text.value, ParsePPtr(PairValue(v)).value))
    else None
  }

  /** nonmodifiable_keys_are_unique: the rows of a table whose entries parse and whose keys differ. */
  function TextureTable(map_: Option<Value>): (r: Option<seq<TableRow>>)
    ensures r.Some? ==> KeysDistinct(r.value)
  {
    if map_.None? || !map_.value.ArrayValue? then None
    else
      var vs := map_.value.elements;
      if exists i :: 0 <= i < |vs| && TextureRow(vs[i]).None? then None
      else
        var rows := seq(|vs|, i requires 0 <= i < |vs| => TextureRow(vs[i]).value);
        if exists i, j :: 0 <= i < j < |rows| && rows[i].0 == rows[j].0 then None else Some(rows)
  }

  /** compare_nonmodifiable_textures. */
  function TextureStatus(es: Option<seq<TableRow>>, acts: Option<seq<TableRow>>, r: Resolver): Found {
    if es.None? || acts.None? then Found(AuthorityInvalid, -1)
    else if |es.value| != |acts.value| then Found(Mismatch, -1)
    else TexturesFrom(es.value, acts.value, r, 0)
  }

  function TexturesFrom(es: seq<TableRow>, acts: seq<TableRow>, r: Resolver, i: nat): Found
    requires i <= |es|
    decreases |es| - i
  {
    if i == |es| then Found(Match, -1)
    else
      var s := TextureLookup(es[i], acts, r, 0);
      if s != Match then Found(s, i) else TexturesFrom(es, acts, r, i + 1)
  }

  function TextureLookup(row: TableRow, acts: seq<TableRow>, r: Resolver, j: nat): FieldStatus
    requires j <= |acts|
    decreases |acts| - j
  {
    if j == |acts| then Mismatch
    else if acts[j].0 == row.0 then PointerStatus(Some(row.1), Some(acts[j].1), r)
    else TextureLookup(row, acts, r, j + 1)
  }

  // ---------- The comparisons as the loops that run them ----------

  /** The pointers of an array kept by element. */
  function PointerArray(v: Option<Value>): Option<seq<Option<PPtr>>> {
    if v.Some? && v.value.ArrayValue? then Some(PointersOf(v.value.elements)) else None
  }

  /** compare_pptr. */
  method ComparePointers(e: Value, a: Value, r: Resolver) returns (s: FieldStatus)
    ensures s == PointerStatus(ParsePPtr(e), ParsePPtr(a), r)
  {
    var x, y := ParsePPtr(e), ParsePPtr(a);
    if x.None? || y.None? { return AuthorityInvalid; }
    var expectedNull := x.value.fileId == 0 && x.value.pathId == 0;
    var actualNull := y.value.fileId == 0 && y.value.pathId == 0;
    if expectedNull || actualNull { return if expectedNull == actualNull then Match else Mismatch; }
    if r.None? { return AuthorityUnavailable; }
    var expectedId, actualId := r.value(ExpectedSide, x.value), r.value(ActualSide, y.value);
    if expectedId.None? || actualId.None? { return AuthorityUnavailable; }
    s := if expectedId.value == actualId.value then Match else Mismatch;
  }

  /** compare_dependency_ptrs. */
  method CompareDependencies(e: Option<Value>, a: Option<Value>, r: Resolver) returns (found: Found)
    ensures found == DependencyStatus(PointerArray(e), PointerArray(a), r)
  {
    hide PointerStatus, ParsePPtr;
    if e.None? || a.None? || !e.value.ArrayValue? || !a.value.ArrayValue? { return Found(AuthorityInvalid, -1); }
    var es, acts := e.value.elements, a.value.elements;
    if |es| != |acts| { return Found(Mismatch, -1); }
    ghost var ep, ap := PointersOf(es), PointersOf(acts);
    for index := 0 to |es|
      invariant DependenciesFrom(ep, ap, r, 0) == DependenciesFrom(ep, ap, r, index)
    {
      var status := ComparePointers(es[index], acts[index], r);
      if status != Match { return Found(status, index); }
    }
    found := Found(Match, -1);
  }

  /** nonmodifiable_keys_are_unique, with the rows it parses. */
  method ReadTable(map_: Option<Value>) returns (r: Option<seq<TableRow>>)
    ensures r == TextureTable(map_)
  {
    hide TextureRow;
    if map_.None? || !map_.value.ArrayValue? { return None; }
    var vs := map_.value.elements;
    var rows: seq<TableRow> := [];
    for index := 0 to |vs|
      invariant |rows| == index && forall i :: 0 <= i < index ==> TextureRow(vs[i]) == Some(rows[i])
      invariant forall i, j :: 0 <= i < j < index ==> rows[i].0 != rows[j].0
    {
      var row := TextureRow(vs[index]);
      if row.None? { return None; }
      for previous := 0 to index
        invariant forall i :: 0 <= i < previous ==> rows[i].0 != row.value.0
      {
        if row.value.0 == rows[previous].0 {
          RepeatedKey(vs, previous, index);
          return None;
        }
      }
      rows := rows + [row.value];
    }
    assert seq(|vs|, i requires 0 <= i < |vs| => TextureRow(vs[i]).value) == rows;
    r := Some(rows);
  }

  lemma RepeatedKey(vs: seq<Value>, i: nat, j: nat)
    requires i < j < |vs| && TextureRow(vs[i]).Some? && TextureRow(vs[j]).Some?
    requires TextureRow(vs[i]).value.0 == TextureRow(vs[j]).value.0
    ensures forall map_: Value :: map_.ArrayValue? && map_.elements == vs ==> TextureTable(Some(map_)) == None
  {
    hide TextureRow;
    if forall k :: 0 <= k < |vs| ==> TextureRow(vs[k]).Some? {
      var rows := seq(|vs|, k requires 0 <= k < |vs| => TextureRow(vs[k]).value);
      assert rows[i].0 == rows[j].0;
    }
  }

  /** compare_nonmodifiable_textures. */
  method CompareTextures(e: Option<Value>, a: Option<Value>, r: Resolver) returns (found: Found)
    ensures found == TextureStatus(TextureTable(e), TextureTable(a), r)
  {
    hide TextureTable, PointerStatus;
    var expected := ReadTable(e);
    var actual := ReadTable(a);
    if expected.None? || actual.None? { return Found(AuthorityInvalid, -1); }
    var es, acts := expected.value, actual.value;
    if |es| != |acts| { return Found(Mismatch, -1); }
    for expectedIndex := 0 to |es|
      invariant TexturesFrom(es, acts, r, 0) == TexturesFrom(es, acts, r, expectedIndex)
    {
      var status := Mismatch;
      var actualIndex := 0;
      while actualIndex < |acts| && acts[actualIndex].0 != es[expectedIndex].0
        invariant actualIndex <= |acts|
        invariant TextureLookup(es[expectedIndex], acts, r, 0) == TextureLookup(es[expectedIndex], acts, r, actualIndex)
      {
        actualIndex := actualIndex + 1;
      }
      if actualIndex < |acts| {
        status := PointerStatus(Some(es[expectedIndex].1), Some(acts[actualIndex].1), r);
      }
      if status != Match { return Found(status, expectedIndex); }
    }
    found := Found(Match, -1);
  }

  // ---------- The meaning of a verdict on two pointers ----------

  const NULL_PPTR := PPtr(0, 0)

  /** The identity the resolver gives one side's pointer. */
  ghost function IdentityOf(r: Resolver, side: Side, p: PPtr): Option<StableId> {
    if r.Some? then r.value(side, p) else None
  }

  /** Both null, or neither and both resolved to one stable identity. */
  ghost predicate SameObject(e: PPtr, a: PPtr, r: Resolver) {
    if e == NULL_PPTR || a == NULL_PPTR then e == a
    else
      var x, y := IdentityOf(r, ExpectedSide, e), IdentityOf(r, ActualSide, a);
      x.Some? && y.Some? && x.value == y.value
  }

  /** Two objects known to differ: one pointer is null and the other not, or their identities differ. */
  ghost predicate OtherObject(e: PPtr, a: PPtr, r: Resolver) {
    if e == NULL_PPTR || a == NULL_PPTR then e != a
    else
      var x, y := IdentityOf(r, ExpectedSide, e), IdentityOf(r, ActualSide, a);
      x.Some? && y.Some? && x.value != y.value
  }

  /** What each verdict on two pointers means; the rest is a pointer that cannot be resolved. */
  lemma PointerStatusMeaning(e: Option<PPtr>, a: Option<PPtr>, r: Resolver)
    ensures PointerStatus(e, a, r) == AuthorityInvalid <==> e == None || a == None
    ensures e.Some? && a.Some? ==> (PointerStatus(e, a, r) == Match <==> SameObject(e.value, a.value, r))
    ensures e.Some? && a.Some? ==> (PointerStatus(e, a, r) == Mismatch <==> OtherObject(e.value, a.value, r))
    ensures PointerStatus(e, a, r) == AuthorityUnavailable <==>
              e.Some? && a.Some? && e.value != PPtr(0, 0) && a.value != PPtr(0, 0)
              && (r == None || r.value(ExpectedSide, e.value) == None || r.value(ActualSide, a.value) == None)
  {
  }

  // ---------- The dependency list ----------

  ghost predicate SamePointer(e: Option<PPtr>, a: Option<PPtr>, r: Resolver) {
    e.Some? && a.Some? && SameObject(e.value, a.value, r)
  }

  /** Position `k` is the first, from `from` on, whose pointers do not name one object. */
  ghost predicate IsFirstFault(es: seq<Option<PPtr>>, acts: seq<Option<PPtr>>, r: Resolver, from: nat, k: int)
    requires |es| == |acts|
  {
    && from <= k < |es| && !SamePointer(es[k], acts[k], r)
    && forall j :: from <= j < k ==> SamePointer(es[j], acts[j], r)
  }

  /** The list matches when both sides have as many pointers and every position names one object;
      otherwise the first position that does not decides, with its own verdict. */
  lemma DependencyStatusDecidesLists(es: seq<Option<PPtr>>, acts: seq<Option<PPtr>>, r: Resolver)
    ensures var found := DependencyStatus(Some(es), Some(acts), r);
            && (found.status == Match <==>
                  |es| == |acts| && forall i :: 0 <= i < |es| ==> SamePointer(es[i], acts[i], r))
            && (|es| != |acts| ==> found == Found(Mismatch, -1))
            && (|es| == |acts| ==> forall i :: IsFirstFault(es, acts, r, 0, i) ==>
                    found == Found(PointerStatus(es[i], acts[i], r), i))
    ensures DependencyStatus(None, Some(acts), r) == Found(AuthorityInvalid, -1)
    ensures DependencyStatus(Some(es), None, r) == DependencyStatus(None, None, r) == Found(AuthorityInvalid, -1)
  {
    hide PointerStatus, SamePointer;
    if |es| == |acts| {
      DependenciesFromDecides(es, acts, r, 0);
    }
  }

  lemma {:induction false} DependenciesFromDecides(es: seq<Option<PPtr>>, acts: seq<Option<PPtr>>, r: Resolver, i: nat)
    requires i <= |es| == |acts|
    ensures var found := DependenciesFrom(es, acts, r, i);
            && (found.status == Match <==> forall k :: i <= k < |es| ==> SamePointer(es[k], acts[k], r))
            && (forall k :: IsFirstFault(es, acts, r, i, k) ==> found == Found(PointerStatus(es[k], acts[k], r), k))
    decreases |es| - i
  {
    hide PointerStatus;
    if i < |es| {
      PointerStatusMeaning(es[i], acts[i], r);
      DependenciesFromDecides(es, acts, r, i + 1);
    }
  }

  // ---------- The tables agree as maps ----------

  ghost predicate TablesAgree(em: map<string, PPtr>, am: map<string, PPtr>, r: Resolver) {
    em.Keys == am.Keys && forall k :: k in em ==> SameObject(em[k], am[k], r)
  }

  lemma {:induction false} LookupFindsKey(row: TableRow, acts: seq<TableRow>, r: Resolver, j: nat)
    requires j <= |acts| && KeysDistinct(acts)
    ensures TextureLookup(row, acts, r, j) == Match <==>
            exists k :: j <= k < |acts| && acts[k].0 == row.0 && SameObject(row.1, acts[k].1, r)
    decreases |acts| - j
  {
    if j < |acts| {
      PointerStatusMeaning(Some(row.1), Some(acts[j].1), r);
      LookupFindsKey(row, acts, r, j + 1);
    }
  }

  lemma {:induction false} TexturesMatchRowwise(es: seq<TableRow>, acts: seq<TableRow>, r: Resolver, i: nat)
    requires i <= |es| && KeysDistinct(acts)
    ensures TexturesFrom(es, acts, r, i).status == Match <==>
            forall k :: i <= k < |es| ==>
              es[k].0 in MapOf(acts) && SameObject(es[k].1, MapOf(acts)[es[k].0], r)
    decreases |es| - i
  {
    if i < |es| {
      MapOfDistinct(acts);
      LookupFindsKey(es[i], acts, r, 0);
      TexturesMatchRowwise(es, acts, r, i + 1);
    }
  }

  /** Pigeonhole again: the one-sided search decides agreement of the two tables as maps. */
  lemma TextureStatusDecidesTables(es: seq<TableRow>, acts: seq<TableRow>, r: Resolver)
    requires KeysDistinct(es) && KeysDistinct(acts)
    ensures TextureStatus(Some(es), Some(acts), r).status == Match <==> TablesAgree(MapOf(es), MapOf(acts), r)
  {
    var em, am := MapOf(es), MapOf(acts);
    MapOfDistinct(es);
    MapOfDistinct(acts);
    TexturesMatchRowwise(es, acts, r, 0);
    if TextureStatus(Some(es), Some(acts), r).status == Match {
      assert em.Keys <= am.Keys;
      SubsetOfEqualSize(em.Keys, am.Keys);
    }
    if TablesAgree(em, am, r) {
      assert |em.Keys| == |am.Keys|;
    }
  }

  /** The rows `es` and `acts` name one object for the key of row `i`. */
  ghost predicate RowAgrees(es: seq<TableRow>, acts: seq<TableRow>, r: Resolver, i: nat)
    requires i < |es|
  {
    exists k :: 0 <= k < |acts| && acts[k].0 == es[i].0 && SameObject(es[i].1, acts[k].1, r)
  }

  /** A table that does not match is decided by its first row without agreement: MISMATCH when the other
      side lacks the key, else the verdict on the two pointers under that key. */
  lemma TextureStatusNamesFirstRow(es: seq<TableRow>, acts: seq<TableRow>, r: Resolver, i: nat)
    requires KeysDistinct(acts) && |es| == |acts| && i < |es|
    requires !RowAgrees(es, acts, r, i) && forall j :: 0 <= j < i ==> RowAgrees(es, acts, r, j)
    ensures var found := TextureStatus(Some(es), Some(acts), r);
            && found.element == i
            && ((forall k :: 0 <= k < |acts| ==> acts[k].0 != es[i].0) ==> found.status == Mismatch)
            && forall k :: 0 <= k < |acts| && acts[k].0 == es[i].0 ==>
                 found.status == PointerStatus(Some(es[i].1), Some(acts[k].1), r)
  {
    TexturesFromNamesFirstRow(es, acts, r, 0, i);
    LookupAnswers(es[i], acts, r, 0);
  }

  lemma {:induction false} TexturesFromNamesFirstRow(
      es: seq<TableRow>, acts: seq<TableRow>, r: Resolver, from: nat, i: nat)
    requires KeysDistinct(acts) && from <= i < |es|
    requires !RowAgrees(es, acts, r, i) && forall j :: 0 <= j < i ==> RowAgrees(es, acts, r, j)
    ensures TexturesFrom(es, acts, r, from) == Found(TextureLookup(es[i], acts, r, 0), i)
    decreases i - from
  {
    hide SameObject;
    LookupFindsKey(es[from], acts, r, 0);
    if from < i {
      assert RowAgrees(es, acts, r, from);
      TexturesFromNamesFirstRow(es, acts, r, from + 1, i);
    }
  }

  lemma {:induction false} LookupAnswers(row: TableRow, acts: seq<TableRow>, r: Resolver, j: nat)
    requires j <= |acts| && KeysDistinct(acts)
    ensures (forall k :: j <= k < |acts| ==> acts[k].0 != row.0) ==> TextureLookup(row, acts, r, j) == Mismatch
    ensures forall k :: j <= k < |acts| && acts[k].0 == row.0 ==>
              TextureLookup(row, acts, r, j) == PointerStatus(Some(row.1), Some(acts[k].1), r)
    decreases |acts| - j
  {
    hide PointerStatus;
    if j < |acts| {
      LookupAnswers(row, acts, r, j + 1);
    }
  }

  lemma TableLengths(es: seq<TableRow>, acts: seq<TableRow>, r: Resolver)
    ensures |es| != |acts| ==> TextureStatus(Some(es), Some(acts), r) == Found(Mismatch, -1)
    ensures TextureStatus(None, Some(acts), r) == Found(AuthorityInvalid, -1)
    ensures TextureStatus(Some(es), None, r) == TextureStatus(None, None, r) == Found(AuthorityInvalid, -1)
  {
  }

  // ---------- What is read off the trees ----------

  /** The first members of these names hold a 32-bit file id and a 64-bit path id. */
  ghost predicate HoldsPointer(v: Value, p: PPtr) {
    && -0x8000_0000 <= p.fileId <= 0x7FFF_FFFF
    && -0x8000_0000_0000_0000 <= p.pathId <= 0x7FFF_FFFF_FFFF_FFFF
    && (exists i: nat :: IsFirstMember(v, "m_FileID", i) && HasNumber(v.members[i], p.fileId))
    && (exists i: nat :: IsFirstMember(v, "m_PathID", i) && HasNumber(v.members[i], p.pathId))
  }

  lemma ParsedPointerMeaning(v: Value, p: PPtr)
    ensures ParsePPtr(v) == Some(p) <==> HoldsPointer(v, p)
  {
    hide FindChild;
    ChildMeaning(v, "m_FileID");
    ChildMeaning(v, "m_PathID");
    if ParsePPtr(v).Some? {
      FirstMemberExists(v, "m_FileID");
      FirstMemberExists(v, "m_PathID");
    }
  }

  lemma FirstMemberExists(v: Value, name: string)
    requires FindChild(v, name).Some?
    ensures exists i: nat :: IsFirstMember(v, name, i) && FindChild(v, name) == Some(v.members[i])
  {
    var i := FirstNamed(v.members, name, 0).value;
    assert IsFirstMember(v, name, i);
  }

  /** An entry under the key `row.0` that points to `row.1`. */
  ghost predicate HoldsRow(v: Value, row: TableRow) {
    && v.header.name.Some? && v.header.typeName.Some? && IsKeyedPair(v)
    && KeyOf(v).StringValue? && KeyOf(v).text == Some(row.0) && KeyOf(v).length == |row.0|
    && HoldsPointer(ValueOf(v), row.1)
  }

  /** A table is read when every element is such an entry and no two keys are the same. */
  lemma TextureTableMeaning(v: Value, rows: seq<TableRow>)
    ensures TextureTable(Some(v)) == Some(rows) <==>
              v.ArrayValue? && |rows| == |v.elements|
              && (forall i :: 0 <= i < |rows| ==> HoldsRow(v.elements[i], rows[i]))
              && (forall i, j :: 0 <= i < j < |rows| ==> rows[i].0 != rows[j].0)
    ensures TextureTable(None) == None
  {
    hide TextureRow, HoldsRow;
    if v.ArrayValue? {
      forall i, row | 0 <= i < |v.elements|
        ensures HoldsRow(v.elements[i], row) <==> TextureRow(v.elements[i]) == Some(row)
      {
        EntryMeaning(v.elements[i], row);
      }
      if |rows| == |v.elements| && forall i :: 0 <= i < |rows| ==> HoldsRow(v.elements[i], rows[i]) {
        forall i | 0 <= i < |rows|
          ensures TextureRow(v.elements[i]) == Some(rows[i])
        {
          EntryMeaning(v.elements[i], rows[i]);
        }
        TableOfRows(v, rows);
      }
    }
  }

  lemma TableOfRows(v: Value, rows: seq<TableRow>)
    requires v.ArrayValue? && |rows| == |v.elements|
    requires forall i :: 0 <= i < |rows| ==> TextureRow(v.elements[i]) == Some(rows[i])
    ensures TextureTable(Some(v))
         == if exists i, j :: 0 <= i < j < |rows| && rows[i].0 == rows[j].0 then None else Some(rows)
  {
    hide TextureRow;
    assert seq(|rows|, i requires 0 <= i < |rows| => TextureRow(v.elements[i]).value) == rows;
  }

  lemma EntryMeaning(v: Value, row: TableRow)
    ensures HoldsRow(v, row) <==> TextureRow(v) == Some(row)
  {
    hide ParsePPtr, PairKey, PairValue, HoldsPointer, IsPair, IsKeyedPair, KeyOf, ValueOf;
    PairMeaning(v);
    if IsKeyedPair(v) {
      ParsedPointerMeaning(ValueOf(v), row.1);
      if ParsePPtr(ValueOf(v)).Some? {
        ParsedPointerMeaning(ValueOf(v), ParsePPtr(ValueOf(v)).value);
      }
    }
  }

  /** The order of either table does not affect a match. */
  lemma TextureOrderIsIrrelevant(es: seq<TableRow>, acts: seq<TableRow>, r: Resolver, eOrder: seq<nat>,
                                 aOrder: seq<nat>)
    requires KeysDistinct(es) && KeysDistinct(acts)
    requires IsPermutation(eOrder, |es|) && IsPermutation(aOrder, |acts|)
    ensures TextureStatus(Some(Reorder(es, eOrder)), Some(Reorder(acts, aOrder)), r).status == Match
       <==> TextureStatus(Some(es), Some(acts), r).status == Match
  {
    hide TextureStatus, TablesAgree;
    MapOfIgnoresOrder(es, eOrder);
    MapOfIgnoresOrder(acts, aOrder);
    TextureStatusDecidesTables(es, acts, r);
    TextureStatusDecidesTables(Reorder(es, eOrder), Reorder(acts, aOrder), r);
  }

  // ---------- Renumbering ----------

  type Renumbering = (Side, PPtr) -> PPtr

  /** `after` answers for the renumbered pointers what `before` answered for the original ones. */
  ghost predicate RenumbersAlike(f: Renumbering, before: Resolver, after: Resolver) {
    && (forall side, p {:trigger f(side, p)} :: IsNull(f(side, p)) <==> IsNull(p))
    && (before.Some? <==> after.Some?)
    && (before.Some? ==> forall side, p {:trigger f(side, p)} ::
          !IsNull(p) ==> after.value(side, f(side, p)) == before.value(side, p))
  }

  ghost function RenumberAll(f: Renumbering, side: Side, ps: seq<Option<PPtr>>): seq<Option<PPtr>> {
    seq(|ps|, i requires 0 <= i < |ps| => if ps[i].None? then None else Some(f(side, ps[i].value)))
  }

  ghost function RenumberTable(f: Renumbering, side: Side, rows: seq<TableRow>): seq<TableRow> {
    seq(|rows|, i requires 0 <= i < |rows| => (rows[i].0, f(side, rows[i].1)))
  }

  lemma {:induction false} DependenciesIgnoreNumbering(
      f: Renumbering, before: Resolver, after: Resolver, es: seq<Option<PPtr>>, acts: seq<Option<PPtr>>, i: nat)
    requires RenumbersAlike(f, before, after) && i <= |es| == |acts|
    ensures DependenciesFrom(RenumberAll(f, ExpectedSide, es), RenumberAll(f, ActualSide, acts), after, i)
         == DependenciesFrom(es, acts, before, i)
    decreases |es| - i
  {
    if i < |es| {
      DependenciesIgnoreNumbering(f, before, after, es, acts, i + 1);
    }
  }

  lemma {:induction false} LookupIgnoresNumbering(
      f: Renumbering, before: Resolver, after: Resolver, row: TableRow, acts: seq<TableRow>, j: nat)
    requires RenumbersAlike(f, before, after) && j <= |acts|
    ensures TextureLookup((row.0, f(ExpectedSide, row.1)), RenumberTable(f, ActualSide, acts), after, j)
         == TextureLookup(row, acts, before, j)
    decreases |acts| - j
  {
    if j < |acts| {
      LookupIgnoresNumbering(f, before, after, row, acts, j + 1);
    }
  }

  lemma {:induction false} TexturesIgnoreNumbering(
      f: Renumbering, before: Resolver, after: Resolver, es: seq<TableRow>, acts: seq<TableRow>, i: nat)
    requires RenumbersAlike(f, before, after) && i <= |es|
    ensures TexturesFrom(RenumberTable(f, ExpectedSide, es), RenumberTable(f, ActualSide, acts), after, i)
         == TexturesFrom(es, acts, before, i)
    decreases |es| - i
  {
    if i < |es| {
      LookupIgnoresNumbering(f, before, after, es[i], acts, 0);
      TexturesIgnoreNumbering(f, before, after, es, acts, i + 1);
    }
  }

  /** Any renumbering of file and path ids, with the resolver renumbered alike, gives the same
      statuses and the same faulty element: raw ids never take part in a verdict. */
  lemma ReferencesIgnoreNumbering(
      f: Renumbering, before: Resolver, after: Resolver,
      eDeps: seq<Option<PPtr>>, aDeps: seq<Option<PPtr>>, eRows: seq<TableRow>, aRows: seq<TableRow>)
    requires RenumbersAlike(f, before, after)
    ensures DependencyStatus(Some(RenumberAll(f, ExpectedSide, eDeps)), Some(RenumberAll(f, ActualSide, aDeps)), after)
         == DependencyStatus(Some(eDeps), Some(aDeps), before)
    ensures TextureStatus(Some(RenumberTable(f, ExpectedSide, eRows)), Some(RenumberTable(f, ActualSide, aRows)), after)
         == TextureStatus(Some(eRows), Some(aRows), before)
  {
    if |eDeps| == |aDeps| {
      DependenciesIgnoreNumbering(f, before, after, eDeps, aDeps, 0);
    }
    TexturesIgnoreNumbering(f, before, after, eRows, aRows, 0);
  }

  // ---------- The resolver over a parsed reference map ----------

  datatype ReferenceRow = ReferenceRow(side: Side, owner: seq<Byte>, pointer: PPtr, stableId: StableId)

  predicate SameReference(x: ReferenceRow, y: ReferenceRow) {
    x.side == y.side && x.owner == y.owner && x.pointer == y.pointer
  }

  predicate NoDuplicateReference(rows: seq<ReferenceRow>) {
    forall i, j :: 0 <= i < j < |rows| ==> !SameReference(rows[i], rows[j])
  }

  function FirstReference(rows: seq<ReferenceRow>, key: ReferenceRow, from: nat): Option<StableId>
    requires from <= |rows|
    decreases |rows| - from
  {
    if from == |rows| then None
    else if SameReference(rows[from], key) then Some(rows[from].stableId)
    else FirstReference(rows, key, from + 1)
  }

  /** certificate_reference_resolver: linear search by side, owner digest, file id and path id. */
  method ResolveReference(rows: seq<ReferenceRow>, owner: Side -> seq<Byte>, side: Side, p: PPtr)
    returns (id: Option<StableId>)
    ensures id == FirstReference(rows, ReferenceRow(side, owner(side), p, []), 0)
  {
    ghost var key := ReferenceRow(side, owner(side), p, []);
    for index := 0 to |rows|
      invariant FirstReference(rows, key, 0) == FirstReference(rows, key, index)
    {
      var row := rows[index];
      if row.side == side && row.pointer == p && row.owner == owner(side) {
        return Some(row.stableId);
      }
    }
    id := None;
  }

  lemma {:induction false} FirstReferenceIsTheOne(rows: seq<ReferenceRow>, key: ReferenceRow, from: nat)
    requires from <= |rows| && NoDuplicateReference(rows)
    ensures forall i :: from <= i < |rows| && SameReference(rows[i], key) ==>
        FirstReference(rows, key, from) == Some(rows[i].stableId)
    ensures (forall i :: from <= i < |rows| ==> !SameReference(rows[i], key)) ==>
        FirstReference(rows, key, from) == None
    decreases |rows| - from
  {
    if from < |rows| {
      FirstReferenceIsTheOne(rows, key, from + 1);
    }
  }

  /** In a duplicate-free map row order never affects resolution. */
  lemma ResolutionIgnoresRowOrder(rows: seq<ReferenceRow>, order: seq<nat>, key: ReferenceRow)
    requires NoDuplicateReference(rows) && IsPermutation(order, |rows|)
    ensures NoDuplicateReference(Reorder(rows, order))
    ensures FirstReference(Reorder(rows, order), key, 0) == FirstReference(rows, key, 0)
  {
    var other := Reorder(rows, order);
    forall i, j | 0 <= i < j < |other|
      ensures !SameReference(other[i], other[j])
    {
      assert order[i] < order[j] || order[j] < order[i];
    }
    FirstReferenceIsTheOne(rows, key, 0);
    FirstReferenceIsTheOne(other, key, 0);
    if i :| 0 <= i < |rows| && SameReference(rows[i], key) {
      PermutationHits(order, |rows|, i);
      var k :| 0 <= k < |order| && order[k] == i;
      assert SameReference(other[k], key);
    }
  }
}
