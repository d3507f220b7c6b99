/** Where the comparison is not an equivalence: trees outside the well-formed ones. */
module CanonicalLimits {
  import opened Basics
  import opened TypeTree
  import opened CanonicalCompare

  function Named(name: string, typeName: string): Header {
    Header(Some(name), Some(typeName))
  }

  function ByteNamed(element: string, n: Byte): Value {
    IntValue(Named(element, "UInt8"), true, n)
  }

  /** A one-byte array stored element by element, its element carrying the given name. */
  function Listed(header: Header, element: string, n: Byte): Value {
    ArrayValue(header, [ByteNamed(element, n)])
  }

  function Entry(key: Value, value: Value): Value {
    StructValue(Named("data", "pair"), [key, value])
  }

  predicate IsMapHeader(h: Header) {
    h.name.Some? && h.typeName == Some("map")
  }

  function MapOfTwo(h: Header, p: Value, q: Value): Value {
    ArrayValue(h, [p, q])
  }

  /** Between two per-element arrays that both equal one packed array, EQUAL holds exactly when the
      element headers and signedness agree: a packed array compares numbers only. */
  lemma PackedMiddleIsTransitive(x: Value, y: Value, z: Value)
    requires x.ArrayValue? && y.PackedValue? && z.ArrayValue? && !IsMapType(y)
    requires ValueVerdict(x, y) == Equal && ValueVerdict(y, z) == Equal
    ensures |x.elements| == |z.elements|
    ensures ValueVerdict(x, z) == Equal <==>
            forall i :: 0 <= i < |x.elements| ==> SameElementShape(x.elements[i], z.elements[i])
  {
    BytesEqualMeansSameNumbers(x, y, 0);
    BytesEqualMeansSameNumbers(y, z, 0);
    forall i | 0 <= i < |x.elements|
      ensures x.elements[i].IntValue? && z.elements[i].IntValue? && x.elements[i].number == z.elements[i].number
    {
      assert ArrayGetUint(x, i).Some? && ArrayGetUint(x, i) == ArrayGetUint(y, i);
      assert ArrayGetUint(y, i) == ArrayGetUint(z, i);
    }
    MembersOfInts(x.elements, z.elements, 0);
  }

  predicate SameElementShape(p: Value, q: Value) {
    HeaderIsValid(p) && p.header == q.header && p.IntValue? && q.IntValue? && p.isUnsigned == q.isUnsigned
  }

  lemma {:induction false} BytesEqualMeansSameNumbers(e: Value, a: Value, i: nat)
    requires ArrayIsValid(e) && ArrayIsValid(a) && i <= Count(e) == Count(a)
    requires BytesVerdict(e, a, i) == Equal
    ensures forall k :: i <= k < Count(e) ==> ArrayGetUint(e, k).Some? && ArrayGetUint(e, k) == ArrayGetUint(a, k)
    decreases Count(e) - i
  {
    if i < Count(e) {
      BytesEqualMeansSameNumbers(e, a, i + 1);
    }
  }

  lemma {:induction false} MembersOfInts(es: seq<Value>, acts: seq<Value>, i: nat)
    requires i <= |es| == |acts|
    requires forall k :: 0 <= k < |es| ==> es[k].IntValue? && acts[k].IntValue? && es[k].number == acts[k].number
    ensures MembersVerdict(es, acts, i) == Equal <==> forall k :: i <= k < |es| ==> SameElementShape(es[k], acts[k])
    decreases |es| - i
  {
    if i < |es| {
      MembersOfInts(es, acts, i + 1);
    }
  }

  /** What EQUAL from `x` through `y` to `z` leaves open: wherever `y` stores bytes packed and both
      others store them one by one, the elements of the others carry the same headers and signedness. */
  predicate ShapesAgree(x: Value, y: Value, z: Value)
    decreases y
  {
    match y
    case PackedValue(_, _) => x.ArrayValue? && z.ArrayValue? ==> SameElementShapes(x.elements, z.elements)
    case ArrayValue(_, ys) => x.ArrayValue? && z.ArrayValue? ==> AllShapesAgree(x.elements, ys, z.elements)
    case StructValue(_, ys) => x.StructValue? && z.StructValue? ==> AllShapesAgree(x.members, ys, z.members)
    case _ => true
  }

  predicate AllShapesAgree(xs: seq<Value>, ys: seq<Value>, zs: seq<Value>)
    decreases ys
  {
    |xs| == |ys| == |zs| && forall i :: 0 <= i < |ys| ==> ShapesAgree(xs[i], ys[i], zs[i])
  }

  predicate SameElementShapes(xs: seq<Value>, zs: seq<Value>) {
    |xs| == |zs| && forall i :: 0 <= i < |xs| ==> SameElementShape(xs[i], zs[i])
  }

  /** Over all trees whose middle one holds no map, EQUAL goes through exactly when the shapes agree. */
  lemma {:induction false} TransitiveExactlyWhenShapesAgree(x: Value, y: Value, z: Value)
    requires MapFree(y) && ValueVerdict(x, y) == Equal && ValueVerdict(y, z) == Equal
    ensures ValueVerdict(x, z) == Equal <==> ShapesAgree(x, y, z)
    decreases y, 0
  {
    match y {
      case StructValue(_, ys) =>
        MembersTransitive(x.members, ys, z.members);
      case ArrayValue(_, ys) =>
        if x.ArrayValue? && z.ArrayValue? {
          MembersTransitive(x.elements, ys, z.elements);
        } else {
          ListedMiddle(x, y, z);
        }
      case PackedValue(_, _) =>
        if x.ArrayValue? && z.ArrayValue? {
          PackedMiddleIsTransitive(x, y, z);
        } else {
          ThroughNumbers(x, y, z);
        }
      case _ =>
    }
  }

  lemma {:induction false} MembersTransitive(xs: seq<Value>, ys: seq<Value>, zs: seq<Value>)
    requires |xs| == |ys| == |zs| && AllMapFree(ys)
    requires MembersVerdict(xs, ys, 0) == Equal && MembersVerdict(ys, zs, 0) == Equal
    ensures MembersVerdict(xs, zs, 0) == Equal <==> AllShapesAgree(xs, ys, zs)
    decreases ys
  {
    hide ValueVerdict, MembersVerdict, ShapesAgree, MapFree;
    MembersEqual(xs, ys, 0);
    MembersEqual(ys, zs, 0);
    MembersEqual(xs, zs, 0);
    forall i | 0 <= i < |ys|
      ensures ValueVerdict(xs[i], zs[i]) == Equal <==> ShapesAgree(xs[i], ys[i], zs[i])
    {
      assert ValueVerdict(xs[i], ys[i]) == Equal && ValueVerdict(ys[i], zs[i]) == Equal;
      TransitiveExactlyWhenShapesAgree(xs[i], ys[i], zs[i]);
    }
  }

  lemma {:induction false} MembersEqual(es: seq<Value>, acts: seq<Value>, i: nat)
    requires i <= |es| == |acts|
    ensures MembersVerdict(es, acts, i) == Equal <==>
              forall k :: i <= k < |es| ==> ValueVerdict(es[k], acts[k]) == Equal
    decreases |es| - i
  {
    hide ValueVerdict;
    if i < |es| {
      MembersEqual(es, acts, i + 1);
    }
  }

  /** A middle array stored one by one, at least one of the others packed: all three hold the same numbers. */
  lemma ListedMiddle(x: Value, y: Value, z: Value)
    requires y.ArrayValue? && !IsMapType(y) && !(x.ArrayValue? && z.ArrayValue?)
    requires ValueVerdict(x, y) == Equal && ValueVerdict(y, z) == Equal
    ensures ValueVerdict(x, z) == Equal
  {
    hide BytesVerdict, MembersVerdict;
    if x.ArrayValue? { ElementsToNumbers(x, y, z); }
    else if z.ArrayValue? { NumbersToElements(x, y, z); }
    else { ThroughNumbers(x, y, z); }
  }

  lemma ElementsToNumbers(x: Value, y: Value, z: Value)
    requires x.ArrayValue? && y.ArrayValue? && z.PackedValue? && !IsMapType(y)
    requires ValueVerdict(x, y) == Equal && ValueVerdict(y, z) == Equal
    ensures ValueVerdict(x, z) == Equal
  {
    MembersEqual(x.elements, y.elements, 0);
    BytesEqualMeansSameNumbers(y, z, 0);
    forall k | 0 <= k < Count(x)
      ensures ArrayGetUint(x, k).Some? && ArrayGetUint(x, k) == ArrayGetUint(z, k)
    {
      assert ValueVerdict(x.elements[k], y.elements[k]) == Equal;
      assert ArrayGetUint(y, k).Some? && ArrayGetUint(y, k) == ArrayGetUint(z, k);
    }
    SameNumbersMeansBytesEqual(x, z, 0);
  }

  lemma NumbersToElements(x: Value, y: Value, z: Value)
    requires x.PackedValue? && y.ArrayValue? && z.ArrayValue? && !IsMapType(y)
    requires ValueVerdict(x, y) == Equal && ValueVerdict(y, z) == Equal
    ensures ValueVerdict(x, z) == Equal
  {
    BytesEqualMeansSameNumbers(x, y, 0);
    MembersEqual(y.elements, z.elements, 0);
    forall k | 0 <= k < Count(x)
      ensures ArrayGetUint(x, k).Some? && ArrayGetUint(x, k) == ArrayGetUint(z, k)
    {
      assert ArrayGetUint(x, k).Some? && ArrayGetUint(x, k) == ArrayGetUint(y, k);
      assert ValueVerdict(y.elements[k], z.elements[k]) == Equal;
    }
    SameNumbersMeansBytesEqual(x, z, 0);
  }

  /** Both steps compare numbers, and so does the whole. */
  lemma ThroughNumbers(x: Value, y: Value, z: Value)
    requires ArrayIsValid(x) && ArrayIsValid(y) && ArrayIsValid(z) && !IsMapType(y)
    requires x.PackedValue? || z.PackedValue?
    requires (x.PackedValue? || y.PackedValue?) && (y.PackedValue? || z.PackedValue?)
    requires ValueVerdict(x, y) == Equal && ValueVerdict(y, z) == Equal
    ensures ValueVerdict(x, z) == Equal
  {
    BytesEqualMeansSameNumbers(x, y, 0);
    BytesEqualMeansSameNumbers(y, z, 0);
    forall k | 0 <= k < Count(x)
      ensures ArrayGetUint(x, k).Some? && ArrayGetUint(x, k) == ArrayGetUint(z, k)
    {
      assert ArrayGetUint(x, k).Some? && ArrayGetUint(x, k) == ArrayGetUint(y, k);
      assert ArrayGetUint(y, k) == ArrayGetUint(z, k);
    }
    SameNumbersMeansBytesEqual(x, z, 0);
  }

  lemma {:induction false} SameNumbersMeansBytesEqual(e: Value, a: Value, i: nat)
    requires ArrayIsValid(e) && ArrayIsValid(a) && i <= Count(e) == Count(a)
    requires forall k :: i <= k < Count(e) ==> ArrayGetUint(e, k).Some? && ArrayGetUint(e, k) == ArrayGetUint(a, k)
    ensures BytesVerdict(e, a, i) == Equal
    decreases Count(e) - i
  {
    if i < Count(e) {
      SameNumbersMeansBytesEqual(e, a, i + 1);
    }
  }

  /** EQUAL is not transitive when per-element bytes carry different headers. */
  lemma NotTransitive()
    ensures exists x, y, z ::
        ValueVerdict(x, y) == Equal && ValueVerdict(y, z) == Equal && ValueVerdict(x, z) == Different
  {
    var h := Named("key", "vector");
    var x, y, z := Listed(h, "a", 0), PackedValue(h, [0]), Listed(h, "b", 0);
    assert ValueVerdict(x, y) == Equal by { assert BytesVerdict(x, y, 1) == Equal; }
    assert ValueVerdict(y, z) == Equal by { assert BytesVerdict(y, z, 1) == Equal; }
    assert ValueVerdict(x.elements[0], z.elements[0]) == Different;
    assert MembersVerdict(x.elements, z.elements, 0) == Different;
    assert ValueVerdict(x, z) == Different;
  }

  /** Nor is EQUAL symmetric on maps: two expected keys may both find the one packed actual key. */
  lemma NotSymmetric(mapHeader: Header)
    requires IsMapHeader(mapHeader)
    ensures exists e, a :: IsFlatArray(mapHeader, e) && IsFlatArray(mapHeader, a)
                           && ValueVerdict(e, a) == Equal && ValueVerdict(a, e) == Different
  {
    hide ValueVerdict, Listed, Entry, MapFree;
    var h := Named("first", "vector");
    var none := NoneValue(Named("second", "int"));
    EntriesAreFlat(h, none);
    var e1, e2 := Entry(Listed(h, "a", 0), none), Entry(Listed(h, "b", 0), none);
    var a1, a2 := Entry(PackedValue(h, [0]), none), Entry(PackedValue(h, [1]), none);
    var e, a := MapOfTwo(mapHeader, e1, e2), MapOfTwo(mapHeader, a1, a2);
    AsymmetricMaps(mapHeader, h, none, e1, e2, a1, a2);
    assert IsFlatArray(mapHeader, e) && IsFlatArray(mapHeader, a);
  }

  lemma AsymmetricMaps(mapHeader: Header, h: Header, none: Value, e1: Value, e2: Value, a1: Value, a2: Value)
    requires IsMapHeader(mapHeader) && h == Named("first", "vector") && none == NoneValue(Named("second", "int"))
    requires e1 == Entry(Listed(h, "a", 0), none) && e2 == Entry(Listed(h, "b", 0), none)
    requires a1 == Entry(PackedValue(h, [0]), none) && a2 == Entry(PackedValue(h, [1]), none)
    ensures ValueVerdict(MapOfTwo(mapHeader, e1, e2), MapOfTwo(mapHeader, a1, a2)) == Equal
    ensures ValueVerdict(MapOfTwo(mapHeader, a1, a2), MapOfTwo(mapHeader, e1, e2)) == Different
  {
    hide ValueVerdict, LookupVerdict, IsPair, PairKey, PairValue, Depth;
    var v1, v2, p, q := Listed(h, "a", 0), Listed(h, "b", 0), PackedValue(h, [0]), PackedValue(h, [1]);
    PairParts(v1, none); PairParts(v2, none); PairParts(p, none); PairParts(q, none);
    KeyVerdicts(h, none);
    TwoEntryMap(mapHeader, e1, e2, a1, a2);
    TwoEntryMap(mapHeader, a1, a2, e1, e2);
    LookupFirst(e1, a1, a2);
    LookupFirst(e2, a1, a2);
    LookupFirst(a1, e1, e2);
    LookupMisses(a2, e1, e2);
  }

  lemma EntriesAreFlat(h: Header, none: Value)
    requires h == Named("first", "vector") && none.NoneValue?
    ensures MapFree(Entry(Listed(h, "a", 0), none)) && MapFree(Entry(Listed(h, "b", 0), none))
    ensures MapFree(Entry(PackedValue(h, [0]), none)) && MapFree(Entry(PackedValue(h, [1]), none))
  {
    assert MapFree(ByteNamed("a", 0)) && MapFree(ByteNamed("b", 0));
    assert MapFree(Listed(h, "a", 0)) && MapFree(Listed(h, "b", 0));
  }

  // ---------- Where the comparison is symmetric ----------

  /** No array of map type anywhere in the tree. */
  predicate MapFree(v: Value)
    decreases v
  {
    && !(KindOf(v) == ArrayKind && IsMapType(v))
    && match v
       case ArrayValue(_, elements) => forall i :: 0 <= i < |elements| ==> MapFree(elements[i])
       case StructValue(_, members) => forall i :: 0 <= i < |members| ==> MapFree(members[i])
       case _ => true
  }

  predicate AllMapFree(vs: seq<Value>) {
    forall i :: 0 <= i < |vs| ==> MapFree(vs[i])
  }

  /** Maps are the only place where the order of the two sides matters: while one side holds no map,
      malformed or not, both orders give the same verdict. */
  lemma {:induction false} MapFreeIsSymmetric(e: Value, a: Value)
    requires MapFree(e)
    ensures ValueVerdict(e, a) == ValueVerdict(a, e)
    decreases Max(Depth(e), Depth(a)), 1, 0
  {
    if HeadersMatch(e, a) {
      if e.StructValue? && a.StructValue? && |e.members| == |a.members| {
        MembersAreSymmetric(e.members, a.members, 0);
      } else if e.ArrayValue? && a.ArrayValue? && |e.elements| == |a.elements| {
        MembersAreSymmetric(e.elements, a.elements, 0);
      } else if ArrayIsValid(e) && ArrayIsValid(a) && Count(e) == Count(a) {
        BytesAreSymmetric(e, a, 0);
      }
    }
  }

  lemma {:induction false} MembersAreSymmetric(es: seq<Value>, acts: seq<Value>, i: nat)
    requires i <= |es| == |acts| && AllMapFree(es)
    ensures MembersVerdict(es, acts, i) == MembersVerdict(acts, es, i)
    decreases Max(DepthOfAll(es), DepthOfAll(acts)), 2, |es| - i
  {
    hide ValueVerdict, MapFree, Depth, DepthOfAll;
    if i < |es| {
      MapFreeIsSymmetric(es[i], acts[i]);
      MembersAreSymmetric(es, acts, i + 1);
    }
  }

  lemma {:induction false} BytesAreSymmetric(e: Value, a: Value, i: nat)
    requires ArrayIsValid(e) && ArrayIsValid(a) && i <= Count(e) == Count(a)
    ensures BytesVerdict(e, a, i) == BytesVerdict(a, e, i)
    decreases Count(e) - i
  {
    if i < Count(e) {
      BytesAreSymmetric(e, a, i + 1);
    }
  }

  /** An array under that header whose elements hold no map. */
  predicate IsFlatArray(h: Header, v: Value) {
    v.ArrayValue? && v.header == h && AllMapFree(v.elements)
  }

  /** Over all arrays of map-free elements under one header, the verdict is symmetric exactly when the
      header is not a map's. */
  lemma SymmetricExactlyOffMaps(h: Header)
    requires h.name.Some? && h.typeName.Some?
    ensures (forall e, a :: IsFlatArray(h, e) && IsFlatArray(h, a) ==> ValueVerdict(e, a) == ValueVerdict(a, e))
            <==> !IsMapHeader(h)
  {
    hide ValueVerdict;
    if IsMapHeader(h) {
      NotSymmetric(h);
    } else {
      forall e, a | IsFlatArray(h, e) && IsFlatArray(h, a)
        ensures ValueVerdict(e, a) == ValueVerdict(a, e)
      {
        MapFreeIsSymmetric(e, a);
      }
    }
  }

  // ---------- The two maps of the examples ----------

  lemma LookupFirst(entry: Value, a1: Value, a2: Value)
    requires IsPair(entry) && IsPair(a1) && IsPair(a2)
    requires ValueVerdict(PairKey(entry), PairKey(a1)) == Equal
    ensures LookupVerdict(entry, [a1, a2], 0) == ValueVerdict(PairValue(entry), PairValue(a1))
  {
    hide ValueVerdict, IsPair, PairKey, PairValue;
  }

  lemma LookupSecond(entry: Value, a1: Value, a2: Value)
    requires IsPair(entry) && IsPair(a1) && IsPair(a2)
    requires ValueVerdict(PairKey(entry), PairKey(a1)) == Different
    requires ValueVerdict(PairKey(entry), PairKey(a2)) == Equal
    ensures LookupVerdict(entry, [a1, a2], 0) == ValueVerdict(PairValue(entry), PairValue(a2))
  {
    hide ValueVerdict, IsPair, PairKey, PairValue;
    assert LookupVerdict(entry, [a1, a2], 1) == ValueVerdict(PairValue(entry), PairValue(a2));
  }

  lemma LookupMisses(entry: Value, a1: Value, a2: Value)
    requires IsPair(entry) && IsPair(a1) && IsPair(a2)
    requires ValueVerdict(PairKey(entry), PairKey(a1)) == Different
    requires ValueVerdict(PairKey(entry), PairKey(a2)) == Different
    ensures LookupVerdict(entry, [a1, a2], 0) == Different
  {
    hide ValueVerdict, IsPair, PairKey, PairValue;
    assert LookupVerdict(entry, [a1, a2], 2) == Different;
    assert LookupVerdict(entry, [a1, a2], 1) == Different;
  }

  lemma PairParts(key: Value, value: Value)
    requires key.header.name == Some("first") && value.header.name == Some("second")
    ensures IsPair(Entry(key, value)) && PairKey(Entry(key, value)) == key && PairValue(Entry(key, value)) == value
  {
    var m := Entry(key, value).members;
    assert m[0] == key && m[1] == value;
    assert "first" != "second";
    assert FirstNamed(m, "second", 0) == FirstNamed(m, "second", 1);
  }

  lemma KeyVerdicts(h: Header, none: Value)
    requires HeaderIsValid(none) && none.NoneValue?
    requires h == Named("first", "vector")
    ensures ValueVerdict(none, none) == Equal
    ensures var v1, v2, p, q := Listed(h, "a", 0), Listed(h, "b", 0), PackedValue(h, [0]), PackedValue(h, [1]);
            && ValueVerdict(v2, v1) == Different && ValueVerdict(q, p) == Different
            && ValueVerdict(v1, p) == Equal && ValueVerdict(v2, p) == Equal && ValueVerdict(p, v1) == Equal
            && ValueVerdict(q, v1) == Different && ValueVerdict(q, v2) == Different
  {
    PackedKeyVerdicts(h);
    var v1, v2 := Listed(h, "a", 0), Listed(h, "b", 0);
    assert ValueVerdict(v2.elements[0], v1.elements[0]) == Different;
    assert MembersVerdict(v2.elements, v1.elements, 0) == Different;
  }

  lemma PackedKeyVerdicts(h: Header)
    requires h == Named("first", "vector")
    ensures var v1, v2, p, q := Listed(h, "a", 0), Listed(h, "b", 0), PackedValue(h, [0]), PackedValue(h, [1]);
            && ValueVerdict(q, p) == Different
            && ValueVerdict(v1, p) == Equal && ValueVerdict(v2, p) == Equal && ValueVerdict(p, v1) == Equal
            && ValueVerdict(q, v1) == Different && ValueVerdict(q, v2) == Different
  {
    OnePackedByte(h, PackedValue(h, [1]), PackedValue(h, [0]));
    OnePackedByte(h, Listed(h, "a", 0), PackedValue(h, [0]));
    OnePackedByte(h, Listed(h, "b", 0), PackedValue(h, [0]));
    OnePackedByte(h, PackedValue(h, [0]), Listed(h, "a", 0));
    OnePackedByte(h, PackedValue(h, [1]), Listed(h, "a", 0));
    OnePackedByte(h, PackedValue(h, [1]), Listed(h, "b", 0));
  }

  /** One byte against one byte, at least one of them packed. */
  lemma OnePackedByte(h: Header, e: Value, a: Value)
    requires h == Named("first", "vector")
    requires e in {Listed(h, "a", 0), Listed(h, "b", 0), PackedValue(h, [0]), PackedValue(h, [1])}
    requires a in {Listed(h, "a", 0), Listed(h, "b", 0), PackedValue(h, [0]), PackedValue(h, [1])}
    requires e.PackedValue? || a.PackedValue?
    ensures ValueVerdict(e, a) == if ArrayGetUint(e, 0) == ArrayGetUint(a, 0) then Equal else Different
  {
    assert BytesVerdict(e, a, 1) == Equal;
  }

  /** What the comparison of two two-entry maps comes to. */
  lemma TwoEntryMap(mapHeader: Header, e1: Value, e2: Value, a1: Value, a2: Value)
    requires IsMapHeader(mapHeader) && IsPair(e1) && IsPair(e2) && IsPair(a1) && IsPair(a2)
    requires KeysDiffer(e2, e1) && KeysDiffer(a2, a1)
    ensures ValueVerdict(MapOfTwo(mapHeader, e1, e2), MapOfTwo(mapHeader, a1, a2))
         == var r := LookupVerdict(e1, [a1, a2], 0); if r != Equal then r else LookupVerdict(e2, [a1, a2], 0)
  {
    hide LookupVerdict, KeysDiffer, IsPair;
    var es, acts := [e1, e2], [a1, a2];
    assert MapIsValid(es) && MapIsValid(acts);
    assert EntriesVerdict(es, acts, 2) == Equal;
    var r1, r2 := LookupVerdict(e1, acts, 0), LookupVerdict(e2, acts, 0);
    assert es[1] == e2 && EntriesVerdict(es, acts, 1) == r2;
    assert es[0] == e1 && EntriesVerdict(es, acts, 0) == if r1 != Equal then r1 else r2;
    assert MapVerdict(es, acts) == EntriesVerdict(es, acts, 0);
    assert ArrayVerdict(MapOfTwo(mapHeader, e1, e2), MapOfTwo(mapHeader, a1, a2)) == MapVerdict(es, acts);
  }

  lemma LeafVerdicts(k1: Value, k2: Value, zero: Value, one: Value, broken: Value)
    requires k1 == IntValue(Named("first", "int"), false, 1) && k2 == k1.(number := 2)
    requires zero == IntValue(Named("second", "int"), false, 0) && one == zero.(number := 1)
    requires broken == BrokenStruct(Named("second", "int"))
    ensures ValueVerdict(k1, k1) == Equal && ValueVerdict(k2, k2) == Equal
    ensures ValueVerdict(k1, k2) == Different && ValueVerdict(k2, k1) == Different
    ensures ValueVerdict(zero, one) == Different && ValueVerdict(broken, broken) == Invalid
  {
  }

  /** On malformed trees DIFFERENT or INVALID may depend on the order of a map's entries. */
  lemma MalformedVerdictDependsOnOrder(h: Header)
    requires IsMapHeader(h)
    ensures exists p, q, a :: && ValueVerdict(MapOfTwo(h, p, q), a) == Different
                              && ValueVerdict(MapOfTwo(h, q, p), a) == Invalid
  {
    hide ValueVerdict, LookupVerdict, IsPair, PairKey, PairValue, Depth;
    var k1, k2 := IntValue(Named("first", "int"), false, 1), IntValue(Named("first", "int"), false, 2);
    var zero, one := IntValue(Named("second", "int"), false, 0), IntValue(Named("second", "int"), false, 1);
    var broken := BrokenStruct(Named("second", "int"));
    LeafVerdicts(k1, k2, zero, one, broken);
    PairParts(k1, zero); PairParts(k1, one); PairParts(k2, broken);
    var p, q, r := Entry(k1, zero), Entry(k2, broken), Entry(k1, one);
    TwoEntryMap(h, p, q, r, q);
    TwoEntryMap(h, q, p, r, q);
    LookupFirst(p, r, q);
    LookupSecond(q, r, q);
    assert ValueVerdict(MapOfTwo(h, p, q), MapOfTwo(h, r, q)) == Different;
    assert ValueVerdict(MapOfTwo(h, q, p), MapOfTwo(h, r, q)) == Invalid;
  }
}
