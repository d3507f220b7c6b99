/** The canonical form of a type tree, and the theorem that the comparison decides its equality. */
module CanonicalForm {
  import opened Basics
  import opened TypeTree
  import opened CanonicalCompare

  /** Maps are finite maps, byte arrays are lists of numbers whatever their storage. */
  datatype Canon =
    | CInt(header: Header, isUnsigned: bool, number: int)
    | CFloat(header: Header, bits: bv64)
    | CText(header: Header, text: Option<string>)
    | CList(header: Header, items: seq<Canon>)
    | CMap(header: Header, entries: map<Canon, Canon>)
    | CStruct(header: Header, members: seq<Canon>)
    | CNone(header: Header)
    | CBroken(header: Header)

  /** Which arrays hold bytes, and the one header and signedness their per-element form gives each byte. */
  datatype Schema = Schema(byteArrays: set<Header>, byteElement: Header, byteUnsigned: bool)

  ghost function CanonOf(s: Schema, v: Value): Canon
    decreases v
  {
    match v
    case IntValue(h, u, n) => CInt(h, u, n)
    case FloatValue(h, bits) => CFloat(h, bits)
    case StringValue(h, text, _) => CText(h, text)
    case ArrayValue(h, elements) =>
      if h.typeName == Some("map") then CMap(h, MapOf(CanonPairs(s, elements))) else CList(h, CanonAll(s, elements))
    case PackedValue(h, bytes) =>
      CList(h, seq(|bytes|, i requires 0 <= i < |bytes| => CInt(s.byteElement, s.byteUnsigned, bytes[i])))
    case StructValue(h, members) => CStruct(h, CanonAll(s, members))
    case NoneValue(h) => CNone(h)
    case _ => CBroken(v.header)
  }

  ghost function CanonAll(s: Schema, vs: seq<Value>): (r: seq<Canon>)
    ensures |r| == |vs|
    ensures forall i :: 0 <= i < |vs| ==> r[i] == CanonOf(s, vs[i])
    decreases vs
  {
    if vs == [] then [] else CanonAll(s, vs[..|vs| - 1]) + [CanonOf(s, vs[|vs| - 1])]
  }

  /** An entry as its key and value; the pair's own header and member order do not take part. */
  ghost function CanonPair(s: Schema, v: Value): (Canon, Canon)
    decreases v
  {
    if IsKeyedPair(v) then (CanonOf(s, KeyOf(v)), CanonOf(s, ValueOf(v)))
    else (CBroken(v.header), CBroken(v.header))
  }

  ghost function CanonPairs(s: Schema, vs: seq<Value>): (r: seq<(Canon, Canon)>)
    ensures |r| == |vs|
    ensures forall i :: 0 <= i < |vs| ==> r[i] == CanonPair(s, vs[i])
    decreases vs
  {
    if vs == [] then [] else CanonPairs(s, vs[..|vs| - 1]) + [CanonPair(s, vs[|vs| - 1])]
  }

  predicate IsByteElement(s: Schema, v: Value) {
    v.IntValue? && v.header == s.byteElement && v.isUnsigned == s.byteUnsigned && 0 <= v.number < 256
  }

  /** A name and a type everywhere, exact-length strings, keyed pairs with pairwise distinct keys in maps,
      one byte-element header and signedness. */
  ghost predicate WellFormed(s: Schema, v: Value)
    decreases v
  {
    && v.header.name.Some? && v.header.typeName.Some?
    && match v
       case StringValue(_, text, length) => text.Some? && length == |text.value|
       case ArrayValue(h, elements) =>
         && (forall i :: 0 <= i < |elements| ==> WellFormed(s, elements[i]))
         && (h.typeName == Some("map") ==>
               && h !in s.byteArrays && KeysDistinct(CanonPairs(s, elements))
               && forall i :: 0 <= i < |elements| ==> IsKeyedPair(elements[i]))
         && (h in s.byteArrays ==> forall i :: 0 <= i < |elements| ==> IsByteElement(s, elements[i]))
       case PackedValue(h, _) => h in s.byteArrays && h.typeName != Some("map")
       case StructValue(_, members) => forall i :: 0 <= i < |members| ==> WellFormed(s, members[i])
       case BrokenArray(_) => false
       case BrokenStruct(_) => false
       case UnknownValue(_) => false
       case _ => true
  }

  ghost predicate AllWellFormed(s: Schema, vs: seq<Value>) {
    forall i :: 0 <= i < |vs| ==> WellFormed(s, vs[i])
  }

  // ---------- The theorem ----------

  ghost function Decide(same: bool): Verdict {
    if same then Equal else Different
  }

  /** On well-formed trees the comparison never reports INVALID and says EQUAL exactly when the
      canonical forms are the same. */
  lemma {:induction false} VerdictDecidesCanon(s: Schema, e: Value, a: Value)
    requires WellFormed(s, e) && WellFormed(s, a)
    ensures ValueVerdict(e, a) == Decide(CanonOf(s, e) == CanonOf(s, a))
    decreases Max(Depth(e), Depth(a)), 1, 0
  {
    if HeadersMatch(e, a) {
      match KindOf(e) {
        case ArrayKind => ArrayVerdictDecidesCanon(s, e, a);
        case StructKind => StructVerdictDecidesCanon(s, e, a);
        case _ =>
      }
    }
  }

  lemma {:induction false} StructVerdictDecidesCanon(s: Schema, e: Value, a: Value)
    requires WellFormed(s, e) && WellFormed(s, a) && HeadersMatch(e, a) && KindOf(e) == StructKind
    ensures ValueVerdict(e, a) == Decide(CanonOf(s, e) == CanonOf(s, a))
    decreases Max(Depth(e), Depth(a)), 0, 0
  {
    hide MembersVerdict, ArrayVerdict, CanonAll, CanonPairs, IsPair, MapOf;
    CanonAllSame(s, e.members, a.members);
    if |e.members| == |a.members| {
      MembersVerdictDecidesCanon(s, e.members, a.members, 0);
    }
  }

  lemma CanonAllSame(s: Schema, es: seq<Value>, acts: seq<Value>)
    ensures CanonAll(s, es) == CanonAll(s, acts) <==>
              |es| == |acts| && forall i :: 0 <= i < |es| ==> CanonOf(s, es[i]) == CanonOf(s, acts[i])
  {
    hide CanonOf, CanonAll;
    if CanonAll(s, es) == CanonAll(s, acts) {
      assert |CanonAll(s, es)| == |CanonAll(s, acts)|;
      forall i | 0 <= i < |es|
        ensures CanonOf(s, es[i]) == CanonOf(s, acts[i])
      {
        assert CanonAll(s, es)[i] == CanonAll(s, acts)[i];
      }
    }
  }

  lemma {:induction false} MembersVerdictDecidesCanon(s: Schema, es: seq<Value>, acts: seq<Value>, i: nat)
    requires i <= |es| == |acts| && AllWellFormed(s, es) && AllWellFormed(s, acts)
    ensures MembersVerdict(es, acts, i)
         == Decide(forall k :: i <= k < |es| ==> CanonOf(s, es[k]) == CanonOf(s, acts[k]))
    decreases Max(DepthOfAll(es), DepthOfAll(acts)), 2, |es| - i
  {
    hide CanonOf, WellFormed, ValueVerdict, Depth, DepthOfAll;
    if i < |es| {
      VerdictDecidesCanon(s, es[i], acts[i]);
      MembersVerdictDecidesCanon(s, es, acts, i + 1);
    }
  }

  lemma {:induction false} ArrayVerdictDecidesCanon(s: Schema, e: Value, a: Value)
    requires WellFormed(s, e) && WellFormed(s, a)
    requires KindOf(e) == ArrayKind && KindOf(a) == ArrayKind && e.header == a.header
    ensures ArrayVerdict(e, a) == Decide(CanonOf(s, e) == CanonOf(s, a))
    decreases Max(Depth(e), Depth(a)), 0, 1
  {
    hide ValueVerdict, MembersVerdict, BytesVerdict, MapVerdict, IsPair, PairKey, PairValue, CanonPair, CanonPairs,
         CanonAll, MapOf, IsByteElement;
    if IsMapType(e) {
      MapArrayDecidesCanon(s, e, a);
    } else if e.PackedValue? || a.PackedValue? {
      BytesDecideCanon(s, e, a);
    } else {
      CanonAllSame(s, e.elements, a.elements);
      if |e.elements| == |a.elements| {
        MembersVerdictDecidesCanon(s, e.elements, a.elements, 0);
      }
    }
  }

  lemma {:induction false} MapArrayDecidesCanon(s: Schema, e: Value, a: Value)
    requires WellFormed(s, e) && WellFormed(s, a) && IsMapType(e)
    requires KindOf(e) == ArrayKind && KindOf(a) == ArrayKind && e.header == a.header
    ensures ArrayVerdict(e, a) == Decide(CanonOf(s, e) == CanonOf(s, a))
    decreases Max(Depth(e), Depth(a)), 0, 0
  {
    hide ValueVerdict, MembersVerdict, BytesVerdict, MapVerdict, IsPair, PairKey, PairValue, CanonPair, MapOf,
         CanonPairs;
    KeyedPairsAreEntries(s, e.elements);
    KeyedPairsAreEntries(s, a.elements);
    if |e.elements| == |a.elements| {
      MapVerdictDecidesCanon(s, e.elements, a.elements);
    } else {
      MapOfDistinct(CanonPairs(s, e.elements));
      MapOfDistinct(CanonPairs(s, a.elements));
    }
  }

  lemma BytesDecideCanon(s: Schema, e: Value, a: Value)
    requires IsByteArray(s, e) && IsByteArray(s, a) && e.header == a.header && !IsMapType(e)
    requires e.PackedValue? || a.PackedValue?
    ensures ArrayVerdict(e, a) == Decide(CanonOf(s, e) == CanonOf(s, a))
  {
    hide CanonOf, ValueVerdict, BytesVerdict, IsByteElement, ArrayGetUint;
    ByteArrayItems(s, e);
    ByteArrayItems(s, a);
    if Count(e) == Count(a) {
      BytesVerdictDecidesItems(s, e, a, 0);
      if CanonOf(s, e).items == CanonOf(s, a).items {
        forall k | 0 <= k < Count(e)
          ensures ArrayGetUint(e, k) == ArrayGetUint(a, k)
        {
          assert CanonOf(s, e).items[k] == CanonOf(s, a).items[k];
        }
      }
    }
  }

  /** Both storages of a byte array have the same canonical list: its numbers. */
  lemma ByteArrayItems(s: Schema, v: Value)
    requires IsByteArray(s, v) && !IsMapType(v)
    ensures CanonOf(s, v).CList? && CanonOf(s, v).header == v.header && |CanonOf(s, v).items| == Count(v)
    ensures forall k :: 0 <= k < Count(v) ==>
        ArrayGetUint(v, k).Some? &&
          CanonOf(s, v).items[k] == CInt(s.byteElement, s.byteUnsigned, ArrayGetUint(v, k).value)
  {
    if v.ArrayValue? {
      assert forall k :: 0 <= k < |v.elements| ==> IsByteElement(s, v.elements[k]);
    }
  }

  /** An array of the byte-array type, in either storage. */
  predicate IsByteArray(s: Schema, v: Value) {
    v.PackedValue? || (v.ArrayValue? && forall i :: 0 <= i < |v.elements| ==> IsByteElement(s, v.elements[i]))
  }

  lemma {:induction false} BytesVerdictDecidesItems(s: Schema, e: Value, a: Value, i: nat)
    requires IsByteArray(s, e) && IsByteArray(s, a) && i <= Count(e) == Count(a)
    ensures forall k :: 0 <= k < Count(e) ==> ArrayGetUint(e, k).Some? && ArrayGetUint(a, k).Some?
    ensures BytesVerdict(e, a, i) == Decide(forall k :: i <= k < Count(e) ==> ArrayGetUint(e, k) == ArrayGetUint(a, k))
    decreases Count(e) - i
  {
    if i < Count(e) {
      BytesVerdictDecidesItems(s, e, a, i + 1);
    }
  }

  /** Pigeonhole: searching from one side only, with equal counts and distinct keys on both sides,
      decides equality of the two finite maps. */
  lemma {:induction false} MapVerdictDecidesCanon(s: Schema, es: seq<Value>, acts: seq<Value>)
    requires |es| == |acts| && AllWellFormed(s, es) && AllWellFormed(s, acts)
    requires AllPairs(es) && AllPairs(acts)
    requires KeysDistinct(CanonPairs(s, es)) && KeysDistinct(CanonPairs(s, acts))
    ensures MapVerdict(es, acts) == Decide(MapOf(CanonPairs(s, es)) == MapOf(CanonPairs(s, acts)))
    decreases Max(DepthOfAll(es), DepthOfAll(acts)), 4, 0
  {
    hide CanonOf, WellFormed, ValueVerdict, IsPair, PairKey, PairValue, Depth, DepthOfAll, CanonPairs, CanonPair,
         LookupVerdict, EntriesVerdict, MapIsValid, MapOf;
    KeysAreValidWhenDistinct(s, es);
    KeysAreValidWhenDistinct(s, acts);
    EntriesVerdictDecidesMembership(s, es, acts, 0);
    SameMapWhenContained(CanonPairs(s, es), CanonPairs(s, acts));
  }

  lemma {:induction false} KeysAreValidWhenDistinct(s: Schema, vs: seq<Value>)
    requires AllWellFormed(s, vs) && AllPairs(vs) && KeysDistinct(CanonPairs(s, vs))
    ensures MapIsValid(vs)
    decreases DepthOfAll(vs), 3, 0
  {
    hide CanonOf, WellFormed, ValueVerdict, IsPair, PairKey, PairValue, Depth, DepthOfAll;
    forall i, j | 0 <= j < i < |vs|
      ensures KeysDiffer(vs[i], vs[j])
    {
      PairPartsWellFormed(s, vs[i]);
      PairPartsWellFormed(s, vs[j]);
      VerdictDecidesCanon(s, PairKey(vs[i]), PairKey(vs[j]));
      assert CanonPairs(s, vs)[j].0 != CanonPairs(s, vs)[i].0;
    }
  }

  lemma PairPartsWellFormed(s: Schema, v: Value)
    requires WellFormed(s, v) && IsPair(v)
    ensures WellFormed(s, PairKey(v)) && WellFormed(s, PairValue(v))
    ensures CanonPair(s, v) == (CanonOf(s, PairKey(v)), CanonOf(s, PairValue(v)))
  {
    hide CanonOf;
    PairMeaning(v);
  }

  lemma KeyedPairsAreEntries(s: Schema, vs: seq<Value>)
    requires AllWellFormed(s, vs) && forall i :: 0 <= i < |vs| ==> IsKeyedPair(vs[i])
    ensures AllPairs(vs)
  {
    hide IsKeyedPair, IsPair;
    forall i | 0 <= i < |vs|
      ensures IsPair(vs[i])
    {
      PairMeaning(vs[i]);
    }
  }

  lemma {:induction false} EntriesVerdictDecidesMembership(s: Schema, es: seq<Value>, acts: seq<Value>, i: nat)
    requires i <= |es| && AllWellFormed(s, es) && AllWellFormed(s, acts)
    requires AllPairs(es) && AllPairs(acts) && KeysDistinct(CanonPairs(s, acts))
    ensures EntriesVerdict(es, acts, i)
         == Decide(forall k :: i <= k < |es| ==> CanonPairs(s, es)[k] in CanonPairs(s, acts))
    decreases Max(DepthOfAll(es), DepthOfAll(acts)), 3, |es| - i
  {
    hide CanonOf, WellFormed, ValueVerdict, IsPair, PairKey, PairValue, Depth, DepthOfAll, CanonPair, LookupVerdict,
         CanonPairs, KeysDistinct;
    if i < |es| {
      LookupDecidesMembership(s, es[i], acts, 0);
      assert CanonPairs(s, acts)[0..] == CanonPairs(s, acts) && CanonPairs(s, es)[i] == CanonPair(s, es[i]);
      EntriesVerdictDecidesMembership(s, es, acts, i + 1);
    }
  }

  lemma {:induction false} LookupDecidesMembership(s: Schema, entry: Value, acts: seq<Value>, j: nat)
    requires j <= |acts| && IsPair(entry) && WellFormed(s, entry)
    requires AllWellFormed(s, acts) && AllPairs(acts) && KeysDistinct(CanonPairs(s, acts))
    ensures LookupVerdict(entry, acts, j) == Decide(CanonPair(s, entry) in CanonPairs(s, acts)[j..])
    decreases Max(Depth(entry), DepthOfAll(acts)), 2, |acts| - j
  {
    hide CanonOf, WellFormed, ValueVerdict, IsPair, PairKey, PairValue, Depth, DepthOfAll, CanonPairs;
    if j < |acts| {
      PairPartsWellFormed(s, entry);
      PairPartsWellFormed(s, acts[j]);
      VerdictDecidesCanon(s, PairKey(entry), PairKey(acts[j]));
      VerdictDecidesCanon(s, PairValue(entry), PairValue(acts[j]));
      LookupDecidesMembership(s, entry, acts, j + 1);
      KeyOccursOnce(CanonPair(s, entry), CanonPairs(s, acts), j);
    }
  }

  /** Once the key is found, membership of the whole pair is decided on the spot. */
  lemma KeyOccursOnce<K, V>(p: (K, V), qs: seq<(K, V)>, j: nat)
    requires KeysDistinct(qs) && j < |qs|
    ensures p in qs[j..] <==> if p.0 == qs[j].0 then p.1 == qs[j].1 else p in qs[j + 1..]
  {
    assert qs[j..] == [qs[j]] + qs[j + 1..];
    assert forall k :: j + 1 <= k < |qs| ==> qs[k].0 != qs[j].0;
  }

  // ---------- Consequences ----------

  /** EQUAL is an equivalence on well-formed trees, and every verdict is symmetric there. */
  lemma VerdictIsEquivalence(s: Schema, x: Value, y: Value, z: Value)
    requires WellFormed(s, x) && WellFormed(s, y) && WellFormed(s, z)
    ensures ValueVerdict(x, x) == Equal
    ensures ValueVerdict(x, y) == ValueVerdict(y, x)
    ensures ValueVerdict(x, y) == Equal && ValueVerdict(y, z) == Equal ==> ValueVerdict(x, z) == Equal
    ensures ValueVerdict(x, y) in {Equal, Different}
  {
    VerdictDecidesCanon(s, x, x);
    VerdictDecidesCanon(s, x, y);
    VerdictDecidesCanon(s, y, x);
    VerdictDecidesCanon(s, y, z);
    VerdictDecidesCanon(s, x, z);
  }

  /** Permuting the entries of a map on either side changes no verdict. */
  lemma MapOrderIsIrrelevant(s: Schema, e: Value, a: Value, order: seq<nat>)
    requires WellFormed(s, e) && WellFormed(s, a) && e.ArrayValue? && IsMapType(e)
    requires IsPermutation(order, |e.elements|)
    ensures var p := e.(elements := Reorder(e.elements, order));
            ValueVerdict(p, a) == ValueVerdict(e, a) && ValueVerdict(a, p) == ValueVerdict(a, e)
  {
    hide ValueVerdict;
    var p := e.(elements := Reorder(e.elements, order));
    MapOrderKeepsCanon(s, e, order);
    VerdictDecidesCanon(s, p, a);
    VerdictDecidesCanon(s, e, a);
    VerdictDecidesCanon(s, a, p);
    VerdictDecidesCanon(s, a, e);
  }

  lemma MapOrderKeepsCanon(s: Schema, e: Value, order: seq<nat>)
    requires WellFormed(s, e) && e.ArrayValue? && IsMapType(e) && IsPermutation(order, |e.elements|)
    ensures var p := e.(elements := Reorder(e.elements, order));
            WellFormed(s, p) && CanonOf(s, p) == CanonOf(s, e)
  {
    hide IsPair, MapOf, CanonPair;
    var p := e.(elements := Reorder(e.elements, order));
    assert CanonPairs(s, p.elements) == Reorder(CanonPairs(s, e.elements), order);
    MapOfIgnoresOrder(CanonPairs(s, e.elements), order);
  }
}
