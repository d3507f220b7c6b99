/** What makes a type tree one the comparison can answer for: the trees that are EQUAL to themselves. */
module CanonicalSound {
  import opened Basics
  import opened TypeTree
  import opened CanonicalCompare
  import opened CanonicalForm
  import opened MapOrder

  /** Names and types everywhere, known kinds, exact strings, whole buffers, and maps stored by element
      whose entries are pairs with keys no two of which compare as EQUAL or INVALID. */
  ghost predicate Sound(v: Value)
    decreases v
  {
    && v.header.name != None && v.header.typeName != None
    && match v
       case StringValue(_, text, length) => text.Some? && |text.value| == length
       case ArrayValue(h, elements) =>
         && (forall i :: 0 <= i < |elements| ==> Sound(elements[i]))
         && (h.typeName == Some("map") ==> HoldsMap(elements))
       case PackedValue(h, _) => h.typeName != Some("map")
       case StructValue(_, members) => forall i :: 0 <= i < |members| ==> Sound(members[i])
       case BrokenArray(_) => false
       case BrokenStruct(_) => false
       case UnknownValue(_) => false
       case IntValue(_, _, _) => true
       case FloatValue(_, _) => true
       case NoneValue(_) => true
  }

  ghost predicate HoldsMap(entries: seq<Value>) {
    && (forall i :: 0 <= i < |entries| ==> IsKeyedPair(entries[i]))
    && (forall i, j :: 0 <= j < i < |entries| ==>
          ValueVerdict(KeyOf(entries[i]), KeyOf(entries[j])) == Different)
  }

  ghost predicate Answers(v: Value) {
    ValueVerdict(v, v) == if Sound(v) then Equal else Invalid
  }

  /** Compared with itself a tree is EQUAL when it is sound and INVALID when it is not. */
  lemma {:induction false} SelfVerdict(v: Value)
    ensures ValueVerdict(v, v) == if Sound(v) then Equal else Invalid
    decreases Depth(v)
  {
    hide MapVerdict, MembersVerdict, BytesVerdict, HoldsMap, IsKeyedPair, Depth, DepthOfAll;
    PartsAnswer(v);
    match v {
      case StructValue(_, members) =>
        SelfMembers(members, 0);
      case ArrayValue(h, elements) =>
        if h.typeName == Some("map") {
          SelfMap(elements);
        } else {
          SelfMembers(elements, 0);
        }
      case PackedValue(_, _) =>
        SelfBytes(v, 0);
      case _ =>
    }
  }

  lemma {:induction false} PartsAnswer(v: Value)
    ensures forall p :: p in Parts(v) ==> Answers(p)
    ensures forall p, q :: p in Parts(v) && q in Parts(p) ==> Answers(q)
    decreases Depth(v), 0
  {
    forall p | p in Parts(v)
      ensures Answers(p) && forall q :: q in Parts(p) ==> Answers(q)
    {
      SelfVerdict(p);
      PartsAnswer(p);
    }
  }

  /** The direct parts of a tree. */
  ghost function Parts(v: Value): (r: seq<Value>)
    ensures forall p :: p in r ==> Depth(p) < Depth(v)
  {
    match v
    case ArrayValue(_, elements) => elements
    case StructValue(_, members) => members
    case _ => []
  }

  lemma {:induction false} SelfMembers(vs: seq<Value>, i: nat)
    requires i <= |vs| && forall p :: p in vs ==> Answers(p)
    ensures MembersVerdict(vs, vs, i) == if forall k :: i <= k < |vs| ==> Sound(vs[k]) then Equal else Invalid
    decreases |vs| - i
  {
    hide ValueVerdict, Sound;
    if i < |vs| {
      assert vs[i] in vs;
      SelfMembers(vs, i + 1);
    }
  }

  lemma {:induction false} SelfBytes(v: Value, i: nat)
    requires v.PackedValue? && i <= |v.bytes|
    ensures BytesVerdict(v, v, i) == Equal
    decreases |v.bytes| - i
  {
    if i < |v.bytes| {
      SelfBytes(v, i + 1);
    }
  }

  // ---------- Maps ----------

  lemma SelfMap(entries: seq<Value>)
    requires forall p :: p in entries ==> Answers(p)
    requires forall p, q :: p in entries && q in Parts(p) ==> Answers(q)
    ensures MapVerdict(entries, entries)
         == if HoldsMap(entries) && forall i :: 0 <= i < |entries| ==> Sound(entries[i]) then Equal else Invalid
  {
    hide ValueVerdict, Sound, IsKeyedPair, KeyOf, IsPair, PairKey, PairValue, KeysDiffer, Answers, EntriesVerdict;
    forall i | 0 <= i < |entries|
      ensures IsPair(entries[i]) ==> IsKeyedPair(entries[i]) && PairKey(entries[i]) == KeyOf(entries[i])
      ensures IsKeyedPair(entries[i]) && Sound(entries[i]) ==> IsPair(entries[i])
    {
      EntryMeaning(entries[i]);
    }
    forall i, j | 0 <= j < i < |entries| && IsPair(entries[i]) && IsPair(entries[j])
      ensures KeysDiffer(entries[i], entries[j])
         <==> ValueVerdict(KeyOf(entries[i]), KeyOf(entries[j])) == Different
    {
      KeysDifferMeaning(entries[i], entries[j]);
    }
    if MapIsValid(entries) {
      SelfEntries(entries, 0);
    }
  }

  lemma EntryMeaning(v: Value)
    ensures IsPair(v) ==> IsKeyedPair(v) && PairKey(v) == KeyOf(v) && PairValue(v) == ValueOf(v)
    ensures IsPair(v) ==> PairKey(v) in Parts(v) && PairValue(v) in Parts(v)
    ensures IsPair(v) ==> (Sound(v) <==> Sound(PairKey(v)) && Sound(PairValue(v)))
    ensures IsKeyedPair(v) && Sound(v) ==> IsPair(v)
  {
    hide IsPair, PairKey, PairValue;
    PairMeaning(v);
  }

  lemma KeysDifferMeaning(later: Value, earlier: Value)
    requires IsPair(later) && IsPair(earlier)
    ensures IsKeyedPair(later) && IsKeyedPair(earlier)
    ensures KeysDiffer(later, earlier) <==> ValueVerdict(KeyOf(later), KeyOf(earlier)) == Different
  {
    hide ValueVerdict, IsPair, PairKey, PairValue, IsKeyedPair, KeyOf, ValueOf;
    PairMeaning(later);
    PairMeaning(earlier);
    VerdictNeverUnavailable(KeyOf(later), KeyOf(earlier));
  }

  lemma {:induction false} SelfEntries(entries: seq<Value>, i: nat)
    requires i <= |entries| && MapIsValid(entries)
    requires forall p, q :: p in entries && q in Parts(p) ==> Answers(q)
    ensures EntriesVerdict(entries, entries, i)
         == if forall k :: i <= k < |entries| ==> Sound(entries[k]) then Equal else Invalid
    decreases |entries| - i
  {
    hide ValueVerdict, Sound, IsPair, KeysDiffer, Parts, Answers, LookupVerdict;
    if i < |entries| {
      SelfLookup(entries, i, 0);
      SelfEntries(entries, i + 1);
    }
  }

  /** An entry passes the earlier ones by and meets itself. */
  lemma {:induction false} SelfLookup(entries: seq<Value>, i: nat, j: nat)
    requires j <= i < |entries| && MapIsValid(entries)
    requires forall p, q :: p in entries && q in Parts(p) ==> Answers(q)
    ensures LookupVerdict(entries[i], entries, j) == if Sound(entries[i]) then Equal else Invalid
    decreases i - j
  {
    hide ValueVerdict, Sound, IsPair, PairKey, PairValue, Parts;
    EntryMeaning(entries[i]);
    if j < i {
      assert KeysDiffer(entries[i], entries[j]);
      SelfLookup(entries, i, j + 1);
    } else {
      assert Answers(PairKey(entries[i])) && Answers(PairValue(entries[i]));
    }
  }

  // ---------- Trees that are not sound at the root, and packed bytes against elements ----------

  ghost predicate InvalidBothWays(x: Value, y: Value) {
    ValueVerdict(x, y) == Invalid && ValueVerdict(y, x) == Invalid
  }

  /** Two roots of one kind with the same name and type. */
  ghost predicate SameRoot(x: Value, y: Value) {
    x.header == y.header && x.header.name != None && x.header.typeName != None
  }

  ghost function Length(v: Value): nat
    requires v.ArrayValue? || v.PackedValue?
  {
    match v
    case ArrayValue(_, elements) => |elements|
    case PackedValue(_, bytes) => |bytes|
  }

  /** A root without a name, a type or a known kind is INVALID against anything; a text of the wrong
      length and a broken buffer against any root of the same kind and header. */
  lemma UnsoundRoots(x: Value, y: Value)
    ensures x.header.name == None || x.header.typeName == None || x.UnknownValue? ==> InvalidBothWays(x, y)
    ensures SameRoot(x, y) && x.StringValue? && y.StringValue? && (x.text == None || |x.text.value| != x.length) ==>
              InvalidBothWays(x, y)
    ensures SameRoot(x, y) && x.BrokenArray? && (y.BrokenArray? || y.ArrayValue? || y.PackedValue?) ==>
              InvalidBothWays(x, y)
    ensures SameRoot(x, y) && x.BrokenStruct? && (y.BrokenStruct? || y.StructValue?) ==>
              InvalidBothWays(x, y)
  {
  }

  /** Whole buffers of different lengths are DIFFERENT, and so are roots that differ in kind or header;
      a map of packed bytes is INVALID against a map of its length. */
  lemma UnlikeRoots(x: Value, y: Value)
    requires x.header.name != None && x.header.typeName != None && !x.UnknownValue?
    requires y.header.name != None && y.header.typeName != None && !y.UnknownValue?
    ensures x.header != y.header || KindOf(x) != KindOf(y) ==> ValueVerdict(x, y) == Different
    ensures SameRoot(x, y) && (x.ArrayValue? || x.PackedValue?) && (y.ArrayValue? || y.PackedValue?) ==>
              (Length(x) != Length(y) ==> ValueVerdict(x, y) == Different)
              && (Length(x) == Length(y) && x.PackedValue? && x.header.typeName == Some("map") ==>
                    InvalidBothWays(x, y))
    ensures SameRoot(x, y) && x.StructValue? && y.StructValue? && |x.members| != |y.members| ==>
              ValueVerdict(x, y) == Different
  {
  }

  /** Packed bytes against elements: the first element that is not an integer of that number decides,
      INVALID when it is no integer or a negative one. */
  lemma PackedAgainstElements(x: Value, y: Value)
    requires SameRoot(x, y) && x.header.typeName != Some("map")
    requires x.PackedValue? && y.ArrayValue? && |x.bytes| == |y.elements|
    ensures ValueVerdict(x, y) == ValueVerdict(y, x)
    ensures ValueVerdict(x, y) == Equal <==> forall k :: 0 <= k < |x.bytes| ==> HasNumber(y.elements[k], x.bytes[k])
    ensures ValueVerdict(x, y) == Invalid <==>
              exists k :: 0 <= k < |x.bytes| && (!y.elements[k].IntValue? || y.elements[k].number < 0)
                && forall j :: 0 <= j < k ==> HasNumber(y.elements[j], x.bytes[j])
  {
    PackedFrom(x, y, 0);
  }

  lemma {:induction false} PackedFrom(x: Value, y: Value, i: nat)
    requires x.PackedValue? && y.ArrayValue? && i <= |x.bytes| == |y.elements|
    ensures BytesVerdict(x, y, i) == BytesVerdict(y, x, i)
    ensures BytesVerdict(x, y, i) in {Equal, Different, Invalid}
    ensures BytesVerdict(x, y, i) == Equal <==>
              forall k :: i <= k < |x.bytes| ==> HasNumber(y.elements[k], x.bytes[k])
    ensures BytesVerdict(x, y, i) == Invalid <==>
              exists k :: i <= k < |x.bytes| && (!y.elements[k].IntValue? || y.elements[k].number < 0)
                && forall j :: i <= j < k ==> HasNumber(y.elements[j], x.bytes[j])
    decreases |x.bytes| - i
  {
    if i < |x.bytes| {
      PackedFrom(x, y, i + 1);
      if BytesVerdict(x, y, i) == Invalid {
        if HasNumber(y.elements[i], x.bytes[i]) {
          var k :| i + 1 <= k < |x.bytes| && (!y.elements[k].IntValue? || y.elements[k].number < 0)
            && forall j :: i + 1 <= j < k ==> HasNumber(y.elements[j], x.bytes[j]);
          assert forall j :: i <= j < k ==> HasNumber(y.elements[j], x.bytes[j]);
        } else {
          assert !y.elements[i].IntValue? || y.elements[i].number < 0;
        }
      }
    }
  }
}
