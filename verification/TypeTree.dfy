/** Decoded Unity type trees, as src/app/release_shader_object_certificate.c reads them. */
module TypeTree {
  import opened Basics

  /** A missing member stands for a null pointer. */
  datatype Header = Header(name: Option<string>, typeName: Option<string>)

  /** One constructor per kind and storage.  `BrokenArray` and `BrokenStruct` stand for a negative
      count, an unknown storage tag or a missing buffer; `UnknownValue` for an unknown kind. */
  datatype Value =
    | IntValue(header: Header, isUnsigned: bool, number: int)
    | FloatValue(header: Header, bits: bv64)
    | StringValue(header: Header, text: Option<string>, length: nat)
    | ArrayValue(header: Header, elements: seq<Value>)
    | PackedValue(header: Header, bytes: seq<Byte>)
    | BrokenArray(header: Header)
    | StructValue(header: Header, members: seq<Value>)
    | BrokenStruct(header: Header)
    | NoneValue(header: Header)
    | UnknownValue(header: Header)

  datatype Kind = IntKind | FloatKind | StringKind | ArrayKind | StructKind | NoneKind | UnknownKind

  function KindOf(v: Value): Kind {
    match v
    case IntValue(_, _, _) => IntKind
    case FloatValue(_, _) => FloatKind
    case StringValue(_, _, _) => StringKind
    case ArrayValue(_, _) => ArrayKind
    case PackedValue(_, _) => ArrayKind
    case BrokenArray(_) => ArrayKind
    case StructValue(_, _) => StructKind
    case BrokenStruct(_) => StructKind
    case NoneValue(_) => NoneKind
    case UnknownValue(_) => UnknownKind
  }

  predicate HeaderIsValid(v: Value) {
    v.header.name.Some? && v.header.typeName.Some? && !v.UnknownValue?
  }

  predicate HeadersMatch(expected: Value, actual: Value) {
    && expected.header.name.Some? && expected.header.typeName.Some?
    && expected.header == actual.header
    && KindOf(expected) == KindOf(actual)
  }

  /** The recorded length is the length up to the terminator. */
  predicate StringIsValid(v: Value) {
    v.StringValue? && v.text.Some? && v.length == |v.text.value|
  }

  predicate ArrayIsValid(v: Value) {
    v.ArrayValue? || v.PackedValue?
  }

  function Count(v: Value): nat
    requires ArrayIsValid(v)
  {
    if v.ArrayValue? then |v.elements| else |v.bytes|
  }

  predicate IsMapType(v: Value) {
    v.header.typeName == Some("map")
  }

  /** The unsigned reading of an integer value, when there is one. */
  function GetUint(v: Value): Option<int> {
    if v.IntValue? && 0 <= v.number then Some(v.number) else None
  }

  /** The signed 64-bit reading of an integer value, when there is one. */
  function GetInt(v: Value): Option<int> {
    if v.IntValue? && INT64_MIN <= v.number <= INT64_MAX then Some(v.number) else None
  }

  function ArrayGetUint(v: Value, index: nat): Option<int>
    requires ArrayIsValid(v) && index < Count(v)
  {
    if v.PackedValue? then Some(v.bytes[index]) else GetUint(v.elements[index])
  }

  /** The first of `members` at or after `from` that carries `name`. */
  function FirstNamed(members: seq<Value>, name: string, from: nat): (r: Option<nat>)
    requires from <= |members|
    ensures r.Some? ==> from <= r.value < |members| && members[r.value].header.name == Some(name)
    ensures r.Some? ==> forall i :: from <= i < r.value ==> members[i].header.name != Some(name)
    ensures r.None? ==> forall i :: from <= i < |members| ==> members[i].header.name != Some(name)
    decreases |members| - from
  {
    if from == |members| then None
    else if members[from].header.name == Some(name) then Some(from)
    else FirstNamed(members, name, from + 1)
  }

  /** typetree_find_child: the first member with that name. */
  function FindChild(v: Value, name: string): (r: Option<Value>)
    ensures r.Some? ==> v.StructValue? && r.value in v.members && r.value.header.name == Some(name)
  {
    if !v.StructValue? then None
    else match FirstNamed(v.members, name, 0)
      case None => None
      case Some(i) => Some(v.members[i])
  }

  /** typetree_get_array: an array is itself, a wrapper struct holds it under "Array". */
  function GetArray(v: Option<Value>): Option<Value> {
    if v.None? then None
    else if KindOf(v.value) == ArrayKind then v
    else match FindChild(v.value, "Array")
      case None => None
      case Some(a) => if KindOf(a) == ArrayKind then Some(a) else None
  }

  function RequiredArray(parent: Option<Value>, name: string): Option<Value> {
    if parent.None? then None else GetArray(FindChild(parent.value, name))
  }

  // ---------- Depth, the measure of the comparison's recursion ----------

  function Depth(v: Value): nat
    decreases v
  {
    match v
    case ArrayValue(_, elements) => 1 + DepthOfAll(elements)
    case StructValue(_, members) => 1 + DepthOfAll(members)
    case _ => 0
  }

  function DepthOfAll(s: seq<Value>): (d: nat)
    ensures forall v :: v in s ==> Depth(v) <= d
    decreases s
  {
    if s == [] then 0
    else Max(Depth(s[0]), DepthOfAll(s[1..]))
  }

  // ---------- Map entries ----------

  /** pair_value: exactly two members, one found under "first" and one under "second". */
  predicate IsPair(v: Value) {
    && HeaderIsValid(v) && v.StructValue? && |v.members| == 2
    && FindChild(v, "first").Some? && FindChild(v, "second").Some?
  }

  function PairKey(v: Value): (r: Value)
    requires IsPair(v)
    ensures r in v.members && Depth(r) < Depth(v)
  {
    FindChild(v, "first").value
  }

  function PairValue(v: Value): (r: Value)
    requires IsPair(v)
    ensures r in v.members && Depth(r) < Depth(v)
  {
    FindChild(v, "second").value
  }

  predicate AllPairs(s: seq<Value>) {
    forall i :: 0 <= i < |s| ==> IsPair(s[i])
  }

  // ---------- What the lookups find, spelled out ----------

  /** Two members, one named "first" and one named "second", in either order. */
  ghost predicate IsKeyedPair(v: Value) {
    && v.StructValue? && |v.members| == 2
    && ((v.members[0].header.name == Some("first") && v.members[1].header.name == Some("second"))
        || (v.members[0].header.name == Some("second") && v.members[1].header.name == Some("first")))
  }

  ghost function KeyOf(v: Value): Value
    requires IsKeyedPair(v)
  {
    if v.members[0].header.name == Some("first") then v.members[0] else v.members[1]
  }

  ghost function ValueOf(v: Value): Value
    requires IsKeyedPair(v)
  {
    if v.members[0].header.name == Some("first") then v.members[1] else v.members[0]
  }

  /** What the comparison takes for an entry is such a pair with a name and a type. */
  lemma PairMeaning(v: Value)
    ensures IsPair(v) <==> v.header.name.Some? && v.header.typeName.Some? && IsKeyedPair(v)
    ensures IsPair(v) ==> PairKey(v) == KeyOf(v) && PairValue(v) == ValueOf(v)
  {
    assert "first" != "second";
    if v.StructValue? && |v.members| == 2 {
      NamedInTwo(v.members, "first");
      NamedInTwo(v.members, "second");
    }
  }

  lemma NamedInTwo(members: seq<Value>, name: string)
    requires |members| == 2
    ensures FirstNamed(members, name, 0)
         == if members[0].header.name == Some(name) then Some(0)
            else if members[1].header.name == Some(name) then Some(1) else None
  {
    assert FirstNamed(members, name, 2) == None;
    assert FirstNamed(members, name, 1) == if members[1].header.name == Some(name) then Some(1) else None;
  }

  /** Member `i` of `v` is the first one called `name`. */
  ghost predicate IsFirstMember(v: Value, name: string, i: nat) {
    && v.StructValue? && i < |v.members| && v.members[i].header.name == Some(name)
    && forall j :: 0 <= j < i ==> v.members[j].header.name != Some(name)
  }

  /** A child is the first member of that name; there is none when no member carries it. */
  lemma ChildMeaning(v: Value, name: string)
    ensures forall i: nat :: IsFirstMember(v, name, i) ==> FindChild(v, name) == Some(v.members[i])
    ensures FindChild(v, name) == None <==>
              !v.StructValue? || forall i :: 0 <= i < |v.members| ==> v.members[i].header.name != Some(name)
  {
    if v.StructValue? {
      var first := FirstNamed(v.members, name, 0);
      forall i: nat | IsFirstMember(v, name, i)
        ensures FindChild(v, name) == Some(v.members[i])
      {
        assert first.Some? && !(first.value < i) && !(i < first.value);
      }
    }
  }

  ghost predicate HasNumber(v: Value, number: int) {
    v.IntValue? && v.number == number
  }

  ghost predicate IsArray(v: Value) {
    v.ArrayValue? || v.PackedValue? || v.BrokenArray?
  }

  /** A required array is the child itself, or the first member "Array" of a wrapping struct. */
  lemma RequiredArrayMeaning(parent: Value, name: string)
    ensures RequiredArray(Some(parent), name)
         == var child := FindChild(parent, name);
            if child.Some? && IsArray(child.value) then child
            else if child.Some? && FindChild(child.value, "Array").Some?
                    && IsArray(FindChild(child.value, "Array").value) then FindChild(child.value, "Array")
            else None
    ensures RequiredArray(None, name) == None
  {
    hide FindChild;
  }
}
