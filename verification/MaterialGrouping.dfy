/** Grouping of the materials by shader: a stable counting sort over counts, offsets and cursors, so
    that the shader files are opened and verified once per group. */
module MaterialGrouping {
  import opened Basics
  import opened MaterialLedger

  /** The materials below `n` that are grouped under shader `s`, in catalog order.  `keys[i]` is the
      shader of material `i`, or nothing when the material is not grouped. */
  function MembersOf(keys: seq<Option<nat>>, s: nat, n: nat): seq<nat>
    requires n <= |keys|
  {
    if n == 0 then [] else MembersOf(keys, s, n - 1) + if keys[n - 1] == Some(s) then [n - 1] else []
  }

  /** The groups of all shaders below `s`, one after the other. */
  function GroupsBelow(keys: seq<Option<nat>>, s: nat): seq<nat> {
    if s == 0 then [] else GroupsBelow(keys, s - 1) + MembersOf(keys, s - 1, |keys|)
  }

  /** Where the group of shader `s` begins. */
  function Offset(keys: seq<Option<nat>>, s: nat): nat {
    |GroupsBelow(keys, s)|
  }

  // ---------- What the groups are ----------

  ghost predicate Ascends(ms: seq<nat>) {
    forall j, k :: 0 <= j < k < |ms| ==> ms[j] < ms[k]
  }

  ghost predicate ListedOnce(ms: seq<nat>) {
    forall j, k :: 0 <= j < k < |ms| ==> ms[j] != ms[k]
  }

  /** A group lists exactly its shader's materials, in increasing catalog order. */
  lemma {:induction false} MembersAscend(keys: seq<Option<nat>>, s: nat, n: nat)
    requires n <= |keys|
    ensures forall i: nat :: i in MembersOf(keys, s, n) <==> i < n && keys[i] == Some(s)
    ensures Ascends(MembersOf(keys, s, n))
  {
    if n > 0 {
      MembersAscend(keys, s, n - 1);
      var before := MembersOf(keys, s, n - 1);
      assert forall j :: 0 <= j < |before| ==> before[j] in before;
    }
  }

  lemma {:induction false} MembersGrow(keys: seq<Option<nat>>, s: nat, m: nat, n: nat)
    requires m <= n <= |keys|
    ensures MembersOf(keys, s, m) <= MembersOf(keys, s, n)
  {
    if m < n {
      MembersGrow(keys, s, m, n - 1);
    }
  }

  lemma {:induction false} OffsetsAscend(keys: seq<Option<nat>>, s: nat, t: nat)
    requires s <= t
    ensures GroupsBelow(keys, s) <= GroupsBelow(keys, t)
  {
    if s < t {
      OffsetsAscend(keys, s, t - 1);
    }
  }

  /** The slice of shader `s` in the grouped order holds that shader's group. */
  lemma SliceIsGroup(keys: seq<Option<nat>>, s: nat, shaderCount: nat)
    requires s < shaderCount
    ensures Offset(keys, s) + |MembersOf(keys, s, |keys|)| == Offset(keys, s + 1) <= Offset(keys, shaderCount)
    ensures GroupsBelow(keys, shaderCount)[Offset(keys, s)..Offset(keys, s + 1)] == MembersOf(keys, s, |keys|)
  {
    hide MembersOf;
    OffsetsAscend(keys, s + 1, shaderCount);
    assert GroupsBelow(keys, s + 1) == GroupsBelow(keys, s) + MembersOf(keys, s, |keys|);
  }

  /** Appending a group of later materials to an order without repetition repeats nothing. */
  lemma AppendedOnce(ms: seq<nat>, more: seq<nat>)
    requires ListedOnce(ms) && Ascends(more) && forall i :: i in more ==> i !in ms
    ensures ListedOnce(ms + more)
  {
    assert forall j :: 0 <= j < |more| ==> more[j] in more;
  }

  lemma NothingListed(ms: seq<nat>)
    requires |ms| == 0
    ensures ListedOnce(ms)
  {
  }

  /** The grouped order lists every grouped material once and nothing else. */
  lemma {:induction false} GroupsArePermutation(keys: seq<Option<nat>>, s: nat)
    ensures forall i: nat :: i in GroupsBelow(keys, s) <==> i < |keys| && keys[i].Some? && keys[i].value < s
    ensures ListedOnce(GroupsBelow(keys, s))
  {
    hide MembersOf, Ascends, ListedOnce;
    if s == 0 {
      NothingListed(GroupsBelow(keys, 0));
    } else {
      GroupsArePermutation(keys, s - 1);
      MembersAscend(keys, s - 1, |keys|);
      AppendedOnce(GroupsBelow(keys, s - 1), MembersOf(keys, s - 1, |keys|));
    }
  }

  /** No shader's group starts or ends past the catalog, so the offset guard never rejects. */
  lemma OffsetsFit(keys: seq<Option<nat>>, s: nat)
    ensures Offset(keys, s) <= |keys|
  {
    GroupsArePermutation(keys, s);
    hide GroupsBelow;
    var order := GroupsBelow(keys, s);
    DistinctImages(order, |order|);
    var listed := set k | 0 <= k < |order| :: order[k];
    forall i | i in listed
      ensures i in Below(|keys|)
    {
      assert i in order;
    }
    if |listed| > |keys| {
      SubsetOfEqualSize(listed, Below(|keys|));
    }
  }

  // ---------- The counting sort ----------

  /** The passes after the counts are known: offsets and cursors, then one placement per grouped
      material. */
  method GroupByShader(ghost keys: seq<Option<nat>>, grouped: array<bool>, records: seq<MaterialRecord>,
                       counts: array<nat>) returns (offsets: array<nat>, indices: array<nat>)
    requires grouped.Length == |records| == |keys|
    requires forall i :: 0 <= i < |keys| ==> keys[i] == if grouped[i] then records[i].shader else None
    requires forall i :: 0 <= i < |keys| && grouped[i] ==>
        records[i].shader.Some? && records[i].shader.value < counts.Length
    requires forall s: nat :: s < counts.Length ==> counts[s] == |MembersOf(keys, s, |keys|)|
    ensures fresh(offsets) && fresh(indices)
    ensures offsets.Length == counts.Length + 1
    ensures forall s: nat :: s < offsets.Length ==> offsets[s] == Offset(keys, s)
    ensures indices[..] == GroupsBelow(keys, counts.Length)
  {
    hide MembersOf, GroupsBelow, Offset, AllPlacedUpTo;
    var cursors;
    offsets, cursors := OffsetsOf(keys, counts);
    indices := new nat[offsets[counts.Length]](_ => 0);
    NonePlaced(keys, counts.Length, indices[..]);
    for material := 0 to |records|
      invariant offsets[counts.Length] == indices.Length
      invariant forall s: nat :: s < offsets.Length ==> offsets[s] == Offset(keys, s)
      invariant forall s: nat :: s < counts.Length ==> cursors[s] == Offset(keys, s) + |MembersOf(keys, s, material)|
      invariant AllPlacedUpTo(keys, counts.Length, material, indices[..])
    {
      MembersOfOneMore(keys, material, material + 1);
      if grouped[material] {
        var shader := records[material].shader.value;
        PlaceIsFree(keys, shader, material, counts.Length);
        PlacedAfter(keys, shader, material, counts.Length, indices[..]);
        ghost var before := indices[..];
        indices[cursors[shader]] := material;
        assert indices[..] == before[cursors[shader] := material];
        cursors[shader] := cursors[shader] + 1;
      } else {
        PlacedAsBefore(keys, material, counts.Length, indices[..]);
      }
    }
    forall s: nat | s < counts.Length
      ensures cursors[s] == offsets[s + 1]
    {
      SliceIsGroup(keys, s, counts.Length);
    }
    AllPlaced(keys, counts.Length, indices[..]);
  }

  /** The first pass, with the guard that a group never reaches past the catalog. */
  method OffsetsOf(ghost keys: seq<Option<nat>>, counts: array<nat>) returns (offsets: array<nat>, cursors: array<nat>)
    requires forall s: nat :: s < counts.Length ==> counts[s] == |MembersOf(keys, s, |keys|)|
    ensures fresh(offsets) && fresh(cursors) && offsets != cursors
    ensures offsets.Length == counts.Length + 1 && cursors.Length == counts.Length
    ensures forall s: nat :: s < offsets.Length ==> offsets[s] == Offset(keys, s)
    ensures forall s: nat :: s < cursors.Length ==> cursors[s] == Offset(keys, s)
  {
    hide MembersOf;
    offsets := new nat[counts.Length + 1](_ => 0);
    cursors := new nat[counts.Length](_ => 0);
    for s := 0 to counts.Length
      invariant forall t: nat :: t <= s ==> offsets[t] == Offset(keys, t)
      invariant forall t: nat :: t < s ==> cursors[t] == Offset(keys, t)
    {
      OffsetsFit(keys, s + 1);
      assert counts[s] <= |keys| - offsets[s];
      offsets[s + 1] := offsets[s] + counts[s];
      cursors[s] := offsets[s];
    }
  }

  /** The members of shader `s` found so far stand at the front of its slice. */
  ghost predicate Placed(keys: seq<Option<nat>>, s: nat, n: nat, indices: seq<nat>)
    requires n <= |keys|
  {
    var first := Offset(keys, s);
    var members := MembersOf(keys, s, n);
    first + |members| <= |indices| && indices[first..first + |members|] == members
  }

  ghost predicate AllPlacedUpTo(keys: seq<Option<nat>>, shaderCount: nat, n: nat, indices: seq<nat>)
    requires n <= |keys|
  {
    forall s: nat :: s < shaderCount ==> Placed(keys, s, n, indices)
  }

  lemma NonePlaced(keys: seq<Option<nat>>, shaderCount: nat, indices: seq<nat>)
    requires Offset(keys, shaderCount) == |indices|
    ensures forall s: nat :: s < shaderCount ==> |MembersOf(keys, s, 0)| == 0
    ensures AllPlacedUpTo(keys, shaderCount, 0, indices)
  {
    forall s: nat | s < shaderCount
      ensures Placed(keys, s, 0, indices)
    {
      OffsetsAscend(keys, s, shaderCount);
    }
  }

  lemma MembersOfOneMore(keys: seq<Option<nat>>, n: nat, next: nat)
    requires n < |keys| && next == n + 1
    ensures forall s: nat :: MembersOf(keys, s, next) == MembersOf(keys, s, n) + if keys[n] == Some(s) then [n] else []
  {
  }

  lemma PlacedAsBefore(keys: seq<Option<nat>>, n: nat, shaderCount: nat, indices: seq<nat>)
    requires n < |keys| && keys[n] == None && AllPlacedUpTo(keys, shaderCount, n, indices)
    ensures AllPlacedUpTo(keys, shaderCount, n + 1, indices)
  {
    var next := n + 1;
    MembersOfOneMore(keys, n, next);
    hide MembersOf, Offset;
    assert forall s: nat :: s < shaderCount && Placed(keys, s, n, indices) ==> Placed(keys, s, next, indices);
  }

  lemma PlaceIsFree(keys: seq<Option<nat>>, s: nat, n: nat, shaderCount: nat)
    requires n < |keys| && keys[n] == Some(s) && s < shaderCount
    ensures Offset(keys, s) + |MembersOf(keys, s, n)| < Offset(keys, s + 1) <= Offset(keys, shaderCount)
  {
    MembersGrow(keys, s, n + 1, |keys|);
    SliceIsGroup(keys, s, shaderCount);
  }

  /** The next place of one shader lies in no other shader's filled part. */
  lemma PlaceOutsideGroup(keys: seq<Option<nat>>, s: nat, shader: nat, n: nat, shaderCount: nat)
    requires n < |keys| && keys[n] == Some(shader) && s < shaderCount && shader < shaderCount && s != shader
    ensures var place := Offset(keys, shader) + |MembersOf(keys, shader, n)|;
            place < Offset(keys, s) || Offset(keys, s) + |MembersOf(keys, s, n)| <= place
  {
    hide MembersOf, GroupsBelow;
    PlaceIsFree(keys, shader, n, shaderCount);
    if shader < s {
      OffsetsAscend(keys, shader + 1, s);
    } else {
      OffsetsAscend(keys, s + 1, shader);
      MembersGrow(keys, s, n, |keys|);
      SliceIsGroup(keys, s, shaderCount);
    }
  }

  /** Writing just behind a slice extends it. */
  lemma SliceExtended(before: seq<nat>, first: nat, members: seq<nat>, place: nat, n: nat)
    requires place == first + |members| < |before| && before[first..place] == members
    ensures before[place := n][first..place + 1] == members + [n]
  {
  }

  /** Writing outside a slice keeps it. */
  lemma SliceUntouched(before: seq<nat>, first: nat, end: nat, place: nat, n: nat)
    requires first <= end <= |before| && place < |before| && (place < first || end <= place)
    ensures before[place := n][first..end] == before[first..end]
  {
    var after := before[place := n];
    assert forall i :: first <= i < end ==> after[i] == before[i];
  }

  /** The place of material `n` extends the slice of its shader. */
  lemma PlacedOwn(keys: seq<Option<nat>>, shader: nat, n: nat, next: nat, before: seq<nat>)
    requires n < |keys| && next == n + 1 && keys[n] == Some(shader) && Placed(keys, shader, n, before)
    requires Offset(keys, shader) + |MembersOf(keys, shader, n)| < |before|
    ensures Placed(keys, shader, next, before[Offset(keys, shader) + |MembersOf(keys, shader, n)| := n])
  {
    hide MembersOf, Offset, GroupsBelow;
    NewMember(keys, shader, n, next);
    var first, members := Offset(keys, shader), MembersOf(keys, shader, n);
    SliceExtended(before, first, members, first + |members|, n);
  }

  lemma NoNewMember(keys: seq<Option<nat>>, s: nat, n: nat, next: nat)
    requires n < |keys| && next == n + 1 && keys[n] != Some(s)
    ensures MembersOf(keys, s, next) == MembersOf(keys, s, n)
  {
  }

  lemma NewMember(keys: seq<Option<nat>>, s: nat, n: nat, next: nat)
    requires n < |keys| && next == n + 1 && keys[n] == Some(s)
    ensures MembersOf(keys, s, next) == MembersOf(keys, s, n) + [n]
  {
  }

  /** The slices of the other shaders stay as they were. */
  lemma PlacedOther(keys: seq<Option<nat>>, s: nat, shader: nat, n: nat, next: nat, shaderCount: nat, before: seq<nat>)
    requires n < |keys| && next == n + 1 && keys[n] == Some(shader) && Placed(keys, s, n, before)
    requires s < shaderCount && shader < shaderCount && s != shader
    requires Offset(keys, shader) + |MembersOf(keys, shader, n)| < |before|
    ensures Placed(keys, s, next, before[Offset(keys, shader) + |MembersOf(keys, shader, n)| := n])
  {
    hide MembersOf, Offset, GroupsBelow;
    NoNewMember(keys, s, n, next);
    PlaceOutsideGroup(keys, s, shader, n, shaderCount);
    var first, end := Offset(keys, s), Offset(keys, s) + |MembersOf(keys, s, n)|;
    SliceUntouched(before, first, end, Offset(keys, shader) + |MembersOf(keys, shader, n)|, n);
  }

  /** Placing material `n` at the next place of its shader keeps every shader's slice in order. */
  lemma PlacedAfter(keys: seq<Option<nat>>, shader: nat, n: nat, shaderCount: nat, before: seq<nat>)
    requires n < |keys| && keys[n] == Some(shader) && shader < shaderCount
    requires AllPlacedUpTo(keys, shaderCount, n, before) && |before| == Offset(keys, shaderCount)
    requires Offset(keys, shader) + |MembersOf(keys, shader, n)| < |before|
    ensures AllPlacedUpTo(keys, shaderCount, n + 1, before[Offset(keys, shader) + |MembersOf(keys, shader, n)| := n])
  {
    hide MembersOf, GroupsBelow, Offset, Placed;
    var next, after := n + 1, before[Offset(keys, shader) + |MembersOf(keys, shader, n)| := n];
    forall s: nat | s < shaderCount
      ensures Placed(keys, s, next, after)
    {
      assert Placed(keys, s, n, before);
      if s == shader {
        PlacedOwn(keys, shader, n, next, before);
      } else {
        PlacedOther(keys, s, shader, n, next, shaderCount, before);
      }
    }
  }

  lemma {:induction false} AllPlaced(keys: seq<Option<nat>>, shaderCount: nat, indices: seq<nat>)
    requires Offset(keys, shaderCount) <= |indices|
    requires AllPlacedUpTo(keys, shaderCount, |keys|, indices)
    ensures indices[..Offset(keys, shaderCount)] == GroupsBelow(keys, shaderCount)
  {
    hide MembersOf;
    if shaderCount > 0 {
      var s := shaderCount - 1;
      OffsetsAscend(keys, s, shaderCount);
      AllPlaced(keys, s, indices);
      assert Placed(keys, s, |keys|, indices);
      assert indices[..Offset(keys, shaderCount)]
          == indices[..Offset(keys, s)] + indices[Offset(keys, s)..Offset(keys, shaderCount)];
    }
  }
}
