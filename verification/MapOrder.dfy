/** When the order of a map's entries matters.  Both loops of the map comparison stop at the first
    entry that gives an answer, so the order is irrelevant exactly when all answers agree. */
module MapOrder {
  import opened Basics
  import opened TypeTree
  import opened CanonicalCompare
  import opened CanonicalLimits

  // ---------- A search that stops at the first answer ----------

  function FirstAnswer<T>(s: seq<Option<T>>): (r: Option<T>)
    ensures r.Some? ==> r in s
    ensures r.None? ==> forall i :: 0 <= i < |s| ==> s[i].None?
  {
    if s == [] then None else if s[0].Some? then s[0] else FirstAnswer(s[1..])
  }

  ghost predicate AnswersAgree<T(!new)>(s: seq<Option<T>>) {
    forall i, j :: 0 <= i < |s| && 0 <= j < |s| && s[i].Some? && s[j].Some? ==> s[i] == s[j]
  }

  ghost predicate OrderIsIrrelevant<T(!new)>(s: seq<Option<T>>) {
    forall order :: IsPermutation(order, |s|) ==> FirstAnswer(Reorder(s, order)) == FirstAnswer(s)
  }

  /** The order that moves position `i` to the front. */
  ghost function ToFront(n: nat, i: nat): (r: seq<nat>)
    requires i < n
    ensures IsPermutation(r, n) && r[0] == i
  {
    seq(n, k requires 0 <= k < n => if k == 0 then i else if k <= i then k - 1 else k)
  }

  lemma OrderDecidesAnswers<T(!new)>(s: seq<Option<T>>)
    ensures OrderIsIrrelevant(s) <==> AnswersAgree(s)
  {
    if AnswersAgree(s) {
      forall order | IsPermutation(order, |s|)
        ensures FirstAnswer(Reorder(s, order)) == FirstAnswer(s)
      {
        AgreeingAnswersInAnyOrder(s, order);
      }
    }
    if OrderIsIrrelevant(s) {
      forall i | 0 <= i < |s| && s[i].Some?
        ensures s[i] == FirstAnswer(s)
      {
        assert FirstAnswer(Reorder(s, ToFront(|s|, i))) == s[i];
      }
    }
  }

  lemma AgreeingAnswersInAnyOrder<T(!new)>(s: seq<Option<T>>, order: seq<nat>)
    requires AnswersAgree(s) && IsPermutation(order, |s|)
    ensures FirstAnswer(Reorder(s, order)) == FirstAnswer(s)
  {
    hide FirstAnswer, AnswersAgree;
    var t := Reorder(s, order);
    if FirstAnswer(t).Some? {
      var k := AnswerIndex(t);
      var i := AnswerIndexOf(s, order[k]);
      TwoAnswersAgree(s, order[k], i);
    } else if FirstAnswer(s).Some? {
      var i := AnswerIndex(s);
      var _ := AnswerIndexOf(t, PositionOf(order, |s|, i));
    }
  }

  /** Where the first answer is given. */
  lemma AnswerIndex<T>(s: seq<Option<T>>) returns (i: nat)
    requires FirstAnswer(s).Some?
    ensures i < |s| && s[i] == FirstAnswer(s)
  {
    i :| i < |s| && s[i] == FirstAnswer(s);
  }

  lemma AnswerIndexOf<T>(s: seq<Option<T>>, k: nat) returns (i: nat)
    requires k < |s| && s[k].Some?
    ensures FirstAnswer(s).Some? && i < |s| && s[i] == FirstAnswer(s)
  {
    i := AnswerIndex(s);
  }

  lemma TwoAnswersAgree<T(!new)>(s: seq<Option<T>>, i: nat, j: nat)
    requires AnswersAgree(s) && i < |s| && j < |s| && s[i].Some? && s[j].Some?
    ensures s[i] == s[j]
  {
  }

  // ---------- The outer loop: expected entries ----------

  function AnswerOf(r: Verdict): Option<Verdict> {
    if r == Equal then None else Some(r)
  }

  /** What each expected entry says when it is looked up; EQUAL passes on to the next entry. */
  ghost function EntryAnswers(es: seq<Value>, acts: seq<Value>): (r: seq<Option<Verdict>>)
    requires AllPairs(es) && AllPairs(acts)
    ensures |r| == |es| && forall i :: 0 <= i < |r| ==> r[i] == AnswerOf(LookupVerdict(es[i], acts, 0))
  {
    seq(|es|, i requires 0 <= i < |es| => AnswerOf(LookupVerdict(es[i], acts, 0)))
  }

  lemma {:induction false} EntriesVerdictIsFirstAnswer(es: seq<Value>, acts: seq<Value>, i: nat)
    requires i <= |es| && AllPairs(es) && AllPairs(acts)
    ensures AnswerOf(EntriesVerdict(es, acts, i)) == FirstAnswer(EntryAnswers(es, acts)[i..])
    decreases |es| - i
  {
    hide LookupVerdict, IsPair;
    if i < |es| {
      EntriesVerdictIsFirstAnswer(es, acts, i + 1);
      assert EntryAnswers(es, acts)[i..][1..] == EntryAnswers(es, acts)[i + 1..];
    }
  }

  /** No expected entry is looked up as INVALID while another is looked up as DIFFERENT. */
  ghost predicate LookupsAgree(es: seq<Value>, acts: seq<Value>)
    requires AllPairs(es) && AllPairs(acts)
  {
    forall i, j :: 0 <= i < |es| && 0 <= j < |es| ==>
      !(LookupVerdict(es[i], acts, 0) == Invalid && LookupVerdict(es[j], acts, 0) == Different)
  }

  /** Every order of the expected entries gives the same verdict exactly when no lookup is INVALID
      beside one that is DIFFERENT. */
  lemma EntriesOrderMatters(es: seq<Value>, acts: seq<Value>)
    requires AllPairs(es) && AllPairs(acts)
    ensures (forall order :: IsPermutation(order, |es|) ==>
               EntriesVerdict(Reorder(es, order), acts, 0) == EntriesVerdict(es, acts, 0))
            <==> LookupsAgree(es, acts)
  {
    hide EntriesVerdict, LookupVerdict, IsPair, FirstAnswer;
    var answers := EntryAnswers(es, acts);
    OrderDecidesAnswers(answers);
    LookupsAgreeAsAnswers(es, acts);
    forall order | IsPermutation(order, |es|)
      ensures EntriesVerdict(Reorder(es, order), acts, 0) == EntriesVerdict(es, acts, 0)
              <==> FirstAnswer(Reorder(answers, order)) == FirstAnswer(answers)
    {
      var t := Reorder(es, order);
      EntriesVerdictIsFirstAnswer(es, acts, 0);
      EntriesVerdictIsFirstAnswer(t, acts, 0);
      assert EntryAnswers(t, acts) == Reorder(answers, order);
      assert answers[0..] == answers && EntryAnswers(t, acts)[0..] == EntryAnswers(t, acts);
    }
  }

  lemma LookupsAgreeAsAnswers(es: seq<Value>, acts: seq<Value>)
    requires AllPairs(es) && AllPairs(acts)
    ensures LookupsAgree(es, acts) <==> AnswersAgree(EntryAnswers(es, acts))
  {
    hide LookupVerdict, IsPair;
    forall i | 0 <= i < |es|
      ensures LookupVerdict(es[i], acts, 0) != Unavailable
    {
      LookupNeverUnavailable(es[i], acts, 0);
    }
    var answers := EntryAnswers(es, acts);
    forall i, j | 0 <= i < |es| && 0 <= j < |es|
      ensures LookupVerdict(es[i], acts, 0) == Invalid && LookupVerdict(es[j], acts, 0) == Different
              ==> answers[i].Some? && answers[j].Some? && answers[i] != answers[j]
    {
    }
  }

  /** The comparison itself never answers UNAVAILABLE. */
  lemma {:induction false} VerdictNeverUnavailable(e: Value, a: Value)
    ensures ValueVerdict(e, a) != Unavailable
    decreases Max(Depth(e), Depth(a)), 1, 0
  {
    if HeadersMatch(e, a) {
      if e.StructValue? && a.StructValue? && |e.members| == |a.members| {
        MembersNeverUnavailable(e.members, a.members, 0);
      } else if e.ArrayValue? && a.ArrayValue? && |e.elements| == |a.elements| {
        if IsMapType(e) {
          MapNeverUnavailable(e.elements, a.elements);
        } else {
          MembersNeverUnavailable(e.elements, a.elements, 0);
        }
      } else if ArrayIsValid(e) && ArrayIsValid(a) && Count(e) == Count(a) {
        BytesNeverUnavailable(e, a, 0);
      }
    }
  }

  lemma {:induction false} MembersNeverUnavailable(es: seq<Value>, acts: seq<Value>, i: nat)
    requires i <= |es| == |acts|
    ensures MembersVerdict(es, acts, i) != Unavailable
    decreases Max(DepthOfAll(es), DepthOfAll(acts)), 2, |es| - i
  {
    hide ValueVerdict, Depth, DepthOfAll;
    if i < |es| {
      VerdictNeverUnavailable(es[i], acts[i]);
      MembersNeverUnavailable(es, acts, i + 1);
    }
  }

  lemma {:induction false} BytesNeverUnavailable(e: Value, a: Value, i: nat)
    requires ArrayIsValid(e) && ArrayIsValid(a) && i <= Count(e) == Count(a)
    ensures BytesVerdict(e, a, i) != Unavailable
    decreases Count(e) - i
  {
    if i < Count(e) {
      BytesNeverUnavailable(e, a, i + 1);
    }
  }

  lemma {:induction false} MapNeverUnavailable(es: seq<Value>, acts: seq<Value>)
    requires |es| == |acts|
    ensures MapVerdict(es, acts) != Unavailable
    decreases Max(DepthOfAll(es), DepthOfAll(acts)), 3, 0
  {
    hide ValueVerdict, EntriesVerdict, Depth, DepthOfAll, IsPair;
    if MapIsValid(es) && MapIsValid(acts) {
      EntriesNeverUnavailable(es, acts, 0);
    }
  }

  lemma {:induction false} EntriesNeverUnavailable(es: seq<Value>, acts: seq<Value>, i: nat)
    requires i <= |es| && AllPairs(es) && AllPairs(acts)
    ensures EntriesVerdict(es, acts, i) != Unavailable
    decreases Max(DepthOfAll(es), DepthOfAll(acts)), 2, |es| - i
  {
    hide ValueVerdict, LookupVerdict, Depth, DepthOfAll, IsPair;
    if i < |es| {
      LookupNeverUnavailable(es[i], acts, 0);
      EntriesNeverUnavailable(es, acts, i + 1);
    }
  }

  lemma {:induction false} LookupNeverUnavailable(entry: Value, acts: seq<Value>, j: nat)
    requires j <= |acts| && IsPair(entry) && AllPairs(acts)
    ensures LookupVerdict(entry, acts, j) != Unavailable
    decreases Max(Depth(entry), DepthOfAll(acts)), 1, |acts| - j
  {
    hide ValueVerdict, Depth, DepthOfAll, IsPair, PairKey, PairValue;
    if j < |acts| {
      VerdictNeverUnavailable(PairValue(entry), PairValue(acts[j]));
      LookupNeverUnavailable(entry, acts, j + 1);
    }
  }

  // ---------- The whole map ----------

  /** Any two keys of the map compare alike in both directions. */
  ghost predicate KeysAreSymmetric(s: seq<Value>) {
    AllPairs(s) ==>
      forall i, j :: 0 <= i < |s| && 0 <= j < |s| && KeysDiffer(s[i], s[j]) ==> KeysDiffer(s[j], s[i])
  }

  lemma MapFreeKeysAreSymmetric(s: seq<Value>)
    requires AllMapFree(s)
    ensures KeysAreSymmetric(s)
  {
    hide ValueVerdict, IsPair, Depth;
    if AllPairs(s) {
      forall i, j | 0 <= i < |s| && 0 <= j < |s|
        ensures KeysDiffer(s[i], s[j]) ==> KeysDiffer(s[j], s[i])
      {
        KeyIsMapFree(s[i]);
        MapFreeIsSymmetric(PairKey(s[i]), PairKey(s[j]));
      }
    }
  }

  lemma KeyIsMapFree(v: Value)
    requires IsPair(v) && MapFree(v)
    ensures MapFree(PairKey(v))
  {
    assert PairKey(v) in v.members;
  }

  lemma ReorderKeepsValidity(s: seq<Value>, order: seq<nat>)
    requires KeysAreSymmetric(s) && IsPermutation(order, |s|)
    ensures MapIsValid(Reorder(s, order)) <==> MapIsValid(s)
  {
    hide ValueVerdict, IsPair, KeysDiffer, Depth, DepthOfAll;
    var t := Reorder(s, order);
    if MapIsValid(s) {
      forall i, j | 0 <= j < i < |t|
        ensures KeysDiffer(t[i], t[j])
      {
        assert order[i] < order[j] || order[j] < order[i];
      }
    }
    if MapIsValid(t) {
      forall i | 0 <= i < |s|
        ensures IsPair(s[i])
      {
        var k := PositionOf(order, |s|, i);
        assert IsPair(t[k]);
      }
      forall i, j | 0 <= j < i < |s|
        ensures KeysDiffer(s[i], s[j])
      {
        var k, l := PositionOf(order, |s|, i), PositionOf(order, |s|, j);
        assert k < l || l < k;
        assert t[k] == s[i] && t[l] == s[j];
      }
    }
  }

  ghost function PositionOf(order: seq<nat>, n: nat, i: nat): (k: nat)
    requires IsPermutation(order, n) && i < n
    ensures k < n && order[k] == i
  {
    PermutationHits(order, n, i);
    var k :| 0 <= k < n && order[k] == i;
    k
  }

  /** When keys compare alike in both directions, the verdict on a map is the same for every order of its
      expected entries exactly when a side has an invalid or repeated key or no lookup is INVALID beside
      one that is DIFFERENT. */
  lemma SymmetricMapOrderMatters(es: seq<Value>, acts: seq<Value>)
    requires |es| == |acts| && KeysAreSymmetric(es)
    ensures ExpectedOrderIsIrrelevant(es, acts) <==> MapIsValid(es) && MapIsValid(acts) ==> LookupsAgree(es, acts)
  {
    hide EntriesVerdict, LookupsAgree, KeysAreSymmetric, MapIsValid;
    forall order | IsPermutation(order, |es|)
      ensures MapIsValid(Reorder(es, order)) <==> MapIsValid(es)
    {
      ReorderKeepsValidity(es, order);
    }
    if MapIsValid(es) && MapIsValid(acts) {
      ValidMapsArePairs(es);
      ValidMapsArePairs(acts);
      EntriesOrderMatters(es, acts);
    }
  }

  ghost predicate ExpectedOrderIsIrrelevant(es: seq<Value>, acts: seq<Value>)
    requires |es| == |acts|
  {
    forall order :: IsPermutation(order, |es|) ==> MapVerdict(Reorder(es, order), acts) == MapVerdict(es, acts)
  }

  // ---------- The whole map, whatever its keys ----------

  /** Key `i` cannot come after key `j` in a valid map. */
  ghost predicate MustPrecede(es: seq<Value>, i: nat, j: nat)
    requires AllPairs(es) && i < |es| && j < |es|
  {
    i != j && !KeysDiffer(es[i], es[j])
  }

  /** With each position the set holds all that must come before it. */
  ghost predicate IsClosed(es: seq<Value>, front: set<nat>)
    requires AllPairs(es)
  {
    && (forall j :: j in front ==> j < |es|)
    && forall i: nat, j: nat :: i < |es| && j in front && j < |es| && MustPrecede(es, i, j) ==> i in front
  }

  ghost predicate IsValidOrder(es: seq<Value>, order: seq<nat>) {
    IsPermutation(order, |es|) && MapIsValid(Reorder(es, order))
  }

  ghost predicate SomeOrderIsValid(es: seq<Value>) {
    AllPairs(es) && exists order :: IsValidOrder(es, order)
  }

  /** No key has to come before another. */
  ghost predicate EveryOrderIsValid(es: seq<Value>) {
    AllPairs(es) && forall i: nat, j: nat :: i < |es| && j < |es| ==> !MustPrecede(es, i, j)
  }

  /** Some lookup is INVALID, and no DIFFERENT one can be brought before all INVALID ones: every closed
      set of positions around it holds an INVALID one. */
  ghost predicate InvalidComesFirst(es: seq<Value>, acts: seq<Value>)
    requires AllPairs(es) && AllPairs(acts)
  {
    && (exists v: nat :: v < |es| && LookupVerdict(es[v], acts, 0) == Invalid)
    && forall d: nat, front: set<nat> :: d in front && IsClosed(es, front) ==>
         LookupVerdict(es[d], acts, 0) == Different ==> HoldsInvalid(es, acts, front)
  }

  ghost predicate HoldsInvalid(es: seq<Value>, acts: seq<Value>, front: set<nat>)
    requires AllPairs(es) && AllPairs(acts)
  {
    exists v :: v in front && v < |es| && LookupVerdict(es[v], acts, 0) == Invalid
  }

  /** The verdict on a map is the same for every order of its expected entries exactly when no order of
      them or the other side is invalid, or every order is valid and no lookup is INVALID beside one that
      is DIFFERENT, or only some orders are valid and INVALID comes first in each of them. */
  lemma MapOrderMatters(es: seq<Value>, acts: seq<Value>)
    requires |es| == |acts|
    ensures ExpectedOrderIsIrrelevant(es, acts) <==>
              (SomeOrderIsValid(es) && MapIsValid(acts) ==>
                 if EveryOrderIsValid(es) then LookupsAgree(es, acts) else InvalidComesFirst(es, acts))
  {
    hide EntriesVerdict, LookupsAgree, InvalidComesFirst, MapIsValid, EveryOrderIsValid;
    if SomeOrderIsValid(es) && MapIsValid(acts) {
      ValidMapsArePairs(acts);
      if EveryOrderIsValid(es) {
        EveryOrderIsValidMeans(es);
        ItselfIsAnOrder(es);
        EntriesOrderMatters(es, acts);
      } else {
        PartlyValidOrderMatters(es, acts);
      }
    } else {
      ItselfIsAnOrder(es);
      forall order | IsPermutation(order, |es|)
        ensures MapVerdict(Reorder(es, order), acts) == Invalid
      {
        if MapIsValid(acts) { NoOrderIsValid(es, order); }
      }
    }
  }

  lemma NoOrderIsValid(es: seq<Value>, order: seq<nat>)
    requires !SomeOrderIsValid(es) && IsPermutation(order, |es|)
    ensures !MapIsValid(Reorder(es, order))
  {
    hide KeysDiffer, IsPair;
    ReorderedPairs(es, order);
    assert MapIsValid(Reorder(es, order)) ==> IsValidOrder(es, order);
  }

  lemma ReorderedPairs(es: seq<Value>, order: seq<nat>)
    requires IsPermutation(order, |es|)
    ensures AllPairs(Reorder(es, order)) <==> AllPairs(es)
  {
    hide IsPair;
    var t := Reorder(es, order);
    if AllPairs(t) {
      forall i | 0 <= i < |es|
        ensures IsPair(es[i])
      {
        assert IsPair(t[PositionOf(order, |es|, i)]);
      }
    }
  }

  ghost function Identity(n: nat): (r: seq<nat>)
    ensures IsPermutation(r, n) && forall i :: 0 <= i < n ==> r[i] == i
  {
    seq(n, i requires 0 <= i < n => i)
  }

  lemma ItselfIsAnOrder(es: seq<Value>)
    ensures Reorder(es, Identity(|es|)) == es
  {
  }

  /** A valid order puts no key behind one it must precede. */
  lemma ValidOrderMeans(es: seq<Value>, order: seq<nat>)
    requires AllPairs(es) && IsPermutation(order, |es|)
    ensures MapIsValid(Reorder(es, order)) <==>
              forall k, l :: 0 <= k < l < |es| ==> !MustPrecede(es, order[l], order[k])
  {
    hide KeysDiffer, IsPair;
    var t := Reorder(es, order);
    ReorderedPairs(es, order);
    if MapIsValid(t) {
      forall k, l | 0 <= k < l < |es|
        ensures !MustPrecede(es, order[l], order[k])
      {
        assert KeysDiffer(t[l], t[k]);
      }
    }
    if forall k, l :: 0 <= k < l < |es| ==> !MustPrecede(es, order[l], order[k]) {
      forall i, j | 0 <= j < i < |t|
        ensures KeysDiffer(t[i], t[j])
      {
        assert !MustPrecede(es, order[i], order[j]) && order[j] != order[i];
      }
    }
  }

  lemma EveryOrderIsValidMeans(es: seq<Value>)
    requires AllPairs(es)
    ensures EveryOrderIsValid(es) <==> forall order :: IsPermutation(order, |es|) ==> MapIsValid(Reorder(es, order))
  {
    hide MapIsValid, KeysDiffer, IsPair, MustPrecede;
    if EveryOrderIsValid(es) {
      forall order | IsPermutation(order, |es|)
        ensures MapIsValid(Reorder(es, order))
      {
        ValidOrderMeans(es, order);
      }
    }
    if forall order :: IsPermutation(order, |es|) ==> MapIsValid(Reorder(es, order)) {
      forall i: nat, j: nat | i < |es| && j < |es|
        ensures !MustPrecede(es, i, j)
      {
        var order := ToFront(|es|, j);
        ValidOrderMeans(es, order);
        var k := PositionOf(order, |es|, i);
        if k == 0 { NeverBeforeItself(es, i); }
      }
    }
  }

  lemma NeverBeforeItself(es: seq<Value>, i: nat)
    requires AllPairs(es) && i < |es|
    ensures !MustPrecede(es, i, i)
  {
  }

  /** Some orders are valid and some are not, and those that are not give INVALID. */
  lemma PartlyValidOrderMatters(es: seq<Value>, acts: seq<Value>)
    requires |es| == |acts| && SomeOrderIsValid(es) && !EveryOrderIsValid(es) && MapIsValid(acts) && AllPairs(acts)
    ensures ExpectedOrderIsIrrelevant(es, acts) <==> InvalidComesFirst(es, acts)
  {
    hide EntriesVerdict, InvalidComesFirst, MapIsValid, EveryOrderIsValid, IsPair;
    EveryOrderIsValidMeans(es);
    var bad :| IsPermutation(bad, |es|) && !MapIsValid(Reorder(es, bad));
    assert MapVerdict(Reorder(es, bad), acts) == Invalid;
    ItselfIsAnOrder(es);
    if InvalidComesFirst(es, acts) {
      forall order | IsPermutation(order, |es|)
        ensures MapVerdict(Reorder(es, order), acts) == Invalid
      {
        if MapIsValid(Reorder(es, order)) { ReorderedPairs(es, order); StopsAtInvalid(es, acts, order); }
      }
    }
    if ExpectedOrderIsIrrelevant(es, acts) {
      var good :| IsValidOrder(es, good);
      assert MapVerdict(Reorder(es, good), acts) == Invalid;
      ReorderedPairs(es, good);
      InvalidMustComeFirst(es, acts, good);
    }
  }

  /** The first answer and where it is given. */
  lemma {:induction false} FirstAnswerIndex<T>(s: seq<Option<T>>) returns (p: nat)
    requires FirstAnswer(s).Some?
    ensures p < |s| && s[p] == FirstAnswer(s) && forall k :: 0 <= k < p ==> s[k].None?
  {
    if s[0].Some? {
      p := 0;
    } else {
      var q := FirstAnswerIndex(s[1..]);
      p := q + 1;
      forall k | 0 <= k < p
        ensures s[k].None?
      {
        if k > 0 { assert s[k] == s[1..][k - 1]; }
      }
    }
  }

  /** What the reordered entries answer. */
  lemma OrderedAnswers(es: seq<Value>, acts: seq<Value>, order: seq<nat>)
    requires AllPairs(es) && AllPairs(acts) && IsPermutation(order, |es|)
    ensures AllPairs(Reorder(es, order))
    ensures AnswerOf(EntriesVerdict(Reorder(es, order), acts, 0)) == FirstAnswer(Reorder(EntryAnswers(es, acts), order))
  {
    hide EntriesVerdict, LookupVerdict, IsPair, FirstAnswer;
    var t := Reorder(es, order);
    ReorderedPairs(es, order);
    EntriesVerdictIsFirstAnswer(t, acts, 0);
    assert EntryAnswers(t, acts) == Reorder(EntryAnswers(es, acts), order);
    assert EntryAnswers(t, acts)[0..] == EntryAnswers(t, acts);
  }

  lemma ValidOrderAt(es: seq<Value>, order: seq<nat>, k: nat, l: nat)
    requires AllPairs(es) && IsValidOrder(es, order) && k < |es| && l < |es|
    ensures order[k] < |es| && order[l] < |es| && (k < l ==> !MustPrecede(es, order[l], order[k]))
  {
    ValidOrderMeans(es, order);
    hide MustPrecede, MapIsValid, IsPair;
  }

  /** In a valid order the positions up to the first answer are a closed set. */
  lemma PrefixIsClosed(es: seq<Value>, order: seq<nat>, p: nat) returns (front: set<nat>)
    requires AllPairs(es) && IsValidOrder(es, order) && p < |es|
    ensures IsClosed(es, front) && forall i: nat :: i in front <==> exists k :: 0 <= k <= p && order[k] == i
  {
    hide MustPrecede, KeysDiffer, IsPair, MapIsValid;
    front := set k | 0 <= k <= p :: order[k];
    forall i: nat, j: nat | i < |es| && j in front && j < |es| && MustPrecede(es, i, j)
      ensures i in front
    {
      var k :| 0 <= k <= p && order[k] == j;
      var l := PositionOf(order, |es|, i);
      ValidOrderAt(es, order, k, l);
    }
  }

  lemma StopsAtInvalid(es: seq<Value>, acts: seq<Value>, order: seq<nat>)
    requires AllPairs(es) && AllPairs(acts) && IsValidOrder(es, order) && InvalidComesFirst(es, acts)
    ensures AllPairs(Reorder(es, order)) && EntriesVerdict(Reorder(es, order), acts, 0) == Invalid
  {
    hide EntriesVerdict, LookupVerdict, IsPair, IsClosed, IsValidOrder, FirstAnswer;
    ValidIsPermutation(es, order);
    OrderedAnswers(es, acts, order);
    var t := Reorder(EntryAnswers(es, acts), order);
    var v: nat :| v < |es| && LookupVerdict(es[v], acts, 0) == Invalid;
    var _ := AnswerIndexOf(t, PositionOf(order, |es|, v));
    var p := FirstAnswerIndex(t);
    LookupNeverUnavailable(es[order[p]], acts, 0);
    var front := PrefixIsClosed(es, order, p);
    assert order[p] in front;
    InvalidIsLastInPrefix(es, acts, order, p, front);
  }

  /** Up to the first answer nothing but that answer can be INVALID. */
  lemma InvalidIsLastInPrefix(es: seq<Value>, acts: seq<Value>, order: seq<nat>, p: nat, front: set<nat>)
    requires AllPairs(es) && AllPairs(acts) && IsPermutation(order, |es|) && p < |es|
    requires forall i: nat :: i in front <==> exists k :: 0 <= k <= p && order[k] == i
    requires forall k :: 0 <= k < p ==> LookupVerdict(es[order[k]], acts, 0) == Equal
    ensures HoldsInvalid(es, acts, front) ==> LookupVerdict(es[order[p]], acts, 0) == Invalid
  {
    hide LookupVerdict, IsPair;
    if HoldsInvalid(es, acts, front) {
      var w :| w in front && w < |es| && LookupVerdict(es[w], acts, 0) == Invalid;
      var k :| 0 <= k <= p && order[k] == w;
    }
  }

  lemma ValidIsPermutation(es: seq<Value>, order: seq<nat>)
    requires IsValidOrder(es, order)
    ensures IsPermutation(order, |es|)
  {
  }

  /** If every valid order stops at INVALID, no DIFFERENT lookup can be brought to the front. */
  lemma InvalidMustComeFirst(es: seq<Value>, acts: seq<Value>, good: seq<nat>)
    requires |es| == |acts| && AllPairs(es) && AllPairs(acts) && MapIsValid(acts) && IsValidOrder(es, good)
    requires forall order :: IsValidOrder(es, order) ==> MapVerdict(Reorder(es, order), acts) == Invalid
    ensures InvalidComesFirst(es, acts)
  {
    hide EntriesVerdict, LookupVerdict, IsPair, IsClosed, IsValidOrder, FirstAnswer, MapIsValid;
    StopIsInvalid(es, acts, good);
    forall d: nat, front: set<nat> | d in front && IsClosed(es, front)
        && d < |es| && LookupVerdict(es[d], acts, 0) == Different
      ensures HoldsInvalid(es, acts, front)
    {
      PartitionIsValid(es, good, front);
      var order := Partition(good, front);
      StopIsInvalid(es, acts, order);
      FrontStops(es, acts, good, front, d);
    }
    ClosedIsWithin(es);
  }

  lemma ClosedIsWithin(es: seq<Value>)
    requires AllPairs(es)
    ensures forall d: nat, front: set<nat> :: d in front && IsClosed(es, front) ==> d < |es|
  {
  }

  /** A valid order whose verdict is INVALID has an INVALID lookup. */
  lemma StopIsInvalid(es: seq<Value>, acts: seq<Value>, order: seq<nat>)
    requires |es| == |acts| && AllPairs(es) && AllPairs(acts) && MapIsValid(acts) && IsValidOrder(es, order)
    requires MapVerdict(Reorder(es, order), acts) == Invalid
    ensures IsPermutation(order, |es|)
    ensures FirstAnswer(Reorder(EntryAnswers(es, acts), order)) == Some(Invalid)
    ensures exists v: nat :: v < |es| && LookupVerdict(es[v], acts, 0) == Invalid
  {
    hide EntriesVerdict, LookupVerdict, IsPair, FirstAnswer, MapIsValid;
    OrderedAnswers(es, acts, order);
    var t := Reorder(EntryAnswers(es, acts), order);
    var p := FirstAnswerIndex(t);
    assert LookupVerdict(es[order[p]], acts, 0) == Invalid;
  }

  // ---------- Bringing a closed set to the front ----------

  /** The positions of `order` inside (or outside) the set, in the order they have. */
  ghost function Kept(order: seq<nat>, front: set<nat>, inside: bool): seq<nat> {
    if order == [] then []
    else
      var last := order[|order| - 1];
      Kept(order[..|order| - 1], front, inside) + if (last in front) == inside then [last] else []
  }

  ghost function Partition(order: seq<nat>, front: set<nat>): seq<nat> {
    Kept(order, front, true) + Kept(order, front, false)
  }

  /** `u` stands before `v`. */
  ghost predicate Before(order: seq<nat>, u: nat, v: nat) {
    exists p, q :: 0 <= p < q < |order| && order[p] == u && order[q] == v
  }

  ghost predicate KeepsOrder(order: seq<nat>, r: seq<nat>) {
    forall a, b :: 0 <= a < b < |r| ==> Before(order, r[a], r[b])
  }

  lemma {:induction false} KeptInOrder(order: seq<nat>, front: set<nat>, inside: bool)
    ensures forall u :: u in Kept(order, front, inside) <==> u in order && (u in front) == inside
    ensures KeepsOrder(order, Kept(order, front, inside))
  {
    if order != [] {
      var init, last := order[..|order| - 1], order[|order| - 1];
      KeptInOrder(init, front, inside);
      assert order == init + [last];
      var before, r := Kept(init, front, inside), Kept(order, front, inside);
      forall a, b | 0 <= a < b < |r|
        ensures Before(order, r[a], r[b])
      {
        if b < |before| {
          assert Before(init, before[a], before[b]);
          var p, q :| 0 <= p < q < |init| && init[p] == before[a] && init[q] == before[b];
          assert order[p] == r[a] && order[q] == r[b];
        } else {
          assert before[a] in before;
          var p :| 0 <= p < |init| && init[p] == before[a];
          assert order[p] == r[a] && order[|init|] == r[b];
        }
      }
    }
  }

  lemma {:induction false} PartitionLength(order: seq<nat>, front: set<nat>)
    ensures |Partition(order, front)| == |order|
  {
    if order != [] {
      PartitionLength(order[..|order| - 1], front);
    }
  }

  /** The set comes first; within it and outside it the order stays. */
  lemma PartitionOrder(order: seq<nat>, n: nat, front: set<nat>)
    requires IsPermutation(order, n)
    ensures IsPermutation(Partition(order, front), n)
    ensures var r := Partition(order, front); forall a, b :: 0 <= a < b < n ==>
              (r[a] in front && r[b] !in front) || ((r[a] in front <==> r[b] in front) && Before(order, r[a], r[b]))
  {
    hide Kept;
    PartitionLength(order, front);
    KeptInOrder(order, front, true);
    KeptInOrder(order, front, false);
    var x, y, r := Kept(order, front, true), Kept(order, front, false), Partition(order, front);
    forall a | 0 <= a < n
      ensures r[a] in order && (r[a] in front <==> a < |x|)
    {
      if a < |x| { assert r[a] == x[a] && x[a] in x; } else { assert r[a] == y[a - |x|] && y[a - |x|] in y; }
    }
    forall a, b | 0 <= a < b < n
      ensures r[a] != r[b]
      ensures (r[a] in front && r[b] !in front)
              || ((r[a] in front <==> r[b] in front) && Before(order, r[a], r[b]))
    {
      if b < |x| {
        assert Before(order, x[a], x[b]);
      } else if a >= |x| {
        assert Before(order, y[a - |x|], y[b - |x|]);
      }
    }
  }

  lemma PartitionIsValid(es: seq<Value>, order: seq<nat>, front: set<nat>)
    requires AllPairs(es) && IsValidOrder(es, order) && IsClosed(es, front)
    ensures IsValidOrder(es, Partition(order, front))
  {
    hide MustPrecede, KeysDiffer, IsPair, MapIsValid, Partition;
    ValidOrderMeans(es, order);
    PartitionOrder(order, |es|, front);
    var r := Partition(order, front);
    forall k, l | 0 <= k < l < |es|
      ensures !MustPrecede(es, r[l], r[k])
    {
      if r[k] in front && r[l] !in front {
        assert r[l] < |es|;
      } else {
        assert Before(order, r[k], r[l]);
      }
    }
    ValidOrderMeans(es, r);
  }

  /** With the set in front the first answer comes from it. */
  lemma FrontStops(es: seq<Value>, acts: seq<Value>, order: seq<nat>, front: set<nat>, d: nat)
    requires AllPairs(es) && AllPairs(acts) && IsPermutation(order, |es|) && d in front && d < |es|
    requires LookupVerdict(es[d], acts, 0) == Different
    requires IsPermutation(Partition(order, front), |es|)
    requires FirstAnswer(Reorder(EntryAnswers(es, acts), Partition(order, front))) == Some(Invalid)
    ensures HoldsInvalid(es, acts, front)
  {
    hide LookupVerdict, IsPair, FirstAnswer, Partition;
    PartitionOrder(order, |es|, front);
    var r := Partition(order, front);
    var t := Reorder(EntryAnswers(es, acts), r);
    var a := PositionOf(r, |es|, d);
    var p := FirstAnswerIndex(t);
    assert t[a] == Some(Different);
    assert p < a;
    assert r[p] in front && LookupVerdict(es[r[p]], acts, 0) == Invalid;
  }

  lemma ValidMapsArePairs(s: seq<Value>)
    requires MapIsValid(s)
    ensures AllPairs(s)
  {
  }

  // ---------- The inner loop: actual entries ----------

  /** What an actual entry says to a lookup: nothing when its key is different. */
  function HitOf(entry: Value, a: Value): Option<Verdict>
    requires IsPair(entry) && IsPair(a)
  {
    match ValueVerdict(PairKey(entry), PairKey(a))
    case Invalid => Some(Invalid)
    case Equal => Some(ValueVerdict(PairValue(entry), PairValue(a)))
    case _ => None
  }

  ghost function Hits(entry: Value, acts: seq<Value>): (r: seq<Option<Verdict>>)
    requires IsPair(entry) && AllPairs(acts)
    ensures |r| == |acts| && forall j :: 0 <= j < |r| ==> r[j] == HitOf(entry, acts[j])
  {
    seq(|acts|, j requires 0 <= j < |acts| => HitOf(entry, acts[j]))
  }

  lemma {:induction false} LookupIsFirstHit(entry: Value, acts: seq<Value>, j: nat)
    requires j <= |acts| && IsPair(entry) && AllPairs(acts)
    ensures LookupVerdict(entry, acts, j) == OrDifferent(FirstAnswer(Hits(entry, acts)[j..]))
    decreases |acts| - j
  {
    hide ValueVerdict, IsPair, PairKey, PairValue, Depth;
    if j < |acts| {
      LookupIsFirstHit(entry, acts, j + 1);
      assert Hits(entry, acts)[j..][1..] == Hits(entry, acts)[j + 1..];
    }
  }

  function OrDifferent(answer: Option<Verdict>): Verdict {
    if answer.Some? then answer.value else Different
  }

  /** A lookup finds the same whatever the order of the actual entries exactly when all actual entries
      whose keys answer it agree. */
  lemma LookupOrderMatters(entry: Value, acts: seq<Value>)
    requires IsPair(entry) && AllPairs(acts)
    ensures (forall order :: IsPermutation(order, |acts|) ==>
               LookupVerdict(entry, Reorder(acts, order), 0) == LookupVerdict(entry, acts, 0))
            <==> AnswersAgree(Hits(entry, acts))
  {
    hide ValueVerdict, LookupVerdict, HitOf, IsPair, FirstAnswer;
    var hits := Hits(entry, acts);
    OrderDecidesAnswers(hits);
    LookupIsFirstHit(entry, acts, 0);
    assert hits[0..] == hits;
    forall order | IsPermutation(order, |acts|)
      ensures LookupVerdict(entry, Reorder(acts, order), 0) == LookupVerdict(entry, acts, 0)
              <==> FirstAnswer(Reorder(hits, order)) == FirstAnswer(hits)
    {
      var t := Reorder(acts, order);
      LookupIsFirstHit(entry, t, 0);
      assert Hits(entry, t) == Reorder(hits, order);
      assert Hits(entry, t)[0..] == Hits(entry, t);
      HitsPresence(hits, order);
    }
  }

  /** A reordered search has an answer exactly when the search has one. */
  lemma HitsPresence(hits: seq<Option<Verdict>>, order: seq<nat>)
    requires IsPermutation(order, |hits|)
    ensures FirstAnswer(Reorder(hits, order)).Some? <==> FirstAnswer(hits).Some?
  {
    if FirstAnswer(hits).Some? {
      var i :| 0 <= i < |hits| && hits[i] == FirstAnswer(hits);
      assert Reorder(hits, order)[PositionOf(order, |hits|, i)].Some?;
    }
    if FirstAnswer(Reorder(hits, order)).Some? {
      var k :| 0 <= k < |hits| && Reorder(hits, order)[k] == FirstAnswer(Reorder(hits, order));
      assert hits[order[k]].Some?;
    }
  }

  // ---------- The outer loop over other orders of the actual entries ----------

  /** The expected entries come to the same verdict whatever the order of the actual ones. */
  ghost predicate ActualOrderIsIrrelevant(es: seq<Value>, acts: seq<Value>)
    requires AllPairs(es) && AllPairs(acts)
  {
    forall order :: IsPermutation(order, |acts|) ==>
      EntriesVerdict(es, Reorder(acts, order), 0) == EntriesVerdict(es, acts, 0)
  }

  /** Some actual entry answers the lookup, and all that do answer EQUAL. */
  ghost predicate AlwaysPasses(entry: Value, acts: seq<Value>)
    requires IsPair(entry) && AllPairs(acts)
  {
    && FirstAnswer(Hits(entry, acts)).Some?
    && forall j :: 0 <= j < |acts| && Hits(entry, acts)[j].Some? ==> Hits(entry, acts)[j] == Some(Equal)
  }

  /** As long as all earlier entries pass in every order, the answers to the next one agree. */
  ghost predicate AgreesWhereReached(es: seq<Value>, acts: seq<Value>)
    requires AllPairs(es) && AllPairs(acts)
  {
    forall i :: 0 <= i < |es| && (forall k :: 0 <= k < i ==> AlwaysPasses(es[k], acts)) ==>
      AnswersAgree(Hits(es[i], acts))
  }

  /** At every length of the expected list the order of the actual entries is irrelevant exactly when
      the answers to each entry that is reached agree. */
  lemma ActualOrderMatters(es: seq<Value>, acts: seq<Value>)
    requires AllPairs(es) && AllPairs(acts)
    ensures (forall n :: 0 <= n <= |es| ==> ActualOrderIsIrrelevant(es[..n], acts)) <==> AgreesWhereReached(es, acts)
  {
    hide EntriesVerdict, LookupVerdict, HitOf, IsPair, FirstAnswer, AnswersAgree, AlwaysPasses;
    if AgreesWhereReached(es, acts) {
      forall n | 0 <= n <= |es|
        ensures ActualOrderIsIrrelevant(es[..n], acts)
      {
        AgreesOnPrefix(es, acts, n);
        forall order | IsPermutation(order, |acts|)
          ensures EntriesVerdict(es[..n], Reorder(acts, order), 0) == EntriesVerdict(es[..n], acts, 0)
        {
          SameFromHere(es[..n], acts, order, 0);
        }
      }
    }
    if forall n :: 0 <= n <= |es| ==> ActualOrderIsIrrelevant(es[..n], acts) {
      forall i | 0 <= i < |es| && (forall k :: 0 <= k < i ==> AlwaysPasses(es[k], acts))
        ensures AnswersAgree(Hits(es[i], acts))
      {
        var next := i + 1;
        assert ActualOrderIsIrrelevant(es[..next], acts);
        LookupOrderMatters(es[i], acts);
        ReachedEntryDecides(es, acts, i, next);
      }
    }
  }

  lemma AgreesOnPrefix(es: seq<Value>, acts: seq<Value>, n: nat)
    requires AllPairs(es) && AllPairs(acts) && n <= |es| && AgreesWhereReached(es, acts)
    ensures AgreesWhereReached(es[..n], acts)
  {
    hide AlwaysPasses, AnswersAgree, IsPair;
    var t := es[..n];
    forall i | 0 <= i < |t| && (forall k :: 0 <= k < i ==> AlwaysPasses(t[k], acts))
      ensures AnswersAgree(Hits(t[i], acts))
    {
      assert forall k :: 0 <= k < i ==> t[k] == es[k];
      assert t[i] == es[i];
    }
  }

  /** An entry that passes in one order and whose answers agree passes in every order. */
  lemma AgreeingPasses(entry: Value, acts: seq<Value>)
    requires IsPair(entry) && AllPairs(acts) && AnswersAgree(Hits(entry, acts))
    requires LookupVerdict(entry, acts, 0) == Equal
    ensures AlwaysPasses(entry, acts)
  {
    hide LookupVerdict, HitOf, IsPair, FirstAnswer, AnswersAgree;
    var hits := Hits(entry, acts);
    LookupIsFirstHit(entry, acts, 0);
    assert hits[0..] == hits;
    forall j | 0 <= j < |acts| && hits[j].Some?
      ensures hits[j] == Some(Equal)
    {
      var i := AnswerIndexOf(hits, j);
      TwoAnswersAgree(hits, j, i);
    }
  }

  lemma {:induction false} SameFromHere(es: seq<Value>, acts: seq<Value>, order: seq<nat>, i: nat)
    requires AllPairs(es) && AllPairs(acts) && IsPermutation(order, |acts|) && i <= |es|
    requires AgreesWhereReached(es, acts) && forall k :: 0 <= k < i ==> AlwaysPasses(es[k], acts)
    ensures EntriesVerdict(es, Reorder(acts, order), i) == EntriesVerdict(es, acts, i)
    decreases |es| - i
  {
    hide LookupVerdict, IsPair, AlwaysPasses, AnswersAgree;
    if i < |es| {
      LookupOrderMatters(es[i], acts);
      if LookupVerdict(es[i], acts, 0) == Equal {
        AgreeingPasses(es[i], acts);
        SameFromHere(es, acts, order, i + 1);
      }
    }
  }

  /** An entry that passes always is EQUAL in every order. */
  lemma PassesInOrder(entry: Value, acts: seq<Value>, order: seq<nat>)
    requires IsPair(entry) && AllPairs(acts) && IsPermutation(order, |acts|) && AlwaysPasses(entry, acts)
    ensures LookupVerdict(entry, Reorder(acts, order), 0) == Equal
  {
    hide LookupVerdict, HitOf, IsPair, FirstAnswer;
    var hits, t := Hits(entry, acts), Reorder(acts, order);
    LookupIsFirstHit(entry, t, 0);
    assert Hits(entry, t) == Reorder(hits, order);
    assert Hits(entry, t)[0..] == Hits(entry, t);
    HitsPresence(hits, order);
    var p := AnswerIndex(Reorder(hits, order));
    assert hits[order[p]].Some?;
  }

  lemma {:induction false} PassedEntries(es: seq<Value>, acts: seq<Value>, order: seq<nat>, from: nat, i: nat)
    requires AllPairs(es) && AllPairs(acts) && IsPermutation(order, |acts|) && from <= i < |es|
    requires forall k :: 0 <= k < i ==> AlwaysPasses(es[k], acts)
    ensures EntriesVerdict(es, Reorder(acts, order), from) == EntriesVerdict(es, Reorder(acts, order), i)
    decreases i - from
  {
    hide LookupVerdict, IsPair, AlwaysPasses;
    if from < i {
      PassesInOrder(es[from], acts, order);
      PassedEntries(es, acts, order, from + 1, i);
    }
  }

  /** If all earlier entries always pass, the list up to entry `i` comes to what that entry says. */
  lemma ReachedEntryDecides(es: seq<Value>, acts: seq<Value>, i: nat, next: nat)
    requires AllPairs(es) && AllPairs(acts) && i < |es| && next == i + 1
    requires forall k :: 0 <= k < i ==> AlwaysPasses(es[k], acts)
    requires ActualOrderIsIrrelevant(es[..next], acts)
    ensures forall order :: IsPermutation(order, |acts|) ==>
              LookupVerdict(es[i], Reorder(acts, order), 0) == LookupVerdict(es[i], acts, 0)
  {
    hide LookupVerdict, IsPair, AlwaysPasses, EntriesVerdict;
    var t := es[..next];
    assert forall k :: 0 <= k < i ==> t[k] == es[k];
    ItselfIsAnOrder(acts);
    PassedEntries(t, acts, Identity(|acts|), 0, i);
    LastEntryDecides(t, acts, i);
    forall order | IsPermutation(order, |acts|)
      ensures LookupVerdict(es[i], Reorder(acts, order), 0) == LookupVerdict(es[i], acts, 0)
    {
      PassedEntries(t, acts, order, 0, i);
      LastEntryDecides(t, Reorder(acts, order), i);
    }
  }

  lemma LastEntryDecides(es: seq<Value>, acts: seq<Value>, i: nat)
    requires AllPairs(es) && AllPairs(acts) && |es| == i + 1
    ensures EntriesVerdict(es, acts, i) == LookupVerdict(es[i], acts, 0)
  {
    hide LookupVerdict;
    assert EntriesVerdict(es, acts, |es|) == Equal;
  }
}
