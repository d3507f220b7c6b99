/** Small shared vocabulary: optional values, bytes, and facts about finite collections. */
module Basics {
  datatype Option<+T> = None | Some(value: T)

  type Byte = n: int | 0 <= n < 256

  const SIZE_MAX: int := 0xFFFF_FFFF_FFFF_FFFF
  const INT_MAX: int := 0x7FFF_FFFF
  const INT_MIN: int := -0x8000_0000
  const INT64_MAX: int := 0x7FFF_FFFF_FFFF_FFFF
  const INT64_MIN: int := -0x8000_0000_0000_0000

  function Max(a: nat, b: nat): nat {
    if a < b then b else a
  }

  /** One when it holds, for counting. */
  function One(b: bool): nat {
    if b then 1 else 0
  }

  /** `order` lists every index below `n` exactly once. */
  ghost predicate IsPermutation(order: seq<nat>, n: nat) {
    && |order| == n
    && (forall i :: 0 <= i < n ==> order[i] < n)
    && (forall i, j :: 0 <= i < j < n ==> order[i] != order[j])
  }

  /** The elements of `s`, taken in the order `order` lists them. */
  ghost function Reorder<T>(s: seq<T>, order: seq<nat>): (r: seq<T>)
    requires forall i :: 0 <= i < |order| ==> order[i] < |s|
    ensures |r| == |order|
    ensures forall i :: 0 <= i < |r| ==> r[i] == s[order[i]]
  {
    seq(|order|, i requires 0 <= i < |order| => s[order[i]])
  }

  /** A subset of a finite set that is no smaller is the whole set. */
  lemma SubsetOfEqualSize<T>(a: set<T>, b: set<T>)
    requires a <= b && |a| >= |b|
    ensures a == b
  {
    assert |b - a| == |b| - |a|;
  }

  /** A finite map that agrees with another on all its keys and is no smaller is that map. */
  lemma SubmapOfEqualSize<K, V>(a: map<K, V>, b: map<K, V>)
    requires forall k :: k in a ==> k in b && b[k] == a[k]
    requires |a| >= |b|
    ensures a == b
  {
    assert a.Keys <= b.Keys;
    SubsetOfEqualSize(a.Keys, b.Keys);
  }

  ghost function Below(n: nat): (r: set<nat>)
    ensures |r| == n
    ensures forall k: nat :: k in r <==> k < n
  {
    if n == 0 then {} else Below(n - 1) + {n - 1}
  }

  /** A permutation lists every index. */
  lemma PermutationHits(order: seq<nat>, n: nat, i: nat)
    requires IsPermutation(order, n) && i < n
    ensures exists k :: 0 <= k < n && order[k] == i
  {
    var hit := set k | 0 <= k < n :: order[k];
    DistinctImages(order, n);
    SubsetOfEqualSize(hit, Below(n));
    assert i in hit;
  }

  lemma {:induction false} DistinctImages<T>(s: seq<T>, n: nat)
    requires n <= |s| && forall i, j :: 0 <= i < j < n ==> s[i] != s[j]
    ensures |set k | 0 <= k < n :: s[k]| == n
  {
    if n > 0 {
      DistinctImages(s, n - 1);
      assert (set k | 0 <= k < n :: s[k]) == (set k | 0 <= k < n - 1 :: s[k]) + {s[n - 1]};
    }
  }

  // ---------- Lists of key-value pairs as finite maps ----------

  ghost predicate KeysDistinct<K, V>(ps: seq<(K, V)>) {
    forall i, j :: 0 <= i < j < |ps| ==> ps[i].0 != ps[j].0
  }

  ghost function MapOf<K, V>(ps: seq<(K, V)>): map<K, V> {
    if ps == [] then map[] else MapOf(ps[..|ps| - 1])[ps[|ps| - 1].0 := ps[|ps| - 1].1]
  }

  lemma {:induction false} MapOfDistinct<K, V>(ps: seq<(K, V)>)
    requires KeysDistinct(ps)
    ensures |MapOf(ps)| == |ps|
    ensures forall i :: 0 <= i < |ps| ==> ps[i].0 in MapOf(ps) && MapOf(ps)[ps[i].0] == ps[i].1
    ensures forall k :: k in MapOf(ps) ==> exists i :: 0 <= i < |ps| && ps[i].0 == k
  {
    if ps != [] {
      var init, last := ps[..|ps| - 1], ps[|ps| - 1];
      MapOfDistinct(init);
      assert forall i :: 0 <= i < |init| ==> init[i] == ps[i];
      assert last.0 !in MapOf(init);
      forall k | k in MapOf(ps)
        ensures exists i :: 0 <= i < |ps| && ps[i].0 == k
      {
        if k != last.0 {
          var i :| 0 <= i < |init| && init[i].0 == k;
          assert ps[i].0 == k;
        }
      }
    }
  }

  /** Two lists of equal length with distinct keys denote the same map exactly when every pair of the
      first occurs in the second. */
  lemma SameMapWhenContained<K, V>(ps: seq<(K, V)>, qs: seq<(K, V)>)
    requires KeysDistinct(ps) && KeysDistinct(qs) && |ps| == |qs|
    ensures MapOf(ps) == MapOf(qs) <==> forall i :: 0 <= i < |ps| ==> ps[i] in qs
  {
    MapOfDistinct(ps);
    MapOfDistinct(qs);
    var pm, qm := MapOf(ps), MapOf(qs);
    if forall i :: 0 <= i < |ps| ==> ps[i] in qs {
      forall k | k in pm
        ensures k in qm && qm[k] == pm[k]
      {
        var i :| 0 <= i < |ps| && ps[i].0 == k;
        assert ps[i] in qs;
      }
      SubmapOfEqualSize(pm, qm);
    }
    if pm == qm {
      forall i | 0 <= i < |ps|
        ensures ps[i] in qs
      {
        assert ps[i].0 in qm;
        var j :| 0 <= j < |qs| && qs[j].0 == ps[i].0;
        assert qs[j] == ps[i];
      }
    }
  }

  /** Reordering a list with distinct keys leaves its map as it was. */
  lemma MapOfIgnoresOrder<K, V>(ps: seq<(K, V)>, order: seq<nat>)
    requires KeysDistinct(ps) && IsPermutation(order, |ps|)
    ensures KeysDistinct(Reorder(ps, order))
    ensures MapOf(Reorder(ps, order)) == MapOf(ps)
  {
    var qs := Reorder(ps, order);
    forall i, j | 0 <= i < j < |qs|
      ensures qs[i].0 != qs[j].0
    {
      assert order[i] < order[j] || order[j] < order[i];
    }
    SameMapWhenContained(qs, ps);
  }
}
