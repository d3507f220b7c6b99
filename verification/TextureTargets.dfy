/** Discovery of the native textures a selection needs: the distinct targets of the selected materials'
    texture pointers, in the order in which they are first met. */
module TextureTargets {
  import opened Basics
  import opened MaterialLedger
  import opened MaterialDependencies

  const TEXTURE2D: int := 28
  const RENDER_TEXTURE: int := 84

  /** The object and what identifies its source: the digest of its bytes and its occurrence. */
  datatype TextureTarget = TextureTarget(
    sourceIndex: nat, pathId: int, classId: int, digest: seq<Byte>, occurrence: string)

  datatype TargetStats = TargetStats(selected: nat, texture2d: nat, renderTexture: nat)

  ghost predicate SameObject(s: TextureTarget, t: TextureTarget) {
    s.sourceIndex == t.sourceIndex && s.pathId == t.pathId
  }

  // ---------- The targets in reading order ----------

  ghost predicate IsTextureTarget(c: Catalog, r: Resolution) {
    HasTarget(c, r) && r.target.value.classId in {28, 84}
  }

  ghost function TargetOf(c: Catalog, r: Resolution): TextureTarget
    requires IsTextureTarget(c, r)
  {
    var source := c.sources[r.targetIndex];
    TextureTarget(r.targetIndex, r.target.value.pathId, r.target.value.classId, source.digest, source.occurrence)
  }

  /** The targets of the first `n` texture properties of a material. */
  ghost function TargetsOfMaterial(c: Catalog, m: CatalogMaterial, graph: PointerGraph, n: nat): seq<TextureTarget>
    requires n <= |m.textures|
  {
    if n == 0 then []
    else
      var r := graph(m.sourceIndex, m.textures[n - 1].pointer);
      TargetsOfMaterial(c, m, graph, n - 1) + if IsTextureTarget(c, r) then [TargetOf(c, r)] else []
  }

  /** Every target of the first `n` materials, as often as it is met. */
  ghost function TargetsMet(c: Catalog, sel: seq<bool>, graph: PointerGraph, n: nat): seq<TextureTarget>
    requires |sel| == c.shaderCount && n <= |c.materials|
  {
    if n == 0 then []
    else
      var m := c.materials[n - 1];
      TargetsMet(c, sel, graph, n - 1) + if IsChosen(c, sel, m) then TargetsOfMaterial(c, m, graph, |m.textures|)
        else []
  }

  // ---------- First occurrences ----------

  ghost predicate Contains(ts: seq<TextureTarget>, t: TextureTarget) {
    exists i :: 0 <= i < |ts| && SameObject(ts[i], t)
  }

  ghost function FirstOccurrences(ts: seq<TextureTarget>): seq<TextureTarget> {
    if ts == [] then []
    else
      var init, last := FirstOccurrences(ts[..|ts| - 1]), ts[|ts| - 1];
      if Contains(init, last) then init else init + [last]
  }

  /** Position `k` is the first at which its object is met. */
  ghost predicate IsFirst(ts: seq<TextureTarget>, k: nat)
    requires k < |ts|
  {
    forall j :: 0 <= j < k ==> !SameObject(ts[j], ts[k])
  }

  ghost predicate AllDifferent(ts: seq<TextureTarget>) {
    forall i, j :: 0 <= i < j < |ts| ==> !SameObject(ts[i], ts[j])
  }

  /** `positions` lists, in increasing order, exactly the first occurrences in `ts`. */
  ghost predicate ListsFirsts(positions: seq<nat>, ts: seq<TextureTarget>) {
    && (forall i, j :: 0 <= i < j < |positions| ==> positions[i] < positions[j])
    && (forall i :: 0 <= i < |positions| ==> positions[i] < |ts|)
    && (forall k: nat :: k < |ts| ==> (k in positions <==> IsFirst(ts, k)))
  }

  lemma {:induction false} FirstsContain(ts: seq<TextureTarget>, t: TextureTarget)
    ensures Contains(FirstOccurrences(ts), t) <==> Contains(ts, t)
  {
    if ts != [] {
      var init, last := ts[..|ts| - 1], ts[|ts| - 1];
      FirstsContain(init, t);
      FirstsContain(init, last);
      FirstOccurrencesStep(ts);
      hide FirstOccurrences;
      ContainsOneMore(init, last, t);
      ContainsOneMore(FirstOccurrences(init), last, t);
      assert ts == init + [last];
      if Contains(init, last) && SameObject(last, t) {
        SameObjectContained(init, last, t);
      }
    }
  }

  lemma ContainsOneMore(ts: seq<TextureTarget>, last: TextureTarget, t: TextureTarget)
    ensures Contains(ts + [last], t) <==> Contains(ts, t) || SameObject(last, t)
  {
    var more := ts + [last];
    assert forall i :: 0 <= i < |ts| ==> more[i] == ts[i];
    assert more[|ts|] == last;
  }

  lemma SameObjectContained(ts: seq<TextureTarget>, s: TextureTarget, t: TextureTarget)
    requires Contains(ts, s) && SameObject(s, t)
    ensures Contains(ts, t)
  {
    var i :| 0 <= i < |ts| && SameObject(ts[i], s);
    assert SameObject(ts[i], t);
  }

  /** `xs` are the elements of `ts` at `positions`. */
  ghost predicate Picks(xs: seq<TextureTarget>, positions: seq<nat>, ts: seq<TextureTarget>) {
    |xs| == |positions| && forall i :: 0 <= i < |positions| ==> positions[i] < |ts| && xs[i] == ts[positions[i]]
  }

  lemma PicksOneMore(xs: seq<TextureTarget>, positions: seq<nat>, init: seq<TextureTarget>, last: TextureTarget)
    requires Picks(xs, positions, init)
    ensures Picks(xs, positions, init + [last]) && Picks(xs + [last], positions + [|init|], init + [last])
  {
  }

  lemma FirstOccurrencesStep(ts: seq<TextureTarget>)
    requires ts != []
    ensures FirstOccurrences(ts)
         == var init, last := FirstOccurrences(ts[..|ts| - 1]), ts[|ts| - 1];
            if Contains(init, last) then init else init + [last]
  {
  }

  lemma NoFirsts()
    ensures ListsFirsts([], []) && Picks(FirstOccurrences([]), [], [])
  {
  }

  /** The population: the first occurrence of every object met, in the order of first meeting. */
  lemma {:induction false} FirstOccurrencesAreFirsts(ts: seq<TextureTarget>) returns (positions: seq<nat>)
    ensures ListsFirsts(positions, ts) && Picks(FirstOccurrences(ts), positions, ts)
  {
    hide ListsFirsts, Picks, FirstOccurrences, Contains;
    if ts == [] {
      positions := [];
      NoFirsts();
    } else {
      var init, last := ts[..|ts| - 1], ts[|ts| - 1];
      var before := FirstOccurrencesAreFirsts(init);
      FirstsContain(init, last);
      FirstOccurrencesStep(ts);
      ListsFirstsOneMore(before, init, last);
      PicksOneMore(FirstOccurrences(init), before, init, last);
      positions := if Contains(init, last) then before else before + [|init|];
      assert ts == init + [last];
    }
  }

  lemma ListsFirstsOneMore(before: seq<nat>, init: seq<TextureTarget>, last: TextureTarget)
    requires ListsFirsts(before, init)
    ensures ListsFirsts(if Contains(init, last) then before else before + [|init|], init + [last])
  {
    var ts, positions := init + [last], if Contains(init, last) then before else before + [|init|];
    forall k: nat | k < |ts|
      ensures k in positions <==> IsFirst(ts, k)
    {
      if k < |init| {
        assert forall j :: 0 <= j <= k ==> ts[j] == init[j];
        assert IsFirst(ts, k) <==> IsFirst(init, k);
        assert k in positions <==> k in before;
      } else {
        LastIsFirst(init, last);
        assert |init| !in before;
      }
    }
  }

  lemma LastIsFirst(init: seq<TextureTarget>, last: TextureTarget)
    ensures IsFirst(init + [last], |init|) <==> !Contains(init, last)
  {
    var ts := init + [last];
    assert forall j :: 0 <= j < |init| ==> ts[j] == init[j];
  }

  /** No object is listed twice. */
  lemma FirstOccurrencesDiffer(ts: seq<TextureTarget>)
    ensures AllDifferent(FirstOccurrences(ts))
  {
    var positions := FirstOccurrencesAreFirsts(ts);
    var firsts := FirstOccurrences(ts);
    forall i, j | 0 <= i < j < |firsts|
      ensures !SameObject(firsts[i], firsts[j])
    {
      assert positions[j] in positions && IsFirst(ts, positions[j]);
    }
  }

  // ---------- Discovery ----------

  ghost function Population(c: Catalog, sel: seq<bool>, graph: PointerGraph): seq<TextureTarget>
    requires |sel| == c.shaderCount
  {
    FirstOccurrences(TargetsMet(c, sel, graph, |c.materials|))
  }

  function CountClass(ts: seq<TextureTarget>, classId: int): nat {
    if ts == [] then 0 else CountClass(ts[..|ts| - 1], classId) + if ts[|ts| - 1].classId == classId then 1 else 0
  }

  predicate AreTextures(ts: seq<TextureTarget>) {
    forall i :: 0 <= i < |ts| ==> ts[i].classId == TEXTURE2D || ts[i].classId == RENDER_TEXTURE
  }

  ghost predicate StatsOf(st: TargetStats, ts: seq<TextureTarget>) {
    && st.selected == |ts| == st.texture2d + st.renderTexture && AreTextures(ts)
    && st.texture2d == CountClass(ts, TEXTURE2D) && st.renderTexture == CountClass(ts, RENDER_TEXTURE)
  }

  lemma AppendsFirst(met: seq<TextureTarget>, t: TextureTarget)
    ensures FirstOccurrences(met + [t])
         == if Contains(FirstOccurrences(met), t) then FirstOccurrences(met) else FirstOccurrences(met) + [t]
  {
    assert (met + [t])[..|met|] == met;
  }

  lemma StatsOneMore(st: TargetStats, ts: seq<TextureTarget>, t: TextureTarget)
    requires StatsOf(st, ts) && (t.classId == TEXTURE2D || t.classId == RENDER_TEXTURE)
    ensures StatsOf(TargetStats(st.selected + 1, st.texture2d + One(t.classId == TEXTURE2D),
                                st.renderTexture + One(t.classId != TEXTURE2D)), ts + [t])
  {
    assert (ts + [t])[..|ts|] == ts;
  }

  /** append_unique_target: the target joins the population unless its object is already in it. */
  method AppendUnique(targets: seq<TextureTarget>, st: TargetStats, t: TextureTarget, ghost met: seq<TextureTarget>)
    returns (targets': seq<TextureTarget>, st': TargetStats)
    requires targets == FirstOccurrences(met) && StatsOf(st, targets)
    requires t.classId == TEXTURE2D || t.classId == RENDER_TEXTURE
    ensures targets' == FirstOccurrences(met + [t]) && StatsOf(st', targets')
  {
    hide FirstOccurrences, StatsOf;
    AppendsFirst(met, t);
    for index := 0 to |targets|
      invariant forall i :: 0 <= i < index ==> !SameObject(targets[i], t)
    {
      if targets[index].sourceIndex == t.sourceIndex && targets[index].pathId == t.pathId { return targets, st; }
    }
    StatsOneMore(st, targets, t);
    targets' := targets + [t];
    st' := st.(selected := st.selected + 1);
    if t.classId == TEXTURE2D {
      st' := st'.(texture2d := st'.texture2d + 1);
    } else {
      st' := st'.(renderTexture := st'.renderTexture + 1);
    }
  }

  /** The inner loop of gather_targets. */
  method GatherOfMaterial(c: Catalog, m: CatalogMaterial, graph: PointerGraph, targets: seq<TextureTarget>,
                          st: TargetStats, ghost met: seq<TextureTarget>)
    returns (targets': seq<TextureTarget>, st': TargetStats)
    requires targets == FirstOccurrences(met) && StatsOf(st, targets)
    ensures targets' == FirstOccurrences(met + TargetsOfMaterial(c, m, graph, |m.textures|)) && StatsOf(st', targets')
  {
    hide FirstOccurrences, StatsOf;
    targets', st' := targets, st;
    assert met + [] == met;
    for index := 0 to |m.textures|
      invariant targets' == FirstOccurrences(met + TargetsOfMaterial(c, m, graph, index)) && StatsOf(st', targets')
    {
      var r := graph(m.sourceIndex, m.textures[index].pointer);
      ghost var before := TargetsOfMaterial(c, m, graph, index);
      if !r.resolved || r.status == ResolveNull || !ResolveSucceeded(r.status) || r.target.None?
         || r.targetIndex >= |c.sources| {
        assert before + [] == before;
        continue;
      }
      if r.target.value.classId != TEXTURE2D && r.target.value.classId != RENDER_TEXTURE {
        assert before + [] == before;
        continue;
      }
      var source := c.sources[r.targetIndex];
      var t := TextureTarget(r.targetIndex, r.target.value.pathId, r.target.value.classId, source.digest,
        source.occurrence);
      targets', st' := AppendUnique(targets', st', t, met + before);
      assert met + before + [t] == met + (before + [t]);
    }
  }

  /** gather_targets. */
  method Gather(c: Catalog, sel: seq<bool>, graph: PointerGraph) returns (targets: seq<TextureTarget>, st: TargetStats)
    requires |sel| == c.shaderCount
    ensures targets == Population(c, sel, graph) && StatsOf(st, targets)
  {
    hide StatsOf, TargetsOfMaterial;
    targets, st := [], TargetStats(0, 0, 0);
    NoTargets();
    for index := 0 to |c.materials|
      invariant targets == FirstOccurrences(TargetsMet(c, sel, graph, index)) && StatsOf(st, targets)
    {
      var m := c.materials[index];
      ghost var met := TargetsMet(c, sel, graph, index);
      if m.status != MaterialReady || !m.decoded || m.shaderIndex >= c.shaderCount || !sel[m.shaderIndex] {
        assert met + [] == met;
        continue;
      }
      targets, st := GatherOfMaterial(c, m, graph, targets, st, met);
    }
  }

  lemma NoTargets()
    ensures FirstOccurrences([]) == [] && StatsOf(TargetStats(0, 0, 0), [])
  {
  }

  /** target_population_matches_selection_authority: the records still are the population of the
      selection as it reads now, object for object and in order. */
  method PopulationMatches(c: Catalog, sel: seq<bool>, graph: PointerGraph,
                           targets: seq<TextureTarget>) returns (matches: bool)
    requires |sel| == c.shaderCount
    ensures matches <==> targets == Population(c, sel, graph)
  {
    var expected, _ := Gather(c, sel, graph);
    matches := |expected| == |targets|;
    var index := 0;
    while matches && index < |expected|
      invariant index <= |expected|
      invariant matches ==> |expected| == |targets| && expected[..index] == targets[..index]
      invariant !matches ==> expected != targets
    {
      matches := expected[index] == targets[index];
      index := index + 1;
    }
  }

  // ---------- What the population covers ----------

  lemma {:induction false} MaterialTargetIsMet(c: Catalog, m: CatalogMaterial, graph: PointerGraph, n: nat, k: nat)
    requires k < n <= |m.textures| && IsTextureTarget(c, graph(m.sourceIndex, m.textures[k].pointer))
    ensures TargetOf(c, graph(m.sourceIndex, m.textures[k].pointer)) in TargetsOfMaterial(c, m, graph, n)
  {
    if k < n - 1 {
      MaterialTargetIsMet(c, m, graph, n - 1, k);
    }
  }

  lemma {:induction false} TargetIsMet(c: Catalog, sel: seq<bool>, graph: PointerGraph, n: nat, i: nat,
                                       t: TextureTarget)
    requires |sel| == c.shaderCount && i < n <= |c.materials| && IsChosen(c, sel, c.materials[i])
    requires t in TargetsOfMaterial(c, c.materials[i], graph, |c.materials[i].textures|)
    ensures t in TargetsMet(c, sel, graph, n)
  {
    if i < n - 1 {
      TargetIsMet(c, sel, graph, n - 1, i, t);
    }
  }

  /** Every native texture a selected material points at is in the population, once. */
  lemma PopulationCovers(c: Catalog, sel: seq<bool>, graph: PointerGraph, i: nat, k: nat)
    requires |sel| == c.shaderCount && i < |c.materials| && IsChosen(c, sel, c.materials[i])
    requires k < |c.materials[i].textures|
    requires IsTextureTarget(c, graph(c.materials[i].sourceIndex, c.materials[i].textures[k].pointer))
    ensures exists j :: 0 <= j < |Population(c, sel, graph)|
              && SameObject(Population(c, sel, graph)[j],
                TargetOf(c, graph(c.materials[i].sourceIndex, c.materials[i].textures[k].pointer)))
              && forall j' :: 0 <= j' < |Population(c, sel, graph)| && j' != j ==>
                   !SameObject(Population(c, sel, graph)[j'], Population(c, sel, graph)[j])
  {
    var m := c.materials[i];
    var t := TargetOf(c, graph(m.sourceIndex, m.textures[k].pointer));
    MaterialTargetIsMet(c, m, graph, |m.textures|, k);
    TargetIsMet(c, sel, graph, |c.materials|, i, t);
    var met := TargetsMet(c, sel, graph, |c.materials|);
    var at :| 0 <= at < |met| && met[at] == t;
    assert SameObject(met[at], t);
    FirstsContain(met, t);
    FirstOccurrencesDiffer(met);
    var population := Population(c, sel, graph);
    var j :| 0 <= j < |population| && SameObject(population[j], t);
    assert forall j' :: 0 <= j' < |population| && j' != j ==> !SameObject(population[j'], population[j]);
  }

  // ---------- What the catalog lists ----------

  /** The source has the digest and occurrence it had, and lists the object under its class. */
  predicate IsListed(c: Catalog, t: TextureTarget) {
    && t.sourceIndex < |c.sources|
    && c.sources[t.sourceIndex].digest == t.digest && c.sources[t.sourceIndex].occurrence == t.occurrence
    && (t.classId, t.pathId) in c.sources[t.sourceIndex].objects
  }

  ghost predicate AllListed(c: Catalog, ts: seq<TextureTarget>) {
    forall i :: 0 <= i < |ts| ==> IsListed(c, ts[i])
  }

  /** What the pointer resolver promises: the object it resolves to is one its source lists. */
  ghost predicate ResolvesToObjects(c: Catalog, graph: PointerGraph) {
    forall source, p :: IsTextureTarget(c, graph(source, p)) ==> IsListed(c, TargetOf(c, graph(source, p)))
  }

  lemma {:induction false} MaterialTargetsAreListed(c: Catalog, m: CatalogMaterial, graph: PointerGraph, n: nat)
    requires ResolvesToObjects(c, graph) && n <= |m.textures|
    ensures AllListed(c, TargetsOfMaterial(c, m, graph, n))
  {
    hide IsListed;
    if n > 0 {
      MaterialTargetsAreListed(c, m, graph, n - 1);
    }
  }

  lemma {:induction false} TargetsMetAreListed(c: Catalog, sel: seq<bool>, graph: PointerGraph, n: nat)
    requires |sel| == c.shaderCount && ResolvesToObjects(c, graph) && n <= |c.materials|
    ensures AllListed(c, TargetsMet(c, sel, graph, n))
  {
    hide IsListed, IsChosen, ResolvesToObjects, TargetsOfMaterial;
    if n > 0 {
      TargetsMetAreListed(c, sel, graph, n - 1);
      MaterialTargetsAreListed(c, c.materials[n - 1], graph, |c.materials[n - 1].textures|);
    }
  }

  /** Discovery finds only objects the catalog lists. */
  lemma PopulationIsListed(c: Catalog, sel: seq<bool>, graph: PointerGraph)
    requires |sel| == c.shaderCount && ResolvesToObjects(c, graph)
    ensures AllListed(c, Population(c, sel, graph))
  {
    hide IsListed, FirstOccurrences, ResolvesToObjects, TargetsMet;
    TargetsMetAreListed(c, sel, graph, |c.materials|);
    var positions := FirstOccurrencesAreFirsts(TargetsMet(c, sel, graph, |c.materials|));
  }
}
