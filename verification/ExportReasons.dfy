/** Why a record of a material export failed, over the whole run. */
module ExportReasons {
  import opened Basics
  import opened MaterialLedger
  import opened MaterialDependencies
  import opened MaterialGrouping
  import opened Publication
  import opened ExportRun
  import opened ExportSteps

  /** The material's group is reached: its shader is selected, the dependency graph is complete, and
      nothing is wrong with what the shader batch recorded. */
  predicate IsInOrder(x: Run, c: Catalog, sel: seq<bool>, m: CatalogMaterial)
    requires |sel| == c.shaderCount == |x.outputs|
  {
    IsChosen(c, sel, m) && x.options.authorityComplete && GroupFailure(x.outputs[m.shaderIndex]) == NoFailure
  }

  /** One of the leases held for the record was found changed. */
  ghost predicate HeldChanged(held: seq<Option<nat>>, b: Book) {
    exists k :: 0 <= k < |held| && held[k].Some? && held[k].value in b.unstable
  }

  /** The files of the record's shader could not be opened, or one was found changed. */
  ghost predicate ShaderLost(views: Option<ShaderViews>, b: Book) {
    views.None? || views.value.shader in b.unstable || views.value.meta in b.unstable
  }

  /** What publish_material reports: the projection's failure, what the emitters report, or the output. */
  predicate MaterialReason(projection: Failure, p: Prepared, failure: Failure) {
    if projection != NoFailure then failure == projection
    else match p
      case NotPrepared(reason, _, _, _) => failure == reason
      case Ready(_, _, _, _, _, _) => failure == OutputCollision || failure == OutputIo
  }

  /** Why a record of a group in order failed; the shader counts once the group is settled. */
  ghost predicate OwnReason(x: Run, i: nat, r: MaterialRecord, k: Backing, settled: bool, b: Book) {
    || (settled && r.failure == ShaderDependencyIdentity && ShaderLost(k.views, b))
    || (r.failure == TextureDependencyIdentity && HeldChanged(k.held, b))
    || (r.failure == ProjectionAllocation && r.dependencies == [])
    || MaterialReason(FirstFailure(r.dependencies), x.documents(i, r.dependencies), r.failure)
  }

  /** The reason of a failed record, in the order in which the export meets them. */
  ghost predicate HasReason(x: Run, c: Catalog, sel: seq<bool>, i: nat, r: MaterialRecord, k: Backing, settled: bool,
                            b: Book)
    requires |sel| == c.shaderCount == |x.outputs| && i < |c.materials|
  {
    var m := c.materials[i];
    if m.status != MaterialReady || !m.decoded then m.status != ShaderNull && r.failure == CatalogMaterialNotReady
    else if m.shaderIndex >= c.shaderCount then r.failure == ShaderIndexInvalid
    else
      && sel[m.shaderIndex]
      && if !x.options.authorityComplete then r.failure == DependencyAuthorityIncomplete
         else if GroupFailure(x.outputs[m.shaderIndex]) != NoFailure then
           r.failure == GroupFailure(x.outputs[m.shaderIndex])
         else OwnReason(x, i, r, k, settled, b)
  }

  ghost predicate Reasoned(x: Run, c: Catalog, sel: seq<bool>, i: nat, r: MaterialRecord, k: Backing, settled: bool,
                           b: Book)
    requires |sel| == c.shaderCount == |x.outputs| && i < |c.materials|
  {
    && (r.status == Failed ==> HasReason(x, c, sel, i, r, k, settled, b))
    && (IsPublished(r) ==> IsInOrder(x, c, sel, c.materials[i]))
  }

  /** Every failed record has its reason, and only materials of groups in order are published. */
  ghost predicate AllReasoned(x: Run, c: Catalog, sel: seq<bool>, rs: seq<MaterialRecord>, backings: seq<Backing>,
                              tried: set<nat>, b: Book)
  {
    && |sel| == c.shaderCount == |x.outputs| && |rs| == |c.materials| == |backings|
    && forall i: nat :: i < |rs| ==> Reasoned(x, c, sel, i, rs[i], backings[i], i !in tried, b)
  }

  lemma ReasonedLater(x: Run, c: Catalog, sel: seq<bool>, i: nat, r: MaterialRecord, k: Backing, settled: bool,
                      b: Book, b': Book)
    requires |sel| == c.shaderCount == |x.outputs| && i < |c.materials|
    requires Reasoned(x, c, sel, i, r, k, settled, b) && Grown(b, b')
    ensures Reasoned(x, c, sel, i, r, k, settled, b')
  {
    hide MaterialReason, FirstFailure, IsInOrder, GroupFailure;
  }

  lemma AllReasonedLater(x: Run, c: Catalog, sel: seq<bool>, rs: seq<MaterialRecord>, backings: seq<Backing>,
                         tried: set<nat>, b: Book, b': Book)
    requires AllReasoned(x, c, sel, rs, backings, tried, b) && Grown(b, b')
    ensures AllReasoned(x, c, sel, rs, backings, tried, b')
  {
    hide Reasoned, Grown;
    forall i: nat | i < |rs|
      ensures Reasoned(x, c, sel, i, rs[i], backings[i], i !in tried, b')
    {
      ReasonedLater(x, c, sel, i, rs[i], backings[i], i !in tried, b, b');
    }
  }

  lemma AllReasonedAfter(x: Run, c: Catalog, sel: seq<bool>, rs: seq<MaterialRecord>, backings: seq<Backing>,
                         tried: set<nat>, b: Book, k: nat, r: MaterialRecord, backing: Backing, tried': set<nat>)
    requires AllReasoned(x, c, sel, rs, backings, tried, b) && k < |rs|
    requires forall i: nat :: i != k ==> (i in tried <==> i in tried')
    requires Reasoned(x, c, sel, k, r, backing, k !in tried', b)
    ensures AllReasoned(x, c, sel, rs[k := r], backings[k := backing], tried', b)
  {
    hide Reasoned;
  }

  // ---------- The steps that fail records ----------

  /** The first `n` records are as classification leaves them. */
  ghost predicate ClassifiedUpTo(c: Catalog, sel: seq<bool>, authorityComplete: bool, rs: seq<MaterialRecord>, n: nat)
    requires |sel| == c.shaderCount
  {
    n <= |rs| == |c.materials| && forall i :: 0 <= i < n ==>
      rs[i] == ClassifiedRecord(c, sel, authorityComplete, c.materials[i])
  }

  lemma ClassifiedOneMore(c: Catalog, sel: seq<bool>, authorityComplete: bool, rs: seq<MaterialRecord>, n: nat)
    requires |sel| == c.shaderCount && n < |rs| && ClassifiedUpTo(c, sel, authorityComplete, rs, n)
    ensures ClassifiedUpTo(c, sel, authorityComplete,
                           rs[n := ClassifiedRecord(c, sel, authorityComplete, c.materials[n])], n + 1)
  {
    hide ClassifiedRecord;
  }

  lemma NoneClassified(c: Catalog, sel: seq<bool>, authorityComplete: bool, rs: seq<MaterialRecord>)
    requires |sel| == c.shaderCount && |rs| == |c.materials|
    ensures ClassifiedUpTo(c, sel, authorityComplete, rs, 0)
  {
  }

  lemma ClassifiedIsReasoned(x: Run, c: Catalog, sel: seq<bool>, rs: seq<MaterialRecord>, backings: seq<Backing>,
                             b: Book)
    requires |sel| == c.shaderCount == |x.outputs| && |backings| == |rs|
    requires ClassifiedUpTo(c, sel, x.options.authorityComplete, rs, |rs|)
    ensures AllReasoned(x, c, sel, rs, backings, {}, b)
  {
    forall i: nat | i < |rs|
      ensures Reasoned(x, c, sel, i, rs[i], backings[i], true, b)
    {
      assert rs[i] == ClassifiedRecord(c, sel, x.options.authorityComplete, c.materials[i]);
    }
  }

  /** No memory for the projection of a pending record. */
  lemma ProjectionIsReasoned(x: Run, c: Catalog, sel: seq<bool>, rs: seq<MaterialRecord>, backings: seq<Backing>,
                             tried: set<nat>, b: Book, k: nat)
    requires AllReasoned(x, c, sel, rs, backings, tried, b) && k < |rs|
    requires rs[k] == Pending(c.materials[k]) && IsInOrder(x, c, sel, c.materials[k])
    ensures AllReasoned(x, c, sel, rs[k := FailedAs(rs[k], ProjectionAllocation)], backings, tried + {k}, b)
  {
    var r := FailedAs(rs[k], ProjectionAllocation);
    assert Reasoned(x, c, sel, k, r, backings[k], false, b);
    assert backings[k := backings[k]] == backings;
    hide Reasoned, FailedAs;
    AllReasonedAfter(x, c, sel, rs, backings, tried, b, k, r, backings[k], tried + {k});
  }

  /** Leases that were not all closed stably: one of those held was found changed. */
  lemma SomeHeldChanged(held: seq<Option<nat>>, before: Book, after: Book)
    requires after.unstable != before.unstable && before.unstable <= after.unstable
    requires after.unstable <= before.unstable + HeldSet(held)
    ensures HeldChanged(held, after)
  {
    var l :| l in after.unstable && l !in before.unstable;
    assert l in HeldSet(held);
  }

  lemma UnstableIsAReason(held: seq<Option<nat>>, hasCloser: bool, stable: bool, before: Book, after: Book)
    requires !stable ==> after.unstable != before.unstable
    requires HeldClosed(hasCloser, held, before, after)
    ensures Grown(before, after) && (!stable ==> HeldChanged(held, after))
  {
    hide HeldSet, HeldChanged;
    if !stable { SomeHeldChanged(held, before, after); }
  }

  /** A record whose leases are closed: what publication reported, or the lease that was found changed. */
  lemma ReleasedIsReasoned(x: Run, c: Catalog, sel: seq<bool>, rs: seq<MaterialRecord>, backings: seq<Backing>,
                           tried: set<nat>, before: Book, after: Book, k: nat, r: MaterialRecord, failure: Failure,
                           held: seq<Option<nat>>, stable: bool)
    requires AllReasoned(x, c, sel, rs, backings, tried, before) && k < |rs| && Grown(before, after)
    requires IsInOrder(x, c, sel, c.materials[k])
    requires r.failure == NoFailure && r.status != Failed
    requires failure != NoFailure ==>
               MaterialReason(FirstFailure(r.dependencies), x.documents(k, r.dependencies), failure)
    requires !stable ==> HeldChanged(held, after)
    ensures AllReasoned(x, c, sel, rs[k := LeasesClosed(r, failure, stable)], backings[k := Backing(held, None)],
                        tried + {k}, after)
  {
    AllReasonedLater(x, c, sel, rs, backings, tried, before, after);
    hide AllReasoned, MaterialReason, FirstFailure, HeldChanged, GroupFailure;
    var final := LeasesClosed(r, failure, stable);
    assert final.dependencies == r.dependencies;
    assert Reasoned(x, c, sel, k, final, Backing(held, None), false, after);
    hide Reasoned, LeasesClosed;
    AllReasonedAfter(x, c, sel, rs, backings, tried, after, k, final, Backing(held, None), tried + {k});
  }

  /** Settling a group: unstable shader files become the reason, unless a lease was found changed before. */
  lemma SettledIsReasoned(x: Run, c: Catalog, sel: seq<bool>, rs: seq<MaterialRecord>, backings: seq<Backing>,
                          tried: set<nat>, b: Book, k: nat, views: ShaderViews, stable: bool)
    requires AllReasoned(x, c, sel, rs, backings, tried, b) && k < |rs| && k in tried
    requires IsInOrder(x, c, sel, c.materials[k]) && IsTried(c.materials[k], rs[k])
    requires !stable ==> ShaderLost(Some(views), b)
    ensures AllReasoned(x, c, sel, rs[k := ShaderClosed(rs[k], stable)],
                        backings[k := backings[k].(views := Some(views))], tried - {k}, b)
  {
    var r, backing := ShaderClosed(rs[k], stable), backings[k].(views := Some(views));
    assert Reasoned(x, c, sel, k, rs[k], backings[k], false, b);
    SettledReason(x, k, rs[k], backings[k], views, stable, b);
    hide MaterialReason, FirstFailure, HeldChanged, ShaderLost, HasPublication, AllReasoned, OwnReason;
    assert Reasoned(x, c, sel, k, r, backing, true, b);
    hide Reasoned, ShaderClosed;
    AllReasonedAfter(x, c, sel, rs, backings, tried, b, k, r, backing, tried - {k});
  }

  lemma SettledReason(x: Run, i: nat, r: MaterialRecord, k: Backing, views: ShaderViews, stable: bool, b: Book)
    requires if r.status == Failed then OwnReason(x, i, r, k, false, b) else r.failure == NoFailure
    requires !stable ==> ShaderLost(Some(views), b)
    ensures var r' := ShaderClosed(r, stable);
            r'.status == Failed ==> OwnReason(x, i, r', k.(views := Some(views)), true, b)
  {
    hide MaterialReason, FirstFailure, HeldChanged, ShaderLost;
  }

  /** Why every material of a group fails before any of it is published. */
  predicate FailsBeforehand(x: Run, c: Catalog, sel: seq<bool>, m: CatalogMaterial, failure: Failure)
    requires |sel| == c.shaderCount == |x.outputs|
  {
    && IsChosen(c, sel, m) && x.options.authorityComplete
    && failure == if GroupFailure(x.outputs[m.shaderIndex]) != NoFailure then GroupFailure(x.outputs[m.shaderIndex])
                  else ShaderDependencyIdentity
  }

  lemma GroupFailureIsReasoned(x: Run, c: Catalog, sel: seq<bool>, rs: seq<MaterialRecord>, backings: seq<Backing>,
                               b: Book, k: nat, failure: Failure)
    requires AllReasoned(x, c, sel, rs, backings, {}, b) && k < |rs|
    requires FailsBeforehand(x, c, sel, c.materials[k], failure) && rs[k].failure == NoFailure
    ensures AllReasoned(x, c, sel, rs[k := FailedAs(rs[k], failure)], backings[k := Backing([], None)], {}, b)
  {
    var r := FailedAs(rs[k], failure);
    assert Reasoned(x, c, sel, k, r, Backing([], None), true, b);
    hide Reasoned, FailedAs;
    AllReasonedAfter(x, c, sel, rs, backings, {}, b, k, r, Backing([], None), {});
  }

  // ---------- Groups ----------

  ghost predicate AllInOrder(x: Run, c: Catalog, sel: seq<bool>, span: set<nat>)
    requires |sel| == c.shaderCount == |x.outputs|
  {
    forall i: nat :: i in span ==> i < |c.materials| && IsInOrder(x, c, sel, c.materials[i])
  }

  ghost predicate AllFailBeforehand(x: Run, c: Catalog, sel: seq<bool>, span: set<nat>, failure: Failure)
    requires |sel| == c.shaderCount == |x.outputs|
  {
    forall i: nat :: i in span ==> i < |c.materials| && FailsBeforehand(x, c, sel, c.materials[i], failure)
  }

  /** The materials of one shader's group share what the shader batch recorded. */
  lemma GroupSharesOutput(x: Run, c: Catalog, sel: seq<bool>, span: set<nat>, shader: nat)
    requires |sel| == c.shaderCount == |x.outputs| && shader < c.shaderCount && x.options.authorityComplete
    requires AreOfShader(c, sel, span, shader)
    ensures var g := GroupFailure(x.outputs[shader]);
            && (g == NoFailure ==> AllInOrder(x, c, sel, span))
            && AllFailBeforehand(x, c, sel, span, if g != NoFailure then g else ShaderDependencyIdentity)
  {
    hide GroupFailure, IsChosen;
  }

  /** Nothing is grouped without a complete dependency graph. */
  lemma GroupNeedsAuthority(c: Catalog, sel: seq<bool>, authorityComplete: bool, shader: nat)
    requires |sel| == c.shaderCount && shader < c.shaderCount
    requires Offset(Keys(c, sel, authorityComplete), shader) < Offset(Keys(c, sel, authorityComplete), shader + 1)
    ensures authorityComplete
  {
    var keys := Keys(c, sel, authorityComplete);
    SliceIsGroup(keys, shader, c.shaderCount);
    MembersAscend(keys, shader, |keys|);
    hide MembersOf, Offset;
    assert MembersOf(keys, shader, |keys|)[0] in MembersOf(keys, shader, |keys|);
  }

  lemma InOrderHere(x: Run, c: Catalog, sel: seq<bool>, span: set<nat>, k: nat)
    requires |sel| == c.shaderCount == |x.outputs| && AllInOrder(x, c, sel, span) && k in span
    ensures k < |c.materials| && IsInOrder(x, c, sel, c.materials[k])
  {
  }

  lemma FailsHere(x: Run, c: Catalog, sel: seq<bool>, span: set<nat>, k: nat, failure: Failure)
    requires |sel| == c.shaderCount == |x.outputs| && AllFailBeforehand(x, c, sel, span, failure) && k in span
    ensures k < |c.materials| && FailsBeforehand(x, c, sel, c.materials[k], failure)
  {
  }
}
