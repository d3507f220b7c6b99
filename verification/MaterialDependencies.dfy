/** Projection of a material's texture properties: resolution, the caller's reference policy, the
    publication leases it hands out, and the six dependency counters. */
module MaterialDependencies {
  import opened Basics
  import opened Decimals
  import opened MaterialLedger

  /** What the reference graph answers for one pointer, the same for the same question. */
  datatype Resolution = Resolution(
    resolved: bool, status: ResolveStatus, externalIndex: Option<nat>, hasExternal: bool,
    target: Option<ResolvedObject>, targetIndex: nat)

  datatype ResolvedObject = ResolvedObject(classId: int, pathId: int)

  type PointerGraph = (nat, Pointer) -> Resolution

  /** What the caller's reference policy answers for one texture property, with or without a publication
      lease; `changed` says what giving back a lease that came without an accepted reference reports. */
  datatype Answer = Answer(status: ReferenceStatus, reference: Reference, withLease: bool, changed: bool)

  /** The answers by material and property: an export asks about each at most once. */
  type Policy = (nat, nat) -> Answer

  /** `hasResolver` and `hasCloser` say which of the two callbacks the caller supplied. */
  datatype Options = Options(authorityComplete: bool, hasResolver: bool, hasCloser: bool, policy: Policy)

  // ---------- Leases ----------

  /** A state of the lease book. */
  datatype Book = Book(issued: nat, open: set<nat>, closed: set<nat>, unstable: set<nat>)

  /** Each lease handed out is open or closed, never both, and only closed ones were found changed. */
  ghost predicate BookIsValid(b: Book) {
    && (forall l :: l in b.open ==> l < b.issued && l !in b.closed)
    && (forall l: nat :: l < b.issued ==> l in b.open || l in b.closed)
    && b.unstable <= b.closed
  }

  /** Later states of the book: what was closed stays closed, as stable or unstable as it was found. */
  ghost predicate Grown(before: Book, after: Book) {
    && before.issued <= after.issued
    && before.closed <= after.closed && before.unstable <= after.unstable
    && (forall l :: l in before.closed && l in after.unstable ==> l in before.unstable)
  }

  /** Every lease handed out between two states is closed in the later one. */
  ghost predicate AllClosedSince(before: Book, after: Book) {
    forall l: nat :: before.issued <= l < after.issued ==> l in after.closed
  }

  /** Nothing that was held is let go of, and with a closer every lease taken meanwhile is closed. */
  ghost predicate LeasesKept(hasCloser: bool, before: Book, after: Book) {
    && Grown(before, after) && before.open <= after.open
    && (hasCloser ==> after.open == before.open && AllClosedSince(before, after))
  }

  lemma GrownThrough(a: Book, b: Book, c: Book)
    requires Grown(a, b) && Grown(b, c)
    ensures Grown(a, c)
  {
  }

  lemma LeasesKeptThrough(hasCloser: bool, a: Book, b: Book, c: Book)
    requires LeasesKept(hasCloser, a, b) && LeasesKept(hasCloser, b, c)
    ensures LeasesKept(hasCloser, a, c)
  {
  }

  /** The identities this process holds open: publication leases and file views.  They are numbered as
      they are handed out; each one handed out is open or closed, never both.  `unstable` are those
      whose file was found changed when they were closed. */
  class LeaseBook {
    var issued: nat
    ghost var open: set<nat>
    ghost var closed: set<nat>
    ghost var unstable: set<nat>

    ghost predicate Valid()
      reads this
    {
      && (forall l :: l in open ==> l < issued && l !in closed)
      && (forall l :: l in closed ==> l < issued)
      && (forall l: nat :: l < issued ==> l in open || l in closed)
      && unstable <= closed
    }

    ghost function Now(): Book
      reads this
    {
      Book(issued, open, closed, unstable)
    }

    constructor ()
      ensures Valid() && open == {} && closed == {} && unstable == {}
    {
      issued, open, closed, unstable := 0, {}, {}, {};
    }

    method Issue() returns (lease: nat)
      requires Valid()
      modifies this
      ensures Valid() && lease == old(issued) && issued == old(issued) + 1
      ensures lease !in old(open) && lease !in old(closed) && open == old(open) + {lease} && closed == old(closed)
      ensures unstable == old(unstable) && Grown(old(Now()), Now())
    {
      lease := issued;
      issued := issued + 1;
      open := open + {lease};
    }

    /** Closing may report an unstable identity. */
    method Close(lease: nat) returns (stable: bool)
      requires Valid() && lease in open
      modifies this
      ensures Valid() && issued == old(issued) && open == old(open) - {lease} && closed == old(closed) + {lease}
      ensures unstable == old(unstable) + (if stable then {} else {lease}) && Grown(old(Now()), Now())
    {
      stable := *;
      GiveBack(lease, !stable);
    }

    /** Closing, when the outcome is known. */
    method GiveBack(lease: nat, changed: bool)
      requires Valid() && lease in open
      modifies this
      ensures Valid() && issued == old(issued) && open == old(open) - {lease} && closed == old(closed) + {lease}
      ensures unstable == old(unstable) + (if changed then {lease} else {}) && Grown(old(Now()), Now())
    {
      open, closed := open - {lease}, closed + {lease};
      if changed { unstable := unstable + {lease}; }
    }
  }

  // ---------- One dependency ----------

  ghost predicate IsNullResolution(r: Resolution) {
    r.resolved && r.status == ResolveNull
  }

  ghost predicate HasTarget(c: Catalog, r: Resolution) {
    r.resolved && r.status in {ResolveLocal, ResolveExternalExact} && r.target.Some? && r.targetIndex < |c.sources|
  }

  /** An answer that is turned down: an accepting one whose reference is not in order, or whose lease does
      not go with it, and any other whose lease cannot be given back or is found changed. */
  ghost predicate IsTurnedDown(a: Answer, hasCloser: bool) {
    match a.status
    case ReferenceRejected => true
    case ReferenceOk =>
      || a.reference.fileId == 0 || !IsHexText(a.reference.guid, 32) || a.reference.kind !in {0, 1, 2, 3}
      || (a.reference.exported && (!a.withLease || !hasCloser)) || (!a.reference.exported && a.withLease)
    case _ => a.withLease && (!hasCloser || a.changed)
  }

  /** The failure a recorded dependency stands for; a failed name copy is an allocation failure. */
  function FailureOf(d: Dependency): Failure {
    if d.name.None? then ProjectionAllocation
    else match d.status
      case ResolutionFailed => TextureResolution
      case ClassUnsupported => TextureClassUnsupported
      case TargetUnexported => TextureTargetAssetUnexported
      case ReferenceAuthorityMissing => TextureReferenceAuthorityMissing
      case ReferenceInvalid => TextureReferenceInvalid
      case _ => NoFailure
  }

  function FirstFailure(ds: seq<Dependency>): Failure {
    if ds == [] then NoFailure
    else if FirstFailure(ds[..|ds| - 1]) != NoFailure then FirstFailure(ds[..|ds| - 1])
    else FailureOf(ds[|ds| - 1])
  }

  /** A decision on a texture property: its status, the policy's status and the accepted reference. */
  datatype Decision = Decision(status: DependencyStatus, referenceStatus: ReferenceStatus, reference: Option<Reference>)

  /** The decision on a property that the graph resolves to `r` and the policy answers with `a`. */
  ghost function DecisionOn(c: Catalog, r: Resolution, options: Options, a: Answer): Decision {
    if IsNullResolution(r) then Decision(DependencyNull, ReferenceOk, None)
    else if !HasTarget(c, r) then Decision(ResolutionFailed, AuthorityMissing, None)
    else if !options.hasResolver then Decision(ReferenceAuthorityMissing, AuthorityMissing, None)
    else if IsTurnedDown(a, options.hasCloser) then Decision(ReferenceInvalid, ReferenceRejected, None)
    else match a.status
      case TargetClassUnsupported => Decision(ClassUnsupported, TargetClassUnsupported, None)
      case TargetAssetUnexported => Decision(TargetUnexported, TargetAssetUnexported, None)
      case AuthorityMissing => Decision(ReferenceAuthorityMissing, AuthorityMissing, None)
      case ReferenceRejected => Decision(ReferenceInvalid, ReferenceRejected, None)
      case ReferenceOk =>
        Decision(if a.reference.exported then ResolvedExported else ResolvedNotExported, ReferenceOk, Some(a.reference))
  }

  /** What a recorded dependency says about its property, the graph's answer and the policy's. */
  ghost predicate Describes(d: Dependency, c: Catalog, m: CatalogMaterial, index: nat, r: Resolution, options: Options,
                            a: Answer)
    requires index < |m.textures|
  {
    var p := m.textures[index];
    if d.name.None? then
      d == Dependency(index, None, p.pointer, m.sourceIndex, ResolveOutOfScope, None, None, false, None,
             ResolutionFailed, AuthorityMissing)
    else
      && d.propertyIndex == index && d.name == Some(p.name) && d.pointer == p.pointer
      && d.sourceIndex == m.sourceIndex && d.resolveStatus == r.status
      && d.externalIndex == r.externalIndex && d.hasExternalGuid == r.hasExternal
      && d.target == (if IsNullResolution(r) || !HasTarget(c, r) then None
                      else Some(Target(r.targetIndex, r.target.value.classId, r.target.value.pathId,
                             PrintHex(c.sources[r.targetIndex].digest))))
      && Decision(d.status, d.referenceStatus, d.reference) == DecisionOn(c, r, options, a)
  }

  /** How the lease book changed: with a closer every lease handed out meanwhile is closed again except
      the accepted one, which stays open; without one nothing is accepted and nothing is closed. */
  ghost predicate LeasesSettled(hasCloser: bool, lease: Option<nat>, before: Book, after: Book) {
    && Grown(before, after)
    && (lease.Some? ==> hasCloser && before.issued <= lease.value < after.issued)
    && (if hasCloser then after.open == before.open + (if lease.Some? then {lease.value} else {})
        else before.open <= after.open && after.closed == before.closed)
  }

  lemma NoLeaseTaken(hasCloser: bool, b: Book)
    ensures LeasesSettled(hasCloser, None, b, b)
  {
  }

  /** Asks the policy and disposes of the lease it offers: a lease that comes without an accepted
      exported reference is closed on the spot, and a reference that is not in order is rejected. */
  method ConsultPolicy(options: Options, a: Answer, leases: LeaseBook)
    returns (status: ReferenceStatus, accepted: Option<nat>)
    requires leases.Valid()
    modifies leases
    ensures leases.Valid() && leases.issued == old(leases.issued) + One(a.withLease)
    ensures status == if IsTurnedDown(a, options.hasCloser) then ReferenceRejected else a.status
    ensures accepted == if status == ReferenceOk && a.reference.exported then Some(old(leases.issued)) else None
    ensures a.withLease && options.hasCloser && a.status != ReferenceOk ==>
              (a.changed <==> old(leases.issued) in leases.unstable)
    ensures leases.unstable == old(leases.unstable) || status == ReferenceRejected
    ensures LeasesSettled(options.hasCloser, accepted, old(leases.Now()), leases.Now())
  {
    status, accepted := a.status, None;
    var reference := a.reference;
    if a.withLease {
      var l := leases.Issue();
      accepted := Some(l);
    }
    if accepted.Some? && status != ReferenceOk {
      if !options.hasCloser {
        status := ReferenceRejected;
      } else {
        leases.GiveBack(accepted.value, a.changed);
        if a.changed { status := ReferenceRejected; }
      }
      accepted := None;
    }
    if status != TargetClassUnsupported && status != TargetAssetUnexported && status != AuthorityMissing {
      if status != ReferenceOk || reference.fileId == 0 || !IsHexText(reference.guid, 32)
         || reference.kind < 0 || reference.kind > 3
         || (reference.exported && (accepted.None? || !options.hasCloser)) || (!reference.exported && accepted.Some?) {
        if accepted.Some? && options.hasCloser {
          var _ := leases.Close(accepted.value);
        }
        accepted := None;
        status := ReferenceRejected;
      }
    }
  }

  /** The branches on what the policy's answer came to. */
  method RecordAnswer(before: Dependency, status: ReferenceStatus, reference: Reference, counted: DependencyStats)
    returns (d: Dependency, after: DependencyStats, failure: Failure)
    requires before.status == ResolutionFailed && before.name.Some? && before.reference.None?
    ensures d == before.(status := d.status, referenceStatus := status, reference := d.reference)
    ensures d.reference == if status == ReferenceOk then Some(reference) else None
    ensures match status
      case ReferenceOk => d.status == if reference.exported then ResolvedExported else ResolvedNotExported
      case TargetClassUnsupported => d.status == ClassUnsupported
      case TargetAssetUnexported => d.status == TargetUnexported
      case AuthorityMissing => d.status == ReferenceAuthorityMissing
      case ReferenceRejected => d.status == ReferenceInvalid
    ensures Plus(counted, TallyOf(d.status)) == after.(total := after.total + 1, resolved := after.resolved + 1)
    ensures failure == FailureOf(d)
  {
    after, failure := counted, NoFailure;
    d := before.(referenceStatus := status);
    match status {
      case TargetClassUnsupported =>
        d := d.(status := ClassUnsupported);
        after := after.(failed := after.failed + 1);
        failure := TextureClassUnsupported;
      case TargetAssetUnexported =>
        d := d.(status := TargetUnexported);
        after := after.(unexported := after.unexported + 1, failed := after.failed + 1);
        failure := TextureTargetAssetUnexported;
      case AuthorityMissing =>
        d := d.(status := ReferenceAuthorityMissing);
        after := after.(failed := after.failed + 1);
        failure := TextureReferenceAuthorityMissing;
      case ReferenceRejected =>
        d := d.(status := ReferenceInvalid);
        after := after.(failed := after.failed + 1);
        failure := TextureReferenceInvalid;
      case ReferenceOk =>
        d := d.(reference := Some(reference));
        if reference.exported {
          d := d.(status := ResolvedExported);
          after := after.(exported := after.exported + 1);
        } else {
          d := d.(status := ResolvedNotExported);
          after := after.(unexported := after.unexported + 1);
        }
    }
  }

  /** The body of the projection loop for one property. */
  method ProjectOne(c: Catalog, material: nat, index: nat, graph: PointerGraph, options: Options,
                    leases: LeaseBook, before: DependencyStats)
    returns (d: Dependency, lease: Option<nat>, after: DependencyStats, failure: Failure)
    requires material < |c.materials| && index < |c.materials[material].textures| && leases.Valid()
    modifies leases
    ensures leases.Valid()
    ensures DescribesProperty(d, c, material, index, graph, options)
    ensures after == Plus(before, TallyOf(d.status)) && failure == FailureOf(d)
    ensures lease.Some? <==> d.status == ResolvedExported
    ensures leases.unstable == old(leases.unstable) || d.status == ReferenceInvalid
    ensures LeasesSettled(options.hasCloser, lease, old(leases.Now()), leases.Now())
  {
    hide PrintHex, IsTurnedDown, LeasesSettled, Grown;
    NoLeaseTaken(options.hasCloser, leases.Now());
    var m := c.materials[material];
    var property := m.textures[index];
    lease, failure := None, NoFailure;
    after := before.(total := before.total + 1);
    d := Dependency(index, None, property.pointer, m.sourceIndex, ResolveOutOfScope, None, None, false, None,
      ResolutionFailed, AuthorityMissing);
    var copied: bool := *;
    if !copied {
      after := after.(failed := after.failed + 1);
      failure := ProjectionAllocation;
      return;
    }
    var r := graph(m.sourceIndex, property.pointer);
    d := d.(name := Some(property.name), resolveStatus := r.status, externalIndex := r.externalIndex,
      hasExternalGuid := r.hasExternal);
    if r.resolved && r.status == ResolveNull {
      d := d.(status := DependencyNull, referenceStatus := ReferenceOk);
      after := after.(null_ := after.null_ + 1);
      return;
    }
    if !r.resolved || !ResolveSucceeded(r.status) || r.target.None? || r.targetIndex >= |c.sources| {
      after := after.(failed := after.failed + 1);
      failure := TextureResolution;
      return;
    }
    d := d.(target := Some(Target(r.targetIndex, r.target.value.classId, r.target.value.pathId,
      PrintHex(c.sources[r.targetIndex].digest))));
    after := after.(resolved := after.resolved + 1);
    if !options.hasResolver {
      d := d.(status := ReferenceAuthorityMissing);
      after := after.(failed := after.failed + 1);
      failure := TextureReferenceAuthorityMissing;
      return;
    }
    var answer := options.policy(material, index);
    var status, accepted := ConsultPolicy(options, answer, leases);
    lease := accepted;
    d, after, failure := RecordAnswer(d, status, answer.reference, after);
  }

  /** The dependency describes property `index` of material `material`. */
  ghost predicate DescribesProperty(d: Dependency, c: Catalog, material: nat, index: nat, graph: PointerGraph,
                                    options: Options) {
    && material < |c.materials| && index < |c.materials[material].textures|
    && var m := c.materials[material];
       Describes(d, c, m, index, graph(m.sourceIndex, m.textures[index].pointer), options,
                 options.policy(material, index))
  }

  // ---------- All dependencies of a material ----------

  function HeldSet(held: seq<Option<nat>>): set<nat> {
    set i | 0 <= i < |held| && held[i].Some? :: held[i].value
  }

  ghost predicate HeldDistinct(held: seq<Option<nat>>) {
    forall i, j :: 0 <= i < j < |held| && held[i].Some? && held[j].Some? ==> held[i] != held[j]
  }

  lemma HeldSetOfOneMore(held: seq<Option<nat>>, lease: Option<nat>)
    ensures HeldSet(held + [lease]) == HeldSet(held) + if lease.Some? then {lease.value} else {}
  {
    var more := held + [lease];
    assert forall i :: 0 <= i < |held| ==> more[i] == held[i];
    assert more[|held|] == lease;
    forall l | l in HeldSet(held)
      ensures l in HeldSet(more)
    {
      var i :| 0 <= i < |held| && held[i] == Some(l);
      assert more[i] == Some(l);
    }
  }

  /** The held leases are distinct and were all handed out from number `low` on. */
  ghost predicate HeldSince(held: seq<Option<nat>>, low: nat, high: nat) {
    && HeldDistinct(held)
    && forall k :: 0 <= k < |held| && held[k].Some? ==> low <= held[k].value < high
  }

  /** Between two states of the book exactly the held leases were added to the open ones; without a
      closer nothing is held and nothing is closed. */
  ghost predicate HeldOnly(hasCloser: bool, held: seq<Option<nat>>, before: Book, after: Book) {
    && Grown(before, after) && before.open <= after.open && HeldSince(held, before.issued, after.issued)
    && if hasCloser then after.open == before.open + HeldSet(held)
       else after.closed == before.closed && forall k :: 0 <= k < |held| ==> held[k].None?
  }

  lemma NothingHeld(hasCloser: bool, b: Book)
    ensures HeldOnly(hasCloser, [], b, b)
  {
  }

  lemma HeldOneMore(hasCloser: bool, held: seq<Option<nat>>, lease: Option<nat>, start: Book, before: Book, after: Book)
    requires HeldOnly(hasCloser, held, start, before) && LeasesSettled(hasCloser, lease, before, after)
    ensures HeldOnly(hasCloser, held + [lease], start, after)
  {
    HeldSetOfOneMore(held, lease);
    hide HeldSet;
  }

  lemma HeldIsFresh(hasCloser: bool, held: seq<Option<nat>>, before: Book, after: Book)
    requires HeldOnly(hasCloser, held, before, after) && forall l :: l in before.open ==> l < before.issued
    ensures HeldDistinct(held) && HeldSet(held) !! before.open
    ensures !hasCloser ==> HeldSet(held) == {} && forall k :: 0 <= k < |held| ==> held[k].None?
  {
  }

  lemma TallyOfOneMore(before: DependencyStats, ds: seq<Dependency>, d: Dependency)
    ensures Plus(Plus(before, Tally(ds)), TallyOf(d.status)) == Plus(before, Tally(ds + [d]))
  {
    assert (ds + [d])[..|ds|] == ds;
  }

  lemma RejectionFails(d: Dependency)
    ensures d.status == ReferenceInvalid ==> FailureOf(d) != NoFailure
  {
  }

  /** A projection does not report what only publication can meet. */
  lemma {:induction false} ProjectionDoesNotCollide(ds: seq<Dependency>)
    ensures FirstFailure(ds) != OutputCollision
  {
    if ds != [] {
      ProjectionDoesNotCollide(ds[..|ds| - 1]);
    }
  }

  lemma FirstFailureOfOneMore(ds: seq<Dependency>, d: Dependency)
    ensures FirstFailure(ds + [d]) == if FirstFailure(ds) == NoFailure then FailureOf(d) else FirstFailure(ds)
  {
    assert (ds + [d])[..|ds|] == ds;
  }

  lemma NothingProjected(before: DependencyStats)
    ensures Plus(before, Tally([])) == before && FirstFailure([]) == NoFailure && HeldSet([]) == {}
  {
  }

  /** project_texture_dependencies.  `held` carries the accepted lease of each property. */
  method ProjectDependencies(c: Catalog, material: nat, graph: PointerGraph, options: Options, leases: LeaseBook,
                             before: DependencyStats)
    returns (ds: seq<Dependency>, held: seq<Option<nat>>, failure: Failure, closureComplete: bool,
      after: DependencyStats)
    requires leases.Valid() && material < |c.materials|
    modifies leases
    ensures leases.Valid() && |ds| == |held| == |c.materials[material].textures|
    ensures forall k :: 0 <= k < |ds| ==> DescribesProperty(ds[k], c, material, k, graph, options)
    ensures after == Plus(before, Tally(ds))
    ensures failure == FirstFailure(ds)
    ensures closureComplete <==> forall k :: 0 <= k < |ds| ==> IsNullOrExported(ds[k].status)
    ensures forall k :: 0 <= k < |ds| ==> (held[k].Some? <==> ds[k].status == ResolvedExported)
    ensures HeldDistinct(held) && HeldSet(held) !! old(leases.open)
    ensures HeldOnly(options.hasCloser, held, old(leases.Now()), leases.Now())
    ensures !options.hasCloser ==> forall k :: 0 <= k < |ds| ==> ds[k].status != ResolvedExported
    ensures leases.unstable == old(leases.unstable) || failure != NoFailure
  {
    hide DescribesProperty, FailureOf, FirstFailure, TallyOf, Tally, Plus, IsNullOrExported, HeldSet, HeldOnly,
         HeldDistinct, LeasesSettled;
    NothingProjected(before);
    ghost var start := leases.Now();
    NothingHeld(options.hasCloser, start);
    ds, held, failure, closureComplete, after := [], [], NoFailure, true, before;
    for index := 0 to |c.materials[material].textures|
      invariant leases.Valid() && |ds| == |held| == index
      invariant forall k :: 0 <= k < index ==> DescribesProperty(ds[k], c, material, k, graph, options)
      invariant after == Plus(before, Tally(ds))
      invariant failure == FirstFailure(ds)
      invariant closureComplete <==> forall k :: 0 <= k < index ==> IsNullOrExported(ds[k].status)
      invariant forall k :: 0 <= k < index ==> (held[k].Some? <==> ds[k].status == ResolvedExported)
      invariant HeldOnly(options.hasCloser, held, start, leases.Now())
      invariant leases.unstable == old(leases.unstable) || failure != NoFailure
    {
      ghost var book := leases.Now();
      var d, lease, reason;
      d, lease, after, reason := ProjectOne(c, material, index, graph, options, leases, after);
      HeldOneMore(options.hasCloser, held, lease, start, book, leases.Now());
      TallyOfOneMore(before, ds, d);
      FirstFailureOfOneMore(ds, d);
      RejectionFails(d);
      if failure == NoFailure { failure := reason; }
      if !IsNullOrExported(d.status) { closureComplete := false; }
      ghost var earlier := ds;
      ds, held := ds + [d], held + [lease];
      assert ds[index] == d && forall k :: 0 <= k < index ==> ds[k] == earlier[k];
    }
    HeldIsFresh(options.hasCloser, held, start, leases.Now());
  }

  /** close_texture_publication_leases: every held lease is closed once; without a closer, or when a
      closer reports an unstable identity, the result is false. */
  method CloseLeases(options: Options, held: seq<Option<nat>>, leases: LeaseBook) returns (stable: bool)
    requires leases.Valid() && HeldDistinct(held)
    requires options.hasCloser ==> HeldSet(held) <= leases.open
    modifies leases
    ensures leases.Valid() && leases.issued == old(leases.issued)
    ensures options.hasCloser ==>
        leases.open == old(leases.open) - HeldSet(held) && leases.closed == old(leases.closed) + HeldSet(held)
    ensures !options.hasCloser ==> leases.open == old(leases.open) && leases.closed == old(leases.closed)
    ensures Grown(old(leases.Now()), leases.Now()) && leases.unstable <= old(leases.unstable) + HeldSet(held)
    ensures stable <==> leases.unstable == old(leases.unstable) && (options.hasCloser || HeldSet(held) == {})
  {
    stable := true;
    for index := 0 to |held|
      invariant leases.Valid() && leases.issued == old(leases.issued)
      invariant options.hasCloser ==>
          leases.open == old(leases.open) - HeldSet(held[..index]) &&
            leases.closed == old(leases.closed) + HeldSet(held[..index])
      invariant !options.hasCloser ==> leases.open == old(leases.open) && leases.closed == old(leases.closed)
      invariant Grown(old(leases.Now()), leases.Now())
      invariant leases.unstable <= old(leases.unstable) + HeldSet(held[..index])
      invariant stable <==>
          leases.unstable == old(leases.unstable) && (options.hasCloser || HeldSet(held[..index]) == {})
    {
      assert held[..index + 1] == held[..index] + [held[index]];
      HeldSetOfOneMore(held[..index], held[index]);
      if held[index].None? { continue; }
      if !options.hasCloser {
        stable := false;
      } else {
        NotYetClosed(held, index);
        var ok := leases.Close(held[index].value);
        if !ok { stable := false; }
      }
    }
    assert held[..|held|] == held;
  }

  lemma NotYetClosed(held: seq<Option<nat>>, index: nat)
    requires index < |held| && held[index].Some? && HeldDistinct(held)
    ensures held[index].value in HeldSet(held) && held[index].value !in HeldSet(held[..index])
  {
    assert held[index].value in HeldSet(held);
  }

  /** A record's failure is none exactly when no dependency failed. */
  lemma {:induction false} FirstFailureMeaning(ds: seq<Dependency>)
    ensures FirstFailure(ds) == NoFailure <==> forall k :: 0 <= k < |ds| ==> FailureOf(ds[k]) == NoFailure
  {
    if ds != [] {
      FirstFailureMeaning(ds[..|ds| - 1]);
      assert ds == ds[..|ds| - 1] + [ds[|ds| - 1]];
    }
  }

  lemma HeldByIndex(held: seq<Option<nat>>, k: nat)
    requires k < |held|
    ensures held[k].Some? ==> held[k].value in HeldSet(held)
  {
  }
}
