/** The records of a native texture batch and what holds of them while sources are read, while they are
    committed, and at the end. */
module TextureRecords {
  import opened Basics
  import opened Decimals
  import opened MaterialLedger
  import opened Publication
  import opened TexturePublication
  import opened TextureTargets

  datatype TextureStatus = TexturePending | TextureEmitted | TextureUnchanged | TextureFailed

  /** A decoded object: its identity, its name, the slice of its stream, and everything else as `rest`. */
  datatype TextureObject = TextureObject(
    classId: int, pathId: int, name: Bytes, streamPath: Bytes, streamOffset: nat, streamSize: nat, rest: Bytes)

  type Guid = g: string | IsHexText(g, 32) witness NO_GUID

  const NO_GUID: string := "00000000000000000000000000000000"

  /** The artifact identity in hexadecimal and the asset GUID, both derived from the same parts. */
  datatype Identity = Identity(hex: string, guid: Guid)

  /** Sizes and digests of the two texts that are to be published. */
  datatype Content = Content(assetSize: nat, assetDigest: Bytes, metaSize: nat, metaDigest: Bytes)

  /** What looking an object up and decoding it comes to. */
  datatype Decoding = NotFound | Undecodable | Decoded(object_: TextureObject)

  /** The allocations made once for a record. */
  datatype Allocation = ObjectCopy | StagedCopy | YamlText | MetaText | PathTexts

  /** What the batch relies on: resource paths, SHA-256, the identity of an asset (source digest, path,
      class, resource digest), supported shapes, the two emitters, and asset paths; whether a source's
      metadata can be read, what its entries decode to, and whether there is memory and a directory. */
  datatype Environment = Environment(
    paths: (nat, Bytes) -> Option<string>, sha: Bytes -> Bytes, derive: (Bytes, int, int, Bytes) -> Option<Identity>,
    supports: TextureObject -> bool, yaml: (TextureObject, Bytes) -> Option<Bytes>,
    metadata: (int, Guid) -> Option<Bytes>, assetPath: (TextureObject, string) -> Option<string>,
    opens: nat -> bool, decode: TextureTarget -> Decoding, room: (TextureTarget, Allocation) -> bool,
    hasDirectory: TextureTarget -> bool)

  datatype TextureRecord = TextureRecord(
    target: TextureTarget, status: TextureStatus, failure: TextureFailure, object_: Option<TextureObject>,
    anchor: Option<nat>, resourceOk: bool, staged: bool, bytes: Option<Bytes>, digest: Bytes,
    identity: Option<Identity>, yamlOk: bool, content: Option<Content>,
    asset: Artifact, meta: Artifact, residue: bool, stagingPath: Option<string>, stagingResidue: bool)

  datatype TextureStats = TextureStats(emitted: nat, unmodified: nat, failed: nat)

  /** A resource file held open for the whole transaction, and the bytes read from it. */
  datatype Anchor = Anchor(path: string, view: nat, data: Bytes)

  function NewRecord(t: TextureTarget): TextureRecord {
    TextureRecord(t, TexturePending, NoTextureFailure, None, None, true, false, None, [], None, false, None,
                  NO_ARTIFACT, NO_ARTIFACT, false, None, false)
  }

  function StreamPath(r: TextureRecord): Bytes {
    if r.object_.Some? then r.object_.value.streamPath else []
  }

  /** record_uses_stream. */
  predicate UsesStream(r: TextureRecord) {
    r.target.classId == TEXTURE2D && r.object_.Some? && r.object_.value.streamSize != 0
  }

  /** stream_paths_equal. */
  ghost predicate SameStream(r: TextureRecord, s: TextureRecord) {
    r.target.classId == TEXTURE2D && s.target.classId == TEXTURE2D && StreamPath(r) == StreamPath(s)
  }

  predicate WasPublished(r: TextureRecord) {
    r.status == TextureEmitted || r.status == TextureUnchanged
  }

  ghost predicate WroteFiles(r: TextureRecord) {
    (r.asset.attempted && r.asset.status == PublishEmitted) || (r.meta.attempted && r.meta.status == PublishEmitted)
  }

  /** The record after record_fail. */
  ghost function FailedTexture(r: TextureRecord, failure: TextureFailure): TextureRecord {
    r.(residue := if WasPublished(r) then WroteFiles(r) else r.residue,
       status := TextureFailed,
       failure := if r.failure == NoTextureFailure then failure else r.failure)
  }

  // ---------- Counters ----------

  function Statuses(rs: seq<TextureRecord>): (s: seq<TextureStatus>)
    ensures |s| == |rs| && forall i :: 0 <= i < |rs| ==> s[i] == rs[i].status
  {
    seq(|rs|, i requires 0 <= i < |rs| => rs[i].status)
  }

  function CountOf(rs: seq<TextureRecord>, s: TextureStatus): nat {
    multiset(Statuses(rs))[s]
  }

  /** Every counter is the number of records in its state. */
  ghost predicate CountersTrue(rs: seq<TextureRecord>, st: TextureStats) {
    && st.emitted == CountOf(rs, TextureEmitted) && st.unmodified == CountOf(rs, TextureUnchanged)
    && st.failed == CountOf(rs, TextureFailed)
  }

  lemma CountAfter(rs: seq<TextureRecord>, k: nat, r: TextureRecord, s: TextureStatus)
    requires k < |rs|
    ensures CountOf(rs[k := r], s) + One(rs[k].status == s) == CountOf(rs, s) + One(r.status == s)
  {
    var before := Statuses(rs);
    assert Statuses(rs[k := r]) == before[k := r.status];
    assert multiset(before[k := r.status]) == multiset(before) - multiset{before[k]} + multiset{r.status};
  }

  lemma {:induction false} StatusesAddUp(ss: seq<TextureStatus>)
    ensures |ss| == multiset(ss)[TexturePending] + multiset(ss)[TextureEmitted] + multiset(ss)[TextureUnchanged]
        + multiset(ss)[TextureFailed]
  {
    if ss == [] {
      assert multiset(ss) == multiset{};
    } else {
      var init, last := ss[..|ss| - 1], ss[|ss| - 1];
      StatusesAddUp(init);
      assert ss == init + [last];
      assert multiset(ss) == multiset(init) + multiset{last};
      match last {
        case TexturePending | TextureEmitted | TextureUnchanged | TextureFailed =>
      }
    }
  }

  /** Without pending records the three counters partition the selection. */
  lemma CountersPartition(rs: seq<TextureRecord>, st: TextureStats)
    requires CountersTrue(rs, st) && forall i :: 0 <= i < |rs| ==> rs[i].status != TexturePending
    ensures st.emitted + st.unmodified + st.failed == |rs|
  {
    StatusesAddUp(Statuses(rs));
    assert TexturePending !in Statuses(rs);
  }

  lemma CountIsPositive(rs: seq<TextureRecord>, k: nat)
    requires k < |rs|
    ensures CountOf(rs, rs[k].status) > 0
  {
    assert Statuses(rs)[k] in Statuses(rs);
  }

  // ---------- While sources are read ----------

  /** Nothing collides before it is published. */
  predicate IsReadFailure(failure: TextureFailure) {
    failure != NoTextureFailure && failure != TextureCollision
  }

  /** Nothing has been published for the record. */
  predicate IsUnpublished(r: TextureRecord) {
    && (r.status == TexturePending || r.status == TextureFailed)
    && (r.status == TexturePending <==> r.failure == NoTextureFailure)
    && r.asset == NO_ARTIFACT && r.meta == NO_ARTIFACT && !r.residue && r.stagingPath.None? && !r.stagingResidue
    && (r.status == TexturePending ==> r.resourceOk)
  }

  /** The identity the record's source, object and resource bytes have. */
  ghost predicate HasIdentity(r: TextureRecord, env: Environment) {
    r.identity.Some? && r.identity == env.derive(r.target.digest, r.target.pathId, r.target.classId, r.digest)
  }

  /** A decoded object is the one the record is about, in a shape that can be exported. */
  predicate IsFitting(r: TextureRecord, env: Environment) {
    r.object_.Some? ==>
      && r.object_.value.classId == r.target.classId && r.object_.value.pathId == r.target.pathId
      && env.supports(r.object_.value)
  }

  /** The staged bytes of a pending record are the slice its object names, hashed as recorded. */
  ghost predicate IsStaged(r: TextureRecord, env: Environment) {
    && r.object_.Some? && (r.anchor.Some? <==> UsesStream(r)) && HasIdentity(r, env)
    && if UsesStream(r) then
         r.bytes.Some? && |r.bytes.value| == r.object_.value.streamSize && r.digest == env.sha(r.bytes.value)
       else r.bytes.None? && r.digest == env.sha([])
  }

  function SliceOf(o: TextureObject, data: Bytes): Bytes
    requires o.streamOffset + o.streamSize <= |data|
  {
    data[o.streamOffset..o.streamOffset + o.streamSize]
  }

  /** A record's anchor is the held file at the path its stream resolves to; what is staged lies in it,
      and staged bytes are that slice of it. */
  ghost predicate IsAnchored(r: TextureRecord, anchors: seq<Anchor>, env: Environment) {
    && (r.anchor.Some? ==> UsesStream(r) && r.anchor.value < |anchors|
                           && env.paths(r.target.sourceIndex, StreamPath(r)) == Some(anchors[r.anchor.value].path))
    && (r.staged && UsesStream(r) ==>
          && r.anchor.Some?
          && var o, data := r.object_.value, anchors[r.anchor.value].data;
             o.streamOffset + o.streamSize <= |data| && (r.bytes.Some? ==> r.bytes.value == SliceOf(o, data)))
  }

  ghost predicate AllAnchored(rs: seq<TextureRecord>, anchors: seq<Anchor>, env: Environment) {
    forall i :: 0 <= i < |rs| ==> IsAnchored(rs[i], anchors, env)
  }

  /** The bytes a staged record draws from the held files: the slice its object names, or none. */
  ghost function PixelsOf(r: TextureRecord, anchors: seq<Anchor>, env: Environment): Bytes
    requires IsAnchored(r, anchors, env)
  {
    if r.staged && UsesStream(r) then SliceOf(r.object_.value, anchors[r.anchor.value].data) else []
  }

  /** The record while nothing is published, its anchor aside. */
  ghost predicate IsIdle(r: TextureRecord, env: Environment) {
    && IsUnpublished(r) && r.failure != TextureCollision && IsFitting(r, env)
    && if r.staged then IsStaged(r, env) else r.bytes.None?
  }

  ghost predicate IsRead(r: TextureRecord, anchors: seq<Anchor>, env: Environment) {
    IsIdle(r, env) && IsAnchored(r, anchors, env)
  }

  ghost predicate AllRead(targets: seq<TextureTarget>, rs: seq<TextureRecord>, anchors: seq<Anchor>,
                          env: Environment) {
    |rs| == |targets| && forall i :: 0 <= i < |rs| ==> rs[i].target == targets[i] && IsRead(rs[i], anchors, env)
  }

  lemma AllReadAfter(targets: seq<TextureTarget>, rs: seq<TextureRecord>, anchors: seq<Anchor>,
                     env: Environment,
                     k: nat, r: TextureRecord)
    requires AllRead(targets, rs, anchors, env) && k < |rs| && r.target == rs[k].target
    requires IsRead(r, anchors, env)
    ensures AllRead(targets, rs[k := r], anchors, env)
  {
    hide IsRead;
  }

  lemma FailedIsRead(r: TextureRecord, failure: TextureFailure, anchors: seq<Anchor>,
                     env: Environment)
    requires IsRead(r, anchors, env) && IsReadFailure(failure)
    ensures IsRead(FailedTexture(r, failure), anchors, env)
  {
  }

  lemma ReadIsAnchored(targets: seq<TextureTarget>, rs: seq<TextureRecord>, anchors: seq<Anchor>, env: Environment)
    requires AllRead(targets, rs, anchors, env)
    ensures AllAnchored(rs, anchors, env)
  {
    hide IsIdle, IsAnchored;
    forall i | 0 <= i < |rs|
      ensures IsAnchored(rs[i], anchors, env)
    {
      assert IsRead(rs[i], anchors, env);
    }
  }

  /** Opening one more anchor changes nothing for the others. */
  lemma MoreAnchors(targets: seq<TextureTarget>, rs: seq<TextureRecord>, anchors: seq<Anchor>, more: seq<Anchor>,
                    env: Environment)
    requires AllRead(targets, rs, anchors, env) && anchors <= more
    ensures AllRead(targets, rs, more, env)
  {
    forall i | 0 <= i < |rs|
      ensures IsRead(rs[i], more, env)
    {
      assert IsRead(rs[i], anchors, env);
    }
  }

  /** No two anchors hold the same path, so records that share a resource read one held file. */
  ghost predicate PathsDistinct(anchors: seq<Anchor>) {
    forall a, b :: 0 <= a < b < |anchors| ==> anchors[a].path != anchors[b].path && anchors[a].view != anchors[b].view
  }

  /** Records whose streams resolve to one path draw from one held file. */
  lemma SharedResourceIsReadOnce(r: TextureRecord, s: TextureRecord, anchors: seq<Anchor>, env: Environment)
    requires IsAnchored(r, anchors, env) && IsAnchored(s, anchors, env) && PathsDistinct(anchors)
    requires r.staged && s.staged && UsesStream(r) && UsesStream(s)
    requires env.paths(r.target.sourceIndex, StreamPath(r)) == env.paths(s.target.sourceIndex, StreamPath(s))
    ensures r.anchor == s.anchor
  {
    assert anchors[r.anchor.value].path == anchors[s.anchor.value].path;
  }

  /** The record is out of the way: failed, not decoded, or staged. */
  predicate IsSettledForStaging(r: TextureRecord) {
    r.status == TexturePending && r.object_.Some? ==> r.staged
  }

  /** The same objects, and whatever was out of the way still is. */
  ghost predicate SettledStays(before: seq<TextureRecord>, after: seq<TextureRecord>) {
    |before| == |after| && forall j :: 0 <= j < |after| ==> StaysSettled(before[j], after[j])
  }

  predicate StaysSettled(before: TextureRecord, after: TextureRecord) {
    after.target == before.target && after.object_ == before.object_ &&
      (IsSettledForStaging(before) ==> IsSettledForStaging(after))
  }

  ghost predicate AllSettled(rs: seq<TextureRecord>) {
    forall j :: 0 <= j < |rs| ==> IsSettledForStaging(rs[j])
  }

  ghost predicate SourceSettled(rs: seq<TextureRecord>, source: nat) {
    forall j :: 0 <= j < |rs| && rs[j].target.sourceIndex == source ==> IsSettledForStaging(rs[j])
  }

  /** Only records of one source, if any, have become unsettled. */
  ghost predicate SettledElsewhere(before: seq<TextureRecord>, after: seq<TextureRecord>, source: nat) {
    |before| == |after| && forall j ::
      0 <= j < |after| && after[j].target.sourceIndex != source && IsSettledForStaging(before[j]) ==>
        IsSettledForStaging(after[j])
  }

  lemma SettledStaysThrough(a: seq<TextureRecord>, b: seq<TextureRecord>, c: seq<TextureRecord>)
    requires SettledStays(a, b) && SettledStays(b, c)
    ensures SettledStays(a, c)
  {
    hide IsSettledForStaging;
  }

  lemma SettledStaysAfter(rs: seq<TextureRecord>, k: nat, r: TextureRecord)
    requires k < |rs| && StaysSettled(rs[k], r)
    ensures SettledStays(rs, rs[k := r])
  {
    hide IsSettledForStaging;
  }

  // ---------- While records are committed ----------

  ghost predicate IsTexturePublished(r: TextureRecord, env: Environment) {
    && WasPublished(r) && r.failure == NoTextureFailure && !r.residue && !r.stagingResidue && r.staged
    && r.object_.Some?
    && IsFitting(r, env) && HasIdentity(r, env) && r.yamlOk && r.content.Some? && r.resourceOk
    && (r.anchor.Some? <==> UsesStream(r))
    && r.asset.path.Some? && r.meta.path.Some? && r.asset.attempted && r.meta.attempted
    && Succeeded(r.asset.status) && Succeeded(r.meta.status)
    && (r.status == TextureEmitted <==> r.asset.status == PublishEmitted || r.meta.status == PublishEmitted)
  }

  ghost predicate HasFailedTexture(r: TextureRecord) {
    r.status == TextureFailed && r.failure != NoTextureFailure && (WroteFiles(r) ==> r.residue)
  }

  /** A record of a transaction whose sources are all closed. */
  ghost predicate IsCommitting(r: TextureRecord, env: Environment) {
    && r.stagingPath.None? && !r.stagingResidue
    && match r.status
       case TexturePending => IsUnpublished(r) && IsFitting(r, env) && r.staged && IsStaged(r, env)
       case TextureFailed => HasFailedTexture(r)
       case _ => IsTexturePublished(r, env) && r.bytes.None?
  }

  ghost predicate AllCommitting(targets: seq<TextureTarget>, rs: seq<TextureRecord>, env: Environment) {
    |rs| == |targets| && forall i :: 0 <= i < |rs| ==> rs[i].target == targets[i] && IsCommitting(rs[i], env)
  }

  lemma AllCommittingAfter(targets: seq<TextureTarget>, rs: seq<TextureRecord>, env: Environment, k: nat,
                           r: TextureRecord)
    requires AllCommitting(targets, rs, env) && k < |rs| && r.target == rs[k].target && IsCommitting(r, env)
    ensures AllCommitting(targets, rs[k := r], env)
  {
    hide IsCommitting;
  }

  /** What a finished batch looks like record by record. */
  ghost predicate IsFinished(r: TextureRecord, env: Environment) {
    r.stagingPath.None? && !r.stagingResidue && r.bytes.None? && (IsTexturePublished(r, env) || HasFailedTexture(r))
  }
}
