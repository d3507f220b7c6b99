/** Why a record of the texture transaction failed, in terms of its object, the held files and what the
    batch relies on. */
module TextureReasons {
  import opened Basics
  import opened MaterialLedger
  import opened Publication
  import opened TexturePublication
  import opened TextureTargets
  import opened TextureRecords
  import opened TextureRun
  import opened TextureSteps

  /** What has gone wrong for the transaction as a whole: memory ran out while sources were read, a visit
      failed, to the sources in `reopened`, a source was not retained or did not stay as it was, or a
      resource file was found changed. */
  datatype Trouble = Trouble(allocation: bool, visit: bool, reopened: set<nat>, source: bool, resource: bool)

  const NO_TROUBLE := Trouble(false, false, {}, false, false)

  ghost predicate Worse(t: Trouble, t': Trouble) {
    && (t.allocation ==> t'.allocation) && (t.visit ==> t'.visit) && t.reopened <= t'.reopened
    && (t.source ==> t'.source) && (t.resource ==> t'.resource)
  }

  /** The object the decoder makes of a target's entry; it carries the entry's class and path. */
  ghost predicate IsDecoded(o: TextureObject, t: TextureTarget, env: Environment) {
    env.decode(t).Decoded? && o == env.decode(t).object_.(classId := t.classId, pathId := t.pathId)
  }

  /** A Texture2D with bytes in a resource file. */
  ghost predicate NeedsFile(r: TextureRecord) {
    r.target.classId == 28 && r.object_.Some? && r.object_.value.streamSize > 0
  }

  /** The file the record's stream names, when there can be one. */
  ghost function NamedFile(r: TextureRecord, env: Environment): Option<string> {
    env.paths(r.target.sourceIndex, if r.object_.Some? then r.object_.value.streamPath else [])
  }

  ghost predicate HoldsFile(r: TextureRecord, anchors: seq<Anchor>) {
    r.anchor.Some? && r.anchor.value < |anchors|
  }

  /** The bytes the object asks for lie in the held file. */
  ghost predicate IsInRange(r: TextureRecord, anchors: seq<Anchor>)
    requires NeedsFile(r) && HoldsFile(r, anchors)
  {
    r.object_.value.streamOffset + r.object_.value.streamSize <= |anchors[r.anchor.value].data|
  }

  ghost predicate CanDraw(r: TextureRecord, anchors: seq<Anchor>) {
    r.object_.Some? && (NeedsFile(r) ==> HoldsFile(r, anchors) && IsInRange(r, anchors))
  }

  /** The bytes a record draws: the slice of the held file, or none. */
  ghost function Drawn(r: TextureRecord, anchors: seq<Anchor>): Bytes
    requires CanDraw(r, anchors)
  {
    if NeedsFile(r) then
      anchors[r.anchor.value].data[r.object_.value.streamOffset..][..r.object_.value.streamSize]
    else []
  }

  /** The identity of what the record draws. */
  ghost function DrawnIdentity(r: TextureRecord, anchors: seq<Anchor>, env: Environment): Option<Identity>
    requires CanDraw(r, anchors)
  {
    env.derive(r.target.digest, r.target.pathId, r.target.classId, env.sha(Drawn(r, anchors)))
  }

  ghost predicate HasReason(r: TextureRecord, failure: TextureFailure, anchors: seq<Anchor>, env: Environment,
                            t: Trouble) {
    match failure
    case SerializedMetadata => !env.opens(r.target.sourceIndex)
    case ObjectNotFound => env.decode(r.target) == NotFound
    case ObjectDecode => env.decode(r.target) == Undecodable
    case ExportShapeUnsupported => exists o :: IsDecoded(o, r.target, env) && !env.supports(o)
    case ResourcePath => r.target.classId == 28 && NamedFile(r, env) == None
    case ResourceOpen => r.target.classId == 28 && NamedFile(r, env) != None
    case ResourceRange => NeedsFile(r) && HoldsFile(r, anchors) && !IsInRange(r, anchors)
    case AssetGuid => CanDraw(r, anchors) && DrawnIdentity(r, anchors, env) == None
    case CopyAllocation =>
      || t.allocation
      || (NeedsFile(r) && CanDraw(r, anchors) && DrawnIdentity(r, anchors, env) != None
          && !env.room(r.target, StagedCopy))
    case SourceReopen => t.visit && r.target.sourceIndex in t.reopened
    case SourceIdentity => t.source
    case ResourceIdentity => t.resource
    case SourceNotRetained => r.object_ == None
    case TextureYaml =>
      && CanDraw(r, anchors)
      && (|Drawn(r, anchors)| > 9223372036854773759 || env.yaml(r.object_.value, Drawn(r, anchors)) == None
          || !env.room(r.target, YamlText))
    case TextureMeta =>
      && r.identity.Some?
      && (env.metadata(r.target.classId, r.identity.value.guid) == None || !env.room(r.target, MetaText))
    case TextureName => HasNoPath(r, env) || (env.hasDirectory(r.target) && !env.room(r.target, PathTexts))
    case TextureDirectory => !HasNoPath(r, env) && !env.hasDirectory(r.target)
    case TextureCollision => r.content.Some?
    case TextureIo => r.content.Some?
    case _ => false
  }

  /** No file name can be made for the asset. */
  ghost predicate HasNoPath(r: TextureRecord, env: Environment) {
    r.object_.Some? && r.identity.Some? && env.assetPath(r.object_.value, r.identity.value.hex) == None
  }

  /** A record's object is the decoder's, and its failure has its reason. */
  ghost predicate IsAccounted(r: TextureRecord, anchors: seq<Anchor>, env: Environment, t: Trouble) {
    && (r.object_.Some? ==> IsDecoded(r.object_.value, r.target, env))
    && (r.status == TextureFailed ==> HasReason(r, r.failure, anchors, env, t))
  }

  ghost predicate AllAccounted(rs: seq<TextureRecord>, anchors: seq<Anchor>, env: Environment, t: Trouble) {
    forall i :: 0 <= i < |rs| ==> IsAccounted(rs[i], anchors, env, t)
  }

  // ---------- How the account goes on ----------

  lemma NothingToAccount(targets: seq<TextureTarget>, rs: seq<TextureRecord>, env: Environment, t: Trouble)
    requires |rs| == |targets| && forall i :: 0 <= i < |rs| ==> rs[i] == NewRecord(targets[i])
    ensures AllAccounted(rs, [], env, t)
  {
  }

  lemma AccountedAfter(rs: seq<TextureRecord>, k: nat, r: TextureRecord, anchors: seq<Anchor>, env: Environment,
                       t: Trouble)
    requires AllAccounted(rs, anchors, env, t) && k < |rs| && IsAccounted(r, anchors, env, t)
    ensures AllAccounted(rs[k := r], anchors, env, t)
  {
    hide IsAccounted;
  }

  /** More files and more trouble take no reason away. */
  lemma ReasonLater(r: TextureRecord, failure: TextureFailure, anchors: seq<Anchor>, more: seq<Anchor>,
                    env: Environment, t: Trouble, t': Trouble)
    requires HasReason(r, failure, anchors, env, t) && anchors <= more && Worse(t, t')
    ensures HasReason(r, failure, more, env, t')
  {
  }

  lemma AccountedLater(rs: seq<TextureRecord>, anchors: seq<Anchor>, more: seq<Anchor>, env: Environment, t: Trouble,
                       t': Trouble)
    requires AllAccounted(rs, anchors, env, t) && anchors <= more && Worse(t, t')
    ensures AllAccounted(rs, more, env, t')
  {
    hide HasReason, IsDecoded, Worse;
    forall i | 0 <= i < |rs|
      ensures IsAccounted(rs[i], more, env, t')
    {
      assert IsAccounted(rs[i], anchors, env, t);
      if rs[i].status == TextureFailed { ReasonLater(rs[i], rs[i].failure, anchors, more, env, t, t'); }
    }
  }

  /** The reason depends on the target, the object, the anchor, the identity and the content alone. */
  lemma SameReason(r: TextureRecord, s: TextureRecord, failure: TextureFailure, anchors: seq<Anchor>,
                   env: Environment, t: Trouble)
    requires HasReason(r, failure, anchors, env, t)
    requires s.target == r.target && s.object_ == r.object_ && s.anchor == r.anchor && s.identity == r.identity
    requires s.content == r.content
    ensures HasReason(s, failure, anchors, env, t)
  {
  }

  /** record_fail keeps the account when the record has the reason, or has failed before. */
  lemma FailedIsAccounted(r: TextureRecord, failure: TextureFailure, anchors: seq<Anchor>, env: Environment,
                          t: Trouble)
    requires IsAccounted(r, anchors, env, t)
    requires if r.status == TextureFailed then r.failure != NoTextureFailure
             else r.failure == NoTextureFailure && HasReason(r, failure, anchors, env, t)
    ensures IsAccounted(FailedTexture(r, failure), anchors, env, t)
  {
    hide HasReason, IsDecoded, WroteFiles;
    var f := FailedTexture(r, failure);
    SameReason(r, f, f.failure, anchors, env, t);
  }

  lemma AccountedAfterFail(targets: seq<TextureTarget>, rs: seq<TextureRecord>, k: nat, failure: TextureFailure,
                           anchors: seq<Anchor>, env: Environment, t: Trouble)
    requires AllAccounted(rs, anchors, env, t) && AllRead(targets, rs, anchors, env) && k < |rs|
    requires rs[k].status == TexturePending ==> HasReason(rs[k], failure, anchors, env, t)
    ensures AllAccounted(rs[k := FailedTexture(rs[k], failure)], anchors, env, t)
  {
    ItIsRead(targets, rs, anchors, env, k);
    hide HasReason, FailedTexture, AllRead, IsDecoded, IsFitting, IsAnchored, IsStaged;
    assert IsAccounted(rs[k], anchors, env, t);
    FailedIsAccounted(rs[k], failure, anchors, env, t);
    hide IsAccounted;
    AccountedAfter(rs, k, FailedTexture(rs[k], failure), anchors, env, t);
  }

  /** A pending record may change in any other way. */
  lemma AccountedWhilePending(rs: seq<TextureRecord>, k: nat, r: TextureRecord, anchors: seq<Anchor>,
                              env: Environment, t: Trouble)
    requires AllAccounted(rs, anchors, env, t) && k < |rs|
    requires r.status != TextureFailed && r.target == rs[k].target && r.object_ == rs[k].object_
    ensures AllAccounted(rs[k := r], anchors, env, t)
  {
    hide HasReason, IsDecoded;
    assert IsAccounted(rs[k], anchors, env, t);
    assert IsAccounted(r, anchors, env, t);
    hide IsAccounted;
    AccountedAfter(rs, k, r, anchors, env, t);
  }

  /** What the reason does not read may change. */
  lemma AccountedByRelabel(rs: seq<TextureRecord>, k: nat, r: TextureRecord, anchors: seq<Anchor>,
                           env: Environment, t: Trouble)
    requires AllAccounted(rs, anchors, env, t) && k < |rs|
    requires r.target == rs[k].target && r.object_ == rs[k].object_ && r.anchor == rs[k].anchor
    requires r.identity == rs[k].identity && r.content == rs[k].content
    requires r.status == rs[k].status && r.failure == rs[k].failure
    ensures AllAccounted(rs[k := r], anchors, env, t)
  {
    hide HasReason, IsDecoded;
    assert IsAccounted(rs[k], anchors, env, t);
    if r.status == TextureFailed { SameReason(rs[k], r, r.failure, anchors, env, t); }
    assert IsAccounted(r, anchors, env, t);
    hide IsAccounted;
    AccountedAfter(rs, k, r, anchors, env, t);
  }

  lemma DecodedIsAccounted(rs: seq<TextureRecord>, k: nat, object_: TextureObject, anchors: seq<Anchor>,
                           env: Environment, t: Trouble)
    requires AllAccounted(rs, anchors, env, t) && k < |rs| && rs[k].status == TexturePending
    requires IsDecoded(object_, rs[k].target, env)
    ensures AllAccounted(rs[k := rs[k].(object_ := Some(object_))], anchors, env, t)
  {
    hide HasReason;
    AccountedAfter(rs, k, rs[k].(object_ := Some(object_)), anchors, env, t);
  }

  // ---------- Commits ----------

  /** The pixels of a staged record are what it draws. */
  lemma PixelsAreDrawn(r: TextureRecord, resources: seq<Anchor>, env: Environment)
    requires IsAnchored(r, resources, env) && r.staged && r.object_.Some?
    ensures CanDraw(r, resources) && PixelsOf(r, resources, env) == Drawn(r, resources)
  {
    if NeedsFile(r) {
      var o, data := r.object_.value, resources[r.anchor.value].data;
      assert data[o.streamOffset..][..o.streamSize] == data[o.streamOffset..o.streamOffset + o.streamSize];
    }
  }

  lemma SameDraw(r: TextureRecord, s: TextureRecord, anchors: seq<Anchor>)
    requires DrawsAlike(r, s) && CanDraw(s, anchors)
    ensures CanDraw(r, anchors) && Drawn(r, anchors) == Drawn(s, anchors)
  {
  }

  lemma YamlFails(r: TextureRecord, anchors: seq<Anchor>, env: Environment, pixels: Bytes, t: Trouble)
    requires CanDraw(r, anchors) && pixels == Drawn(r, anchors)
    requires || |pixels| > (SIZE_MAX - 4096) / 2 || env.yaml(r.object_.value, pixels).None?
             || !env.room(r.target, YamlText)
    ensures HasReason(r, TextureYaml, anchors, env, t)
  {
  }

  lemma MetaFails(r: TextureRecord, anchors: seq<Anchor>, env: Environment, t: Trouble)
    requires r.identity.Some?
    requires env.metadata(r.target.classId, r.identity.value.guid).None? || !env.room(r.target, MetaText)
    ensures HasReason(r, TextureMeta, anchors, env, t)
  {
  }

  lemma PlaceFails(r: TextureRecord, anchors: seq<Anchor>, env: Environment, failure: TextureFailure, t: Trouble)
    requires r.object_.Some? && r.identity.Some?
    requires var path := env.assetPath(r.object_.value, r.identity.value.hex);
             && (path.None? || !env.hasDirectory(r.target) || !env.room(r.target, PathTexts))
             && failure == if path.None? || env.hasDirectory(r.target) then TextureName else TextureDirectory
    ensures HasReason(r, failure, anchors, env, t)
  {
  }

  lemma PublicationFails(r: TextureRecord, anchors: seq<Anchor>, env: Environment, failure: TextureFailure, t: Trouble)
    requires r.content.Some? && failure in {TextureCollision, TextureIo}
    ensures HasReason(r, failure, anchors, env, t)
  {
  }

  lemma FailureIsKept(r: TextureRecord, failure: TextureFailure)
    requires r.failure == NoTextureFailure
    ensures FailedTexture(r, failure).failure == failure && FailedTexture(r, failure).identity == r.identity
  {
  }

  /** A record that is taken for the commit fails for its reason. */
  lemma AccountedAfterCommit(rs: seq<TextureRecord>, k: nat, r: TextureRecord, failure: TextureFailure,
                             anchors: seq<Anchor>, env: Environment, t: Trouble)
    requires AllAccounted(rs, anchors, env, t) && k < |rs|
    requires r.target == rs[k].target && r.object_ == rs[k].object_
    requires r.status == TexturePending && r.failure == NoTextureFailure && HasReason(r, failure, anchors, env, t)
    ensures AllAccounted(rs[k := FailedTexture(r, failure)], anchors, env, t)
  {
    hide HasReason, IsDecoded, FailedTexture;
    assert IsAccounted(rs[k], anchors, env, t);
    FailedIsAccounted(r, failure, anchors, env, t);
    hide IsAccounted;
    AccountedAfter(rs, k, FailedTexture(r, failure), anchors, env, t);
  }

  /** A collision is with the documents that were emitted. */
  lemma EmittedCollides(taken: TextureRecord, final: TextureRecord, resources: seq<Anchor>, env: Environment,
                        p: TextureDocuments, files: map<string, Bytes>)
    requires IsAnchored(taken, resources, env) && IsEmitted(taken, env, PixelsOf(taken, resources, env), p)
    requires DrawsAlike(final, taken) && final.identity == taken.identity
    requires final.failure == TextureCollision ==> AnyAssetTaken(p, files)
    ensures IsAnchored(final, resources, env)
    ensures final.failure == TextureCollision ==> CollidesFor(final, env, PixelsOf(final, resources, env), files)
  {
    StillAnchored(final, taken, resources, env);
    hide IsAnchored, PixelsOf, AnyAssetTaken;
  }
}
