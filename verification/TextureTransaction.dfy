/** The native texture transaction: sources and resource files are read while they are held open, every
    held file is closed before anything is published, and a file found changed revokes everything. */
module TextureTransaction {
  import opened Basics
  import opened MaterialLedger
  import opened MaterialDependencies
  import opened Publication
  import opened TexturePublication
  import opened TextureTargets
  import opened TextureRecords
  import opened TextureRun
  import opened TextureSteps
  import opened TextureReasons

  class TextureBatch {
    const targets: seq<TextureTarget>
    const sources: seq<Source>
    const env: Environment
    var records: seq<TextureRecord>
    var stats: TextureStats
    var complete: bool
    var reason: TextureFailure
    var cleanupComplete: bool
    var residueCount: nat
    var anchors: seq<Anchor>
    var allocationFailed: bool
    var resourceFailed: bool
    ghost var failedVisits: nat
    ghost var reopened: set<nat>
    ghost var sourceLost: bool
    ghost var created: seq<TextureDocuments>
    ghost var firstView: nat
    ghost var resources: seq<Anchor>

    constructor (targets: seq<TextureTarget>, sources: seq<Source>, env: Environment)
      ensures this.targets == targets && this.sources == sources && this.env == env
      ensures records == seq(|targets|, i requires 0 <= i < |targets| => NewRecord(targets[i]))
      ensures stats == TextureStats(0, 0, 0) && created == [] && anchors == []
      ensures !complete && residueCount == 0 && failedVisits == 0 && reopened == {} && !sourceLost
      ensures !allocationFailed && !resourceFailed
    {
      this.targets, this.sources, this.env := targets, sources, env;
      records := seq(|targets|, i requires 0 <= i < |targets| => NewRecord(targets[i]));
      stats := TextureStats(0, 0, 0);
      complete, reason, cleanupComplete, residueCount := false, NoTextureFailure, false, 0;
      anchors, allocationFailed, resourceFailed, failedVisits, created := [], false, false, 0, [];
      firstView, resources, reopened, sourceLost := 0, [], {}, false;
    }

    /** record_fail: the first failure is kept, a published record is taken back, and the counters follow. */
    method Fail(index: nat, failure: TextureFailure)
      requires index < |records| && CountersTrue(records, stats)
      modifies this`records, this`stats
      ensures records == old(records)[index := FailedTexture(old(records)[index], failure)]
      ensures CountersTrue(records, stats)
      ensures SettledStays(old(records), records)
      ensures AllRead(targets, old(records), anchors, env) && IsReadFailure(failure) ==>
          AllRead(targets, records, anchors, env)
      ensures AllRead(targets, old(records), resources, env) && IsReadFailure(failure) ==>
          AllRead(targets, records, resources, env)
    {
      hide AllRead, IsSettledForStaging, CountersTrue, SettledStays;
      CountersAfterFail(records, stats, index, failure);
      FailKeeps(targets, records, anchors, env, index, failure);
      FailKeeps(targets, records, resources, env, index, failure);
      var r := records[index];
      var residue, first := r.residue, r.failure;
      if r.status != TextureFailed {
        if r.status == TextureEmitted || r.status == TextureUnchanged {
          residue := (r.asset.attempted && r.asset.status == PublishEmitted)
            || (r.meta.attempted && r.meta.status == PublishEmitted);
          if r.status == TextureEmitted && stats.emitted != 0 {
            stats := stats.(emitted := stats.emitted - 1);
          } else if r.status == TextureUnchanged && stats.unmodified != 0 {
            stats := stats.(unmodified := stats.unmodified - 1);
          }
        }
        stats := stats.(failed := stats.failed + 1);
      }
      if first == NoTextureFailure { first := failure; }
      records := records[index := r.(residue := residue, status := TextureFailed, failure := first)];
    }

    /** What a caller reads of the finished batch. */
    function Result(targetStats: TargetStats): Outcome
      reads this
    {
      Outcome(records, stats, targetStats, complete, reason, cleanupComplete, residueCount)
    }

    // ---------- Reading ----------

    /** What has gone wrong while sources are read. */
    ghost function Troubles(): Trouble
      reads `allocationFailed, `failedVisits, `reopened, `sourceLost, `resourceFailed
    {
      Trouble(allocationFailed, failedVisits > 0, reopened, sourceLost, resourceFailed)
    }

    /** What holds between any two steps while sources are read. */
    ghost predicate Reads(views: LeaseBook, others: set<nat>)
      reads this, views
    {
      && AllRead(targets, records, anchors, env) && CountersTrue(records, stats)
      && AllAccounted(records, anchors, env, Troubles()) && (failedVisits == 0 ==> reopened == {})
      && PathsDistinct(anchors) && views.Valid() && views.open == others + ViewsOf(anchors)
      && ViewsOf(anchors) !! others && firstView <= views.issued && ViewsSince(anchors, firstView)
    }

    /** acquire_resource_anchor: the cached anchor of the path, or a newly opened one. */
    method AcquireAnchor(path: string, views: LeaseBook, ghost others: set<nat>) returns (index: Option<nat>)
      requires Reads(views, others)
      modifies this`anchors, this`allocationFailed, views
      ensures Reads(views, others) && old(anchors) <= anchors
      ensures index.Some? ==> index.value < |anchors| && anchors[index.value].path == path
      ensures old(allocationFailed) ==> allocationFailed
      ensures allocationFailed || views.unstable == old(views.unstable)
    {
      hide Reads;
      for at := 0 to |anchors|
        invariant forall a :: 0 <= a < at ==> anchors[a].path != path
      {
        if anchors[at].path == path { return Some(at); }
      }
      index := OpenAnchor(path, views, others);
    }

    /** A resource file that is not held yet is opened and held. */
    method OpenAnchor(path: string, views: LeaseBook, ghost others: set<nat>) returns (index: Option<nat>)
      requires Reads(views, others) && forall a :: 0 <= a < |anchors| ==> anchors[a].path != path
      modifies this`anchors, this`allocationFailed, views
      ensures Reads(views, others) && old(anchors) <= anchors
      ensures index.Some? ==> index.value < |anchors| && anchors[index.value].path == path
      ensures old(allocationFailed) ==> allocationFailed
      ensures allocationFailed || views.unstable == old(views.unstable)
    {
      hide AllRead, CountersTrue, AllAccounted, PathsDistinct, ViewsOf, ViewsSince;
      ghost var trouble := Troubles();
      var isOpen: bool := *;
      if !isOpen { return None; }
      var view := views.Issue();
      var data: Bytes := *;
      var hasMemory: bool := *;
      if !hasMemory {
        var _ := views.Close(view);
        allocationFailed := true;
        AccountedLater(records, anchors, anchors, env, trouble, Troubles());
        return None;
      }
      var anchor := Anchor(path, view, data);
      AnchorJoins(anchors, anchor, others, firstView);
      MoreAnchors(targets, records, anchors, anchors + [anchor], env);
      AccountedLater(records, anchors, anchors + [anchor], env, trouble, Troubles());
      anchors := anchors + [anchor];
      index := Some(|anchors| - 1);
    }

    /** The bytes stage_record takes from the held file; without a stream there are none. */
    ghost function Wanted(r: TextureRecord, data: Option<Bytes>): Option<Bytes>
      requires r.object_.Some?
    {
      var o := r.object_.value;
      if !NeedsFile(r) then Some([])
      else if data.None? || o.streamOffset + o.streamSize > |data.value| then None
      else Some(data.value[o.streamOffset..][..o.streamSize])
    }

    /** The checks and the copy of stage_record, on the record alone. */
    method StageBytes(r: TextureRecord, data: Option<Bytes>) returns (r': TextureRecord, failure: TextureFailure)
      requires IsRead(r, anchors, env) && r.status == TexturePending && r.object_.Some? && !r.staged
      requires UsesStream(r) && data.Some? ==> r.anchor.Some? && data.value == anchors[r.anchor.value].data
      ensures IsRead(r', anchors, env) && r'.target == r.target && r'.status == TexturePending
      ensures r'.object_ == r.object_ && r'.anchor == r.anchor && r'.failure == NoTextureFailure
      ensures r'.staged <==> failure == NoTextureFailure
      ensures failure == if NeedsFile(r) && (r.object_.value.streamPath == [] || data == None) then ResourcePath
                         else if Wanted(r, data) == None then ResourceRange
                         else if env.derive(r.target.digest, r.target.pathId, r.target.classId,
                                            env.sha(Wanted(r, data).value)) == None then AssetGuid
                         else if NeedsFile(r) && !env.room(r.target, StagedCopy) then CopyAllocation
                         else NoTextureFailure
    {
      var o := r.object_.value;
      var pixels: Bytes := [];
      if UsesStream(r) {
        if |o.streamPath| == 0 || data.None? { return r, ResourcePath; }
        if o.streamOffset > |data.value| || o.streamSize > |data.value| - o.streamOffset { return r, ResourceRange; }
        pixels := data.value[o.streamOffset..o.streamOffset + o.streamSize];
        assert pixels == data.value[o.streamOffset..][..o.streamSize];
      }
      r' := r.(digest := env.sha(pixels));
      var identity := env.derive(r.target.digest, r.target.pathId, r.target.classId, r'.digest);
      if identity.None? { return r', AssetGuid; }
      r' := r'.(identity := identity);
      if |pixels| != 0 {
        if !env.room(r.target, StagedCopy) { return r', CopyAllocation; }
        r' := r'.(bytes := Some(pixels));
      }
      r' := r'.(staged := true);
      failure := NoTextureFailure;
    }

    /** What StageBytes reports is a reason. */
    lemma StagedForAReason(r: TextureRecord, r': TextureRecord, data: Option<Bytes>, failure: TextureFailure)
      requires r.object_.Some? && r'.object_ == r.object_ && r'.target == r.target && r'.anchor == r.anchor
      requires NeedsFile(r) && data.Some? ==> HoldsFile(r, anchors) && data.value == anchors[r.anchor.value].data
      requires NeedsFile(r) && (r.object_.value.streamPath == [] || data == None) ==> NamedFile(r, env) == None
      requires failure == if NeedsFile(r) && (r.object_.value.streamPath == [] || data == None) then ResourcePath
                          else if Wanted(r, data) == None then ResourceRange
                          else if env.derive(r.target.digest, r.target.pathId, r.target.classId,
                                             env.sha(Wanted(r, data).value)) == None then AssetGuid
                          else if NeedsFile(r) && !env.room(r.target, StagedCopy) then CopyAllocation
                          else NoTextureFailure
      ensures failure != NoTextureFailure ==> HasReason(r', failure, anchors, env, Troubles())
    {
    }

    /** stage_record: the slice is copied out of the held file, or the record fails. */
    method StageRecord(index: nat, data: Option<Bytes>, views: LeaseBook, ghost others: set<nat>)
      requires Reads(views, others) && index < |records|
      requires records[index].status == TexturePending && records[index].object_.Some? && !records[index].staged
      requires UsesStream(records[index]) && data.Some? ==>
                 records[index].anchor.Some? && records[index].anchor.value < |anchors| &&
                   data.value == anchors[records[index].anchor.value].data
      requires NeedsFile(records[index]) && (records[index].object_.value.streamPath == [] || data == None) ==>
                 NamedFile(records[index], env) == None
      modifies this`records, this`stats
      ensures Reads(views, others) && |records| == |old(records)|
      ensures records == old(records)[index := records[index]] && IsSettledForStaging(records[index])
      ensures records[index].target == old(records)[index].target
      ensures records[index].object_ == old(records)[index].object_
      ensures records[index].status == TexturePending ==> records[index].staged
      ensures SettledStays(old(records), records)
    {
      hide AllRead, CountersTrue, PathsDistinct, ViewsOf, SettledStays, IsRead, UsesStream, FailedTexture,
           IsSettledForStaging, AllAccounted, HasReason, Wanted;
      ItIsRead(targets, records, anchors, env, index);
      ghost var rs, st := records, stats;
      var r, failure := StageBytes(records[index], data);
      StreamNeedsFile(rs[index]);
      StagedForAReason(rs[index], r, data, failure);
      StagedKeeps(targets, rs, st, anchors, env, index, r);
      AccountedWhilePending(rs, index, r, anchors, env, Troubles());
      records := records[index := r];
      if failure != NoTextureFailure {
        AccountedAfterFail(targets, records, index, failure, anchors, env, Troubles());
        Fail(index, failure);
        FailedKeepsTarget(r, failure);
      }
      ghost var final := records[index];
      assert records == rs[index := final];
      StagedSettles(rs, index, final);
    }

    /** Why the records of one stream fail together. */
    ghost predicate FailsTheGroup(source: nat, key: TextureRecord, failure: TextureFailure)
      reads `allocationFailed
    {
      var path := env.paths(source, StreamPath(key));
      || (failure == ResourcePath && path == None) || (failure == ResourceOpen && path != None)
      || (failure == CopyAllocation && allocationFailed)
    }

    lemma GroupHasReason(source: nat, key: TextureRecord, failure: TextureFailure, r: TextureRecord)
      requires FailsTheGroup(source, key, failure) && r.target.sourceIndex == source && SameStream(r, key)
      ensures IsReadFailure(failure) && HasReason(r, failure, anchors, env, Troubles())
    {
    }

    lemma StreamMeans(r: TextureRecord, key: TextureRecord)
      ensures SameStream(r, key) <==>
                r.target.classId == TEXTURE2D && key.target.classId == TEXTURE2D && StreamPath(r) == StreamPath(key)
    {
    }

    lemma StreamNeedsFile(r: TextureRecord)
      ensures UsesStream(r) <==> NeedsFile(r)
    {
    }

    /** fail_pending_stream_group. */
    method FailStreamGroup(source: nat, key: TextureRecord, failure: TextureFailure, resourceOk: bool,
                           views: LeaseBook, ghost others: set<nat>)
      requires Reads(views, others) && FailsTheGroup(source, key, failure)
      modifies this`records, this`stats
      ensures Reads(views, others) && |records| == |old(records)| && SettledStays(old(records), records)
      ensures forall j :: 0 <= j < |records| ==>
          records[j].target.sourceIndex == source && SameStream(records[j], key) ==> records[j].status != TexturePending
    {
      hide AllRead, CountersTrue, PathsDistinct, ViewsOf, SettledStays, IsSettledForStaging, FailedTexture, SameStream,
           AllAccounted, HasReason, FailsTheGroup;
      StaysItself(records);
      for index := 0 to |records|
        invariant Reads(views, others) && |records| == |old(records)| && SettledStays(old(records), records)
        invariant forall j :: 0 <= j < index ==>
            records[j].target.sourceIndex == source && SameStream(records[j], key) ==>
              records[j].status != TexturePending
      {
        ghost var before := records;
        var r := records[index];
        StreamMeans(r, key);
        if r.target.sourceIndex == source && r.status == TexturePending && r.target.classId == TEXTURE2D
           && key.target.classId == TEXTURE2D && StreamPath(r) == StreamPath(key) {
          GroupHasReason(source, key, failure, r);
          AccountedAfterFail(targets, before, index, failure, anchors, env, Troubles());
          Fail(index, failure);
          FailedKeepsTarget(r, failure);
          ghost var failed := records;
          AccountedByRelabel(failed, index, failed[index].(resourceOk := resourceOk), anchors, env, Troubles());
          Relabel(targets, records, anchors, env, index, resourceOk);
          CountersIgnore(records, stats, index, records[index].(resourceOk := resourceOk));
          records := records[index := records[index].(resourceOk := resourceOk)];
          SettledStaysThrough(before, failed, records);
          SettledStaysThrough(old(records), before, records);
        }
      }
    }

    /** The third loop of stage_source_records: every record of the group reads the same held file. */
    method StageGroup(source: nat, key: TextureRecord, anchor: nat, views: LeaseBook, ghost others: set<nat>)
      requires Reads(views, others) && anchor < |anchors| && StreamPath(key) != []
      requires env.paths(source, StreamPath(key)) == Some(anchors[anchor].path)
      requires PlainSettled(records, source)
      modifies this`records, this`stats
      ensures Reads(views, others) && |records| == |old(records)| && SettledStays(old(records), records)
      ensures PlainSettled(records, source)
      ensures forall j :: 0 <= j < |records| ==>
          records[j].target.sourceIndex == source && SameStream(records[j], key) ==> IsSettledForStaging(records[j])
    {
      hide AllRead, CountersTrue, PathsDistinct, ViewsOf, SettledStays, PlainSettled, IsRead, IsSettledForStaging,
           AllAccounted;
      StaysItself(records);
      for member := 0 to |records|
        invariant Reads(views, others) && |records| == |old(records)| && SettledStays(old(records), records)
        invariant PlainSettled(records, source)
        invariant forall j :: 0 <= j < member ==>
            records[j].target.sourceIndex == source && SameStream(records[j], key) ==> IsSettledForStaging(records[j])
      {
        var r := records[member];
        ghost var before := records;
        StreamMeans(r, key);
        if r.target.sourceIndex == source && r.status == TexturePending && !r.staged && r.target.classId == TEXTURE2D
           && key.target.classId == TEXTURE2D && StreamPath(r) == StreamPath(key) {
          UnsettledUsesStream(before, source, member);
          var r' := r.(resourceOk := true, anchor := Some(anchor));
          AnchoredIsRead(targets, before, anchors, env, member, anchor);
          CountersIgnore(before, stats, member, r');
          AccountedWhilePending(before, member, r', anchors, env, Troubles());
          records := records[member := r'];
          ghost var anchored := records;
          StageRecord(member, Some(anchors[anchor].data), views, others);
          SettledStaysThrough(before, anchored, records);
          SettledStaysThrough(old(records), before, records);
          PlainStaysSettled(before, records, source);
        } else {
          SettledUnlessNamed(r);
        }
      }
    }

    /** stage_source_records. */
    method StageSourceRecords(source: nat, views: LeaseBook, ghost others: set<nat>)
      requires Reads(views, others) && env.paths(source, []).None?
      modifies this`records, this`stats, this`anchors, this`allocationFailed, views
      ensures Reads(views, others) && |records| == |old(records)| && SettledStays(old(records), records)
      ensures SourceSettled(records, source)
      ensures old(allocationFailed) ==> allocationFailed
      ensures allocationFailed || views.unstable == old(views.unstable)
    {
      hide AllRead, CountersTrue, PathsDistinct, ViewsOf, SettledStays, PlainSettled, IsRead, AllAccounted;
      StagePlain(source, views, others);
      for index := 0 to |records|
        invariant Reads(views, others) && |records| == |old(records)| && SettledStays(old(records), records)
        invariant PlainSettled(records, source)
        invariant forall j :: 0 <= j < index && records[j].target.sourceIndex == source ==>
            IsSettledForStaging(records[j])
        invariant old(allocationFailed) ==> allocationFailed
        invariant allocationFailed || views.unstable == old(views.unstable)
      {
        var key := records[index];
        ghost var before := records;
        if key.target.sourceIndex == source && key.status == TexturePending && key.object_.Some? && !key.staged &&
          UsesStream(key) {
          StageStream(source, key, views, others);
          SettledStaysThrough(old(records), before, records);
          PrefixStaysSettled(before, records, source, index);
          assert SameStream(records[index], key);
        } else {
          PlainIsSettled(before, source, index);
        }
      }
    }

    /** The first loop of stage_source_records: the records without a stream. */
    method StagePlain(source: nat, views: LeaseBook, ghost others: set<nat>)
      requires Reads(views, others)
      modifies this`records, this`stats
      ensures Reads(views, others) && |records| == |old(records)| && SettledStays(old(records), records)
      ensures PlainSettled(records, source)
    {
      hide AllRead, CountersTrue, PathsDistinct, ViewsOf, SettledStays, IsRead, UsesStream, AllAccounted;
      StaysItself(records);
      for index := 0 to |records|
        invariant Reads(views, others) && |records| == |old(records)| && SettledStays(old(records), records)
        invariant forall j :: 0 <= j < index && records[j].target.sourceIndex == source && !UsesStream(records[j]) ==>
            IsSettledForStaging(records[j])
      {
        var r := records[index];
        ghost var before := records;
        if r.target.sourceIndex == source && r.status == TexturePending && r.object_.Some? && !r.staged &&
          !UsesStream(r) {
          StreamNeedsFile(r);
          StageRecord(index, None, views, others);
          SettledStaysThrough(old(records), before, records);
        }
      }
    }

    /** One round of the second loop of stage_source_records: resolve, hold open, stage the group. */
    method StageStream(source: nat, key: TextureRecord, views: LeaseBook, ghost others: set<nat>)
      requires Reads(views, others) && env.paths(source, []).None? && UsesStream(key) && PlainSettled(records, source)
      modifies this`records, this`stats, this`anchors, this`allocationFailed, views
      ensures Reads(views, others) && |records| == |old(records)| && SettledStays(old(records), records)
      ensures PlainSettled(records, source)
      ensures forall j :: 0 <= j < |records| ==>
          records[j].target.sourceIndex == source && SameStream(records[j], key) ==> IsSettledForStaging(records[j])
      ensures old(allocationFailed) ==> allocationFailed
      ensures allocationFailed || views.unstable == old(views.unstable)
    {
      hide AllRead, CountersTrue, PathsDistinct, ViewsOf, SettledStays, PlainSettled, IsRead, AllAccounted;
      var path := env.paths(source, StreamPath(key));
      if path.None? {
        FailStreamGroup(source, key, ResourcePath, false, views, others);
        PlainStaysSettled(old(records), records, source);
        return;
      }
      var anchor := AcquireAnchor(path.value, views, others);
      if anchor.None? {
        FailStreamGroup(source, key, if allocationFailed then CopyAllocation else ResourceOpen, false, views, others);
        PlainStaysSettled(old(records), records, source);
        return;
      }
      StageGroup(source, key, anchor.value, views, others);
    }

    // ---------- Sources ----------

    /** Every record of a source whose metadata cannot be read fails. */
    method FailSource(source: nat, failure: TextureFailure, views: LeaseBook, ghost others: set<nat>)
      requires Reads(views, others) && failure == SerializedMetadata && !env.opens(source)
      modifies this`records, this`stats
      ensures Reads(views, others) && |records| == |old(records)| && SettledStays(old(records), records)
      ensures forall j :: 0 <= j < |records| ==>
                records[j] == if old(records)[j].target.sourceIndex == source
                              then FailedTexture(old(records)[j], failure) else old(records)[j]
    {
      hide AllRead, CountersTrue, PathsDistinct, ViewsOf, SettledStays, FailedTexture, AllAccounted;
      StaysItself(records);
      for index := 0 to |records|
        invariant Reads(views, others) && |records| == |old(records)| && SettledStays(old(records), records)
        invariant forall j :: index <= j < |records| ==> records[j] == old(records)[j]
        invariant forall j :: 0 <= j < index ==>
          records[j] == if old(records)[j].target.sourceIndex == source then FailedTexture(old(records)[j], failure)
                        else old(records)[j]
      {
        if records[index].target.sourceIndex == source {
          ghost var before := records;
          AccountedAfterFail(targets, before, index, failure, anchors, env, Troubles());
          Fail(index, failure);
          SettledStaysThrough(old(records), before, records);
        }
      }
    }

    /** Looking an object up, decoding it and copying what the batch keeps of it.  The decoder copies the
        class and path of the entry it was given, which are those of the target. */
    method DecodeObject(t: TextureTarget) returns (object_: TextureObject, failure: TextureFailure)
      ensures failure == match env.decode(t)
                         case NotFound => ObjectNotFound
                         case Undecodable => ObjectDecode
                         case Decoded(_) => if !env.supports(object_) then ExportShapeUnsupported
                                            else if !env.room(t, ObjectCopy) then CopyAllocation else NoTextureFailure
      ensures env.decode(t).Decoded? ==> IsDecoded(object_, t, env)
      ensures failure == NoTextureFailure || IsReadFailure(failure)
    {
      match env.decode(t) {
        case NotFound =>
          object_, failure := TextureObject(t.classId, t.pathId, [], [], 0, 0, []), ObjectNotFound;
        case Undecodable =>
          object_, failure := TextureObject(t.classId, t.pathId, [], [], 0, 0, []), ObjectDecode;
        case Decoded(decoded) =>
          object_ := decoded.(classId := t.classId, pathId := t.pathId);
          failure := if !env.supports(object_) then ExportShapeUnsupported
                     else if !env.room(t, ObjectCopy) then CopyAllocation else NoTextureFailure;
      }
    }

    /** What DecodeObject reports is a reason. */
    lemma DecodedForAReason(r: TextureRecord, object_: TextureObject, failure: TextureFailure, t: Trouble)
      requires failure == match env.decode(r.target)
                          case NotFound => ObjectNotFound
                          case Undecodable => ObjectDecode
                          case Decoded(_) => if !env.supports(object_) then ExportShapeUnsupported
                                             else if !env.room(r.target, ObjectCopy) then CopyAllocation
                                             else NoTextureFailure
      requires env.decode(r.target).Decoded? ==> IsDecoded(object_, r.target, env)
      requires failure == CopyAllocation ==> t.allocation
      ensures failure != NoTextureFailure ==> HasReason(r, failure, anchors, env, t)
    {
    }

    /** The decoding loop of process_texture_source; running out of memory stops the visit. */
    method DecodeSource(source: nat, views: LeaseBook, ghost others: set<nat>) returns (goOn: bool)
      requires Reads(views, others)
      modifies this`records, this`stats, this`allocationFailed
      ensures Reads(views, others) && SettledElsewhere(old(records), records, source)
      ensures old(allocationFailed) ==> allocationFailed
      ensures if goOn then forall j :: 0 <= j < |records| && records[j].target.sourceIndex == source ==>
                             records[j].status == TexturePending ==> records[j].object_.Some?
              else allocationFailed
    {
      hide Reads, SettledElsewhere;
      ElsewhereItself(records, source);
      for index := 0 to |records|
        invariant Reads(views, others) && |records| == |old(records)| && SettledElsewhere(old(records), records, source)
        invariant old(allocationFailed) ==> allocationFailed
        invariant forall j :: 0 <= j < index && records[j].target.sourceIndex == source ==>
          records[j].status == TexturePending ==> records[j].object_.Some?
      {
        var r := records[index];
        if r.target.sourceIndex != source || r.status != TexturePending || r.object_.Some? { continue; }
        ghost var before := records;
        goOn := DecodeRecord(index, views, others);
        ElsewhereAfterDecode(old(records), before, index, records[index], source);
        if !goOn { return; }
      }
      goOn := true;
    }

    /** The body of the decoding loop for a pending record. */
    method DecodeRecord(index: nat, views: LeaseBook, ghost others: set<nat>) returns (goOn: bool)
      requires Reads(views, others) && index < |records|
      requires records[index].status == TexturePending && records[index].object_.None?
      modifies this`records, this`stats, this`allocationFailed
      ensures Reads(views, others) && |records| == |old(records)|
      ensures records == old(records)[index := records[index]] && records[index].target == old(records)[index].target
      ensures records[index].status == TexturePending ==> records[index].object_.Some?
      ensures old(allocationFailed) ==> allocationFailed
      ensures !goOn ==> allocationFailed
    {
      hide Reads, HasReason, IsDecoded, FailedTexture;
      var r := records[index];
      var object_, failure := DecodeObject(r.target);
      if failure != NoTextureFailure {
        ghost var trouble := Troubles().(allocation := allocationFailed || failure == CopyAllocation);
        DecodedForAReason(r, object_, failure, trouble);
        FailedKeepsTarget(r, failure);
        FailDecoding(index, failure, views, others, trouble);
        return failure != CopyAllocation;
      }
      KeepDecoded(index, object_, views, others);
      goOn := true;
    }

    /** The failure of a decoding; without memory nothing more is read. */
    method FailDecoding(index: nat, failure: TextureFailure, views: LeaseBook, ghost others: set<nat>,
                        ghost t: Trouble)
      requires Reads(views, others) && index < |records| && records[index].status == TexturePending
      requires t == Troubles().(allocation := allocationFailed || failure == CopyAllocation)
      requires HasReason(records[index], failure, anchors, env, t) && IsReadFailure(failure)
      modifies this`records, this`stats, this`allocationFailed
      ensures Reads(views, others)
      ensures records == old(records)[index := FailedTexture(old(records)[index], failure)]
      ensures allocationFailed == (old(allocationFailed) || failure == CopyAllocation)
    {
      hide AllRead, CountersTrue, PathsDistinct, ViewsOf, SettledStays, FailedTexture, AllAccounted, HasReason,
           ViewsSince, Worse;
      DecodingFails(index, failure, t);
      Fail(index, failure);
      if failure == CopyAllocation { allocationFailed := true; }
    }

    lemma DecodingFails(index: nat, failure: TextureFailure, t: Trouble)
      requires AllRead(targets, records, anchors, env) && AllAccounted(records, anchors, env, Troubles())
      requires index < |records| && t == Troubles().(allocation := allocationFailed || failure == CopyAllocation)
      requires HasReason(records[index], failure, anchors, env, t)
      ensures var f := FailedTexture(records[index], failure);
              && AllAccounted(records[index := f], anchors, env, t) && f.target == records[index].target
              && f.status == TextureFailed
    {
      hide AllRead, AllAccounted, HasReason, FailedTexture;
      AccountedLater(records, anchors, anchors, env, Troubles(), t);
      AccountedAfterFail(targets, records, index, failure, anchors, env, t);
      FailedKeepsTarget(records[index], failure);
    }

    /** The record keeps the decoder's object. */
    method KeepDecoded(index: nat, object_: TextureObject, views: LeaseBook, ghost others: set<nat>)
      requires Reads(views, others) && index < |records|
      requires records[index].status == TexturePending && records[index].object_.None?
      requires IsDecoded(object_, records[index].target, env) && env.supports(object_)
      modifies this`records
      ensures Reads(views, others)
      ensures records == old(records)[index := old(records)[index].(object_ := Some(object_))]
    {
      hide AllRead, CountersTrue, PathsDistinct, ViewsOf, AllAccounted, IsDecoded, IsFitting;
      DecodedFits(records[index], object_);
      DecodedIsRead(targets, records, anchors, env, index, object_);
      DecodedIsAccounted(records, index, object_, anchors, env, Troubles());
      CountersIgnore(records, stats, index, records[index].(object_ := Some(object_)));
      records := records[index := records[index].(object_ := Some(object_))];
    }

    lemma DecodedFits(r: TextureRecord, object_: TextureObject)
      requires IsDecoded(object_, r.target, env) && env.supports(object_)
      ensures IsFitting(r.(object_ := Some(object_)), env)
    {
    }

    /** process_texture_source, the callback for one serialized source of an open snapshot. */
    method ProcessSource(source: nat, views: LeaseBook, ghost others: set<nat>) returns (goOn: bool)
      requires Reads(views, others) && env.paths(source, []).None?
      modifies this`records, this`stats, this`anchors, this`allocationFailed, views
      ensures Reads(views, others)
      ensures old(allocationFailed) ==> allocationFailed
      ensures allocationFailed || views.unstable == old(views.unstable)
      ensures allocationFailed || (AllSettled(old(records)) ==> AllSettled(records))
    {
      hide AllRead, CountersTrue, PathsDistinct, ViewsOf, SettledStays, SettledElsewhere, SourceSettled, AllSettled,
           AllAccounted;
      var needed := false;
      for index := 0 to |records| {
        if records[index].target.sourceIndex == source && records[index].status == TexturePending {
          needed := true;
          break;
        }
      }
      if !needed { return true; }
      if !env.opens(source) {
        FailSource(source, SerializedMetadata, views, others);
        AllStaySettled(old(records), records);
        return true;
      }
      goOn := DecodeSource(source, views, others);
      if !goOn { return; }
      ghost var decoded := records;
      StageSourceRecords(source, views, others);
      AllSettledAgain(old(records), decoded, records, source);
    }

    /** unity_input_snapshot_visit: any number of callbacks, then any status. */
    method Visit(views: LeaseBook, ghost others: set<nat>) returns (ok: bool)
      requires Reads(views, others) && NeedNames(env)
      modifies this`records, this`stats, this`anchors, this`allocationFailed, views
      ensures Reads(views, others)
      ensures old(allocationFailed) ==> allocationFailed
      ensures allocationFailed || views.unstable == old(views.unstable)
      ensures allocationFailed || (AllSettled(old(records)) ==> AllSettled(records))
    {
      hide AllRead, CountersTrue, PathsDistinct, ViewsOf, AllSettled, AllAccounted;
      var callbacks: nat := *;
      var goOn := true;
      while goOn && callbacks > 0
        invariant Reads(views, others)
        invariant old(allocationFailed) ==> allocationFailed
        invariant allocationFailed || views.unstable == old(views.unstable)
        invariant allocationFailed || (AllSettled(old(records)) ==> AllSettled(records))
        decreases callbacks
      {
        var source: nat := *;
        if source < |sources| {
          NamesAreNeeded(env, source);
          goOn := ProcessSource(source, views, others);
        }
        callbacks := callbacks - 1;
      }
      ok := *;
    }

    /** The record's source lies in the file at `path`; without a path every record counts. */
    ghost predicate IsOfPath(r: TextureRecord, path: Option<string>) {
      path == None || (r.target.sourceIndex < |sources| && sources[r.target.sourceIndex].outerPath == path.value)
    }

    /** fail_records_for_outer_path; without a path every record fails. */
    method FailPath(path: Option<string>, failure: TextureFailure, views: LeaseBook, ghost others: set<nat>)
      requires Reads(views, others)
      requires || (failure == SourceReopen && failedVisits > 0 && path.Some?
                   && forall s: nat :: s < |sources| && sources[s].outerPath == path.value ==> s in reopened)
               || (failure == SourceIdentity && sourceLost)
      modifies this`records, this`stats
      ensures Reads(views, others) && SettledStays(old(records), records) && |records| == |old(records)|
      ensures forall j :: 0 <= j < |records| ==>
                records[j] == if IsOfPath(old(records)[j], path) then FailedTexture(old(records)[j], failure)
                              else old(records)[j]
    {
      hide AllRead, CountersTrue, PathsDistinct, ViewsOf, SettledStays, FailedTexture, AllAccounted;
      StaysItself(records);
      for index := 0 to |records|
        invariant Reads(views, others) && |records| == |old(records)| && SettledStays(old(records), records)
        invariant forall j :: index <= j < |records| ==> records[j] == old(records)[j]
        invariant forall j :: 0 <= j < index ==>
          records[j] == if IsOfPath(old(records)[j], path) then FailedTexture(old(records)[j], failure)
                        else old(records)[j]
      {
        var source := records[index].target.sourceIndex;
        if path.None? || (source < |sources| && sources[source].outerPath == path.value) {
          ghost var before := records;
          AccountedAfterFail(targets, before, index, failure, anchors, env, Troubles());
          Fail(index, failure);
          SettledStaysThrough(old(records), before, records);
        }
      }
    }

    /** snapshot_path_is_needed. */
    method PathIsNeeded(path: string) returns (needed: bool)
      ensures needed <==> exists i ::
          0 <= i < |records| && records[i].target.sourceIndex < |sources| &&
            sources[records[i].target.sourceIndex].outerPath == path
    {
      for index := 0 to |records|
        invariant forall i :: 0 <= i < index && records[i].target.sourceIndex < |sources| ==>
            sources[records[i].target.sourceIndex].outerPath != path
      {
        var source := records[index].target.sourceIndex;
        if source < |sources| && sources[source].outerPath == path { return true; }
      }
      return false;
    }

    /** catalog_sources_have_open_snapshots. */
    method SourcesHaveSnapshots(snapshots: seq<Snapshot>) returns (ok: bool)
      ensures ok <==> AllHeld(snapshots, sources)
    {
      for source := 0 to |sources|
        invariant forall s :: 0 <= s < source ==> IsHeld(snapshots, sources[s].outerPath)
      {
        var found := false;
        for index := 0 to |snapshots|
          invariant !found && forall i :: 0 <= i < index ==>
              !snapshots[i].isOpen || snapshots[i].path != Some(sources[source].outerPath)
        {
          if snapshots[index].isOpen && snapshots[index].path == Some(sources[source].outerPath) {
            found := true;
            break;
          }
        }
        if !found {
          assert !IsHeld(snapshots, sources[source].outerPath);
          return false;
        }
      }
      return true;
    }

    /** close_resource_anchors: every anchor is closed once; one found changed fails its records. */
    method CloseAnchors(views: LeaseBook, ghost others: set<nat>)
      requires Reads(views, others)
      modifies this`records, this`stats, this`anchors, this`resources, this`resourceFailed, views
      ensures AllRead(targets, records, resources, env) && CountersTrue(records, stats)
      ensures AllAccounted(records, resources, env, Troubles())
      ensures SettledStays(old(records), records)
      ensures anchors == [] && resources == old(anchors) && views.Valid() && views.open == others
      ensures resourceFailed <==> old(resourceFailed) || views.unstable != old(views.unstable)
      ensures old(views.unstable) <= views.unstable && views.issued == old(views.issued)
      ensures ResourcesHeld(resources, firstView, !resourceFailed, views.Now())
      ensures AnchorsSettled(records, resources, |resources|, views.unstable)
    {
      hide AllRead, CountersTrue, SettledStays, FailedTexture, AnchorsSettled, AllAccounted, PathsDistinct, ViewsSince,
           ResourcesHeld;
      NoAnchorSettled(records, anchors, views.unstable);
      resources := anchors;
      ghost var before := views.Now();
      StaysItself(records);
      NoneClosed(anchors);
      hide ViewsOf;
      for at := 0 to |anchors|
        invariant anchors == resources == old(anchors) && |records| == |old(records)|
        invariant AllRead(targets, records, resources, env) && CountersTrue(records, stats)
        invariant AllAccounted(records, resources, env, Troubles())
        invariant SettledStays(old(records), records)
        invariant views.Valid() && views.open == others + ViewsOf(anchors[at..]) && views.issued == before.issued
        invariant resourceFailed <==> old(resourceFailed) || views.unstable != old(views.unstable)
        invariant old(views.unstable) <= views.unstable
        invariant AnchorsSettled(records, anchors, at, views.unstable)
      {
        ViewsOneFewer(anchors, at, others);
        ghost var unstable, earlier := views.unstable, records;
        var stable := views.Close(anchors[at].view);
        SettleAnchor(at, stable);
        OneMoreAnchorSettled(earlier, records, anchors, at, unstable, stable);
        SettledStaysThrough(old(records), earlier, records);
      }
      NoViewsLeft(anchors);
      ClosedResourcesHeld(anchors, firstView, others, before, views.Now(), !resourceFailed);
      anchors := [];
    }

    /** What follows from closing one anchor. */
    method SettleAnchor(at: nat, stable: bool)
      requires AllRead(targets, records, resources, env) && CountersTrue(records, stats)
      requires AllAccounted(records, resources, env, Troubles())
      modifies this`records, this`stats, this`resourceFailed
      ensures AllRead(targets, records, resources, env) && CountersTrue(records, stats)
      ensures AllAccounted(records, resources, env, Troubles())
      ensures |records| == |old(records)| && SettledStays(old(records), records) && FailuresStay(old(records), records)
      ensures !stable ==> forall i :: 0 <= i < |records| && records[i].anchor == Some(at) ==>
          records[i].status == TextureFailed
      ensures resourceFailed == (old(resourceFailed) || !stable)
    {
      hide AllRead, CountersTrue, SettledStays, AllAccounted, FailuresStay;
      ghost var trouble := Troubles().(resource := resourceFailed || !stable);
      AccountedLater(records, resources, resources, env, Troubles(), trouble);
      SettleReaders(at, stable, trouble);
      if !stable { resourceFailed := true; }
    }

    /** The records of one anchor after it is closed. */
    method SettleReaders(at: nat, stable: bool, ghost t: Trouble)
      requires AllRead(targets, records, resources, env) && CountersTrue(records, stats)
      requires AllAccounted(records, resources, env, t) && (!stable ==> t.resource)
      modifies this`records, this`stats
      ensures AllRead(targets, records, resources, env) && CountersTrue(records, stats)
      ensures AllAccounted(records, resources, env, t)
      ensures |records| == |old(records)| && SettledStays(old(records), records) && FailuresStay(old(records), records)
      ensures !stable ==> forall i :: 0 <= i < |records| && records[i].anchor == Some(at) ==>
          records[i].status == TextureFailed
    {
      hide AllRead, CountersTrue, SettledStays, FailedTexture, AllAccounted;
      StaysItself(records);
      for index := 0 to |records|
        invariant AllRead(targets, records, resources, env) && CountersTrue(records, stats)
        invariant AllAccounted(records, resources, env, t)
        invariant |records| == |old(records)| && SettledStays(old(records), records)
        invariant FailuresStay(old(records), records)
        invariant !stable ==> forall i :: 0 <= i < index && records[i].anchor == Some(at) ==>
            records[i].status == TextureFailed
      {
        var r := records[index];
        if r.anchor != Some(at) { continue; }
        ghost var before := records;
        if !stable {
          AccountedAfterFail(targets, before, index, ResourceIdentity, resources, env, t);
          Fail(index, ResourceIdentity);
          FailedKeepsTarget(r, ResourceIdentity);
        } else {
          StaysItself(records);
        }
        ghost var settled := records;
        AccountedByRelabel(settled, index, settled[index].(resourceOk := stable), resources, env, t);
        Relabel(targets, records, resources, env, index, stable);
        CountersIgnore(records, stats, index, records[index].(resourceOk := stable));
        records := records[index := records[index].(resourceOk := stable)];
        SettledStaysThrough(before, settled, records);
        SettledStaysThrough(old(records), before, records);
      }
    }

    /** The body of the loop over the retained snapshots. */
    method ConsumeSnapshot(s: Snapshot, views: LeaseBook, ghost others: set<nat>) returns (ok: bool)
      requires Reads(views, others) && NeedNames(env) && (s.isOpen ==> s.view in others)
      modifies this`records, this`stats, this`anchors, this`allocationFailed, this`failedVisits,
               this`reopened, this`sourceLost, views
      ensures Reads(views, if s.isOpen then others - {s.view} else others)
      ensures old(failedVisits) <= failedVisits && (allocationFailed || old(views.unstable) <= views.unstable)
      ensures old(allocationFailed) ==> allocationFailed
      ensures ok ==> sourceLost == old(sourceLost)
      ensures ok ==> s.isOpen && s.path.Some?
      ensures allocationFailed
           || (ok <==> (s.isOpen && s.path.Some? && failedVisits == old(failedVisits)
                        && views.unstable == old(views.unstable)))
      ensures allocationFailed || (AllSettled(old(records)) ==> AllSettled(records))
    {
      hide AllRead, CountersTrue, PathsDistinct, ViewsOf, AllSettled, SettledStays, AllAccounted;
      if !s.isOpen { return false; }
      ok := s.path.Some?;
      var path := s.path;
      if path.Some? {
        var copied: bool := *;
        if !copied {
          ghost var trouble := Troubles();
          allocationFailed := true;
          path := None;
          AccountedLater(records, anchors, anchors, env, trouble, Troubles());
        }
      }
      var needed := false;
      if !allocationFailed && path.Some? { needed := PathIsNeeded(path.value); }
      var visited := true;
      if needed { visited := Visit(views, others); }
      var stable := CloseSnapshot(s.view, if needed then path else None, visited, views, others);
      if !visited || !stable { ok := false; }
    }

    /** The close of a snapshot; a failed visit or an unstable file fails the records of the path. */
    method CloseSnapshot(view: nat, path: Option<string>, visited: bool, views: LeaseBook, ghost others: set<nat>)
      returns (stable: bool)
      requires Reads(views, others) && view in others && (!visited ==> path.Some?)
      modifies this`records, this`stats, this`failedVisits, this`reopened, this`sourceLost, views
      ensures Reads(views, others - {view})
      ensures failedVisits == old(failedVisits) + One(!visited)
      ensures stable ==> sourceLost == old(sourceLost)
      ensures old(views.unstable) <= views.unstable && (stable <==> views.unstable == old(views.unstable))
      ensures AllSettled(old(records)) ==> AllSettled(records)
      ensures |records| == |old(records)|
      ensures forall j :: 0 <= j < |records| ==>
                records[j] == if (visited && stable) || !IsOfPath(old(records)[j], path) then old(records)[j]
                              else FailedTexture(old(records)[j], if visited then SourceIdentity else SourceReopen)
    {
      hide Reads, AllSettled, SettledStays, FailedTexture, IsOfPath;
      stable := CloseAndNote(view, path, visited, views, others);
      if !visited || !stable {
        ghost var before := records;
        FailPath(path, if visited then SourceIdentity else SourceReopen, views, others - {view});
        AllStaySettled(before, records);
      }
    }

    /** The close itself, with the trouble it stands for. */
    method CloseAndNote(view: nat, ghost path: Option<string>, visited: bool, views: LeaseBook, ghost others: set<nat>)
      returns (stable: bool)
      requires Reads(views, others) && view in others && (!visited ==> path.Some?)
      modifies this`failedVisits, this`reopened, this`sourceLost, views
      ensures Reads(views, others - {view})
      ensures failedVisits == old(failedVisits) + One(!visited)
      ensures !visited ==>
                forall s: nat :: s < |sources| && sources[s].outerPath == path.value ==> s in reopened
      ensures sourceLost == (old(sourceLost) || !stable)
      ensures old(views.unstable) <= views.unstable && (stable <==> views.unstable == old(views.unstable))
    {
      hide AllRead, CountersTrue, PathsDistinct, ViewsOf, AllAccounted, ViewsSince;
      stable := views.Close(view);
      ghost var trouble := Troubles();
      if !visited {
        failedVisits := failedVisits + 1;
        reopened := reopened + set s: nat | s < |sources| && sources[s].outerPath == path.value;
      }
      if !stable { sourceLost := true; }
      AccountedLater(records, anchors, anchors, env, trouble, Troubles());
    }

    /** consume_retained_sources up to the commit: read every source, close every held file, and let the
        transaction stand only if all of it succeeded. */
    method ReadSources(snapshots: seq<Snapshot>, views: LeaseBook)
      requires |records| == |targets| && forall i :: 0 <= i < |records| ==> records[i] == NewRecord(targets[i])
      requires stats == TextureStats(0, 0, 0) && anchors == [] && !allocationFailed && !resourceFailed
      requires failedVisits == 0 && reopened == {} && !sourceLost
      requires NeedNames(env) && views.Valid() && ViewsDiffer(snapshots) && HeldViews(snapshots) <= views.open
      modifies this`records, this`stats, this`anchors, this`resources, this`firstView, this`allocationFailed,
               this`resourceFailed, this`complete, this`reason, this`failedVisits,
               this`reopened, this`sourceLost, views
      ensures AllCommitting(targets, records, env) && CountersTrue(records, stats) && anchors == []
      ensures AllAnchored(records, resources, env) && AllAccounted(records, resources, env, Troubles())
      ensures complete <==> Troubles() == NO_TROUBLE
      ensures ResourcesHeld(resources, old(views.issued), complete, views.Now())
      ensures views.Valid() && views.open == old(views.open) - HeldViews(snapshots)
      ensures complete <==> (AllHeld(snapshots, sources) && AllOpen(snapshots)
                          && !allocationFailed && failedVisits == old(failedVisits)
                          && views.unstable == old(views.unstable))
      ensures complete ==> forall i :: 0 <= i < |records| ==> records[i].status in {TexturePending, TextureFailed}
      ensures forall i :: 0 <= i < |records| ==> NamesNothing(records[i]) && records[i].failure != TextureCollision
      ensures !complete ==> forall i :: 0 <= i < |records| ==> records[i].status == TextureFailed
      ensures complete <==> reason == NoTextureFailure
    {
      hide AllRead, AllCommitting, CountersTrue, PathsDistinct, ViewsOf, AllSettled, SettledStays,
           HeldViews, ViewsDiffer, AllHeld, AllOpen, ResourcesHeld, AllAnchored, AllAccounted;
      NewRecordsRead(targets, records, stats, env);
      NothingToAccount(targets, records, env, Troubles());
      firstView := views.issued;
      var transaction := ConsumeSnapshots(snapshots, views);
      ghost var read, unstable := records, views.unstable;
      CloseAnchors(views, old(views.open) - HeldViews(snapshots));
      AllStaySettled(read, records);
      if !allocationFailed { OnlyGrows(old(views.unstable), unstable, views.unstable); }
      SettleTransaction(transaction);
      HeldWhenComplete(resources, firstView, !resourceFailed, complete, views.Now());
    }

    /** Whether the transaction stands, and if not why; pending records of a broken one fail. */
    method SettleTransaction(transaction: bool)
      requires AllRead(targets, records, resources, env) && CountersTrue(records, stats)
      requires AllAccounted(records, resources, env, Troubles())
      requires transaction && !allocationFailed ==> failedVisits == 0 && reopened == {} && !sourceLost
      requires transaction && !allocationFailed ==> AllSettled(records)
      modifies this`records, this`stats, this`complete, this`reason, this`sourceLost
      ensures AllCommitting(targets, records, env) && CountersTrue(records, stats)
      ensures AllAnchored(records, resources, env) && AllAccounted(records, resources, env, Troubles())
      ensures complete <==> Troubles() == NO_TROUBLE
      ensures complete <==> transaction && !allocationFailed && !resourceFailed
      ensures complete <==> reason == NoTextureFailure
      ensures complete ==> forall i :: 0 <= i < |records| ==> records[i].status in {TexturePending, TextureFailed}
      ensures !complete ==> forall i :: 0 <= i < |records| ==> records[i].status == TextureFailed
      ensures forall i :: 0 <= i < |records| ==> NamesNothing(records[i]) && records[i].failure != TextureCollision
    {
      hide AllRead, AllCommitting, CountersTrue, AllSettled, AllAnchored, NamesNothing, AllAccounted;
      ghost var trouble := Troubles();
      if !transaction { sourceLost := true; }
      AccountedLater(records, resources, resources, env, trouble, Troubles());
      complete := transaction && !allocationFailed && !resourceFailed;
      reason := if complete then NoTextureFailure
                else if allocationFailed then CopyAllocation
                else if resourceFailed then ResourceIdentity else SourceIdentity;
      if !complete { FailPending(reason); }
      FailUndecoded();
      ReadIsCommitting(targets, records, resources, env);
      ReadNamesNothing(targets, records, resources, env);
      ReadIsAnchored(targets, records, resources, env);
    }

    /** The loop over the retained snapshots: each open one is visited if needed and closed. */
    method ConsumeSnapshots(snapshots: seq<Snapshot>, views: LeaseBook) returns (transaction: bool)
      requires Reads(views, views.open) && anchors == [] && AllSettled(records)
      requires NeedNames(env) && ViewsDiffer(snapshots) && HeldViews(snapshots) <= views.open
      modifies this`records, this`stats, this`anchors, this`allocationFailed, this`failedVisits,
               this`reopened, this`sourceLost, views
      ensures Reads(views, old(views.open) - HeldViews(snapshots))
      ensures old(failedVisits) <= failedVisits && (allocationFailed || old(views.unstable) <= views.unstable)
      ensures allocationFailed
           || (transaction <==> AllHeld(snapshots, sources) && AllOpen(snapshots)
                                && failedVisits == old(failedVisits) && views.unstable == old(views.unstable))
      ensures allocationFailed || AllSettled(records)
      ensures transaction ==> sourceLost == old(sourceLost)
    {
      hide AllRead, CountersTrue, PathsDistinct, ViewsOf, AllSettled, HeldViews, ViewsDiffer, AllHeld,
           AllAccounted;
      transaction := SourcesHaveSnapshots(snapshots);
      ghost var open0 := views.open;
      NoneHeld(snapshots);
      for index := 0 to |snapshots|
        invariant Reads(views, open0 - HeldViews(snapshots[..index]))
        invariant old(failedVisits) <= failedVisits && (allocationFailed || old(views.unstable) <= views.unstable)
        invariant allocationFailed
               || (transaction <==> AllHeld(snapshots, sources) && AllOpen(snapshots[..index])
                                    && failedVisits == old(failedVisits) && views.unstable == old(views.unstable))
        invariant allocationFailed || AllSettled(records)
        invariant transaction ==> sourceLost == old(sourceLost)
      {
        OneMoreHeld(snapshots, index, open0);
        OneMoreOpen(snapshots, index);
        ghost var unstable := views.unstable;
        var ok := ConsumeSnapshot(snapshots[index], views, open0 - HeldViews(snapshots[..index]));
        if !allocationFailed { OnlyGrows(old(views.unstable), unstable, views.unstable); }
        if !ok { transaction := false; }
      }
      assert snapshots[..|snapshots|] == snapshots;
    }

    /** Every pending record of an incomplete transaction fails. */
    method FailPending(failure: TextureFailure)
      requires AllRead(targets, records, resources, env) && CountersTrue(records, stats)
      requires AllAccounted(records, resources, env, Troubles())
      requires || (failure == CopyAllocation && allocationFailed) || (failure == ResourceIdentity && resourceFailed)
               || (failure == SourceIdentity && sourceLost)
      modifies this`records, this`stats
      ensures AllRead(targets, records, resources, env) && CountersTrue(records, stats)
      ensures AllAccounted(records, resources, env, Troubles())
      ensures forall i :: 0 <= i < |records| ==> records[i].status == TextureFailed
    {
      hide AllRead, CountersTrue, SettledStays, AllAccounted, HasReason;
      AccountsFor(failure);
      for index := 0 to |records|
        invariant |records| == |old(records)| && CountersTrue(records, stats)
        invariant AllRead(targets, records, resources, env) && AllAccounted(records, resources, env, Troubles())
        invariant forall i :: 0 <= i < index ==> records[i].status == TextureFailed
      {
        ReadIsPendingOrFailed(targets, records, resources, env, index);
        if records[index].status == TexturePending {
          AccountedAfterFail(targets, records, index, failure, resources, env, Troubles());
          Fail(index, failure);
        }
      }
    }

    /** What broke the transaction is a reason for any record. */
    lemma AccountsFor(failure: TextureFailure)
      requires || (failure == CopyAllocation && allocationFailed) || (failure == ResourceIdentity && resourceFailed)
               || (failure == SourceIdentity && sourceLost)
      ensures forall r :: HasReason(r, failure, resources, env, Troubles())
    {
    }

    /** A pending record whose source was not retained fails. */
    method FailUndecoded()
      requires AllRead(targets, records, resources, env) && CountersTrue(records, stats)
      requires AllAccounted(records, resources, env, Troubles())
      modifies this`records, this`stats
      ensures AllRead(targets, records, resources, env) && CountersTrue(records, stats)
      ensures AllAccounted(records, resources, env, Troubles())
      ensures AllSettled(old(records)) ==> forall i :: 0 <= i < |records| && records[i].status == TexturePending ==>
          records[i].staged
      ensures (forall i :: 0 <= i < |old(records)| ==> old(records)[i].status == TextureFailed) ==>
                forall i :: 0 <= i < |records| ==> records[i].status == TextureFailed
    {
      hide AllRead, CountersTrue, SettledStays, AllAccounted;
      ghost var rs := records;
      for index := 0 to |records|
        invariant |records| == |rs| && AllRead(targets, records, resources, env) && CountersTrue(records, stats)
        invariant AllAccounted(records, resources, env, Troubles())
        invariant forall i :: index <= i < |records| ==> records[i] == rs[i]
        invariant AllSettled(rs) ==> forall i :: 0 <= i < index && records[i].status == TexturePending ==>
            records[i].staged
        invariant (forall i :: 0 <= i < |rs| ==> rs[i].status == TextureFailed) ==>
                    forall i :: 0 <= i < index ==> records[i].status == TextureFailed
      {
        assert AllSettled(rs) ==> IsSettledForStaging(rs[index]);
        if records[index].status == TexturePending && records[index].object_.None? {
          AccountedAfterFail(targets, records, index, SourceNotRetained, resources, env, Troubles());
          Fail(index, SourceNotRetained);
        }
      }
    }

    // ---------- Commit ----------

    /** cleanup_record_staging: the owned bytes go; a file at a staging path would stay as residue. */
    method CleanUp(index: nat) returns (clean: bool)
      requires index < |records|
      modifies this`records, this`residueCount, this`cleanupComplete
      ensures clean <==> old(records)[index].stagingPath.None?
      ensures records == old(records)[index := old(records)[index].(bytes := None,
          stagingResidue := old(records)[index].stagingResidue || !clean)]
      ensures clean ==> residueCount == old(residueCount) && cleanupComplete == old(cleanupComplete)
    {
      var r := records[index].(bytes := None);
      clean := r.stagingPath.None?;
      if !clean {
        if !r.stagingResidue {
          r := r.(stagingResidue := true);
          residueCount := residueCount + 1;
        }
        cleanupComplete := false;
      }
      records := records[index := r];
    }

    /** take_staged_record_exact and the digest check that follows it: neither guard can reject, since the
        staged bytes are complete and still hash to the recorded digest. */
    method TakeStaged(r: TextureRecord) returns (r': TextureRecord, pixels: Bytes)
      requires IsCommitting(r, env) && r.status == TexturePending
      ensures r' == r.(bytes := None) && env.sha(pixels) == r.digest
      ensures IsSizeOf(|pixels|, r) && if UsesStream(r) then r.bytes == Some(pixels) else pixels == []
    {
      pixels := [];
      if UsesStream(r) {
        assert r.bytes.Some? && |r.bytes.value| == r.object_.value.streamSize;
        pixels := r.bytes.value;
        assert env.sha(pixels) == r.digest;
      }
      r' := r.(bytes := None);
    }

    /** The transaction between two commits. */
    ghost predicate Commits(store: OutputStore, start: Tree, low: nat)
      reads this, store
    {
      && complete && anchors == [] && store.Valid()
      && AllCommitting(targets, records, env) && CountersTrue(records, stats)
      && TextureRunKept(created, records, start, store.Now(), store.history, low)
      && AllTexturesStand(records, resources, env, store.files)
      && AllAccounted(records, resources, env, Troubles())
    }

    /** commit_record.  It is called only once every held file is closed and the transaction stands. */
    method Commit(index: nat, store: OutputStore, ghost start: Tree, ghost low: nat)
      requires Commits(store, start, low) && index < |records| && records[index].status == TexturePending
      modifies this`records, this`stats, this`created, store
      ensures Commits(store, start, low)
      ensures |records| == |old(records)| && records == old(records)[index := records[index]]
      ensures records[index].status != TexturePending
      ensures old(store.history) <= store.history
    {
      hide AllCommitting, CountersTrue, IsCommitting, UsesStream, TextureRunKept, AllTexturesStand, TextureStands,
           IsReady, IsSizeOf, IsAnchored, PixelsOf, ContentOf, AllAccounted, HasReason, IsStaged;
      ItCommits(targets, records, env, index);
      ItIsAnchored(records, index, resources, env, store.files);
      PendingIsReady(records[index], env);
      var r, pixels := TakeStaged(records[index]);
      TakenAreThePixels(records[index], resources, env, pixels);
      PixelsAreDrawn(records[index], resources, env);
      if |pixels| > (SIZE_MAX - 4096) / 2 {
        YamlFails(r, resources, env, pixels, Troubles());
        FailCommit(index, r, TextureYaml, store, start, low);
        return;
      }
      ReadyStays(r, records[index].(bytes := None), env);
      EmitTexts(index, r, pixels, store, start, low);
    }

    /** The two texts of a record that was taken for the commit. */
    method EmitTexts(index: nat, taken: TextureRecord, pixels: Bytes, store: OutputStore, ghost start: Tree,
                     ghost low: nat)
      requires Commits(store, start, low) && index < |records| && records[index].status == TexturePending
      requires IsReady(taken, env) && DrawsAlike(taken, records[index]) && taken.object_.Some? && taken.identity.Some?
      requires IsAnchored(records[index], resources, env) && pixels == PixelsOf(records[index], resources, env)
      requires CanDraw(taken, resources) && pixels == Drawn(taken, resources)
      requires IsSizeOf(|pixels|, records[index]) && env.sha(pixels) == taken.digest
      modifies this`records, this`stats, this`created, store
      ensures Commits(store, start, low)
      ensures |records| == |old(records)| && records == old(records)[index := records[index]]
      ensures records[index].status != TexturePending
      ensures old(store.history) <= store.history
    {
      hide Commits, IsReady, IsSizeOf, IsAnchored, PixelsOf, ContentOf, HasReason, CanDraw, Drawn;
      var o, id := taken.object_.value, taken.identity.value;
      var yaml := env.yaml(o, pixels);
      var r := taken.(yamlOk := yaml.Some?);
      ReadyStays(r, taken, env);
      SameDraw(r, taken, resources);
      if yaml.None? || !env.room(r.target, YamlText) {
        YamlFails(r, resources, env, pixels, Troubles());
        FailCommit(index, r, TextureYaml, store, start, low);
        return;
      }
      var meta := env.metadata(r.target.classId, id.guid);
      if meta.None? || !env.room(r.target, MetaText) {
        MetaFails(r, resources, env, Troubles());
        FailCommit(index, r, TextureMeta, store, start, low);
        return;
      }
      var emitted := r.(content := Some(ContentOf(yaml.value, meta.value, env)));
      ReadyStays(emitted, taken, env);
      PlaceDocuments(index, emitted, pixels, yaml.value, meta.value, store, start, low);
    }

    /** The place of the emitted texts: the file name, the directory and the two paths. */
    method PlaceDocuments(index: nat, r: TextureRecord, ghost pixels: Bytes, yaml: Bytes, meta: Bytes,
                          store: OutputStore, ghost start: Tree, ghost low: nat)
      requires Commits(store, start, low) && index < |records| && records[index].status == TexturePending
      requires IsReady(r, env) && DrawsAlike(r, records[index]) && r.yamlOk && r.object_.Some? && r.identity.Some?
      requires IsAnchored(records[index], resources, env) && pixels == PixelsOf(records[index], resources, env)
      requires IsSizeOf(|pixels|, records[index]) && env.sha(pixels) == r.digest
      requires env.yaml(r.object_.value, pixels) == Some(yaml)
      requires env.metadata(r.target.classId, r.identity.value.guid) == Some(meta)
      requires r.content == Some(ContentOf(yaml, meta, env))
      modifies this`records, this`stats, this`created, store
      ensures Commits(store, start, low)
      ensures |records| == |old(records)| && records == old(records)[index := records[index]]
      ensures records[index].status != TexturePending
      ensures old(store.history) <= store.history
    {
      hide Commits, IsReady, DocumentsOf, IsSizeOf, IsAnchored, PixelsOf, ContentOf, IsEmitted, HasReason;
      var path := env.assetPath(r.object_.value, r.identity.value.hex);
      var hasDirectory := env.hasDirectory(r.target);
      if path.None? || !hasDirectory || !env.room(r.target, PathTexts) {
        var failure := if path.None? || hasDirectory then TextureName else TextureDirectory;
        PlaceFails(r, resources, env, failure, Troubles());
        FailCommit(index, r, failure, store, start, low);
        return;
      }
      TheseAreEmitted(r, records[index], env, pixels, path.value, yaml, meta);
      StillAnchored(r, records[index], resources, env);
      CommitDocuments(index, r, TextureDocuments(path.value, yaml, meta), store, start, low);
    }

    /** A commit that stops before publication: nothing is written. */
    method FailCommit(index: nat, r: TextureRecord, failure: TextureFailure, ghost store: OutputStore,
                      ghost start: Tree, ghost low: nat)
      requires Commits(store, start, low) && index < |records| && records[index].status == TexturePending
      requires IsReady(r, env) && DrawsAlike(r, records[index])
      requires failure != NoTextureFailure && failure != TextureCollision
      requires HasReason(r, failure, resources, env, Troubles())
      modifies this`records, this`stats
      ensures Commits(store, start, low)
      ensures |records| == |old(records)| && records == old(records)[index := records[index]]
      ensures records[index].status == TextureFailed
    {
      hide AllCommitting, CountersTrue, TextureRunKept, AllTexturesStand, TextureStands, FailedTexture, Keeps,
           IsAnchored, PixelsOf, AllAccounted, HasReason;
      ghost var rs := records;
      PendingNamesNothing(targets, rs, env, index);
      ReadyIsUnpublished(r, env);
      AccountedAfterCommit(rs, index, r, failure, resources, env, Troubles());
      RecordFailure(index, r, failure);
      FailedKeepsDigest(r, failure);
      FailureIsKept(r, failure);
      TextureRunByRelabel(created, rs, index, records[index], start, store.Now(), store.history, low);
      ItIsAnchored(rs, index, resources, env, store.files);
      StillAnchored(r, rs[index], resources, env);
      StillAnchored(records[index], r, resources, env);
      FailedStands(rs, index, records[index], resources, env, store.files);
    }

    /** The publication of the emitted texts and its outcome. */
    method CommitDocuments(index: nat, taken: TextureRecord, p: TextureDocuments, store: OutputStore,
                           ghost start: Tree, ghost low: nat)
      requires Commits(store, start, low) && index < |records| && records[index].status == TexturePending
      requires IsReady(taken, env) && taken.target == records[index].target && taken.yamlOk
      requires taken.object_ == records[index].object_
      requires IsAnchored(taken, resources, env) && IsEmitted(taken, env, PixelsOf(taken, resources, env), p)
      modifies this`records, this`stats, this`created, store
      ensures Commits(store, start, low)
      ensures |records| == |old(records)| && records == old(records)[index := records[index]]
      ensures records[index].status != TexturePending
      ensures old(store.history) <= store.history
    {
      hide AllCommitting, CountersTrue, TextureSettled, TextureProgressed, Grows, Keeps, IsCommitting, TextureRunKept,
           AllTexturesStand, TextureStands, IsReady, ReportsAsset, IsNewAsset, IsEmitted, IsAnchored, PixelsOf,
           TextureLedger, AnyAssetTaken, AllAccounted;
      ghost var rs, t0, history := records, store.Now(), store.history;
      PendingNamesNothing(targets, rs, env, index);
      var failure, asset, meta, residue := PublishTexture(p, store);
      TextureProgressGrows(p, t0, store.Now(), store.history, |history|);
      GrowsKeeps(t0, store.Now());
      SettledLedger(p, failure, asset, meta, residue, taken.(asset := asset, meta := meta), t0, store.Now(),
                    store.history, |history|);
      SettleCommit(index, taken, p, failure, asset, meta, residue, t0, store.Now());
      LedgerIgnoresStatus(taken.(asset := asset, meta := meta), records[index], t0, store.Now());
      StandsAfter(rs, index, records[index], resources, env, t0.files, store.files);
      TextureRunByPublication(p, created, rs, index, records[index], start, t0, store.Now(), history, store.history,
        low);
      if IsNewAsset(p, t0, store.Now()) { created := created + [p]; }
    }

    /** The record and the counters after a publication. */
    method SettleCommit(index: nat, taken: TextureRecord, ghost p: TextureDocuments, failure: TextureFailure,
                        asset: Artifact, meta: Artifact, residue: bool, ghost before: Tree, ghost now: Tree)
      requires AllCommitting(targets, records, env) && CountersTrue(records, stats)
      requires index < |records| && records[index].status == TexturePending
      requires IsReady(taken, env) && taken.target == records[index].target && taken.yamlOk
      requires IsAnchored(taken, resources, env) && IsEmitted(taken, env, PixelsOf(taken, resources, env), p)
      requires TextureSettled(p, failure, asset, meta, residue, before, now)
      requires failure in {NoTextureFailure, TextureCollision, TextureIo}
      requires failure == TextureCollision ==> AnyAssetTaken(p, now.files)
      requires AllAccounted(records, resources, env, Troubles()) && taken.object_ == records[index].object_
      modifies this`records, this`stats
      ensures AllCommitting(targets, records, env) && CountersTrue(records, stats)
      ensures AllAccounted(records, resources, env, Troubles())
      ensures |records| == |old(records)| && records == old(records)[index := records[index]]
      ensures records[index].status != TexturePending
      ensures records[index].asset == asset && records[index].meta == meta
      ensures TextureStands(records[index], resources, env, now.files)
    {
      hide AllCommitting, CountersTrue, TextureSettled, FailedTexture, WroteFiles, IsCommitting, TextureStands, IsReady,
           IsEmitted, HoldsDocuments, IsAnchored, PixelsOf, AnyAssetTaken, AllAccounted, HasReason, CollidesFor;
      EmittedHasContent(taken, env, PixelsOf(taken, resources, env), p);
      ghost var rs, st := records, stats;
      ReadyIsUnpublished(taken, env);
      var r := taken.(asset := asset, meta := meta, residue := residue);
      if failure != NoTextureFailure {
        PublishFailureSettles(p, failure, asset, meta, residue, r, before, now);
        PublicationFails(r, resources, env, failure, Troubles());
        AccountedAfterCommit(rs, index, r, failure, resources, env, Troubles());
        RecordFailure(index, r, failure);
        FailedKeepsDigest(r, failure);
        FailureIsKept(r, failure);
        EmittedCollides(taken, records[index], resources, env, p, now.files);
        StillAnchored(records[index], taken, resources, env);
        UnpublishedStands(records[index], resources, env, now.files);
        return;
      }
      PublishSuccessSettles(p, asset, meta, residue, taken, before, now, env);
      var emitted := asset.status == PublishEmitted || meta.status == PublishEmitted;
      var final := r.(status := if emitted then TextureEmitted else TextureUnchanged);
      records := records[index := final];
      stats := if emitted then stats.(emitted := stats.emitted + 1) else stats.(unmodified := stats.unmodified + 1);
      CountersAfterCommit(rs, st, index, final);
      AccountedWhilePending(rs, index, final, resources, env, Troubles());
      AllCommittingAfter(targets, rs, env, index, final);
      EmittedStands(taken, final, resources, env, p, now.files);
    }

    /** A record that cannot be committed fails with what is known of it so far. */
    method RecordFailure(index: nat, r: TextureRecord, failure: TextureFailure)
      requires index < |records| && AllCommitting(targets, records, env) && CountersTrue(records, stats)
      requires failure != NoTextureFailure
      requires records[index].status == TexturePending && r.target == records[index].target
      requires r.status == TexturePending
      requires r.failure == NoTextureFailure && r.stagingPath.None? && !r.stagingResidue
      requires WroteFiles(r) ==> r.residue
      modifies this`records, this`stats
      ensures records == old(records)[index := FailedTexture(r, failure)] && records[index].status == TextureFailed
      ensures AllCommitting(targets, records, env) && CountersTrue(records, stats)
    {
      hide AllCommitting, CountersTrue, WroteFiles, SettledStays, AllRead;
      ghost var rs := records;
      CountersIgnore(rs, stats, index, r);
      records := records[index := r];
      Fail(index, failure);
      FailureCommits(r, failure, env);
      assert records == rs[index := FailedTexture(r, failure)];
      AllCommittingAfter(targets, rs, env, index, FailedTexture(r, failure));
    }

    /** finalize_staged_records: the pending records of a standing transaction are committed in order;
        that one is not staged, or leaves a file at a staging path, never happens. */
    method FinalizeRecords(store: OutputStore)
      requires AllCommitting(targets, records, env) && CountersTrue(records, stats) && anchors == [] && created == []
      requires residueCount == 0 && forall i :: 0 <= i < |records| ==> NamesNothing(records[i])
      requires forall i :: 0 <= i < |records| ==> !WasPublished(records[i]) && records[i].failure != TextureCollision
      requires !complete ==> forall i :: 0 <= i < |records| ==> records[i].status == TextureFailed
      requires store.Valid() && AllAnchored(records, resources, env)
      requires AllAccounted(records, resources, env, Troubles())
      modifies this`records, this`stats, this`created, this`cleanupComplete, this`residueCount, store
      ensures AllFinished(targets, records, env) && CountersTrue(records, stats) && cleanupComplete && residueCount == 0
      ensures !complete ==> store.Now() == old(store.Now()) && store.history == old(store.history)
                            && forall i :: 0 <= i < |records| ==> records[i].status == TextureFailed
      ensures store.Valid() && old(store.history) <= store.history
      ensures TextureRunKept(created, records, old(store.Now()), store.Now(), store.history, |old(store.history)|)
      ensures AllTexturesStand(records, resources, env, store.files)
      ensures AllAccounted(records, resources, env, Troubles())
    {
      hide AllCommitting, CountersTrue, TextureRunKept, AllTexturesStand, AllFinished, NamesNothing, AllAccounted;
      cleanupComplete := true;
      ghost var start, low := store.Now(), |store.history|;
      TextureRunAtStart(records, start, store.history);
      NothingStands(records, resources, env, store.files);
      if complete { CommitAll(store, start, low); }
      CleanUpAll(store, start, low);
    }

    /** The first loop of finalize_staged_records. */
    method CommitAll(store: OutputStore, ghost start: Tree, ghost low: nat)
      requires Commits(store, start, low)
      modifies this`records, this`stats, this`created, store
      ensures Commits(store, start, low)
      ensures forall i :: 0 <= i < |records| ==> records[i].status != TexturePending
      ensures old(store.history) <= store.history
    {
      hide AllCommitting, CountersTrue, TextureRunKept, AllTexturesStand, AllAccounted;
      for index := 0 to |records|
        invariant |records| == |old(records)| && Commits(store, start, low)
        invariant forall i :: 0 <= i < index ==> records[i].status != TexturePending
        invariant old(store.history) <= store.history
      {
        if records[index].status != TexturePending { continue; }
        StagedToCommit(targets, records, env, index);
        assert records[index].object_.Some? && records[index].staged;
        Commit(index, store, start, low);
      }
    }

    /** The second loop of finalize_staged_records. */
    method CleanUpAll(ghost store: OutputStore, ghost start: Tree, ghost low: nat)
      requires AllCommitting(targets, records, env) && CountersTrue(records, stats) && residueCount == 0
      requires cleanupComplete
      requires forall i :: 0 <= i < |records| ==> records[i].status != TexturePending
      requires TextureRunKept(created, records, start, store.Now(), store.history, low)
      requires AllTexturesStand(records, resources, env, store.files)
      requires AllAccounted(records, resources, env, Troubles())
      modifies this`records, this`cleanupComplete, this`residueCount
      ensures AllFinished(targets, records, env) && CountersTrue(records, stats) && cleanupComplete && residueCount == 0
      ensures TextureRunKept(created, records, start, store.Now(), store.history, low)
      ensures AllTexturesStand(records, resources, env, store.files)
      ensures AllAccounted(records, resources, env, Troubles())
      ensures |records| == |old(records)| && forall i :: 0 <= i < |records| ==>
          records[i].status == old(records)[i].status
    {
      hide AllCommitting, CountersTrue, TextureRunKept, AllTexturesStand, TextureStands, IsFinished, AllAccounted;
      for index := 0 to |records|
        invariant |records| == |old(records)| && residueCount == 0 && cleanupComplete
        invariant AllCommitting(targets, records, env) && CountersTrue(records, stats)
        invariant TextureRunKept(created, records, start, store.Now(), store.history, low)
        invariant AllTexturesStand(records, resources, env, store.files)
        invariant AllAccounted(records, resources, env, Troubles())
        invariant forall i :: 0 <= i < |records| ==> records[i].status == old(records)[i].status
        invariant forall i :: 0 <= i < index ==> IsFinished(records[i], env)
      {
        ghost var before := records;
        CleanedIsFinished(targets, before, env, index);
        var clean := CleanUp(index);
        assert clean;
        assert before[index].(bytes := None, stagingResidue := before[index].stagingResidue || !clean)
            == before[index].(bytes := None);
        CountersIgnore(before, stats, index, records[index]);
        AllCommittingAfter(targets, before, env, index, records[index]);
        TextureRunByRelabel(created, before, index, records[index], start, store.Now(), store.history, low);
        AccountedByRelabel(before, index, records[index], resources, env, Troubles());
        StandsWithoutBytes(before, index, resources, env, store.files);
      }
      CommittedTargets(targets, records, env);
    }

    /** consume_retained_sources. */
    method ConsumeSources(snapshots: seq<Snapshot>, views: LeaseBook, store: OutputStore)
      requires |records| == |targets| && forall i :: 0 <= i < |records| ==> records[i] == NewRecord(targets[i])
      requires stats == TextureStats(0, 0, 0) && anchors == [] && created == [] && !allocationFailed && !resourceFailed
      requires failedVisits == 0 && reopened == {} && !sourceLost
      requires residueCount == 0
      requires NeedNames(env) && views.Valid() && ViewsDiffer(snapshots) && HeldViews(snapshots) <= views.open
      requires store.Valid()
      modifies this, views, store
      ensures views.Valid() && views.open == old(views.open) - HeldViews(snapshots)
      ensures ResourcesHeld(resources, old(views.issued), complete, views.Now())
      ensures complete <==> (AllHeld(snapshots, sources) && AllOpen(snapshots) && !allocationFailed
                             && failedVisits == old(failedVisits) && views.unstable == old(views.unstable))
      ensures complete <==> reason == NoTextureFailure
      ensures AllFinished(targets, records, env) && CountersTrue(records, stats) && cleanupComplete && residueCount == 0
      ensures stats.emitted + stats.unmodified + stats.failed == |targets|
      ensures !complete ==> store.Now() == old(store.Now()) && store.history == old(store.history)
                            && forall i :: 0 <= i < |records| ==> records[i].status == TextureFailed
      ensures store.Valid() && old(store.history) <= store.history
      ensures TextureRunKept(created, records, old(store.Now()), store.Now(), store.history, |old(store.history)|)
      ensures AllTexturesStand(records, resources, env, store.files)
      ensures AllAccounted(records, resources, env, Troubles()) && (complete <==> Troubles() == NO_TROUBLE)
    {
      hide AllCommitting, CountersTrue, TextureRunKept, AllTexturesStand, ViewsDiffer, HeldViews, IsHeld, NeedNames,
           NamesNothing, IsFinished, AllAccounted;
      ReadSources(snapshots, views);
      FinalizeRecords(store);
      FinishedAreNotPending(targets, records, env);
      CountersPartition(records, stats);
    }
  }

  /** native_texture_batch_export: the targets of the selection, then the transaction over the sources. */
  method ExportTextures(c: Catalog, sel: seq<bool>, graph: PointerGraph, env: Environment, snapshots: seq<Snapshot>,
                        views: LeaseBook, store: OutputStore)
    returns (batch: TextureBatch, targetStats: TargetStats)
    requires |sel| == c.shaderCount
    requires NeedNames(env) && views.Valid() && ViewsDiffer(snapshots) && HeldViews(snapshots) <= views.open
    requires store.Valid()
    modifies views, store
    ensures fresh(batch) && IsExport(c, sel, graph, env, batch.Result(targetStats))
    ensures batch.targets == Population(c, sel, graph)
    ensures views.Valid() && views.open == old(views.open) - HeldViews(snapshots)
    ensures ResourcesHeld(batch.resources, old(views.issued), batch.complete, views.Now())
    ensures batch.complete <==> (AllHeld(snapshots, c.sources) && AllOpen(snapshots) && !batch.allocationFailed
                                 && batch.failedVisits == 0 && views.unstable == old(views.unstable))
    ensures batch.stats.emitted + batch.stats.unmodified + batch.stats.failed == targetStats.selected == |batch.records|
    ensures !batch.complete ==> store.Now() == old(store.Now()) && store.history == old(store.history)
                                && batch.stats.emitted == batch.stats.unmodified == 0
    ensures store.Valid() && old(store.history) <= store.history
    ensures TextureRunKept(batch.created, batch.records, old(store.Now()), store.Now(), store.history,
                           |old(store.history)|)
    ensures AllTexturesStand(batch.records, batch.resources, env, store.files)
    ensures AllAccounted(batch.records, batch.resources, env, batch.Troubles())
    ensures batch.complete <==> batch.Troubles() == NO_TROUBLE
  {
    hide Population, StatsOf, TextureRunKept, AllTexturesStand, ViewsDiffer, HeldViews, AllHeld, AllOpen, NeedNames,
         CountersTrue, IsFinished, AllAccounted;
    var targets;
    targets, targetStats := Gather(c, sel, graph);
    SelectedAreCounted(targetStats, targets);
    batch := new TextureBatch(targets, c.sources, env);
    batch.ConsumeSources(snapshots, views, store);
    if !batch.complete { AllFailedCounts(batch.records, batch.stats); }
  }
}
