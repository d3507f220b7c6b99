/** Compiled artifacts: the comparison of two decompressed archives, the platform sets, and the walk
    over all platforms that totals the artifact counts. */
module Archives {
  import opened Basics
  import opened TypeTree
  import opened References

  datatype BlobEntry = BlobEntry(offset: int, length: int, segment: int)

  /** The entry count is a C int. */
  type EntryList = s: seq<BlobEntry> | |s| <= INT_MAX

  /** A decompressed archive; None is a missing segment buffer. */
  datatype Archive = Archive(entries: EntryList, segments: seq<Option<seq<Byte>>>, stageCount: nat)

  datatype ArchiveStatus =
    ArchiveEqual | ExpectedInvalid | ActualInvalid | StageCountMismatch | EntryCountMismatch | EntrySizeMismatch
    | EntryPayloadMismatch

  datatype ArchiveReport = ArchiveReport(
    status: ArchiveStatus, firstEntry: int, firstByte: Option<nat>, expected: nat, actual: nat, matched: nat)

  /** shader_blob_archive_get: a bounded slice of one segment. */
  function PayloadAt(a: Archive, index: nat): Option<seq<Byte>>
    requires index < |a.entries|
  {
    var e := a.entries[index];
    if e.segment < 0 || e.segment >= |a.segments| || e.offset < 0 || e.length < 0 then None
    else if a.segments[e.segment].None? then None
    else
      var bytes := a.segments[e.segment].value;
      if e.offset > |bytes| || e.length > |bytes| - e.offset then None
      else Some(bytes[e.offset..e.offset + e.length])
  }

  /** archive_shape_is_valid. */
  predicate ArchiveIsValid(a: Archive) {
    && |a.segments| > 0
    && (forall s :: 0 <= s < |a.segments| ==> a.segments[s].Some? && |a.segments[s].value| > 0)
    && (forall i :: 0 <= i < |a.entries| ==> PayloadAt(a, i).Some?)
  }

  /** What is identity-bearing in a valid archive: every entry's bytes, in order. */
  function Payloads(a: Archive): (r: seq<seq<Byte>>)
    requires ArchiveIsValid(a)
    ensures |r| == |a.entries|
    ensures forall i :: 0 <= i < |r| ==> PayloadAt(a, i) == Some(r[i])
  {
    seq(|a.entries|, i requires 0 <= i < |a.entries| => PayloadAt(a, i).value)
  }

  function FirstByteDifference(x: seq<Byte>, y: seq<Byte>, i: nat): (r: nat)
    requires i <= |x| == |y|
    ensures i <= r <= |x|
    ensures forall k :: i <= k < r ==> x[k] == y[k]
    ensures r < |x| ==> x[r] != y[r]
    decreases |x| - i
  {
    if i == |x| || x[i] != y[i] then i else FirstByteDifference(x, y, i + 1)
  }

  function EntriesFrom(es: seq<seq<Byte>>, acts: seq<seq<Byte>>, i: nat): ArchiveReport
    requires i <= |es| == |acts|
    decreases |es| - i
  {
    var here := ArchiveReport(ArchiveEqual, -1, None, |es|, |acts|, i);
    if i == |es| then here
    else if |es[i]| != |acts[i]| then here.(status := EntrySizeMismatch, firstEntry := i)
    else
      var byte := FirstByteDifference(es[i], acts[i], 0);
      if byte != |es[i]| then here.(status := EntryPayloadMismatch, firstEntry := i, firstByte := Some(byte))
      else EntriesFrom(es, acts, i + 1)
  }

  function ReportOf(e: Archive, a: Archive): ArchiveReport {
    var none := ArchiveReport(ArchiveEqual, -1, None, 0, 0, 0);
    if !ArchiveIsValid(e) then none.(status := ExpectedInvalid)
    else if !ArchiveIsValid(a) then none.(status := ActualInvalid)
    else
      var counted := none.(expected := |e.entries|, actual := |a.entries|);
      if e.stageCount != a.stageCount then counted.(status := StageCountMismatch)
      else if |e.entries| != |a.entries| then counted.(status := EntryCountMismatch)
      else EntriesFrom(Payloads(e), Payloads(a), 0)
  }

  method ShapeIsValid(a: Archive) returns (ok: bool)
    ensures ok == ArchiveIsValid(a)
  {
    if |a.segments| == 0 { return false; }
    for segment := 0 to |a.segments|
      invariant forall s :: 0 <= s < segment ==> a.segments[s].Some? && |a.segments[s].value| > 0
    {
      if a.segments[segment].None? || |a.segments[segment].value| == 0 { return false; }
    }
    for entry := 0 to |a.entries|
      invariant forall i :: 0 <= i < entry ==> PayloadAt(a, i).Some?
    {
      if PayloadAt(a, entry).None? { return false; }
    }
    ok := true;
  }

  /** release_shader_archive_compare_canonical. */
  method CompareArchives(e: Archive, a: Archive) returns (report: ArchiveReport)
    ensures report == ReportOf(e, a)
  {
    report := ArchiveReport(ArchiveEqual, -1, None, 0, 0, 0);
    var valid := ShapeIsValid(e);
    if !valid { return report.(status := ExpectedInvalid); }
    valid := ShapeIsValid(a);
    if !valid { return report.(status := ActualInvalid); }
    report := report.(expected := |e.entries|, actual := |a.entries|);
    if e.stageCount != a.stageCount { return report.(status := StageCountMismatch); }
    if |e.entries| != |a.entries| { return report.(status := EntryCountMismatch); }
    ghost var pe, pa := Payloads(e), Payloads(a);
    for entry := 0 to |e.entries|
      invariant report == ArchiveReport(ArchiveEqual, -1, None, |e.entries|, |a.entries|, entry)
      invariant EntriesFrom(pe, pa, 0) == EntriesFrom(pe, pa, entry)
    {
      var x, y := PayloadAt(e, entry).value, PayloadAt(a, entry).value;
      if |x| != |y| { return report.(status := EntrySizeMismatch, firstEntry := entry); }
      var byte := 0;
      while byte < |x| && x[byte] == y[byte]
        invariant byte <= |x|
        invariant FirstByteDifference(x, y, 0) == FirstByteDifference(x, y, byte)
      {
        byte := byte + 1;
      }
      if byte != |x| {
        return report.(status := EntryPayloadMismatch, firstEntry := entry, firstByte := Some(byte));
      }
      report := report.(matched := report.matched + 1);
    }
  }

  // ---------- What the report says ----------

  ghost predicate DiffersFirstAt(es: seq<seq<Byte>>, acts: seq<seq<Byte>>, r: ArchiveReport)
    requires |es| == |acts|
  {
    && 0 <= r.firstEntry < |es| && r.matched == r.firstEntry
    && (forall k :: 0 <= k < r.firstEntry ==> es[k] == acts[k])
    && var x, y := es[r.firstEntry], acts[r.firstEntry];
       if r.status == EntrySizeMismatch then |x| != |y| && r.firstByte == None
       else
         && |x| == |y| && r.firstByte.Some? && r.firstByte.value < |x|
         && x[..r.firstByte.value] == y[..r.firstByte.value]
         && x[r.firstByte.value] != y[r.firstByte.value]
  }

  lemma {:induction false} EntriesFromLocates(es: seq<seq<Byte>>, acts: seq<seq<Byte>>, i: nat)
    requires i <= |es| == |acts| && forall k :: 0 <= k < i ==> es[k] == acts[k]
    ensures var r := EntriesFrom(es, acts, i);
            && r.expected == |es| && r.actual == |acts|
            && r.status in {ArchiveEqual, EntrySizeMismatch, EntryPayloadMismatch}
            && (r.status == ArchiveEqual <==> es == acts)
            && (r.status == ArchiveEqual ==> r.matched == |es|)
            && (r.status != ArchiveEqual ==> DiffersFirstAt(es, acts, r))
    decreases |es| - i
  {
    if i < |es| && |es[i]| == |acts[i]| && FirstByteDifference(es[i], acts[i], 0) == |es[i]| {
      assert es[i] == acts[i];
      EntriesFromLocates(es, acts, i + 1);
    }
  }

  /** Two archives compare equal exactly when both are valid with the same stage count and the same
      entries byte for byte; otherwise the least differing entry and byte are named. */
  lemma ReportDecidesArchives(e: Archive, a: Archive)
    ensures var r := ReportOf(e, a);
            && (r.status == ArchiveEqual <==>
                ArchiveIsValid(e) && ArchiveIsValid(a) && e.stageCount == a.stageCount && Payloads(e) == Payloads(a))
            && (r.status == ArchiveEqual ==> r.expected == r.actual == r.matched == |e.entries|)
            && (r.status in {EntrySizeMismatch, EntryPayloadMismatch} ==>
                ArchiveIsValid(e) && ArchiveIsValid(a) && |e.entries| == |a.entries| &&
                  DiffersFirstAt(Payloads(e), Payloads(a), r))
  {
    if ArchiveIsValid(e) && ArchiveIsValid(a) && |e.entries| == |a.entries| {
      EntriesFromLocates(Payloads(e), Payloads(a), 0);
    }
  }

  /** Entry `i` lies inside its segment and holds `payload`. */
  ghost predicate HoldsPayload(a: Archive, i: nat, payload: seq<Byte>)
    requires i < |a.entries|
  {
    var e := a.entries[i];
    && e.length == |payload| && 0 <= e.offset && 0 <= e.segment < |a.segments| && a.segments[e.segment].Some?
    && e.offset + |payload| <= |a.segments[e.segment].value|
    && a.segments[e.segment].value[e.offset..e.offset + |payload|] == payload
  }

  /** A whole archive: at least one segment, none missing or empty, and these bytes entry by entry. */
  ghost predicate HoldsPayloads(a: Archive, payloads: seq<seq<Byte>>) {
    && |a.segments| > 0
    && (forall s :: 0 <= s < |a.segments| ==> a.segments[s] != None && a.segments[s] != Some([]))
    && |payloads| == |a.entries| && forall i :: 0 <= i < |payloads| ==> HoldsPayload(a, i, payloads[i])
  }

  lemma PayloadMeaning(a: Archive, i: nat, payload: seq<Byte>)
    requires i < |a.entries|
    ensures PayloadAt(a, i) == Some(payload) <==> HoldsPayload(a, i, payload)
  {
  }

  lemma ValidHoldsPayloads(a: Archive)
    ensures ArchiveIsValid(a) <==> exists payloads :: HoldsPayloads(a, payloads)
    ensures ArchiveIsValid(a) ==> forall payloads :: HoldsPayloads(a, payloads) <==> payloads == Payloads(a)
  {
    hide PayloadAt, HoldsPayload;
    forall i: nat, payload | i < |a.entries|
      ensures PayloadAt(a, i) == Some(payload) <==> HoldsPayload(a, i, payload)
    {
      PayloadMeaning(a, i, payload);
    }
    if payloads :| HoldsPayloads(a, payloads) {
      forall i | 0 <= i < |a.entries|
        ensures PayloadAt(a, i) == Some(payloads[i])
      {
        assert HoldsPayload(a, i, payloads[i]);
      }
      assert forall s :: 0 <= s < |a.segments| ==> a.segments[s].Some? && |a.segments[s].value| > 0;
    }
    if ArchiveIsValid(a) {
      assert HoldsPayloads(a, Payloads(a));
      forall payloads | HoldsPayloads(a, payloads)
        ensures payloads == Payloads(a)
      {
        assert forall i :: 0 <= i < |payloads| ==> PayloadAt(a, i) == Some(payloads[i]);
      }
    }
  }

  ghost predicate IsWhole(a: Archive) {
    exists payloads :: HoldsPayloads(a, payloads)
  }

  /** The report on the stored bytes themselves: which side is broken, which count differs, or equality
      of the payloads. */
  lemma ReportMeaning(e: Archive, a: Archive)
    ensures var r := ReportOf(e, a);
            && (r.status == ExpectedInvalid <==> !IsWhole(e))
            && (r.status == ActualInvalid <==> IsWhole(e) && !IsWhole(a))
            && (r.status == StageCountMismatch <==> IsWhole(e) && IsWhole(a) && e.stageCount != a.stageCount)
            && (r.status == EntryCountMismatch <==>
                  IsWhole(e) && IsWhole(a) && e.stageCount == a.stageCount && |e.entries| != |a.entries|)
            && (r.status == ArchiveEqual <==>
                  e.stageCount == a.stageCount
                  && exists payloads :: HoldsPayloads(e, payloads) && HoldsPayloads(a, payloads))
            && (r.status in {EntrySizeMismatch, EntryPayloadMismatch} ==>
                  exists es, acts :: HoldsPayloads(e, es) && HoldsPayloads(a, acts) && |es| == |acts|
                                     && DiffersFirstAt(es, acts, r))
  {
    hide ArchiveIsValid, HoldsPayloads, DiffersFirstAt;
    ValidHoldsPayloads(e);
    ValidHoldsPayloads(a);
    ReportDecidesArchives(e, a);
    if ArchiveIsValid(e) && ArchiveIsValid(a) && |e.entries| == |a.entries| {
      EntriesFromLocates(Payloads(e), Payloads(a), 0);
    }
  }

  // ---------- Segmentation ----------

  /** All decompressed bytes of an archive, one segment after the other. */
  function Joined(segments: seq<Option<seq<Byte>>>): seq<Byte> {
    if segments == [] then []
    else
      var last := segments[|segments| - 1];
      Joined(segments[..|segments| - 1]) + if last.Some? then last.value else []
  }

  /** Where an entry starts in the joined bytes: the bytes of all earlier segments come before it. */
  function Position(a: Archive, i: nat): int
    requires i < |a.entries| && 0 <= a.entries[i].segment <= |a.segments|
  {
    |Joined(a.segments[..a.entries[i].segment])| + a.entries[i].offset
  }

  /** Two archives that cut the same bytes into segments differently, each entry keeping its place. */
  ghost predicate SameBytes(a: Archive, b: Archive) {
    && ArchiveIsValid(a) && ArchiveIsValid(b)
    && a.stageCount == b.stageCount && |a.entries| == |b.entries|
    && Joined(a.segments) == Joined(b.segments)
    && forall i :: 0 <= i < |a.entries| ==>
         PlacedIn(a, i) && PlacedIn(b, i)
         && Position(a, i) == Position(b, i) && a.entries[i].length == b.entries[i].length
  }

  predicate PlacedIn(a: Archive, i: nat)
    requires i < |a.entries|
  {
    0 <= a.entries[i].segment < |a.segments|
  }

  lemma {:induction false} SegmentInJoined(segments: seq<Option<seq<Byte>>>, k: nat)
    requires k < |segments| && segments[k].Some?
    ensures var from := |Joined(segments[..k])|;
            && from + |segments[k].value| <= |Joined(segments)|
            && Joined(segments)[from..from + |segments[k].value|] == segments[k].value
  {
    var n := |segments| - 1;
    if k < n {
      assert segments[..n][..k] == segments[..k];
      SegmentInJoined(segments[..n], k);
    }
  }

  /** An entry's bytes are a slice of the joined bytes. */
  lemma PayloadIsSlice(a: Archive, i: nat)
    requires ArchiveIsValid(a) && i < |a.entries|
    ensures PlacedIn(a, i)
    ensures 0 <= Position(a, i) <= Position(a, i) + a.entries[i].length <= |Joined(a.segments)|
    ensures PayloadAt(a, i) == Some(Joined(a.segments)[Position(a, i)..Position(a, i) + a.entries[i].length])
  {
    assert PayloadAt(a, i).Some?;
    var e := a.entries[i];
    var bytes, from := a.segments[e.segment].value, |Joined(a.segments[..e.segment])|;
    SegmentInJoined(a.segments, e.segment);
    SliceOfSlice(Joined(a.segments), from, |bytes|, e.offset, e.length);
  }

  lemma SliceOfSlice(s: seq<Byte>, from: nat, length: nat, offset: nat, n: nat)
    requires from + length <= |s| && offset + n <= length
    ensures s[from..from + length][offset..offset + n] == s[from + offset..from + offset + n]
  {
    var part := s[from..from + length];
    var x, y := part[offset..offset + n], s[from + offset..from + offset + n];
    forall k | 0 <= k < n
      ensures x[k] == y[k]
    {
      assert x[k] == part[offset + k] == s[from + (offset + k)];
    }
  }

  lemma SameBytesSamePayloads(a: Archive, b: Archive)
    requires SameBytes(a, b)
    ensures Payloads(a) == Payloads(b)
  {
    hide ArchiveIsValid, PayloadAt, Position, Joined, PlacedIn;
    forall i | 0 <= i < |a.entries|
      ensures Payloads(a)[i] == Payloads(b)[i]
    {
      PayloadIsSlice(a, i);
      PayloadIsSlice(b, i);
      assert PlacedIn(a, i) && PlacedIn(b, i);
    }
  }

  /** The archive with all its segments joined into one and every offset moved accordingly. */
  function Merged(a: Archive): Archive
    requires ArchiveIsValid(a)
  {
    Archive(seq(|a.entries|, i requires 0 <= i < |a.entries| => MergedEntry(a, i)), [Some(Joined(a.segments))],
      a.stageCount)
  }

  function MergedEntry(a: Archive, i: nat): BlobEntry
    requires ArchiveIsValid(a) && i < |a.entries|
  {
    assert PayloadAt(a, i).Some?;
    BlobEntry(Position(a, i), a.entries[i].length, 0)
  }

  /** Joining all segments gives a valid archive with the same bytes. */
  lemma MergedIsSameBytes(a: Archive)
    requires ArchiveIsValid(a)
    ensures SameBytes(a, Merged(a))
  {
    hide Joined;
    var m := Merged(a);
    SegmentInJoined(a.segments, 0);
    assert Joined(m.segments) == Joined(a.segments) by { JoinedOne(Joined(a.segments)); }
    assert Joined([]) == [] by { JoinedNone(); }
    forall i | 0 <= i < |m.entries|
      ensures PayloadAt(m, i).Some? && PlacedIn(a, i) && Position(m, i) == Position(a, i)
    {
      PayloadIsSlice(a, i);
      assert m.segments[..0] == [];
    }
  }

  lemma JoinedOne(bytes: seq<Byte>)
    ensures Joined([Some(bytes)]) == bytes
  {
    assert [Some(bytes)][..0] == [];
  }

  lemma JoinedNone()
    ensures Joined([]) == []
  {
  }

  /** Segmentation is a storage detail: cutting the bytes of either side into other segments changes
      nothing in the report. */
  lemma SegmentationIsIrrelevant(e: Archive, a: Archive, e': Archive, a': Archive)
    requires e' == e || SameBytes(e, e')
    requires a' == a || SameBytes(a, a')
    ensures ReportOf(e', a') == ReportOf(e, a)
  {
    hide Joined, Position, PayloadAt, EntriesFrom;
    if e' != e { SameBytesSamePayloads(e, e'); }
    if a' != a { SameBytesSamePayloads(a, a'); }
    if ArchiveIsValid(e) && ArchiveIsValid(a) {
      assert |Payloads(e')| == |Payloads(e)| && |Payloads(a')| == |Payloads(a)|;
    }
  }

  // ---------- Platform sets ----------

  predicate Distinct<T(==)>(s: seq<T>) {
    forall i, j :: 0 <= i < j < |s| ==> s[i] != s[j]
  }

  predicate IsPlatform(v: Value) {
    GetInt(v).Some? && INT_MIN <= GetInt(v).value <= INT_MAX
  }

  /** platform_array_is_valid: per-element storage, C ints, no repetition. */
  function PlatformsOf(v: Option<Value>): (r: Option<seq<int>>)
    ensures r.Some? ==> Distinct(r.value)
  {
    if v.None? || !v.value.ArrayValue? then None
    else
      var vs := v.value.elements;
      if exists i :: 0 <= i < |vs| && !IsPlatform(vs[i]) then None
      else
        var ps := seq(|vs|, i requires 0 <= i < |vs| => assert IsPlatform(vs[i]); GetInt(vs[i]).value);
        if Distinct(ps) then Some(ps) else None
  }

  datatype PlatformResult = PlatformResult(status: FieldStatus, platform: int)

  function PlatformSetStatus(es: Option<seq<int>>, acts: Option<seq<int>>): PlatformResult {
    if es.None? || acts.None? then PlatformResult(AuthorityInvalid, -1)
    else if |es.value| != |acts.value| then PlatformResult(Mismatch, -1)
    else PlatformsFrom(es.value, acts.value, 0)
  }

  function PlatformsFrom(es: seq<int>, acts: seq<int>, i: nat): (r: PlatformResult)
    requires i <= |es|
    ensures r.status == Match <==> forall k :: i <= k < |es| ==> es[k] in acts
    decreases |es| - i
  {
    if i == |es| then PlatformResult(Match, -1)
    else if es[i] !in acts then PlatformResult(Mismatch, es[i])
    else PlatformsFrom(es, acts, i + 1)
  }

  /** Walking the expected platforms alone decides equality of the two sets. */
  lemma PlatformStatusDecidesSets(es: seq<int>, acts: seq<int>)
    requires Distinct(es) && Distinct(acts)
    ensures PlatformSetStatus(Some(es), Some(acts)).status == Match <==>
            (set p | p in es) == (set p | p in acts)
  {
    var e, a := set p | p in es, set p | p in acts;
    DistinctImages(es, |es|);
    DistinctImages(acts, |acts|);
    assert e == set k | 0 <= k < |es| :: es[k];
    assert a == set k | 0 <= k < |acts| :: acts[k];
    if PlatformSetStatus(Some(es), Some(acts)).status == Match {
      assert e <= a;
      SubsetOfEqualSize(e, a);
    }
    if e == a {
      forall k | 0 <= k < |es|
        ensures es[k] in acts
      {
        assert es[k] in e;
      }
    }
  }

  /** platform_array_is_valid, with the numbers it reads. */
  method ReadPlatforms(v: Option<Value>) returns (r: Option<seq<int>>)
    ensures r == PlatformsOf(v)
  {
    hide GetInt;
    if v.None? || !v.value.ArrayValue? { return None; }
    var vs := v.value.elements;
    var ps: seq<int> := [];
    for index := 0 to |vs|
      invariant |ps| == index && Distinct(ps)
      invariant forall i :: 0 <= i < index ==> IsPlatform(vs[i]) && GetInt(vs[i]) == Some(ps[i])
    {
      var value := ReadPlatform(vs[index]);
      if value.None? { return None; }
      for previous := 0 to index
        invariant forall i :: 0 <= i < previous ==> ps[i] != value.value
      {
        if ps[previous] == value.value {
          RepeatedPlatform(v.value, previous, index);
          return None;
        }
      }
      ps := ps + [value.value];
    }
    assert forall i :: 0 <= i < |vs| ==> IsPlatform(vs[i]);
    assert seq(|vs|, i requires 0 <= i < |vs| => assert IsPlatform(vs[i]); GetInt(vs[i]).value) == ps;
    r := Some(ps);
  }

  method ReadPlatform(v: Value) returns (r: Option<int>)
    ensures r == if IsPlatform(v) then GetInt(v) else None
  {
    r := GetInt(v);
    if r.Some? && (r.value < INT_MIN || r.value > INT_MAX) { r := None; }
  }

  lemma RepeatedPlatform(v: Value, i: nat, j: nat)
    requires v.ArrayValue? && i < j < |v.elements| && GetInt(v.elements[i]) == GetInt(v.elements[j])
    ensures PlatformsOf(Some(v)) == None
  {
    hide GetInt;
    var vs := v.elements;
    if forall k :: 0 <= k < |vs| ==> IsPlatform(vs[k]) {
      var ps := seq(|vs|, k requires 0 <= k < |vs| => assert IsPlatform(vs[k]); GetInt(vs[k]).value);
      assert ps[i] == ps[j];
    }
  }

  /** compare_platform_sets. */
  method ComparePlatforms(e: Option<Value>, a: Option<Value>) returns (r: PlatformResult)
    ensures r == PlatformSetStatus(PlatformsOf(e), PlatformsOf(a))
  {
    hide PlatformsOf;
    var expected := ReadPlatforms(e);
    var actual := ReadPlatforms(a);
    if expected.None? || actual.None? { return PlatformResult(AuthorityInvalid, -1); }
    var es, acts := expected.value, actual.value;
    if |es| != |acts| { return PlatformResult(Mismatch, -1); }
    for index := 0 to |es|
      invariant PlatformsFrom(es, acts, 0) == PlatformsFrom(es, acts, index)
    {
      if es[index] !in acts { return PlatformResult(Mismatch, es[index]); }
    }
    r := PlatformResult(Match, -1);
  }

  /** A platform list is read off an array kept by element, of distinct 32-bit numbers. */
  lemma PlatformsMeaning(v: Value, ps: seq<int>)
    ensures PlatformsOf(Some(v)) == Some(ps) <==>
              v.ArrayValue? && |ps| == |v.elements|
              && (forall i :: 0 <= i < |ps| ==> HasNumber(v.elements[i], ps[i]))
              && (forall i :: 0 <= i < |ps| ==> -0x8000_0000 <= ps[i] <= 0x7FFF_FFFF)
              && (forall i, j :: 0 <= i < j < |ps| ==> ps[i] != ps[j])
    ensures PlatformsOf(None) == None
  {
    if v.ArrayValue? && |ps| == |v.elements| && forall i :: 0 <= i < |ps| ==> HasNumber(v.elements[i], ps[i]) {
      if forall i :: 0 <= i < |ps| ==> IsPlatform(v.elements[i]) {
        assert seq(|ps|, i requires 0 <= i < |ps| =>
            assert IsPlatform(v.elements[i]); GetInt(v.elements[i]).value) == ps;
      }
    }
  }

  /** A missing platform is named, and it is the first of the expected ones that is missing. */
  lemma {:induction false} MissingPlatformIsFirst(es: seq<int>, acts: seq<int>, i: nat, k: nat)
    requires i <= k < |es| && es[k] !in acts && forall j :: i <= j < k ==> es[j] in acts
    ensures PlatformsFrom(es, acts, i) == PlatformResult(Mismatch, es[k])
    decreases k - i
  {
    if i < k {
      MissingPlatformIsFirst(es, acts, i + 1, k);
    }
  }

  // ---------- All artifacts ----------

  /** Opening the archive of one platform is a function of the object. */
  type Opener = int -> Option<Archive>

  datatype ArtifactResult = ArtifactResult(
    status: FieldStatus, platform: int, entry: int, byte: Option<nat>, expected: nat, actual: nat, matched: nat)

  /** What an archive report that is not EQUAL means for the field. */
  function Rejection(s: ArchiveStatus): FieldStatus {
    if s == ExpectedInvalid || s == ActualInvalid then AuthorityInvalid else Mismatch
  }

  /** The totals of a result with the totals so far added. */
  function Added(expected: nat, actual: nat, matched: nat, rest: ArtifactResult): ArtifactResult {
    rest.(expected := expected + rest.expected, actual := actual + rest.actual, matched := matched + rest.matched)
  }

  function ArtifactsFrom(es: seq<int>, acts: seq<int>, openE: Opener, openA: Opener, i: nat): (r: ArtifactResult)
    requires i <= |es|
    decreases |es| - i
  {
    if i == |es| then ArtifactResult(Match, -1, -1, None, 0, 0, 0)
    else if es[i] !in acts then ArtifactResult(Mismatch, -1, -1, None, 0, 0, 0)
    else if openE(es[i]).None? || openA(es[i]).None? then ArtifactResult(AuthorityInvalid, es[i], -1, None, 0, 0, 0)
    else
      var r := ReportOf(openE(es[i]).value, openA(es[i]).value);
      if r.status != ArchiveEqual then
        ArtifactResult(Rejection(r.status), es[i], r.firstEntry, r.firstByte, r.expected, r.actual, r.matched)
      else
        var rest := ArtifactsFrom(es, acts, openE, openA, i + 1);
        Added(r.expected, r.actual, r.matched, rest)
  }

  function ArtifactsOf(es: Option<seq<int>>, acts: Option<seq<int>>, openE: Opener, openA: Opener): ArtifactResult {
    if es.None? || acts.None? then ArtifactResult(AuthorityInvalid, -1, -1, None, 0, 0, 0)
    else if |es.value| != |acts.value| then ArtifactResult(Mismatch, -1, -1, None, 0, 0, 0)
    else ArtifactsFrom(es.value, acts.value, openE, openA, 0)
  }

  lemma ReportCountsAreSmall(e: Archive, a: Archive)
    ensures var r := ReportOf(e, a); r.expected <= INT_MAX && r.actual <= INT_MAX && r.matched <= r.expected
  {
    if ArchiveIsValid(e) && ArchiveIsValid(a) && |e.entries| == |a.entries| {
      EntriesFromLocates(Payloads(e), Payloads(a), 0);
    }
  }

  /** The total of `n` archives, each with a C int of entries. */
  predicate IsBounded(total: nat, n: nat) {
    total <= n * INT_MAX
  }

  lemma NothingCounted()
    ensures IsBounded(0, 0)
  {
  }

  lemma OneMoreFits(total: nat, count: nat, n: nat)
    requires IsBounded(total, n) && n < INT_MAX && count <= INT_MAX
    ensures IsBounded(total + count, n + 1) && SIZE_MAX - total >= count
  {
    assert n * INT_MAX <= INT_MAX * INT_MAX;
  }

  /** compare_compiled_artifacts.  The platform count is a C int, so no running total can reach the
      64-bit limit and the overflow guards never fire. */
  method CompareArtifacts(es: Option<seq<int>>, acts: Option<seq<int>>, openE: Opener, openA: Opener)
    returns (r: ArtifactResult)
    requires es.Some? ==> |es.value| <= INT_MAX
    ensures r == ArtifactsOf(es, acts, openE, openA)
  {
    if es.None? || acts.None? { return ArtifactResult(AuthorityInvalid, -1, -1, None, 0, 0, 0); }
    if |es.value| != |acts.value| { return ArtifactResult(Mismatch, -1, -1, None, 0, 0, 0); }
    hide ReportOf, IsBounded, ArtifactsFrom;
    NothingCounted();
    var expected: nat, actual: nat, matched: nat := 0, 0, 0;
    var platforms := es.value;
    ghost var whole := ArtifactsFrom(platforms, acts.value, openE, openA, 0);
    for index := 0 to |platforms|
      invariant IsBounded(expected, index) && IsBounded(actual, index) && IsBounded(matched, index)
      invariant whole == Added(expected, actual, matched, ArtifactsFrom(platforms, acts.value, openE, openA, index))
    {
      var platform := platforms[index];
      NextPlatform(platforms, acts.value, openE, openA, index);
      if platform !in acts.value {
        return ArtifactResult(Mismatch, -1, -1, None, expected, actual, matched);
      }
      var e, a := openE(platform), openA(platform);
      if e.None? || a.None? {
        return ArtifactResult(AuthorityInvalid, platform, -1, None, expected, actual, matched);
      }
      var report := CompareArchives(e.value, a.value);
      ReportCountsAreSmall(e.value, a.value);
      OneMoreFits(expected, report.expected, index);
      OneMoreFits(actual, report.actual, index);
      OneMoreFits(matched, report.matched, index);
      assert SIZE_MAX - expected >= report.expected && SIZE_MAX - actual >= report.actual;
      assert SIZE_MAX - matched >= report.matched;
      expected, actual, matched := expected + report.expected, actual + report.actual, matched + report.matched;
      if report.status != ArchiveEqual {
        var invalid := report.status == ExpectedInvalid || report.status == ActualInvalid;
        return ArtifactResult(
          if invalid then AuthorityInvalid else Mismatch, platform, report.firstEntry, report.firstByte, expected,
          actual, matched);
      }
    }
    NoPlatformLeft(platforms, acts.value, openE, openA);
    r := ArtifactResult(Match, -1, -1, None, expected, actual, matched);
  }

  lemma NoPlatformLeft(es: seq<int>, acts: seq<int>, openE: Opener, openA: Opener)
    ensures ArtifactsFrom(es, acts, openE, openA, |es|) == ArtifactResult(Match, -1, -1, None, 0, 0, 0)
  {
  }

  /** The walk stops at a platform that is missing, cannot be opened or differs, and goes on otherwise. */
  lemma NextPlatform(es: seq<int>, acts: seq<int>, openE: Opener, openA: Opener, i: nat)
    requires i < |es|
    ensures var here, e, a := ArtifactsFrom(es, acts, openE, openA, i), openE(es[i]), openA(es[i]);
            if es[i] !in acts then here == ArtifactResult(Mismatch, -1, -1, None, 0, 0, 0)
            else if e.None? || a.None? then here == ArtifactResult(AuthorityInvalid, es[i], -1, None, 0, 0, 0)
            else
              var r := ReportOf(e.value, a.value);
              if r.status == ArchiveEqual then
                here == Added(r.expected, r.actual, r.matched, ArtifactsFrom(es, acts, openE, openA, i + 1))
              else
                here.status == Rejection(r.status)
                && here.platform == es[i] && here.entry == r.firstEntry && here.byte == r.firstByte
                && here.expected == r.expected && here.actual == r.actual && here.matched == r.matched
  {
    hide ReportOf;
  }

  // ---------- What the walk says ----------

  /** On every platform `b` opens what `a` opens, or the same bytes in other segments. */
  ghost predicate Resegments(a: Opener, b: Opener) {
    forall p :: StoredAlike(a(p), b(p))
  }

  ghost predicate StoredAlike(x: Option<Archive>, y: Option<Archive>) {
    x == y || (x.Some? && y.Some? && SameBytes(x.value, y.value))
  }

  lemma {:induction false} ArtifactsFromIgnoreSegments(es: seq<int>, acts: seq<int>, openE: Opener, openA: Opener,
                                                       openE': Opener, openA': Opener, i: nat)
    requires i <= |es| && Resegments(openE, openE') && Resegments(openA, openA')
    ensures ArtifactsFrom(es, acts, openE', openA', i) == ArtifactsFrom(es, acts, openE, openA, i)
    decreases |es| - i
  {
    hide ReportOf, SameBytes;
    if i < |es| {
      var p := es[i];
      assert StoredAlike(openE(p), openE'(p)) && StoredAlike(openA(p), openA'(p));
      if openE(p).Some? && openA(p).Some? {
        SegmentationIsIrrelevant(openE(p).value, openA(p).value, openE'(p).value, openA'(p).value);
      }
      ArtifactsFromIgnoreSegments(es, acts, openE, openA, openE', openA', i + 1);
    }
  }

  /** Over all platforms: re-segmenting any archive of either object changes neither the status nor the
      counts nor the location. */
  lemma ArtifactsIgnoreSegments(es: Option<seq<int>>, acts: Option<seq<int>>, openE: Opener, openA: Opener,
                                openE': Opener, openA': Opener)
    requires Resegments(openE, openE') && Resegments(openA, openA')
    ensures ArtifactsOf(es, acts, openE', openA') == ArtifactsOf(es, acts, openE, openA)
  {
    hide ArtifactsFrom, Resegments;
    if es.Some? && acts.Some? && |es.value| == |acts.value| {
      ArtifactsFromIgnoreSegments(es.value, acts.value, openE, openA, openE', openA', 0);
    }
  }

  /** An object whose valid archives are all stored in one segment. */
  function MergedOpener(open: Opener): Opener {
    p => if open(p).Some? && ArchiveIsValid(open(p).value) then Some(Merged(open(p).value)) else open(p)
  }

  /** In particular an object whose archives are stored whole is compared as one stored in pieces. */
  lemma MergingIsIrrelevant(es: Option<seq<int>>, acts: Option<seq<int>>, openE: Opener, openA: Opener)
    ensures Resegments(openE, MergedOpener(openE))
    ensures ArtifactsOf(es, acts, MergedOpener(openE), openA) == ArtifactsOf(es, acts, openE, openA)
    ensures ArtifactsOf(es, acts, openE, MergedOpener(openA)) == ArtifactsOf(es, acts, openE, openA)
  {
    MergedOpenerResegments(openE);
    MergedOpenerResegments(openA);
    OpenerResegmentsItself(openE);
    OpenerResegmentsItself(openA);
    ArtifactsIgnoreSegments(es, acts, openE, openA, MergedOpener(openE), openA);
    ArtifactsIgnoreSegments(es, acts, openE, openA, openE, MergedOpener(openA));
  }

  lemma MergedOpenerResegments(open: Opener)
    ensures Resegments(open, MergedOpener(open))
  {
    hide ArchiveIsValid, SameBytes, Merged;
    forall p
      ensures StoredAlike(open(p), MergedOpener(open)(p))
    {
      if open(p).Some? && ArchiveIsValid(open(p).value) {
        MergedIsSameBytes(open(p).value);
      }
    }
  }

  lemma OpenerResegmentsItself(open: Opener)
    ensures Resegments(open, open)
  {
  }

  ghost predicate SameArtifacts(e: Option<Archive>, a: Option<Archive>) {
    && e.Some? && a.Some? && ArchiveIsValid(e.value) && ArchiveIsValid(a.value)
    && e.value.stageCount == a.value.stageCount && Payloads(e.value) == Payloads(a.value)
  }

  lemma {:induction false} ArtifactsMatchPlatformwise(es: seq<int>, acts: seq<int>, openE: Opener, openA: Opener,
                                                      i: nat)
    requires i <= |es|
    ensures var r := ArtifactsFrom(es, acts, openE, openA, i);
            && (r.status == Match <==> forall k :: i <= k < |es| ==>
                 es[k] in acts && SameArtifacts(openE(es[k]), openA(es[k])))
            && (r.status == Match ==> r.expected == r.actual == r.matched)
    decreases |es| - i
  {
    hide ReportOf, ArchiveIsValid, PayloadAt;
    if i < |es| {
      if openE(es[i]).Some? && openA(es[i]).Some? {
        ReportDecidesArchives(openE(es[i]).value, openA(es[i]).value);
      }
      ArtifactsMatchPlatformwise(es, acts, openE, openA, i + 1);
    }
  }

  /** The artifact field matches exactly when both sides have the same platforms and, per platform,
      the same stage count and the same entries; the three counts then agree. */
  lemma ArtifactsDecideObjects(es: seq<int>, acts: seq<int>, openE: Opener, openA: Opener)
    requires Distinct(es) && Distinct(acts)
    ensures var r := ArtifactsOf(Some(es), Some(acts), openE, openA);
            && (r.status == Match <==>
                && (set p | p in es) == (set p | p in acts)
                && forall p :: p in es ==> SameArtifacts(openE(p), openA(p)))
            && (r.status == Match ==> r.expected == r.actual == r.matched)
  {
    hide ArtifactsFrom, SameArtifacts, PlatformsFrom;
    PlatformStatusDecidesSets(es, acts);
    ArtifactsMatchPlatformwise(es, acts, openE, openA, 0);
    var matches := ArtifactsOf(Some(es), Some(acts), openE, openA).status == Match;
    if (set p | p in es) == (set p | p in acts) && forall p :: p in es ==> SameArtifacts(openE(p), openA(p)) {
      assert |es| == |acts| && forall k :: 0 <= k < |es| ==> es[k] in es;
      assert matches;
    }
    if matches {
      assert PlatformSetStatus(Some(es), Some(acts)).status == Match;
      forall p | p in es
        ensures SameArtifacts(openE(p), openA(p))
      {
        var k :| 0 <= k < |es| && es[k] == p;
      }
    }
  }
}
