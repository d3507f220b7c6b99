/** The byte strings behind the identities: fixed-width words, length prefixes and JSON strings, and
    the theorems that each of them determines what was encoded. */
module Preimages {
  import opened Basics

  // ---------- Little-endian words ----------

  function Power256(width: nat): nat {
    if width == 0 then 1 else 256 * Power256(width - 1)
  }

  /** store_le64 and store_le32: least significant byte first, higher bits dropped. */
  function LittleEndian(n: nat, width: nat): (r: seq<Byte>)
    ensures |r| == width
  {
    if width == 0 then [] else [n % 256] + LittleEndian(n / 256, width - 1)
  }

  lemma {:induction false} LittleEndianInjective(m: nat, n: nat, width: nat)
    requires m < Power256(width) && n < Power256(width)
    requires LittleEndian(m, width) == LittleEndian(n, width)
    ensures m == n
  {
    if width > 0 {
      assert LittleEndian(m, width)[1..] == LittleEndian(m / 256, width - 1);
      assert LittleEndian(n, width)[1..] == LittleEndian(n / 256, width - 1);
      assert m % 256 == LittleEndian(m, width)[0] == LittleEndian(n, width)[0] == n % 256;
      LittleEndianInjective(m / 256, n / 256, width - 1);
    }
  }

  /** The number a sequence of bytes stands for, least significant byte first. */
  ghost function NumberOf(s: seq<Byte>): nat {
    if s == [] then 0 else s[0] + 256 * NumberOf(s[1..])
  }

  /** A number that fits reads back from its bytes. */
  lemma {:induction false} LittleEndianReadsBack(n: nat, width: nat)
    requires n < Power256(width)
    ensures NumberOf(LittleEndian(n, width)) == n
  {
    if width > 0 {
      assert LittleEndian(n, width)[1..] == LittleEndian(n / 256, width - 1);
      LittleEndianReadsBack(n / 256, width - 1);
    }
  }

  const WORD64: nat := 0x1_0000_0000_0000_0000
  const WORD32: nat := 0x1_0000_0000

  lemma Widths()
    ensures Power256(8) == WORD64 && Power256(4) == WORD32
  {
    assert Power256(4) == WORD32;
    assert Power256(6) == 256 * 256 * WORD32;
  }

  /** A C conversion to an unsigned word: signed numbers wrap around. */
  function Word64(n: int): seq<Byte> {
    LittleEndian(n % WORD64, 8)
  }

  function Word32(n: int): seq<Byte> {
    LittleEndian(n % WORD32, 4)
  }

  /** A signed number is written as the unsigned one it converts to. */
  lemma WordMeaning(n: int)
    ensures 0 <= n <= 0xFFFF_FFFF_FFFF_FFFF ==> NumberOf(Word64(n)) == n
    ensures -0x8000_0000_0000_0000 <= n < 0 ==> NumberOf(Word64(n)) == n + 0x1_0000_0000_0000_0000
    ensures 0 <= n <= 0xFFFF_FFFF ==> NumberOf(Word32(n)) == n
    ensures -0x8000_0000 <= n < 0 ==> NumberOf(Word32(n)) == n + 0x1_0000_0000
  {
    hide LittleEndian, NumberOf, Power256;
    Widths();
    WrapsAround(n, WORD64);
    WrapsAround(n, WORD32);
    LittleEndianReadsBack(n % WORD64, 8);
    LittleEndianReadsBack(n % WORD32, 4);
  }

  lemma WrapsAround(n: int, m: nat)
    requires m > 0
    ensures 0 <= n < m ==> n % m == n
    ensures -(m as int) <= n < 0 ==> n % m == n + m
  {
  }

  predicate IsInt64(n: int) {
    INT64_MIN <= n <= INT64_MAX
  }

  predicate IsInt32(n: int) {
    INT_MIN <= n <= INT_MAX
  }

  lemma Word64Injective(m: int, n: int)
    requires Word64(m) == Word64(n)
    requires (IsInt64(m) && IsInt64(n)) || (0 <= m < WORD64 && 0 <= n < WORD64)
    ensures m == n
  {
    Widths();
    LittleEndianInjective(m % WORD64, n % WORD64, 8);
    hide LittleEndian;
    WordsDiffer(m, n);
  }

  lemma WordsDiffer(m: int, n: int)
    requires m % WORD64 == n % WORD64
    requires (IsInt64(m) && IsInt64(n)) || (0 <= m < WORD64 && 0 <= n < WORD64)
    ensures m == n
  {
    assert m - n == WORD64 * (m / WORD64 - n / WORD64);
    assert m - n < WORD64 && n - m < WORD64;
  }

  lemma Word32Injective(m: int, n: int)
    requires Word32(m) == Word32(n) && IsInt32(m) && IsInt32(n)
    ensures m == n
  {
    Widths();
    LittleEndianInjective(m % WORD32, n % WORD32, 4);
  }

  /** Splitting a concatenation whose first parts have the same length. */
  lemma SplitEqual<T>(a: seq<T>, x: seq<T>, b: seq<T>, y: seq<T>)
    requires |a| == |b| && a + x == b + y
    ensures a == b && x == y
  {
    assert a == (a + x)[..|a|] && b == (b + y)[..|b|];
    assert x == (a + x)[|a|..] && y == (b + y)[|b|..];
  }

  /** The bytes of a C string literal with its terminator. */
  function Terminated(s: string): seq<Byte> {
    seq(|s|, i requires 0 <= i < |s| => s[i] as int % 256) + [0]
  }

  lemma TerminatedMeaning(s: string)
    requires forall i :: 0 <= i < |s| ==> s[i] < 128 as char
    ensures |Terminated(s)| == |s| + 1 && Terminated(s)[|s|] == 0
    ensures forall i :: 0 <= i < |s| ==> Terminated(s)[i] == s[i] as int
  {
  }

  // ---------- The running hash ----------

  /** The digest context: what has been fed so far, under an uninterpreted hash. */
  class HashContext {
    var fed: seq<Byte>

    constructor ()
      ensures fed == []
    {
      fed := [];
    }

    method Update(bytes: seq<Byte>)
      modifies this
      ensures fed == old(fed) + bytes
    {
      fed := fed + bytes;
    }

    /** An update that takes the next part off what is still to come. */
    method Absorb(part: seq<Byte>, ghost rest: seq<Byte>, ghost whole: seq<Byte>)
      requires whole == fed + (part + rest)
      modifies this
      ensures whole == fed + rest
    {
      Update(part);
    }
  }

  // ---------- The release digest ----------

  datatype ReleaseRecord = ReleaseRecord(
    sourceDigest: seq<Byte>, serializedDigest: seq<Byte>, payloadDigest: seq<Byte>, schemaDigest: seq<Byte>,
    pathId: int, classId: int, targetPlatform: int, isBundleMember: bool, memberIndex: int,
    member: Option<seq<Byte>>, unityVersion: seq<Byte>)

  /** Field widths of the C structures. */
  ghost predicate IsReleaseRecord(r: ReleaseRecord) {
    && |r.sourceDigest| == |r.serializedDigest| == |r.payloadDigest| == |r.schemaDigest| == 32
    && IsInt64(r.pathId) && IsInt32(r.classId) && 0 <= r.targetPlatform < WORD32 && 0 <= r.memberIndex < WORD64
    && |MemberBytes(r)| < WORD64 && |r.unityVersion| < WORD64
  }

  function MemberBytes(r: ReleaseRecord): seq<Byte> {
    if r.member.None? then [] else r.member.value
  }

  function ReleaseNames(r: ReleaseRecord): seq<Byte> {
    Word64(|MemberBytes(r)|) + (MemberBytes(r) + (Word64(|r.unityVersion|) + r.unityVersion))
  }

  function ReleaseCoordinates(r: ReleaseRecord): seq<Byte> {
    Word64(r.pathId) + (Word64(r.classId) + (Word64(r.targetPlatform) + (Word64(if r.isBundleMember then 1 else 0)
    + (Word64(r.memberIndex) + ReleaseNames(r)))))
  }

  /** A terminated domain, four digests, five 64-bit words, then both names behind their lengths. */
  function ReleasePreimage(r: ReleaseRecord): seq<Byte> {
    Terminated("DXBCSandbox.CapturedShaderRelease.v1")
    + (r.sourceDigest + (r.serializedDigest + (r.payloadDigest + (r.schemaDigest + ReleaseCoordinates(r)))))
  }

  /** release_digest, one update after the other. */
  method ReleaseDigest(r: ReleaseRecord, sha256: seq<Byte> -> seq<Byte>) returns (digest: seq<Byte>)
    ensures digest == sha256(ReleasePreimage(r))
  {
    hide Terminated, Word64;
    var hash := new HashContext();
    ghost var whole := ReleasePreimage(r);
    ghost var last := r.unityVersion;
    ghost var afterMember := Word64(|r.unityVersion|) + last;
    ghost var afterIndex := ReleaseNames(r);
    ghost var afterBundle := Word64(r.memberIndex) + afterIndex;
    ghost var afterPlatform := Word64(if r.isBundleMember then 1 else 0) + afterBundle;
    ghost var afterClass := Word64(r.targetPlatform) + afterPlatform;
    ghost var afterPath := Word64(r.classId) + afterClass;
    ghost var coordinates := ReleaseCoordinates(r);
    assert whole == [] + whole;
    hash.Absorb(Terminated("DXBCSandbox.CapturedShaderRelease.v1"),
                r.sourceDigest + (r.serializedDigest + (r.payloadDigest + (r.schemaDigest + coordinates))), whole);
    hash.Absorb(r.sourceDigest, r.serializedDigest + (r.payloadDigest + (r.schemaDigest + coordinates)), whole);
    hash.Absorb(r.serializedDigest, r.payloadDigest + (r.schemaDigest + coordinates), whole);
    hash.Absorb(r.payloadDigest, r.schemaDigest + coordinates, whole);
    hash.Absorb(r.schemaDigest, coordinates, whole);
    hash.Absorb(Word64(r.pathId), afterPath, whole);
    hash.Absorb(Word64(r.classId), afterClass, whole);
    hash.Absorb(Word64(r.targetPlatform), afterPlatform, whole);
    hash.Absorb(Word64(if r.isBundleMember then 1 else 0), afterBundle, whole);
    hash.Absorb(Word64(r.memberIndex), afterIndex, whole);
    var member := if r.member.None? then [] else r.member.value;
    hash.Absorb(Word64(|member|), member + afterMember, whole);
    hash.Absorb(member, afterMember, whole);
    hash.Absorb(Word64(|r.unityVersion|), last, whole);
    assert last == r.unityVersion + [];
    hash.Absorb(r.unityVersion, [], whole);
    assert hash.fed + [] == hash.fed;
    digest := sha256(hash.fed);
  }

  /** The encoding determines the record, but for an absent member name beside an empty one. */
  lemma ReleasePreimageDecodable(x: ReleaseRecord, y: ReleaseRecord)
    requires IsReleaseRecord(x) && IsReleaseRecord(y)
    ensures ReleasePreimage(x) == ReleasePreimage(y) <==>
        x.(member := Some(MemberBytes(x))) == y.(member := Some(MemberBytes(y)))
  {
    hide Terminated;
    if ReleasePreimage(x) == ReleasePreimage(y) {
      hide Word64;
      var xl, yl := ReleaseCoordinates(x), ReleaseCoordinates(y);
      var domain := Terminated("DXBCSandbox.CapturedShaderRelease.v1");
      SplitEqual(domain, x.sourceDigest + (x.serializedDigest + (x.payloadDigest + (x.schemaDigest + xl))),
                 domain, y.sourceDigest + (y.serializedDigest + (y.payloadDigest + (y.schemaDigest + yl))));
      SplitEqual(x.sourceDigest, x.serializedDigest + (x.payloadDigest + (x.schemaDigest + xl)),
                 y.sourceDigest, y.serializedDigest + (y.payloadDigest + (y.schemaDigest + yl)));
      SplitEqual(x.serializedDigest, x.payloadDigest + (x.schemaDigest + xl), y.serializedDigest,
                 y.payloadDigest + (y.schemaDigest + yl));
      SplitEqual(x.payloadDigest, x.schemaDigest + xl, y.payloadDigest, y.schemaDigest + yl);
      SplitEqual(x.schemaDigest, xl, y.schemaDigest, yl);
      CoordinatesDecodable(x, y);
    }
  }

  lemma WordThenRest(m: int, x: seq<Byte>, n: int, y: seq<Byte>)
    requires Word64(m) + x == Word64(n) + y
    requires (IsInt64(m) && IsInt64(n)) || (0 <= m < WORD64 && 0 <= n < WORD64)
    ensures m == n && x == y
  {
    SplitEqual(Word64(m), x, Word64(n), y);
    Word64Injective(m, n);
  }

  lemma CoordinatesDecodable(x: ReleaseRecord, y: ReleaseRecord)
    requires IsReleaseRecord(x) && IsReleaseRecord(y) && ReleaseCoordinates(x) == ReleaseCoordinates(y)
    ensures x.pathId == y.pathId && x.classId == y.classId && x.targetPlatform == y.targetPlatform
    ensures x.isBundleMember == y.isBundleMember && x.memberIndex == y.memberIndex
    ensures MemberBytes(x) == MemberBytes(y) && x.unityVersion == y.unityVersion
  {
    hide Word64, MemberBytes, ReleaseNames;
    var xb, yb := if x.isBundleMember then 1 else 0, if y.isBundleMember then 1 else 0;
    var xn, yn := ReleaseNames(x), ReleaseNames(y);
    WordThenRest(x.pathId, Word64(x.classId) + (Word64(x.targetPlatform) + (Word64(xb) + (Word64(x.memberIndex) + xn))),
                 y.pathId, Word64(y.classId)
                   + (Word64(y.targetPlatform) + (Word64(yb) + (Word64(y.memberIndex) + yn))));
    WordThenRest(x.classId, Word64(x.targetPlatform) + (Word64(xb) + (Word64(x.memberIndex) + xn)),
                 y.classId, Word64(y.targetPlatform) + (Word64(yb) + (Word64(y.memberIndex) + yn)));
    WordThenRest(x.targetPlatform, Word64(xb) + (Word64(x.memberIndex) + xn), y.targetPlatform,
                 Word64(yb) + (Word64(y.memberIndex) + yn));
    WordThenRest(xb, Word64(x.memberIndex) + xn, yb, Word64(y.memberIndex) + yn);
    WordThenRest(x.memberIndex, xn, y.memberIndex, yn);
    NamesDecodable(x, y);
  }

  lemma NamesDecodable(x: ReleaseRecord, y: ReleaseRecord)
    requires IsReleaseRecord(x) && IsReleaseRecord(y) && ReleaseNames(x) == ReleaseNames(y)
    ensures MemberBytes(x) == MemberBytes(y) && x.unityVersion == y.unityVersion
  {
    hide Word64, MemberBytes;
    var mx, my := MemberBytes(x), MemberBytes(y);
    WordThenRest(|mx|, mx + (Word64(|x.unityVersion|) + x.unityVersion), |my|,
                 my + (Word64(|y.unityVersion|) + y.unityVersion));
    SplitEqual(mx, Word64(|x.unityVersion|) + x.unityVersion, my, Word64(|y.unityVersion|) + y.unityVersion);
    WordThenRest(|x.unityVersion|, x.unityVersion, |y.unityVersion|, y.unityVersion);
  }

  // ---------- The render-state stream ----------

  type Digest = d: seq<Byte> | |d| == 32 witness seq(32, i => 0)

  function DigestsStream(ds: seq<Digest>): seq<Byte> {
    if ds == [] then [] else ds[0] + DigestsStream(ds[1..])
  }

  /** Per subshader the pass count, then every pass's state digest. */
  function SubshadersStream(subs: seq<seq<Digest>>): seq<Byte> {
    if subs == [] then [] else Word64(|subs[0]|) + (DigestsStream(subs[0]) + SubshadersStream(subs[1..]))
  }

  function RenderStatePreimage(subs: seq<seq<Digest>>): seq<Byte> {
    Terminated("DXBCSandbox.OrderedReleaseRenderState.v1") + (Word64(|subs|) + SubshadersStream(subs))
  }

  /** release_shader_render_state_digest, past its validation. */
  method RenderStateDigest(subs: seq<seq<Digest>>, sha256: seq<Byte> -> seq<Byte>) returns (digest: seq<Byte>)
    ensures digest == sha256(RenderStatePreimage(subs))
  {
    hide Terminated, Word64;
    var hash := new HashContext();
    ghost var whole := RenderStatePreimage(subs);
    assert whole == [] + whole && subs[0..] == subs;
    hash.Absorb(Terminated("DXBCSandbox.OrderedReleaseRenderState.v1"), Word64(|subs|) + SubshadersStream(subs), whole);
    hash.Absorb(Word64(|subs|), SubshadersStream(subs), whole);
    for subshader := 0 to |subs|
      invariant whole == hash.fed + SubshadersStream(subs[subshader..])
    {
      var passes := subs[subshader];
      assert subs[subshader..][0] == passes && subs[subshader..][1..] == subs[subshader + 1..];
      ghost var rest := SubshadersStream(subs[subshader + 1..]);
      hash.Absorb(Word64(|passes|), DigestsStream(passes) + rest, whole);
      DigestPasses(hash, passes, rest, whole);
    }
    assert subs[|subs|..] == [];
    assert hash.fed + [] == hash.fed;
    digest := sha256(hash.fed);
  }

  /** The inner loop over the passes of one subshader. */
  method DigestPasses(hash: HashContext, passes: seq<Digest>, ghost rest: seq<Byte>, ghost whole: seq<Byte>)
    requires whole == hash.fed + (DigestsStream(passes) + rest)
    modifies hash
    ensures whole == hash.fed + rest
  {
    assert passes[0..] == passes;
    for pass := 0 to |passes|
      invariant whole == hash.fed + (DigestsStream(passes[pass..]) + rest)
    {
      assert passes[pass..][0] == passes[pass] && passes[pass..][1..] == passes[pass + 1..];
      assert (passes[pass] + DigestsStream(passes[pass + 1..])) + rest
          == passes[pass] + (DigestsStream(passes[pass + 1..]) + rest);
      hash.Absorb(passes[pass], DigestsStream(passes[pass + 1..]) + rest, whole);
    }
    assert passes[|passes|..] == [] && [] + rest == rest;
  }

  ghost predicate CountsFit(subs: seq<seq<Digest>>) {
    |subs| <= INT_MAX && forall i :: 0 <= i < |subs| ==> |subs[i]| <= INT_MAX
  }

  lemma {:induction false} DigestsDecodable(x: seq<Digest>, r: seq<Byte>, y: seq<Digest>, s: seq<Byte>)
    requires |x| == |y| && DigestsStream(x) + r == DigestsStream(y) + s
    ensures x == y && r == s
  {
    if x == [] {
      assert [] + r == r && [] + s == s;
    } else {
      assert DigestsStream(x) + r == x[0] + (DigestsStream(x[1..]) + r);
      assert DigestsStream(y) + s == y[0] + (DigestsStream(y[1..]) + s);
      SplitEqual(x[0], DigestsStream(x[1..]) + r, y[0], DigestsStream(y[1..]) + s);
      DigestsDecodable(x[1..], r, y[1..], s);
      assert x == [x[0]] + x[1..] && y == [y[0]] + y[1..];
    }
  }

  lemma {:induction false} SubshadersDecodable(x: seq<seq<Digest>>, y: seq<seq<Digest>>)
    requires CountsFit(x) && CountsFit(y) && |x| == |y| && SubshadersStream(x) == SubshadersStream(y)
    ensures x == y
  {
    if x != [] {
      var xr, yr := SubshadersStream(x[1..]), SubshadersStream(y[1..]);
      WordThenRest(|x[0]|, DigestsStream(x[0]) + xr, |y[0]|, DigestsStream(y[0]) + yr);
      DigestsDecodable(x[0], xr, y[0], yr);
      SubshadersDecodable(x[1..], y[1..]);
      assert x == [x[0]] + x[1..] && y == [y[0]] + y[1..];
    }
  }

  /** Equal streams mean equal nesting and equal digests, in order. */
  lemma RenderStatePreimageDecodable(x: seq<seq<Digest>>, y: seq<seq<Digest>>)
    requires CountsFit(x) && CountsFit(y) && RenderStatePreimage(x) == RenderStatePreimage(y)
    ensures x == y
  {
    hide Terminated, Word64, SubshadersStream;
    var domain := Terminated("DXBCSandbox.OrderedReleaseRenderState.v1");
    SplitEqual(domain, Word64(|x|) + SubshadersStream(x), domain, Word64(|y|) + SubshadersStream(y));
    WordThenRest(|x|, SubshadersStream(x), |y|, SubshadersStream(y));
    SubshadersDecodable(x, y);
  }

  // ---------- Texture and material identities ----------

  function TextureIdentity(serialized: Digest, pathId: int, classId: int, resource: Digest): seq<Byte> {
    serialized + (Word64(pathId) + (Word32(classId) + resource))
  }

  function MaterialIdentity(serialized: Digest, pathId: int, yaml: Digest): seq<Byte> {
    serialized + (Word64(pathId) + yaml)
  }

  lemma TextureIdentityDecodable(s1: Digest, p1: int, c1: int, r1: Digest, s2: Digest, p2: int, c2: int, r2: Digest)
    requires IsInt64(p1) && IsInt64(p2) && IsInt32(c1) && IsInt32(c2)
    requires TextureIdentity(s1, p1, c1, r1) == TextureIdentity(s2, p2, c2, r2)
    ensures s1 == s2 && p1 == p2 && c1 == c2 && r1 == r2
  {
    SplitEqual(s1, Word64(p1) + (Word32(c1) + r1), s2, Word64(p2) + (Word32(c2) + r2));
    WordThenRest(p1, Word32(c1) + r1, p2, Word32(c2) + r2);
    SplitEqual(Word32(c1), r1, Word32(c2), r2);
    Word32Injective(c1, c2);
  }

  lemma MaterialIdentityDecodable(s1: Digest, p1: int, y1: Digest, s2: Digest, p2: int, y2: Digest)
    requires IsInt64(p1) && IsInt64(p2) && MaterialIdentity(s1, p1, y1) == MaterialIdentity(s2, p2, y2)
    ensures s1 == s2 && p1 == p2 && y1 == y2
  {
    SplitEqual(s1, Word64(p1) + y1, s2, Word64(p2) + y2);
    WordThenRest(p1, y1, p2, y2);
  }
}
