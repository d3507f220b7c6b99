/** What the rows of the two certificate tables say, column by column, and the tables as a whole. */
module CertificateRows {
  import opened Basics
  import opened Decimals
  import opened References
  import opened CertificateTables

  /** One side of a pair: the digests of the occurrence and of the serialized object, and its path id. */
  datatype PairSide = PairSide(occurrence: seq<Byte>, content: seq<Byte>, path: int)

  ghost predicate IsPairSide(s: PairSide) {
    && |s.occurrence| == 32 && |s.content| == 32
    && -0x8000_0000_0000_0000 <= s.path <= 0x7FFF_FFFF_FFFF_FFFF
  }

  /** A number as printed, or zero with a sign. */
  ghost predicate Spells(t: string, n: int) {
    t == PrintInt(n) || (t == "-0" && n == 0)
  }

  /** Prefix, digest and path id, joined by colons. */
  ghost function IdentityText(prefix: char, digest: seq<Byte>, path: string): string {
    [prefix] + ":" + PrintHex(digest) + ":" + path
  }

  ghost predicate IsIdentity(t: string, prefix: char, digest: seq<Byte>, path: int) {
    t == IdentityText(prefix, digest, PrintInt(path)) || (path == 0 && t == IdentityText(prefix, digest, "-0"))
  }

  /** Three columns per side: the occurrence, the content and the content's digest. */
  ghost predicate PrintsSides(f: seq<string>, expected: PairSide, actual: PairSide) {
    && |f| == 6
    && IsIdentity(f[0], 'o', expected.occurrence, expected.path)
    && IsIdentity(f[1], 's', expected.content, expected.path)
    && f[2] == PrintHex(expected.content)
    && IsIdentity(f[3], 'o', actual.occurrence, actual.path)
    && IsIdentity(f[4], 's', actual.content, actual.path)
    && f[5] == PrintHex(actual.content)
  }

  // ---------- Numbers and identities ----------

  lemma ParseInt64Meaning(t: string, n: int)
    ensures ParseInt64(t) == Some(n) <==> -0x8000_0000_0000_0000 <= n <= 0x7FFF_FFFF_FFFF_FFFF && Spells(t, n)
  {
    hide PrintInt, DecimalValue, IsCanonicalDecimal;
    SignedZero();
    if IsCanonicalDecimal(t) {
      CanonicalDecimalIsPrinted(t);
    }
  }

  lemma SignedZero()
    ensures IsCanonicalDecimal("-0") && DecimalValue("-0") == 0 && PrintInt(0) == "0"
  {
    assert "-0"[1..] == "0" && "0"[..0] == [];
  }

  lemma ParseInt32Meaning(t: string, n: int)
    ensures ParseInt32(t) == Some(n) <==> -0x8000_0000 <= n <= 0x7FFF_FFFF && Spells(t, n)
  {
    hide ParseInt64, Spells;
    ParseInt64Meaning(t, n);
  }

  lemma ParseHexMeaning(t: string, bytes: seq<Byte>)
    ensures ParseHex(t, |bytes|) == Some(bytes) <==> t == PrintHex(bytes)
  {
    hide PrintHex, ParseHex, IsHexText;
    HexRoundTrip(bytes);
  }

  /** The text of an identity, cut at its second colon. */
  lemma IdentityCut(prefix: char, digest: seq<Byte>, path: string)
    requires |digest| == 32
    ensures var t := IdentityText(prefix, digest, path);
            && |t| >= 67 && t[0] == prefix && t[1] == ':' && FirstIndex(t[2..], ':') == Some(64)
            && t[2..][..64] == PrintHex(digest) && t[2..][65..] == path
  {
    var d, t := PrintHex(digest), IdentityText(prefix, digest, path);
    assert t[2..] == d + [':'] + path;
    assert ':' !in d;
    FirstIndexSkips(d, path, ':');
  }

  lemma IdentityJoined(t: string, prefix: char, digest: seq<Byte>)
    requires |digest| == 32 && |t| >= 67 && t[0] == prefix && t[1] == ':' && FirstIndex(t[2..], ':') == Some(64)
    requires t[2..][..64] == PrintHex(digest)
    ensures t == IdentityText(prefix, digest, t[2..][65..])
  {
    var rest := t[2..];
    assert rest == rest[..64] + [rest[64]] + rest[65..];
    assert t == [t[0]] + [t[1]] + rest;
  }

  lemma ParseIdentityMeaning(t: string, prefix: char, digest: seq<Byte>, path: int)
    requires |digest| == 32
    ensures ParseIdentity(t, prefix) == Some(Identity(PrintHex(digest), path)) <==>
              -0x8000_0000_0000_0000 <= path <= 0x7FFF_FFFF_FFFF_FFFF && IsIdentity(t, prefix, digest, path)
  {
    hide PrintInt, ParseInt64, FirstIndex, PrintHex, IdentityText;
    IdentityCut(prefix, digest, PrintInt(path));
    IdentityCut(prefix, digest, "-0");
    if ParseIdentity(t, prefix) == Some(Identity(PrintHex(digest), path)) {
      IdentityJoined(t, prefix, digest);
      ParseInt64Meaning(t[2..][65..], path);
    }
    ParseInt64Meaning(PrintInt(path), path);
    ParseInt64Meaning("-0", path);
  }

  // ---------- Pair rows ----------

  /** Six columns are taken for a row exactly when they print two sides. */
  lemma PairFieldsMeaning(f: seq<string>)
    requires |f| == 6
    ensures PairFieldsAreValid(f) <==>
              exists expected, actual :: IsPairSide(expected) && IsPairSide(actual) && PrintsSides(f, expected, actual)
  {
    hide IsIdentity, ParseIdentity, PrintHex;
    if PairFieldsAreValid(f) {
      var expected := SideOfColumns(f[0], f[1], f[2]);
      var actual := SideOfColumns(f[3], f[4], f[5]);
      assert PrintsSides(f, expected, actual);
    }
    if expected, actual :| IsPairSide(expected) && IsPairSide(actual) && PrintsSides(f, expected, actual) {
      ColumnsOfSide(f[0], f[1], expected);
      ColumnsOfSide(f[3], f[4], actual);
    }
  }

  lemma SideOfColumns(o: string, s: string, digest: string) returns (side: PairSide)
    requires ParseIdentity(o, 'o').Some? && ParseIdentity(s, 's').Some? && IsHexText(digest, 64)
    requires ParseIdentity(o, 'o').value.pathId == ParseIdentity(s, 's').value.pathId
    requires ParseIdentity(s, 's').value.digest == digest
    ensures IsPairSide(side) && IsIdentity(o, 'o', side.occurrence, side.path)
    ensures IsIdentity(s, 's', side.content, side.path) && digest == PrintHex(side.content)
  {
    hide IsIdentity, ParseIdentity, PrintHex, IsHexText;
    var occurrence := ParseIdentity(o, 'o').value;
    side := PairSide(ParseHex(occurrence.digest, 32).value, ParseHex(digest, 32).value, occurrence.pathId);
    ParseIdentityMeaning(o, 'o', side.occurrence, side.path);
    ParseIdentityMeaning(s, 's', side.content, side.path);
  }

  lemma ColumnsOfSide(o: string, s: string, side: PairSide)
    requires IsPairSide(side) && IsIdentity(o, 'o', side.occurrence, side.path)
    requires IsIdentity(s, 's', side.content, side.path)
    ensures ParseIdentity(o, 'o') == Some(Identity(PrintHex(side.occurrence), side.path))
    ensures ParseIdentity(s, 's') == Some(Identity(PrintHex(side.content), side.path))
    ensures IsHexText(PrintHex(side.content), 64)
  {
    hide IsIdentity, ParseIdentity, PrintHex;
    ParseIdentityMeaning(o, 'o', side.occurrence, side.path);
    ParseIdentityMeaning(s, 's', side.content, side.path);
  }

  /** The line of a pair is accepted with its six columns, whatever its number. */
  lemma PairRowMeaning(line: string, number: nat)
    ensures ParsePairRow(line, number)
         == if |FieldsOf(line)| == 6 && PrintsSomeSides(FieldsOf(line)) then Some(PairRow(number, FieldsOf(line)))
            else None
  {
    hide PairFieldsAreValid, PrintsSides;
    if |FieldsOf(line)| == 6 {
      PairFieldsMeaning(FieldsOf(line));
      if PairFieldsAreValid(FieldsOf(line)) {
        IdGuardsNeverReject(FieldsOf(line));
      }
    }
  }

  ghost predicate PrintsSomeSides(f: seq<string>) {
    exists expected, actual :: IsPairSide(expected) && IsPairSide(actual) && PrintsSides(f, expected, actual)
  }

  /** The printed line of two sides is accepted. */
  lemma PrintedSidesParse(expected: PairSide, actual: PairSide, number: nat)
    requires IsPairSide(expected) && IsPairSide(actual)
    ensures var f := [IdentityText('o', expected.occurrence, PrintInt(expected.path)),
                      IdentityText('s', expected.content, PrintInt(expected.path)), PrintHex(expected.content),
                      IdentityText('o', actual.occurrence, PrintInt(actual.path)),
                      IdentityText('s', actual.content, PrintInt(actual.path)), PrintHex(actual.content)];
            ParsePairRow(JoinTabs(f), number) == Some(PairRow(number, f))
  {
    hide PairFieldsAreValid, ParsePairRow, IdentityText, PrintHex, PrintInt, FieldsOf, JoinTabs;
    var f := [IdentityText('o', expected.occurrence, PrintInt(expected.path)),
              IdentityText('s', expected.content, PrintInt(expected.path)), PrintHex(expected.content),
              IdentityText('o', actual.occurrence, PrintInt(actual.path)),
              IdentityText('s', actual.content, PrintInt(actual.path)), PrintHex(actual.content)];
    assert PrintsSides(f, expected, actual);
    PairFieldsMeaning(f);
    PairRowParses(PairRow(number, f));
  }

  /** A pair table: its header, then one line per row that prints two sides, no side listed twice. */
  lemma PairTableMeaning(data: string, rows: seq<PairRow>)
    ensures ParseTable(PairsFormat(), data) == Parsed(rows) <==>
              && 0 < |data| <= 67108864 && data[|data| - 1] == '\n' && '\0' !in data
              && 0 < |rows| <= 1048576 && |LinesOf(data)| == |rows| + 1
              && LinesOf(data)[0]
                 == "expected_occurrence_id" + "\t" + "expected_content_id" + "\t" + "expected_serialized_sha256" + "\t"
                    + "actual_occurrence_id" + "\t" + "actual_content_id" + "\t" + "actual_serialized_sha256"
              && (forall k :: 0 <= k < |rows| ==> IsRowOf(LinesOf(data)[k + 1], rows[k], k + 2))
              && (forall i, j :: 0 <= i < j < |rows| ==>
                    rows[i].fields[0] != rows[j].fields[0] && rows[i].fields[3] != rows[j].fields[3])
  {
    hide ParsePairRow, LinesOf, ParseTable, PairsHeader, IsRowOf;
    PairsHeaderText();
    ParseAccepts(PairsFormat(), data, rows);
    forall k {:trigger rows[k]} | 0 <= k < |rows| && |LinesOf(data)| == |rows| + 1
      ensures PairsFormat().parse(LinesOf(data)[k + 1], k + 2) == Some(rows[k]) <==>
                IsRowOf(LinesOf(data)[k + 1], rows[k], k + 2)
      ensures IsRowOf(LinesOf(data)[k + 1], rows[k], k + 2) ==> |rows[k].fields| == 6
    {
      RowOfLine(LinesOf(data)[k + 1], rows[k], k + 2);
    }
  }

  ghost predicate IsRowOf(line: string, row: PairRow, number: nat) {
    row == PairRow(number, FieldsOf(line)) && |row.fields| == 6 && PrintsSomeSides(row.fields)
  }

  lemma RowOfLine(line: string, row: PairRow, number: nat)
    ensures ParsePairRow(line, number) == Some(row) <==> IsRowOf(line, row, number)
  {
    hide ParsePairRow, PrintsSomeSides, FieldsOf;
    PairRowMeaning(line, number);
  }

  lemma PairsHeaderText()
    ensures PairsHeader()
         == "expected_occurrence_id" + "\t" + "expected_content_id" + "\t" + "expected_serialized_sha256" + "\t"
            + "actual_occurrence_id" + "\t" + "actual_content_id" + "\t" + "actual_serialized_sha256"
  {
    JoinSix("expected_occurrence_id", "expected_content_id", "expected_serialized_sha256",
            "actual_occurrence_id", "actual_content_id", "actual_serialized_sha256");
  }

  lemma JoinSix(a: string, b: string, c: string, d: string, e: string, f: string)
    ensures JoinTabs([a, b, c, d, e, f]) == a + "\t" + b + "\t" + c + "\t" + d + "\t" + e + "\t" + f
  {
    JoinFive(b, c, d, e, f);
    hide JoinTabs;
    JoinStep(a, [b, c, d, e, f]);
    assert [a] + [b, c, d, e, f] == [a, b, c, d, e, f];
  }

  lemma JoinFive(a: string, b: string, c: string, d: string, e: string)
    ensures JoinTabs([a, b, c, d, e]) == a + "\t" + b + "\t" + c + "\t" + d + "\t" + e
  {
    JoinThree(c, d, e);
    hide JoinTabs;
    JoinStep(a, [b, c, d, e]);
    JoinStep(b, [c, d, e]);
    assert [a] + [b, c, d, e] == [a, b, c, d, e] && [b] + [c, d, e] == [b, c, d, e];
  }

  lemma JoinThree(a: string, b: string, c: string)
    ensures JoinTabs([a, b, c]) == a + "\t" + b + "\t" + c
  {
    assert JoinTabs([c]) == c;
    JoinStep(a, [b, c]);
    JoinStep(b, [c]);
    assert [a] + [b, c] == [a, b, c] && [b] + [c] == [b, c];
  }

  // ---------- Reference rows ----------

  ghost predicate IsReference(r: ReferenceRow) {
    && |r.owner| == 32 && |r.stableId| == 32 && r.pointer != PPtr(0, 0)
    && -0x8000_0000 <= r.pointer.fileId <= 0x7FFF_FFFF
    && -0x8000_0000_0000_0000 <= r.pointer.pathId <= 0x7FFF_FFFF_FFFF_FFFF
  }

  /** Five columns: the side, the owner's digest, the two ids and the stable identity. */
  ghost predicate PrintsReference(f: seq<string>, r: ReferenceRow) {
    && |f| == 5 && f[0] == (match r.side case ExpectedSide => "expected" case ActualSide => "actual")
    && f[1] == PrintHex(r.owner) && Spells(f[2], r.pointer.fileId) && Spells(f[3], r.pointer.pathId)
    && f[4] == PrintHex(r.stableId)
  }

  /** A line of the reference map gives the row it prints. */
  lemma ReferenceRowMeaning(line: string, r: ReferenceRow)
    ensures ParseReferenceRow(line) == Some(r) <==> IsReference(r) && PrintsReference(FieldsOf(line), r)
  {
    hide ParseHex, ParseInt32, ParseInt64, PrintHex, Spells, FieldsOf;
    var f := FieldsOf(line);
    assert "expected" != "actual";
    if |f| == 5 {
      ParseInt32Meaning(f[2], r.pointer.fileId);
      ParseInt64Meaning(f[3], r.pointer.pathId);
      if |r.owner| == 32 && |r.stableId| == 32 {
        ParseHexMeaning(f[1], r.owner);
        ParseHexMeaning(f[4], r.stableId);
      }
    }
  }

  /** A reference map: its header, then one line per row, no reference listed twice; it may be empty. */
  lemma ReferenceTableMeaning(data: string, rows: seq<ReferenceRow>)
    ensures ParseTable(ReferencesFormat(), data) == Parsed(rows) <==>
              && 0 < |data| <= 67108864 && data[|data| - 1] == '\n' && '\0' !in data
              && |rows| <= 1048576 && |LinesOf(data)| == |rows| + 1
              && LinesOf(data)[0]
                 == "side" + "\t" + "owner_serialized_sha256" + "\t" + "file_id" + "\t" + "path_id" + "\t"
                    + "stable_id_sha256"
              && (forall k :: 0 <= k < |rows| ==>
                    IsReference(rows[k]) && PrintsReference(FieldsOf(LinesOf(data)[k + 1]), rows[k]))
              && (forall i, j :: 0 <= i < j < |rows| ==>
                    rows[i].side != rows[j].side || rows[i].owner != rows[j].owner
                    || rows[i].pointer != rows[j].pointer)
  {
    hide ParseReferenceRow, LinesOf, ParseTable, ReferencesHeader, IsReference, PrintsReference, FieldsOf;
    ReferencesHeaderText();
    ParseAccepts(ReferencesFormat(), data, rows);
    forall k {:trigger rows[k]} | 0 <= k < |rows| && |LinesOf(data)| == |rows| + 1
      ensures ReferencesFormat().parse(LinesOf(data)[k + 1], k + 2) == Some(rows[k]) <==>
                IsReference(rows[k]) && PrintsReference(FieldsOf(LinesOf(data)[k + 1]), rows[k])
    {
      ReferenceRowMeaning(LinesOf(data)[k + 1], rows[k]);
    }
  }

  lemma ReferencesHeaderText()
    ensures ReferencesHeader()
         == "side" + "\t" + "owner_serialized_sha256" + "\t" + "file_id" + "\t" + "path_id" + "\t" + "stable_id_sha256"
  {
    JoinFive("side", "owner_serialized_sha256", "file_id", "path_id", "stable_id_sha256");
  }
}
