/** The two tab-separated tables of the certificate job: what a text parses to, the canonical
    printer, and the theorems that parsing and printing are inverse. */
module CertificateTables {
  import opened Basics
  import opened Decimals
  import opened References

  const TABLE_MAX_SIZE: nat := 64 * 1024 * 1024
  const TABLE_MAX_ROWS: nat := 1048576

  datatype TableStatus = TableOk | InvalidHeader | InvalidRow | DuplicateRow | LimitExceeded

  // ---------- Lines and fields ----------

  /** The text up to the first occurrence of `c`, and what follows it. */
  function Before(t: string, c: char): string {
    match FirstIndex(t, c) case None => t case Some(i) => t[..i]
  }

  function After(t: string, c: char): string
    requires FirstIndex(t, c).Some?
  {
    t[FirstIndex(t, c).value + 1..]
  }

  /** One carriage return right before the line end belongs to the line end. */
  function StripReturn(line: string): string {
    if line != [] && line[|line| - 1] == '\r' then line[..|line| - 1] else line
  }

  /** The lines of a text whose last character is a line end. */
  function LinesOf(t: string): seq<string>
    decreases |t|
  {
    if FirstIndex(t, '\n').None? then [] else [StripReturn(Before(t, '\n'))] + LinesOf(After(t, '\n'))
  }

  function Unlines(lines: seq<string>): string {
    if lines == [] then [] else lines[0] + "\n" + Unlines(lines[1..])
  }

  function FieldsOf(line: string): (r: seq<string>)
    ensures |r| >= 1
    decreases |line|
  {
    if FirstIndex(line, '\t').None? then [line] else [Before(line, '\t')] + FieldsOf(After(line, '\t'))
  }

  function JoinTabs(fields: seq<string>): string
    requires |fields| >= 1
  {
    if |fields| == 1 then fields[0] else fields[0] + "\t" + JoinTabs(fields[1..])
  }

  /** The same text with every "\r\n" written "\n". */
  function Normalised(t: string): string {
    if |t| < 2 then t
    else if t[0] == '\r' && t[1] == '\n' then Normalised(t[1..])
    else [t[0]] + Normalised(t[1..])
  }

  // ---------- Rows ----------

  /** Columns: expected occurrence, content, digest, then the actual ones. */
  datatype PairRow = PairRow(lineNumber: nat, fields: seq<string>)

  const ID_CAPACITY := 96

  /** pair_row_is_valid without its four length guards. */
  predicate PairFieldsAreValid(f: seq<string>)
    requires |f| == 6
  {
    var eo, ec := ParseIdentity(f[0], 'o'), ParseIdentity(f[1], 's');
    var ao, ac := ParseIdentity(f[3], 'o'), ParseIdentity(f[4], 's');
    && eo.Some? && ec.Some? && IsHexText(f[2], 64)
    && ao.Some? && ac.Some? && IsHexText(f[5], 64)
    && eo.value.pathId == ec.value.pathId && ao.value.pathId == ac.value.pathId
    && ec.value.digest == f[2] && ac.value.digest == f[5]
  }

  predicate IdsFit(f: seq<string>)
    requires |f| == 6
  {
    |f[0]| < ID_CAPACITY && |f[1]| < ID_CAPACITY && |f[3]| < ID_CAPACITY && |f[4]| < ID_CAPACITY
  }

  /** The length guards never reject a row that passed the earlier checks. */
  lemma IdGuardsNeverReject(f: seq<string>)
    requires |f| == 6 && PairFieldsAreValid(f)
    ensures IdsFit(f)
  {
    IdentityIsShort(f[0], 'o');
    IdentityIsShort(f[1], 's');
    IdentityIsShort(f[3], 'o');
    IdentityIsShort(f[4], 's');
  }

  predicate SamePair(x: PairRow, y: PairRow)
    requires |x.fields| == |y.fields| == 6
  {
    x.fields[0] == y.fields[0] || x.fields[3] == y.fields[3]
  }

  function ParsePairRow(line: string, lineNumber: nat): (r: Option<PairRow>)
    ensures r.Some? ==> |r.value.fields| == 6
  {
    var f := FieldsOf(line);
    if |f| == 6 && PairFieldsAreValid(f) && IdsFit(f) then Some(PairRow(lineNumber, f)) else None
  }

  function ParseReferenceFields(f: seq<string>): Option<ReferenceRow>
    requires |f| == 5
  {
    if f[0] != "expected" && f[0] != "actual" then None
    else
      var owner, file, path, id := ParseHex(f[1], 32), ParseInt32(f[2]), ParseInt64(f[3]), ParseHex(f[4], 32);
      if owner.None? || file.None? || path.None? || (file.value == 0 && path.value == 0) || id.None? then None
      else
        var side := if f[0] == "expected" then ExpectedSide else ActualSide;
        Some(ReferenceRow(side, owner.value, PPtr(file.value, path.value), id.value))
  }

  /** The row values of the reference table. */
  function ParseReferenceRow(line: string): Option<ReferenceRow> {
    if |FieldsOf(line)| != 5 then None else ParseReferenceFields(FieldsOf(line))
  }

  // ---------- Tables ----------

  /** A row format: how a line parses and when two rows clash. */
  datatype Format<!T> = Format(header: string, parse: (string, nat) -> Option<T>, clash: (T, T) -> bool,
    emptyAllowed: bool)

  datatype Outcome<T> = Parsed(rows: seq<T>) | Rejected(status: TableStatus, line: nat)

  /** The loop of both parsers from line `n` on; the line after the `n` accepted ones carries number n + 1. */
  function ScanFrom<T>(f: Format<T>, lines: seq<string>, rows: seq<T>, n: nat): Outcome<T>
    requires n <= |lines|
    decreases |lines| - n
  {
    if n == |lines| then
      if rows == [] && !f.emptyAllowed then Rejected(InvalidRow, 1) else Parsed(rows)
    else if n == 0 then
      if lines[0] != f.header then Rejected(InvalidHeader, 1) else ScanFrom(f, lines, rows, 1)
    else
      var row := f.parse(lines[n], n + 1);
      if row.None? then Rejected(InvalidRow, n + 1)
      else if exists k :: 0 <= k < |rows| && f.clash(rows[k], row.value) then Rejected(DuplicateRow, n + 1)
      else if |rows| >= TABLE_MAX_ROWS then Rejected(LimitExceeded, n + 1)
      else ScanFrom(f, lines, rows + [row.value], n + 1)
  }

  /** copy_table_text and the scan; line 0 when the text itself is refused. */
  function ParseTable<T>(f: Format<T>, data: string): Outcome<T> {
    if |data| > TABLE_MAX_SIZE then Rejected(LimitExceeded, 0)
    else if |data| == 0 || data[|data| - 1] != '\n' || '\0' in data then Rejected(InvalidRow, 0)
    else ScanFrom(f, LinesOf(data), [], 0)
  }

  function PairsHeader(): string {
    JoinTabs(["expected_occurrence_id", "expected_content_id", "expected_serialized_sha256",
              "actual_occurrence_id", "actual_content_id", "actual_serialized_sha256"])
  }

  function ReferencesHeader(): string {
    JoinTabs(["side", "owner_serialized_sha256", "file_id", "path_id", "stable_id_sha256"])
  }

  function PairsFormat(): Format<PairRow> {
    Format(PairsHeader(), ParsePairRow,
           (x: PairRow, y: PairRow) => |x.fields| == |y.fields| == 6 && SamePair(x, y), false)
  }

  /** A header alone is a valid, explicitly empty reference map. */
  function ReferencesFormat(): Format<ReferenceRow> {
    Format(ReferencesHeader(), (line, n) => ParseReferenceRow(line), SameReference, true)
  }

  // ---------- What the scan accepts ----------

  ghost predicate NoClash<T>(f: Format<T>, rows: seq<T>) {
    forall i, j :: 0 <= i < j < |rows| ==> !f.clash(rows[i], rows[j])
  }

  /** Line k + 1 parses to row k. */
  ghost predicate LinesGiveRows<T>(f: Format<T>, lines: seq<string>, rows: seq<T>, n: nat)
    requires n <= |lines|
  {
    && (n > 0 ==> lines[0] == f.header)
    && |rows| == (if n == 0 then 0 else n - 1)
    && forall k {:trigger rows[k]} :: 0 <= k < |rows| ==> f.parse(lines[k + 1], k + 2) == Some(rows[k])
  }

  /** A scan that starts from `n` accepted lines parses to `all` exactly when `all` extends the rows so
      far, every line gives its row, no two rows clash and the row limit is kept. */
  lemma {:induction false} ScanAccepts<T>(f: Format<T>, lines: seq<string>, rows: seq<T>, n: nat, all: seq<T>)
    requires n <= |lines| && LinesGiveRows(f, lines, rows, n) && NoClash(f, rows) && |rows| <= TABLE_MAX_ROWS
    ensures ScanFrom(f, lines, rows, n) == Parsed(all) <==>
            && LinesGiveRows(f, lines, all, |lines|) && rows <= all && NoClash(f, all)
            && |all| <= TABLE_MAX_ROWS && (all == [] ==> f.emptyAllowed)
    decreases |lines| - n
  {
    if n == |lines| {
      if rows <= all && |all| == |rows| {
        assert all == rows;
      }
    } else if n == 0 {
      if lines[0] == f.header {
        ScanAccepts(f, lines, rows, 1, all);
      }
    } else {
      var row := f.parse(lines[n], n + 1);
      assert LinesGiveRows(f, lines, all, |lines|) ==>
          n - 1 < |all| && f.parse(lines[n - 1 + 1], n - 1 + 2) == Some(all[n - 1]);
      if row.Some? {
        var next := rows + [row.value];
        if LinesGiveRows(f, lines, all, |lines|) && rows <= all {
          assert all[n - 1] == row.value;
          assert next <= all;
        }
        if forall k :: 0 <= k < |rows| ==> !f.clash(rows[k], row.value) {
          assert NoClash(f, next);
          if |rows| < TABLE_MAX_ROWS {
            assert LinesGiveRows(f, lines, next, n + 1);
            ScanAccepts(f, lines, next, n + 1, all);
          }
        } else if LinesGiveRows(f, lines, all, |lines|) && rows <= all {
          var k :| 0 <= k < |rows| && f.clash(rows[k], row.value);
          assert all[k] == rows[k] && f.clash(all[k], all[n - 1]);
        }
      }
    }
  }

  /** A text is accepted exactly when it is complete, free of terminators and within bounds, its first
      line is the header, every other line gives its row and no two rows clash. */
  lemma ParseAccepts<T>(f: Format<T>, data: string, all: seq<T>)
    ensures ParseTable(f, data) == Parsed(all) <==>
            && 0 < |data| <= TABLE_MAX_SIZE && data[|data| - 1] == '\n' && '\0' !in data
            && LinesGiveRows(f, LinesOf(data), all, |LinesOf(data)|)
            && NoClash(f, all) && |all| <= TABLE_MAX_ROWS && (all == [] ==> f.emptyAllowed)
    ensures ParseTable(f, data) == Parsed(all) ==> |LinesOf(data)| == |all| + 1
  {
    ScanAccepts(f, LinesOf(data), [], 0, all);
  }

  /** Line `n` (from 0) is refused with status `s` after the rows `good` were taken from the lines before it. */
  ghost predicate RefusesLine<T>(f: Format<T>, lines: seq<string>, good: seq<T>, n: nat, s: TableStatus)
    requires n < |lines|
  {
    match s
    case InvalidHeader => n == 0 && lines[0] != f.header
    case InvalidRow => n > 0 && f.parse(lines[n], n + 1).None?
    case DuplicateRow => n > 0 && f.parse(lines[n], n + 1).Some? && exists k ::
      0 <= k < |good| && f.clash(good[k], f.parse(lines[n], n + 1).value)
    case LimitExceeded => n > 0 && |good| >= TABLE_MAX_ROWS
    case TableOk => false
  }

  /** A rejection names the first bad line: all lines before it were accepted.  The one exception is
      the table without rows, reported at line 1 after every line was accepted. */
  lemma {:induction false} RejectionNamesFirstBadLine<T>(f: Format<T>, lines: seq<string>, rows: seq<T>, n: nat,
                                                         s: TableStatus, line: nat)
      returns (good: seq<T>)
    requires n <= |lines| && LinesGiveRows(f, lines, rows, n) && NoClash(f, rows) && |rows| <= TABLE_MAX_ROWS
    requires ScanFrom(f, lines, rows, n) == Rejected(s, line)
    ensures NoClash(f, good) && |good| <= TABLE_MAX_ROWS
    ensures || (n < line <= |lines| && LinesGiveRows(f, lines, good, line - 1) &&
        RefusesLine(f, lines, good, line - 1, s))
            || (line == 1 && s == InvalidRow && !f.emptyAllowed && good == [] && LinesGiveRows(f, lines, good, |lines|))
    decreases |lines| - n
  {
    good := rows;
    if n == 0 && |lines| > 0 && lines[0] == f.header {
      good := RejectionNamesFirstBadLine(f, lines, rows, 1, s, line);
    } else if 0 < n < |lines| && f.parse(lines[n], n + 1).Some? {
      var row := f.parse(lines[n], n + 1).value;
      if |rows| < TABLE_MAX_ROWS && forall k :: 0 <= k < |rows| ==> !f.clash(rows[k], row) {
        good := RejectionNamesFirstBadLine(f, lines, rows + [row], n + 1, s, line);
      }
    }
  }

  // ---------- Lines and fields are inverse to joining them ----------

  lemma FirstIndexSkips(x: string, y: string, c: char)
    requires c !in x
    ensures FirstIndex(x + [c] + y, c) == Some(|x|)
  {
    var t := x + [c] + y;
    assert t[|x|] == c && forall i :: 0 <= i < |x| ==> t[i] == x[i];
  }

  lemma {:induction false} LinesOfUnlines(lines: seq<string>)
    requires forall i :: 0 <= i < |lines| ==> '\n' !in lines[i] && StripReturn(lines[i]) == lines[i]
    ensures LinesOf(Unlines(lines)) == lines
  {
    if lines != [] {
      LinesOfUnlines(lines[1..]);
      FirstIndexSkips(lines[0], Unlines(lines[1..]), '\n');
      assert Unlines(lines) == lines[0] + ['\n'] + Unlines(lines[1..]);
      assert Before(Unlines(lines), '\n') == lines[0];
      assert After(Unlines(lines), '\n') == Unlines(lines[1..]);
    }
  }

  lemma {:induction false} UnlinesOfLines(t: string)
    requires t == [] || t[|t| - 1] == '\n'
    ensures Unlines(LinesOf(t)) == Normalised(t)
    decreases |t|
  {
    if t != [] {
      var k := FirstIndex(t, '\n').value;
      var rest := t[k + 1..];
      UnlinesOfLines(rest);
      UnlinesStep(t, k);
    }
  }

  lemma UnlinesStep(t: string, k: nat)
    requires FirstIndex(t, '\n') == Some(k) && Unlines(LinesOf(t[k + 1..])) == Normalised(t[k + 1..])
    ensures Unlines(LinesOf(t)) == Normalised(t)
  {
    FirstLineOf(t, k);
    hide LinesOf, FirstIndex, StripReturn, Normalised, Unlines;
    UnlinesUnfold(LinesOf(t));
    NormalisedLine(t[..k], t[k + 1..]);
    CutAt(t, k);
  }

  lemma UnlinesUnfold(lines: seq<string>)
    requires lines != []
    ensures Unlines(lines) == lines[0] + "\n" + Unlines(lines[1..])
  {
  }

  lemma CutAt(t: string, k: nat)
    requires k < |t| && t[k] == '\n'
    ensures t[..k] + ['\n'] + t[k + 1..] == t
  {
  }

  lemma FirstLineOf(t: string, k: nat)
    requires FirstIndex(t, '\n') == Some(k)
    ensures LinesOf(t) != [] && LinesOf(t)[0] == StripReturn(t[..k]) && LinesOf(t)[1..] == LinesOf(t[k + 1..])
  {
    hide FirstIndex, StripReturn;
  }

  lemma NormalisedStep(c: char, rest: string)
    ensures Normalised([c] + rest) == if c == '\r' && rest != [] && rest[0] == '\n' then Normalised(rest)
        else [c] + Normalised(rest)
  {
    assert ([c] + rest)[1..] == rest;
  }

  lemma StripReturnStep(line: string)
    requires line != []
    ensures StripReturn(line) == if |line| > 1 || line[0] != '\r' then [line[0]] + StripReturn(line[1..]) else []
  {
  }

  lemma {:induction false} NormalisedLine(line: string, rest: string)
    requires '\n' !in line
    ensures Normalised(line + ['\n'] + rest) == StripReturn(line) + "\n" + Normalised(rest)
  {
    hide Normalised;
    if line == [] {
      NormalisedStep('\n', rest);
      assert line + ['\n'] + rest == ['\n'] + rest;
    } else {
      var more := line[1..] + ['\n'] + rest;
      assert line + ['\n'] + rest == [line[0]] + more;
      NormalisedStep(line[0], more);
      NormalisedLine(line[1..], rest);
      StripReturnStep(line);
      assert more[0] == if |line| > 1 then line[1] else '\n';
    }
  }

  lemma JoinStep(first: string, rest: seq<string>)
    requires rest != []
    ensures JoinTabs([first] + rest) == first + "\t" + JoinTabs(rest)
  {
    assert ([first] + rest)[1..] == rest;
  }

  lemma {:induction false} JoinOfFields(line: string)
    ensures JoinTabs(FieldsOf(line)) == line
    decreases |line|
  {
    if FirstIndex(line, '\t').Some? {
      var rest := FieldsOf(After(line, '\t'));
      assert FieldsOf(line) == [Before(line, '\t')] + rest;
      hide FieldsOf, JoinTabs;
      JoinOfFields(After(line, '\t'));
      JoinStep(Before(line, '\t'), rest);
      assert line == Before(line, '\t') + "\t" + After(line, '\t');
    }
  }

  lemma {:induction false} FieldsOfJoin(fields: seq<string>)
    requires |fields| >= 1 && forall i :: 0 <= i < |fields| ==> '\t' !in fields[i]
    ensures FieldsOf(JoinTabs(fields)) == fields
  {
    if |fields| == 1 {
      assert FirstIndex(fields[0], '\t').None?;
    } else {
      FieldsOfJoin(fields[1..]);
      var t := JoinTabs(fields);
      assert t == fields[0] + ['\t'] + JoinTabs(fields[1..]);
      FirstIndexSkips(fields[0], JoinTabs(fields[1..]), '\t');
      assert Before(t, '\t') == fields[0] && After(t, '\t') == JoinTabs(fields[1..]);
    }
  }

  // ---------- Printing ----------

  ghost predicate IsLine(t: string) {
    '\n' !in t && '\r' !in t && '\0' !in t
  }

  function PrintLines(header: string, lines: seq<string>): string {
    Unlines([header] + lines)
  }

  lemma {:induction false} JoinIsLine(fields: seq<string>)
    requires |fields| >= 1 && forall i :: 0 <= i < |fields| ==> IsPlain(fields[i])
    ensures IsLine(JoinTabs(fields))
  {
    if |fields| > 1 {
      JoinIsLine(fields[1..]);
    }
  }

  lemma {:induction false} UnlinesIsComplete(lines: seq<string>)
    requires forall i :: 0 <= i < |lines| ==> '\0' !in lines[i]
    ensures '\0' !in Unlines(lines)
    ensures lines != [] ==> Unlines(lines) != [] && Unlines(lines)[|Unlines(lines)| - 1] == '\n'
  {
    if lines != [] {
      UnlinesIsComplete(lines[1..]);
    }
  }

  /** Printing rows and parsing the text again: it is enough that each printed line parses to its row. */
  lemma ParsePrinted<T>(f: Format<T>, lines: seq<string>, rows: seq<T>)
    requires IsLine(f.header) && |lines| == |rows|
    requires forall k {:trigger rows[k]} {:trigger lines[k]} :: 0 <= k < |rows| ==>
        IsLine(lines[k]) && f.parse(lines[k], k + 2) == Some(rows[k])
    requires NoClash(f, rows) && |rows| <= TABLE_MAX_ROWS && (rows == [] ==> f.emptyAllowed)
    requires |PrintLines(f.header, lines)| <= TABLE_MAX_SIZE
    ensures ParseTable(f, PrintLines(f.header, lines)) == Parsed(rows)
  {
    var all := [f.header] + lines;
    forall i | 0 <= i < |all|
      ensures IsLine(all[i])
    {
      if i > 0 {
        assert all[i] == lines[i - 1];
      }
    }
    LinesOfUnlines(all);
    UnlinesIsComplete(all);
    ParseAccepts(f, Unlines(all), rows);
  }

  lemma HeadersAreLines()
    ensures IsLine(PairsHeader()) && IsLine(ReferencesHeader())
  {
    PairNamesArePlain();
    ReferenceNamesArePlain();
    hide IsPlain, JoinTabs;
    JoinIsLine(["expected_occurrence_id", "expected_content_id", "expected_serialized_sha256",
                "actual_occurrence_id", "actual_content_id", "actual_serialized_sha256"]);
    JoinIsLine(["side", "owner_serialized_sha256", "file_id", "path_id", "stable_id_sha256"]);
  }

  lemma PairNamesArePlain()
    ensures IsPlain("expected_occurrence_id") && IsPlain("expected_content_id") && IsPlain("expected_serialized_sha256")
    ensures IsPlain("actual_occurrence_id") && IsPlain("actual_content_id") && IsPlain("actual_serialized_sha256")
  {
  }

  lemma ReferenceNamesArePlain()
    ensures IsPlain("side") && IsPlain("owner_serialized_sha256") && IsPlain("file_id")
    ensures IsPlain("path_id") && IsPlain("stable_id_sha256")
  {
  }

  // ---------- Pairs ----------

  ghost predicate PairRowsAreValid(rows: seq<PairRow>) {
    && (forall k :: 0 <= k < |rows| ==>
         rows[k].lineNumber == k + 2 && |rows[k].fields| == 6 && PairFieldsAreValid(rows[k].fields))
    && NoClash(PairsFormat(), rows)
    && 0 < |rows| <= TABLE_MAX_ROWS
  }

  function PrintPairs(rows: seq<PairRow>): string
    requires forall k :: 0 <= k < |rows| ==> |rows[k].fields| == 6
  {
    PrintLines(PairsHeader(), seq(|rows|, k requires 0 <= k < |rows| => JoinTabs(rows[k].fields)))
  }

  lemma PairFieldsArePlain(f: seq<string>)
    requires |f| == 6 && PairFieldsAreValid(f)
    ensures forall i :: 0 <= i < 6 ==> IsPlain(f[i])
  {
    IdentityIsPlain(f[0], 'o');
    IdentityIsPlain(f[1], 's');
    IdentityIsPlain(f[3], 'o');
    IdentityIsPlain(f[4], 's');
  }

  lemma PairRowParses(row: PairRow)
    requires |row.fields| == 6 && PairFieldsAreValid(row.fields)
    ensures IsLine(JoinTabs(row.fields)) && ParsePairRow(JoinTabs(row.fields), row.lineNumber) == Some(row)
  {
    PairFieldsArePlain(row.fields);
    JoinIsLine(row.fields);
    FieldsOfJoin(row.fields);
    IdGuardsNeverReject(row.fields);
  }

  /** Parsing a printed, valid, duplicate-free table returns its rows in order. */
  lemma PairsParseWhatIsPrinted(rows: seq<PairRow>)
    requires PairRowsAreValid(rows) && |PrintPairs(rows)| <= TABLE_MAX_SIZE
    ensures ParseTable(PairsFormat(), PrintPairs(rows)) == Parsed(rows)
  {
    hide PairFieldsAreValid, PairsHeader;
    HeadersAreLines();
    var lines := seq(|rows|, k requires 0 <= k < |rows| => JoinTabs(rows[k].fields));
    forall k | 0 <= k < |rows|
      ensures IsLine(lines[k]) && PairsFormat().parse(lines[k], k + 2) == Some(rows[k])
    {
      PairRowParses(rows[k]);
    }
    ParsePrinted(PairsFormat(), lines, rows);
  }

  lemma ParsedPairsAreValid(data: string, rows: seq<PairRow>)
    requires ParseTable(PairsFormat(), data) == Parsed(rows)
    ensures PairRowsAreValid(rows)
  {
    hide PairFieldsAreValid;
    ParseAccepts(PairsFormat(), data, rows);
    forall k | 0 <= k < |rows|
      ensures rows[k].lineNumber == k + 2 && |rows[k].fields| == 6 && PairFieldsAreValid(rows[k].fields)
    {
      assert ParsePairRow(LinesOf(data)[k + 1], k + 2) == Some(rows[k]);
    }
  }

  /** Printing a parsed table returns the text, up to the line ends. */
  lemma PairsPrintWhatIsParsed(data: string, rows: seq<PairRow>)
    requires ParseTable(PairsFormat(), data) == Parsed(rows)
    ensures PairRowsAreValid(rows) && PrintPairs(rows) == Normalised(data)
  {
    hide PairFieldsAreValid;
    ParsedPairsAreValid(data, rows);
    ParseAccepts(PairsFormat(), data, rows);
    var lines := seq(|rows|, k requires 0 <= k < |rows| => JoinTabs(rows[k].fields));
    UnlinesOfLines(data);
    forall k | 0 <= k < |rows|
      ensures lines[k] == LinesOf(data)[k + 1]
    {
      assert ParsePairRow(LinesOf(data)[k + 1], k + 2) == Some(rows[k]);
      JoinOfFields(LinesOf(data)[k + 1]);
    }
    assert [PairsHeader()] + lines == LinesOf(data);
  }

  // ---------- References ----------

  predicate ReferenceRowIsValid(r: ReferenceRow) {
    && |r.owner| == 32 && |r.stableId| == 32 && !IsNull(r.pointer)
    && INT_MIN <= r.pointer.fileId <= INT_MAX && INT64_MIN <= r.pointer.pathId <= INT64_MAX
  }

  function ReferenceFields(r: ReferenceRow): (f: seq<string>)
    ensures |f| == 5
  {
    var side := if r.side.ExpectedSide? then "expected" else "actual";
    [side, PrintHex(r.owner), PrintInt(r.pointer.fileId), PrintInt(r.pointer.pathId), PrintHex(r.stableId)]
  }

  function ReferenceLines(rows: seq<ReferenceRow>): seq<string> {
    seq(|rows|, k requires 0 <= k < |rows| => JoinTabs(ReferenceFields(rows[k])))
  }

  function PrintReferences(rows: seq<ReferenceRow>): string {
    PrintLines(ReferencesHeader(), ReferenceLines(rows))
  }

  lemma HexIsPlain(t: string)
    requires IsHexText(t, 64)
    ensures IsPlain(t)
  {
  }

  lemma ReferenceRowParses(r: ReferenceRow)
    requires ReferenceRowIsValid(r)
    ensures IsLine(JoinTabs(ReferenceFields(r))) && ParseReferenceRow(JoinTabs(ReferenceFields(r))) == Some(r)
  {
    hide PrintInt, PrintNat, DecimalValue, NatValue, IsCanonicalDecimal, IsCanonicalNat, PrintHex, HexDigit,
         HexValue, ParseHex, FieldsOf, JoinTabs, IsHexText;
    var f := ReferenceFields(r);
    HexIsPlain(f[1]);
    HexIsPlain(f[4]);
    DecimalIsPlain(f[2]);
    DecimalIsPlain(f[3]);
    assert forall i :: 0 <= i < 5 ==> IsPlain(f[i]);
    JoinIsLine(f);
    FieldsOfJoin(f);
    HexRoundTrip(r.owner);
    HexRoundTrip(r.stableId);
  }

  ghost predicate ReferenceRowsAreValid(rows: seq<ReferenceRow>) {
    (forall k :: 0 <= k < |rows| ==> ReferenceRowIsValid(rows[k])) && NoDuplicateReference(rows) &&
      |rows| <= TABLE_MAX_ROWS
  }

  lemma ReferencesParseWhatIsPrinted(rows: seq<ReferenceRow>)
    requires ReferenceRowsAreValid(rows) && |PrintReferences(rows)| <= TABLE_MAX_SIZE
    ensures ParseTable(ReferencesFormat(), PrintReferences(rows)) == Parsed(rows)
  {
    hide ReferenceRowIsValid, ParseReferenceRow, ReferenceFields, ReferencesHeader;
    HeadersAreLines();
    var lines := ReferenceLines(rows);
    forall k | 0 <= k < |rows|
      ensures IsLine(lines[k]) && ReferencesFormat().parse(lines[k], k + 2) == Some(rows[k])
    {
      ReferenceRowParses(rows[k]);
    }
    ParsePrinted(ReferencesFormat(), lines, rows);
  }

  /** A numeric column as printing gives it back. */
  function PlainZero(t: string): string {
    if t == "-0" then "0" else t
  }

  function PlainZeros(line: string): string {
    var f := FieldsOf(line);
    if |f| == 5 then JoinTabs([f[0], f[1], PlainZero(f[2]), PlainZero(f[3]), f[4]]) else line
  }

  lemma ReferenceRowPrints(line: string)
    requires ParseReferenceRow(line).Some?
    ensures var r := ParseReferenceRow(line).value;
            ReferenceRowIsValid(r) && JoinTabs(ReferenceFields(r)) == PlainZeros(line)
  {
    var f := FieldsOf(line);
    CanonicalDecimalIsPrinted(f[2]);
    CanonicalDecimalIsPrinted(f[3]);
  }

  /** Each row of a parsed map prints as its line, "-0" apart. */
  lemma RowsPrintLines(data: string, rows: seq<ReferenceRow>)
    requires ParseTable(ReferencesFormat(), data) == Parsed(rows)
    ensures ReferenceRowsAreValid(rows) && |LinesOf(data)| == |rows| + 1 && LinesOf(data)[0] == ReferencesHeader()
    ensures |ReferenceLines(rows)| == |rows|
    ensures forall k :: 0 <= k < |rows| ==> ReferenceLines(rows)[k] == PlainZeros(LinesOf(data)[k + 1])
  {
    hide ReferenceRowIsValid, ParseReferenceRow, ReferenceFields, PlainZeros, ReferencesHeader, LinesOf, ParseTable,
         JoinTabs, FieldsOf;
    ParseAccepts(ReferencesFormat(), data, rows);
    var lines := LinesOf(data);
    forall k | 0 <= k < |rows|
      ensures ReferenceRowIsValid(rows[k]) && ReferenceLines(rows)[k] == PlainZeros(lines[k + 1])
    {
      assert ReferencesFormat().parse(lines[k + 1], k + 2) == Some(rows[k]);
      ReferenceRowPrints(lines[k + 1]);
    }
  }

  /** The lines of a reference map with every "-0" spelled "0". */
  function PlainText(data: string): seq<string> {
    var lines := LinesOf(data);
    seq(|lines|, k requires 0 <= k < |lines| => if k == 0 then lines[0] else PlainZeros(lines[k]))
  }

  lemma PlainLines(data: string)
    requires LinesOf(data) != []
    ensures |PlainText(data)| == |LinesOf(data)| && PlainText(data)[0] == LinesOf(data)[0]
    ensures forall k :: 1 <= k < |LinesOf(data)| ==> PlainText(data)[k] == PlainZeros(LinesOf(data)[k])
  {
    hide PlainZeros, LinesOf;
  }

  /** Printing a parsed map returns the text up to line ends and the spelling "-0" of zero. */
  lemma ReferencesPrintWhatIsParsed(data: string, rows: seq<ReferenceRow>)
    requires ParseTable(ReferencesFormat(), data) == Parsed(rows)
    ensures ReferenceRowsAreValid(rows) && PrintReferences(rows) == Unlines(PlainText(data))
    ensures PlainText(data) == LinesOf(data) ==> PrintReferences(rows) == Normalised(data)
  {
    hide ReferenceRowsAreValid, PlainZeros, ReferencesHeader, LinesOf, Unlines, ParseTable, ReferencesFormat, PlainText,
         ReferenceLines;
    RowsPrintLines(data, rows);
    PlainLines(data);
    ParseAccepts(ReferencesFormat(), data, rows);
    UnlinesOfLines(data);
    PrependHeader(ReferencesHeader(), ReferenceLines(rows), PlainText(data));
  }

  lemma PrependHeader(header: string, rest: seq<string>, lines: seq<string>)
    requires |lines| == |rest| + 1 && lines[0] == header
    requires forall k :: 0 <= k < |rest| ==> rest[k] == lines[k + 1]
    ensures [header] + rest == lines
  {
  }
}
