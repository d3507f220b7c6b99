/** The two table parsers as they run: a private copy of the text is cut into lines and fields in
    place, rows are appended to a pending table, and only success replaces the destination. */
module TableParser {
  import opened Basics
  import opened Decimals
  import opened References
  import opened CertificateTables

  /** At position `p` of the buffer stands the terminated string `t`. */
  ghost predicate StringAt(s: seq<char>, p: nat, t: string) {
    && p + |t| < |s| && s[p + |t|] == '\0'
    && forall i :: 0 <= i < |t| ==> t[i] == s[p + i] && t[i] != '\0'
  }

  /** Two buffers that agree from `from` on hold the same strings there. */
  ghost predicate SameFrom(s: seq<char>, t: seq<char>, from: nat) {
    |s| == |t| && forall i :: from <= i < |s| ==> s[i] == t[i]
  }

  method ReadString(buf: array<char>, p: nat, ghost t: string) returns (r: string)
    requires StringAt(buf[..], p, t)
    ensures r == t
  {
    r := [];
    var cursor := p;
    while buf[cursor] != '\0'
      invariant p <= cursor <= p + |t| < buf.Length
      invariant r == t[..cursor - p]
      invariant cursor < p + |t| ==> t[cursor - p] == buf[p + (cursor - p)] && t[cursor - p] != '\0'
      decreases p + |t| - cursor
    {
      r := r + [buf[cursor]];
      cursor := cursor + 1;
    }
  }

  /** Terminates the line at `cursor` in place and returns where the next one starts. */
  method CutLine(buf: array<char>, cursor: nat, ghost rest: string) returns (next: nat)
    requires cursor + |rest| < buf.Length && forall i :: 0 <= i < |rest| ==>
        rest[i] == buf[cursor + i] && rest[i] != '\0'
    requires FirstIndex(rest, '\n').Some?
    modifies buf
    ensures next == cursor + FirstIndex(rest, '\n').value + 1
    ensures StringAt(buf[..], cursor, StripReturn(Before(rest, '\n')))
    ensures SameFrom(buf[..], old(buf[..]), next)
  {
    ghost var k := FirstIndex(rest, '\n').value;
    assert rest[k] == buf[cursor + k];
    var newline := cursor;
    while buf[newline] != '\n'
      invariant cursor <= newline <= cursor + k
      decreases cursor + k - newline
    {
      newline := newline + 1;
    }
    assert rest[newline - cursor] == buf[cursor + (newline - cursor)];
    next := newline + 1;
    buf[newline] := '\0';
    ghost var line := rest[..k];
    if newline > cursor && buf[newline - 1] == '\r' {
      assert line[k - 1] == rest[k - 1] == old(buf[cursor + (k - 1)]);
      buf[newline - 1] := '\0';
    } else {
      assert line != [] ==> line[k - 1] == rest[k - 1] == old(buf[cursor + (k - 1)]);
    }
    forall i | 0 <= i < |StripReturn(line)|
      ensures StripReturn(line)[i] == buf[cursor + i] && StripReturn(line)[i] != '\0'
    {
      assert StripReturn(line)[i] == rest[i];
    }
  }

  /** What split_tabs has done when it reaches `cursor`: finished fields are terminated strings, the
      field under way starts at `from` and holds no tab so far. */
  ghost predicate SplitState(now: seq<char>, was: seq<char>, start: nat, line: string, cursor: nat, fields: seq<nat>,
                             done: seq<string>) {
    && |fields| == |done| + 1
    && start <= fields[|done|] <= cursor <= start + |line|
    && (forall i :: 0 <= i < |done| ==> StringAt(now, fields[i], done[i]) && fields[i] + |done[i]| < fields[|done|])
    && FieldsOf(line) == done + FieldsOf(line[fields[|done|] - start..])
    && (forall i :: fields[|done|] - start <= i < cursor - start ==> line[i] != '\t')
    && SameFrom(now, was, fields[|done|])
  }

  lemma FieldsAtTab(line: string, from: nat, k: nat)
    requires from <= k < |line| && line[k] == '\t' && forall i :: from <= i < k ==> line[i] != '\t'
    ensures FieldsOf(line[from..]) == [line[from..k]] + FieldsOf(line[k + 1..])
  {
    hide FirstIndex, FieldsOf;
    var tail := line[from..];
    forall i | 0 <= i < k - from
      ensures tail[i] != '\t'
    {
      assert tail[i] == line[from + i];
    }
    FieldsAtFirstTab(tail, k - from);
    assert tail[..k - from] == line[from..k] && tail[k - from + 1..] == line[k + 1..];
  }

  lemma FieldsAtFirstTab(tail: string, p: nat)
    requires p < |tail| && tail[p] == '\t' && forall i :: 0 <= i < p ==> tail[i] != '\t'
    ensures FieldsOf(tail) == [tail[..p]] + FieldsOf(tail[p + 1..])
  {
    hide FirstIndex;
    assert FirstIndex(tail, '\t') == Some(p);
  }

  lemma CutField(now: seq<char>, was: seq<char>, start: nat, line: string, from: nat, cursor: nat)
    requires StringAt(was, start, line) && SameFrom(now, was, from) && start <= from <= cursor < start + |line|
    ensures StringAt(now[cursor := '\0'], from, line[from - start..cursor - start])
  {
    var field, next := line[from - start..cursor - start], now[cursor := '\0'];
    forall i | 0 <= i < |field|
      ensures field[i] == next[from + i] && field[i] != '\0'
    {
      assert field[i] == line[from - start + i] == was[start + (from - start + i)];
    }
  }

  lemma KeepField(now: seq<char>, cursor: nat, at: nat, field: string)
    requires StringAt(now, at, field) && at + |field| < cursor < |now|
    ensures StringAt(now[cursor := '\0'], at, field)
  {
  }

  /** Terminating the field under way at a tab. */
  lemma SplitAtTab(now: seq<char>, was: seq<char>, start: nat, line: string, cursor: nat, fields: seq<nat>,
                   done: seq<string>)
    requires StringAt(was, start, line) && SplitState(now, was, start, line, cursor, fields, done)
    requires cursor < start + |line| && line[cursor - start] == '\t'
    ensures var from := fields[|done|];
            SplitState(now[cursor := '\0'], was, start, line, cursor + 1, fields + [cursor + 1],
                       done + [line[from - start..cursor - start]])
    ensures |FieldsOf(line)| >= |done| + 2
  {
    hide FieldsOf, StringAt;
    var from := fields[|done|];
    var field := line[from - start..cursor - start];
    FieldsAtTab(line, from - start, cursor - start);
    CutField(now, was, start, line, from, cursor);
    assert cursor < |now| by { StringFits(was, start, line); }
    forall i | 0 <= i < |done|
      ensures StringAt(now[cursor := '\0'], fields[i], done[i])
    {
      KeepField(now, cursor, fields[i], done[i]);
    }
    assert done + ([field] + FieldsOf(line[cursor + 1 - start..]))
        == (done + [field]) + FieldsOf(line[cursor + 1 - start..]);
  }

  lemma StringFits(s: seq<char>, p: nat, t: string)
    requires StringAt(s, p, t)
    ensures p + |t| < |s| && s[p + |t|] == '\0' && forall i :: 0 <= i < |t| ==> t[i] == s[p + i] && t[i] != '\0'
  {
  }

  /** The character under the cursor is the line's own, or its terminator. */
  ghost predicate CharAt(s: seq<char>, start: nat, line: string, cursor: nat) {
    start <= cursor < |s| && (cursor < start + |line| ==> s[cursor] == line[cursor - start] != '\0')
  }

  lemma StillInLine(now: seq<char>, was: seq<char>, start: nat, line: string, cursor: nat)
    requires StringAt(was, start, line) && SameFrom(now, was, cursor) && start <= cursor <= start + |line|
    ensures CharAt(now, start, line, cursor)
  {
    assert cursor < start + |line| ==> line[cursor - start] == was[start + (cursor - start)];
  }

  lemma InsideLine(s: seq<char>, start: nat, line: string, cursor: nat)
    requires CharAt(s, start, line, cursor) && s[cursor] != '\0' && start + |line| < |s| && s[start + |line|] == '\0'
    requires cursor <= start + |line|
    ensures cursor < start + |line| && line[cursor - start] == s[cursor]
  {
  }

  lemma AtTerminator(s: seq<char>, start: nat, line: string, cursor: nat)
    requires CharAt(s, start, line, cursor) && s[cursor] == '\0' && cursor <= start + |line|
    ensures cursor == start + |line|
  {
  }

  lemma SplitStarts(was: seq<char>, start: nat, line: string)
    requires StringAt(was, start, line)
    ensures SplitState(was, was, start, line, start, [start], []) && CharAt(was, start, line, start)
  {
    assert line[0..] == line;
  }

  lemma SplitGoesOn(now: seq<char>, was: seq<char>, start: nat, line: string, cursor: nat, fields: seq<nat>,
                    done: seq<string>)
    requires SplitState(now, was, start, line, cursor, fields, done)
    requires cursor < start + |line| && line[cursor - start] != '\t'
    ensures SplitState(now, was, start, line, cursor + 1, fields, done)
  {
  }

  lemma LastField(now: seq<char>, was: seq<char>, start: nat, line: string, fields: seq<nat>, done: seq<string>)
    requires StringAt(was, start, line) && SplitState(now, was, start, line, start + |line|, fields, done)
    ensures |FieldsOf(line)| == |fields| && forall k :: 0 <= k < |fields| ==>
        StringAt(now, fields[k], FieldsOf(line)[k])
  {
    var from := fields[|done|];
    var tail := line[from - start..];
    assert forall i :: 0 <= i < |tail| ==> tail[i] == line[from - start + i];
    assert FieldsOf(tail) == [tail];
    assert StringAt(now, from, tail);
  }

  /** Everything that holds of the buffer when the split has reached `cursor`. */
  ghost predicate Splits(now: seq<char>, was: seq<char>, start: nat, line: string, cursor: nat, fields: seq<nat>,
                         done: seq<string>) {
    && StringAt(was, start, line) && SplitState(now, was, start, line, cursor, fields, done)
    && SameFrom(now, was, cursor)
    && cursor <= start + |line| < |now| && now[start + |line|] == '\0' && CharAt(now, start, line, cursor)
  }

  lemma SplitsAtStart(was: seq<char>, start: nat, line: string)
    requires StringAt(was, start, line)
    ensures start < |was| && Splits(was, was, start, line, start, [start], [])
  {
    StringFits(was, start, line);
    SplitStarts(was, start, line);
  }

  lemma SplitsAtTab(now: seq<char>, was: seq<char>, start: nat, line: string, cursor: nat, fields: seq<nat>,
                    done: seq<string>)
    requires Splits(now, was, start, line, cursor, fields, done) && cursor < |now| && now[cursor] == '\t'
    ensures cursor + 1 < |now| && cursor < start + |line| && |fields| == |done| + 1 && start <= fields[|done|] <= cursor
    ensures Splits(now[cursor := '\0'], was, start, line, cursor + 1, fields + [cursor + 1],
                   done + [line[fields[|done|] - start..cursor - start]])
    ensures |FieldsOf(line)| > |fields| && SameFrom(now[cursor := '\0'], was, start + |line|)
  {
    InsideLine(now, start, line, cursor);
    SplitAtTab(now, was, start, line, cursor, fields, done);
    hide SplitState, FieldsOf, StringAt;
    assert SameFrom(now[cursor := '\0'], was, cursor + 1);
    StillInLine(now[cursor := '\0'], was, start, line, cursor + 1);
    TabIsInside(now, was, start, line, cursor, fields, done);
  }

  lemma TabIsInside(now: seq<char>, was: seq<char>, start: nat, line: string, cursor: nat, fields: seq<nat>,
                    done: seq<string>)
    requires SplitState(now, was, start, line, cursor, fields, done)
    ensures |fields| == |done| + 1 && start <= fields[|done|] <= cursor
  {
  }

  lemma SplitsBetween(now: seq<char>, was: seq<char>, start: nat, line: string, cursor: nat, fields: seq<nat>,
                      done: seq<string>)
    requires Splits(now, was, start, line, cursor, fields, done) && cursor < |now| && now[cursor] != '\t'
    requires now[cursor] != '\0'
    ensures cursor + 1 < |now| && cursor < start + |line| && Splits(now, was, start, line, cursor + 1, fields, done)
  {
    InsideLine(now, start, line, cursor);
    SplitGoesOn(now, was, start, line, cursor, fields, done);
    hide SplitState, StringAt;
    StillInLine(now, was, start, line, cursor + 1);
  }

  lemma SplitsAtEnd(now: seq<char>, was: seq<char>, start: nat, line: string, cursor: nat, fields: seq<nat>,
                    done: seq<string>)
    requires Splits(now, was, start, line, cursor, fields, done) && cursor < |now| && now[cursor] == '\0'
    ensures |FieldsOf(line)| == |fields| && forall k :: 0 <= k < |fields| ==>
        StringAt(now, fields[k], FieldsOf(line)[k])
    ensures SameFrom(now, was, start + |line|)
  {
    hide SplitState, StringAt, FieldsOf;
    AtTerminator(now, start, line, cursor);
    LastField(now, was, start, line, fields, done);
  }

  /** split_tabs: tabs become terminators; more fields than `capacity` are reported, not stored. */
  method SplitTabs(buf: array<char>, start: nat, ghost line: string, capacity: nat) returns (count: nat,
                   fields: seq<nat>)
    requires StringAt(buf[..], start, line) && capacity > 0
    modifies buf
    ensures if |FieldsOf(line)| <= capacity
            then count == |fields| == |FieldsOf(line)| && forall k :: 0 <= k < count ==>
              StringAt(buf[..], fields[k], FieldsOf(line)[k])
            else count == capacity + 1
    ensures SameFrom(buf[..], old(buf[..]), start + |line|)
  {
    hide Splits, FieldsOf, StringAt, SameFrom;
    ghost var was, done: seq<string> := buf[..], [];
    fields := [start];
    var cursor := start;
    SplitsAtStart(was, start, line);
    while buf[cursor] != '\0'
      invariant cursor < buf.Length && |fields| <= capacity
      invariant Splits(buf[..], was, start, line, cursor, fields, done)
      decreases start + |line| - cursor
    {
      if buf[cursor] == '\t' {
        SplitsAtTab(buf[..], was, start, line, cursor, fields, done);
        ghost var before := buf[..];
        if |fields| >= capacity {
          buf[cursor] := '\0';
          assert buf[..] == before[cursor := '\0'];
          return capacity + 1, fields;
        }
        done := done + [line[fields[|done|] - start..cursor - start]];
        fields := fields + [cursor + 1];
        buf[cursor] := '\0';
        assert buf[..] == before[cursor := '\0'];
      } else {
        SplitsBetween(buf[..], was, start, line, cursor, fields, done);
      }
      cursor := cursor + 1;
    }
    SplitsAtEnd(buf[..], was, start, line, cursor, fields, done);
    count := |fields|;
  }

  /** The fields of a line, read out of the buffer after the split. */
  method ReadFields(buf: array<char>, start: nat, ghost line: string, capacity: nat) returns (r: Option<seq<string>>)
    requires StringAt(buf[..], start, line) && capacity > 0
    modifies buf
    ensures r == if |FieldsOf(line)| == capacity then Some(FieldsOf(line)) else None
    ensures SameFrom(buf[..], old(buf[..]), start + |line|)
  {
    hide FieldsOf;
    var count, positions := SplitTabs(buf, start, line, capacity);
    if count != capacity { return None; }
    var fields: seq<string> := [];
    ghost var split := buf[..];
    for k := 0 to count
      invariant buf[..] == split
      invariant fields == FieldsOf(line)[..k]
    {
      var field := ReadString(buf, positions[k], FieldsOf(line)[k]);
      fields := fields + [field];
    }
    assert fields == FieldsOf(line);
    r := Some(fields);
  }

  class Table<T> {
    var rows: seq<T>

    constructor ()
      ensures rows == []
    {
      rows := [];
    }
  }

  /** The result a parser owes its caller: the rows on success, the old table and a line otherwise. */
  ghost predicate Delivers<T>(outcome: Outcome<T>, status: TableStatus, line: nat, before: seq<T>, after: seq<T>) {
    match outcome
    case Parsed(rows) => status == TableOk && line == 0 && after == rows
    case Rejected(s, n) => status == s && line == n && after == before
  }

  /** copy_table_text. */
  method CopyTableText(data: string) returns (status: TableStatus, buf: array<char>)
    ensures fresh(buf)
    ensures status == if |data| > TABLE_MAX_SIZE then LimitExceeded
                      else if |data| == 0 || data[|data| - 1] != '\n' || '\0' in data then InvalidRow else TableOk
    ensures status == TableOk ==> buf[..] == data + ['\0']
  {
    buf := new char[|data| + 1](i requires 0 <= i => if i < |data| then data[i] else '\0');
    status := if |data| > TABLE_MAX_SIZE then LimitExceeded
              else if |data| == 0 || data[|data| - 1] != '\n' || '\0' in data then InvalidRow else TableOk;
  }

  /** The part of a parser's state that does not depend on the row type. */
  ghost predicate AtLine(data: string, buf: seq<char>, cursor: nat, n: nat) {
    && |buf| == |data| + 1 && cursor <= |data| && n <= |LinesOf(data)|
    && SameFrom(buf, data + ['\0'], cursor)
    && LinesOf(data)[n..] == LinesOf(data[cursor..])
    && IsText(data)
  }

  ghost predicate IsText(data: string) {
    0 < |data| && data[|data| - 1] == '\n' && '\0' !in data
  }

  lemma LinesAfterFirst(rest: string)
    requires FirstIndex(rest, '\n').Some?
    ensures LinesOf(rest) == [StripReturn(Before(rest, '\n'))] + LinesOf(rest[FirstIndex(rest, '\n').value + 1..])
  {
    hide FirstIndex;
  }

  /** The lines that remain after the first of a rest of the text. */
  lemma RestOfLines(data: string, buf: seq<char>, cursor: nat, n: nat)
    requires AtLine(data, buf, cursor, n) && cursor < |data|
    ensures var rest := data[cursor..];
            && FirstIndex(rest, '\n').Some? && n < |LinesOf(data)|
            && LinesOf(data)[n] == StripReturn(Before(rest, '\n'))
            && LinesOf(data)[n + 1..] == LinesOf(data[cursor + FirstIndex(rest, '\n').value + 1..])
            && forall i :: 0 <= i < |rest| ==> rest[i] == buf[cursor + i] && rest[i] != '\0'
  {
    hide FirstIndex, LinesOf, StripReturn, Before;
    var rest := data[cursor..];
    assert rest[|rest| - 1] == '\n';
    LinesAfterFirst(rest);
    var k := FirstIndex(rest, '\n').value;
    assert rest[k + 1..] == data[cursor + k + 1..];
    assert LinesOf(data)[n + 1..] == LinesOf(data)[n..][1..];
  }

  /** Cuts the next line and moves on. */
  method NextLine(buf: array<char>, cursor: nat, ghost data: string, ghost n: nat) returns (next: nat)
    requires AtLine(data, buf[..], cursor, n) && cursor < |data|
    modifies buf
    ensures n < |LinesOf(data)| && StringAt(buf[..], cursor, LinesOf(data)[n])
    ensures cursor < next <= |data| && cursor + |LinesOf(data)[n]| < next
    ensures AtLine(data, buf[..], next, n + 1)
  {
    hide LinesOf;
    RestOfLines(data, buf[..], cursor, n);
    next := CutLine(buf, cursor, data[cursor..]);
  }

  lemma SplitKeepsLine(data: string, before: seq<char>, after: seq<char>, next: nat, n: nat, end: nat)
    requires AtLine(data, before, next, n) && end < next && SameFrom(after, before, end)
    ensures AtLine(data, after, next, n)
  {
  }

  lemma NoLinesLeft(data: string, buf: seq<char>, n: nat)
    requires AtLine(data, buf, |data|, n)
    ensures n == |LinesOf(data)|
  {
    assert data[|data|..] == [];
  }

  lemma FirstLine(data: string)
    requires IsText(data)
    ensures AtLine(data, data + ['\0'], 0, 0)
  {
    assert data[0..] == data;
  }

  method PairIsDuplicate(rows: seq<PairRow>, row: PairRow) returns (duplicate: bool)
    requires |row.fields| == 6 && forall k :: 0 <= k < |rows| ==> |rows[k].fields| == 6
    ensures duplicate <==> exists k :: 0 <= k < |rows| && SamePair(rows[k], row)
  {
    for index := 0 to |rows|
      invariant forall k :: 0 <= k < index ==> !SamePair(rows[k], row)
    {
      if rows[index].fields[0] == row.fields[0] || rows[index].fields[3] == row.fields[3] { return true; }
    }
    duplicate := false;
  }

  method ReferenceIsDuplicate(rows: seq<ReferenceRow>, row: ReferenceRow) returns (duplicate: bool)
    ensures duplicate <==> exists k :: 0 <= k < |rows| && SameReference(rows[k], row)
  {
    for index := 0 to |rows|
      invariant forall k :: 0 <= k < index ==> !SameReference(rows[k], row)
    {
      if SameReference(rows[index], row) { return true; }
    }
    duplicate := false;
  }

  /** release_shader_certificate_pairs_parse. */
  method ParsePairs(data: string, table: Table<PairRow>) returns (status: TableStatus, errorLine: nat)
    modifies table
    ensures Delivers(ParseTable(PairsFormat(), data), status, errorLine, old(table.rows), table.rows)
  {
    hide PairsHeader, PairFieldsAreValid, FieldsOf, LinesOf, AtLine, StringAt;
    errorLine := 0;
    var buf;
    status, buf := CopyTableText(data);
    if status != TableOk { return; }
    ghost var f, lines := PairsFormat(), LinesOf(data);
    var pending: seq<PairRow> := [];
    var cursor, line := 0, 0;
    FirstLine(data);
    while cursor < |data|
      invariant fresh(buf) && unchanged(table) && AtLine(data, buf[..], cursor, line) && cursor <= |data|
      invariant line <= |lines|
      invariant forall k :: 0 <= k < |pending| ==> |pending[k].fields| == 6
      invariant line == 0 ==> pending == []
      invariant ScanFrom(f, lines, [], 0) == ScanFrom(f, lines, pending, line)
      decreases |data| - cursor
    {
      var next := NextLine(buf, cursor, data, line);
      if line == 0 {
        var header := ReadString(buf, cursor, lines[0]);
        if header != PairsHeader() { return InvalidHeader, 1; }
      } else {
        ghost var before := buf[..];
        var fields := ReadFields(buf, cursor, lines[line], 6);
        SplitKeepsLine(data, before, buf[..], next, line + 1, cursor + |lines[line]|);
        assert f.parse(lines[line], line + 1) == ParsePairRow(lines[line], line + 1);
        if fields.None? || !PairFieldsAreValid(fields.value) || !IdsFit(fields.value) { return InvalidRow, line + 1; }
        var row := PairRow(line + 1, fields.value);
        var duplicate := PairIsDuplicate(pending, row);
        if duplicate { return DuplicateRow, line + 1; }
        if |pending| >= TABLE_MAX_ROWS { return LimitExceeded, line + 1; }
        pending := pending + [row];
      }
      line := line + 1;
      cursor := next;
    }
    NoLinesLeft(data, buf[..], line);
    if |pending| == 0 {
      assert pending == [] && ScanFrom(f, lines, pending, line) == Rejected(InvalidRow, 1);
      return InvalidRow, 1;
    }
    table.rows := pending;
  }

  /** release_shader_certificate_reference_map_parse. */
  method ParseReferences(data: string, table: Table<ReferenceRow>) returns (status: TableStatus, errorLine: nat)
    modifies table
    ensures Delivers(ParseTable(ReferencesFormat(), data), status, errorLine, old(table.rows), table.rows)
  {
    hide ReferencesHeader, FieldsOf, LinesOf, AtLine, StringAt, ParseReferenceFields;
    errorLine := 0;
    var buf;
    status, buf := CopyTableText(data);
    if status != TableOk { return; }
    ghost var f, lines := ReferencesFormat(), LinesOf(data);
    var pending: seq<ReferenceRow> := [];
    var cursor, line := 0, 0;
    FirstLine(data);
    while cursor < |data|
      invariant fresh(buf) && unchanged(table) && AtLine(data, buf[..], cursor, line) && cursor <= |data|
      invariant line <= |lines|
      invariant line == 0 ==> pending == []
      invariant ScanFrom(f, lines, [], 0) == ScanFrom(f, lines, pending, line)
      decreases |data| - cursor
    {
      var next := NextLine(buf, cursor, data, line);
      if line == 0 {
        var header := ReadString(buf, cursor, lines[0]);
        if header != ReferencesHeader() { return InvalidHeader, 1; }
      } else {
        ghost var before := buf[..];
        var fields := ReadFields(buf, cursor, lines[line], 5);
        SplitKeepsLine(data, before, buf[..], next, line + 1, cursor + |lines[line]|);
        assert f.parse(lines[line], line + 1) == ParseReferenceRow(lines[line]);
        if fields.None? {
          assert f.parse(lines[line], line + 1).None?;
          return InvalidRow, line + 1;
        }
        var row := ParseReferenceFields(fields.value);
        if row.None? { return InvalidRow, line + 1; }
        var duplicate := ReferenceIsDuplicate(pending, row.value);
        assert forall k :: 0 <= k < |pending| ==>
            f.clash(pending[k], row.value) == SameReference(pending[k], row.value);
        if duplicate {
          assert ScanFrom(f, lines, pending, line) == Rejected(DuplicateRow, line + 1);
          return DuplicateRow, line + 1;
        }
        if |pending| >= TABLE_MAX_ROWS { return LimitExceeded, line + 1; }
        pending := pending + [row.value];
      }
      line := line + 1;
      cursor := next;
    }
    NoLinesLeft(data, buf[..], line);
    table.rows := pending;
  }

  /** Whatever a successful parse leaves in the table is duplicate-free. */
  lemma ParsedReferencesAreUnique(data: string, rows: seq<ReferenceRow>)
    requires ParseTable(ReferencesFormat(), data) == Parsed(rows)
    ensures NoDuplicateReference(rows)
  {
    ParseAccepts(ReferencesFormat(), data, rows);
  }
}
