/**
 * `parse_pdf`: the scan over every line of every page, carrying the roll
 * number and student name found so far and collecting the result rows,
 * then the backfill of the identity onto every row. The text of each page
 * is an input; a page with no text is skipped.
 *
 * What a line contributes does not depend on the state of the scan, so a
 * line is first read (`Read`: its roll-number match, its name, its record
 * with the identity left blank) and the reading is then applied to the
 * state (`Step`), which stamps the record with the identity in force.
 */
module Extractor {
  import opened Wrappers
  import opened Text
  import opened Grades
  import opened LineParser

  /** The placeholder identity before a roll number or name is found. */
  const Unknown: string := "Unknown"

  /** What one line gives the scan. */
  datatype Reading = Reading(roll: Option<string>, name: Option<string>, row: Option<Record>)

  /** The reading of a raw line, after cleaning; the record carries an
      empty identity. A roll-number match is never the placeholder, and a
      record is always well formed. */
  function Read(line: string): (rd: Reading)
    ensures rd.roll.Some? ==> rd.roll.value != Unknown
    ensures rd.row.Some? ==> WellFormed(rd.row.value) && rd.row.value.rollNo == "" && rd.row.value.studentName == ""
  {
    var clean := CleanLine(line);
    var roll := RollSearch(clean);
    assert roll.Some? ==> roll.value[0] != Unknown[0];
    RowRule(SplitWords(clean), "", "");
    Reading(roll, NameFound(clean), RecognizeRow(SplitWords(clean), "", ""))
  }

  /** The readings of a sequence of lines. */
  function Readings(lines: seq<string>): (rds: seq<Reading>)
    ensures |rds| == |lines|
  {
    seq(|lines|, k requires 0 <= k < |lines| => Read(lines[k]))
  }

  /** The loop state of `parse_pdf`: `roll_no`, `student_name`, `data`. */
  datatype ScanState = ScanState(rollNo: string, studentName: string, rows: seq<Record>)

  const Start: ScanState := ScanState(Unknown, Unknown, [])

  /** The lines of one page: `text.split('\n')`, none for an empty page. */
  function PageLines(text: string): seq<string> {
    if text == "" then [] else SplitOn(text, '\n')
  }

  /** Every line of every page, in order. */
  function AllLines(pages: seq<string>): seq<string>
    decreases |pages|
  {
    if pages == [] then [] else AllLines(pages[..|pages| - 1]) + PageLines(pages[|pages| - 1])
  }

  /** One pass of the line loop: the roll number is taken only while it is
      still unknown, the name whenever the line gives one, and the row is
      recorded with the identity in force after both. */
  function Step(st: ScanState, rd: Reading): (next: ScanState)
    ensures st.rollNo != Unknown ==> next.rollNo == st.rollNo
    ensures rd.name.None? ==> next.studentName == st.studentName
    ensures next.rows == st.rows || (rd.row.Some? && |next.rows| == |st.rows| + 1 && next.rows[..|st.rows|] == st.rows)
  {
    var roll := if st.rollNo == Unknown && rd.roll.Some? then rd.roll.value else st.rollNo;
    var name := if rd.name.Some? then rd.name.value else st.studentName;
    ScanState(roll, name, if rd.row.Some? then st.rows + [rd.row.value.(rollNo := roll, studentName := name)] else st.rows)
  }

  /** One line of the loop: a roll number not yet found is taken from the
      line's match, a line that gives a name sets it, and the line's record
      is appended stamped with the identity in force after the line. */
  lemma StepRule(st: ScanState, rd: Reading)
    ensures var next := Step(st, rd);
      && (st.rollNo == Unknown && rd.roll.Some? ==> next.rollNo == rd.roll.value)
      && (st.rollNo == Unknown && rd.roll.None? ==> next.rollNo == Unknown)
      && (rd.name.Some? ==> next.studentName == rd.name.value)
      && (rd.row.Some? ==> next.rows == st.rows + [rd.row.value.(rollNo := next.rollNo, studentName := next.studentName)])
      && (rd.row.None? ==> next.rows == st.rows)
  {
  }

  /** A line that gives the name "Unknown" puts the placeholder back: rows
      recorded before it keep the earlier name, and the backfill, switched
      off by the placeholder, leaves the two names side by side. */
  lemma NameResetExample(r: Record)
    ensures var named := Step(Start, Reading(None, Some("RAVI KUMAR"), Some(r)));
      var reset := Step(named, Reading(None, Some(Unknown), Some(r)));
      && reset.studentName == Unknown
      && |reset.rows| == 2
      && reset.rows[0].studentName == "RAVI KUMAR" && reset.rows[1].studentName == Unknown
      && FillName(reset.rows, reset.studentName) == reset.rows
  {
  }

  /** The line loop over the readings `rds`, from the state `st`. */
  function Scan(st: ScanState, rds: seq<Reading>): (final: ScanState)
    ensures |st.rows| <= |final.rows| <= |st.rows| + |rds|
    ensures final.rows[..|st.rows|] == st.rows
    decreases |rds|
  {
    if rds == [] then st else Step(Scan(st, rds[..|rds| - 1]), rds[|rds| - 1])
  }

  /** `df['RollNo'] = roll_no`, done only when a roll number was found. */
  function FillRoll(rows: seq<Record>, rollNo: string): (filled: seq<Record>)
    ensures |filled| == |rows|
    ensures forall k | 0 <= k < |rows| :: filled[k].(rollNo := rows[k].rollNo) == rows[k]
    ensures rollNo != Unknown ==> forall r | r in filled :: r.rollNo == rollNo
    ensures rollNo == Unknown ==> filled == rows
  {
    if rollNo == Unknown then rows
    else seq(|rows|, k requires 0 <= k < |rows| => rows[k].(rollNo := rollNo))
  }

  /** `df['StudentName'] = student_name`, done only when a name was found. */
  function FillName(rows: seq<Record>, studentName: string): (filled: seq<Record>)
    ensures |filled| == |rows|
    ensures forall k | 0 <= k < |rows| :: filled[k].(studentName := rows[k].studentName) == rows[k]
    ensures studentName != Unknown ==> forall r | r in filled :: r.studentName == studentName
    ensures studentName == Unknown ==> filled == rows
  {
    if studentName == Unknown then rows
    else seq(|rows|, k requires 0 <= k < |rows| => rows[k].(studentName := studentName))
  }

  /** The state after every line of the document. */
  function Final(pages: seq<string>): ScanState {
    Scan(Start, Readings(AllLines(pages)))
  }

  /** What `parse_pdf` returns: `None` when no line gave a row, else the
      rows with the identity backfilled. */
  function ParseSpec(pages: seq<string>): (table: Option<seq<Record>>)
    ensures table.Some? ==> table.value != [] && |table.value| == |Final(pages).rows|
  {
    var st := Final(pages);
    if st.rows == [] then None else Some(FillName(FillRoll(st.rows, st.rollNo), st.studentName))
  }

  /** The body of the line loop of `parse_pdf`. */
  method ScanLine(rollNo: string, studentName: string, data: seq<Record>, line: string)
    returns (rollNo': string, studentName': string, data': seq<Record>)
    ensures ScanState(rollNo', studentName', data') == Step(ScanState(rollNo, studentName, data), Read(line))
  {
    var clean := CleanLine(line);
    rollNo', studentName', data' := rollNo, studentName, data;
    if rollNo == Unknown {
      var found := RollSearch(clean);
      if found.Some? {
        rollNo' := found.value;
      }
    }
    var name := NameFound(clean);
    if name.Some? {
      studentName' := name.value;
    }
    var row := ExtractRow(clean, rollNo', studentName');
    RowIgnoresIdentity(SplitWords(clean), "", "", rollNo', studentName');
    if row.Some? {
      data' := data + [row.value];
    }
  }

  /** The line loop over the lines of one page. */
  method ScanPage(rollNo: string, studentName: string, data: seq<Record>, lines: seq<string>)
    returns (rollNo': string, studentName': string, data': seq<Record>)
    ensures ScanState(rollNo', studentName', data') == Scan(ScanState(rollNo, studentName, data), Readings(lines))
  {
    ghost var st := ScanState(rollNo, studentName, data);
    rollNo', studentName', data' := rollNo, studentName, data;
    for l := 0 to |lines|
      invariant ScanState(rollNo', studentName', data') == Scan(st, Readings(lines[..l]))
    {
      rollNo', studentName', data' := ScanLine(rollNo', studentName', data', lines[l]);
      ReadingsSnoc(lines, l);
      ScanSnoc(st, Readings(lines[..l]), Read(lines[l]));
    }
    assert lines[..|lines|] == lines;
  }

  /** `parse_pdf` as the source runs it. */
  method ParsePdf(pages: seq<string>) returns (table: Option<seq<Record>>)
    ensures table == ParseSpec(pages)
  {
    var data: seq<Record> := [];
    var studentName := Unknown;
    var rollNo := Unknown;
    for p := 0 to |pages|
      invariant ScanState(rollNo, studentName, data) == Scan(Start, Readings(AllLines(pages[..p])))
    {
      var text := pages[p];
      ghost var done := AllLines(pages[..p]);
      assert pages[..p + 1][..p] == pages[..p];
      assert AllLines(pages[..p + 1]) == done + PageLines(text);
      ReadingsAppend(done, PageLines(text));
      if text != "" {
        rollNo, studentName, data := ScanPage(rollNo, studentName, data, SplitOn(text, '\n'));
        ScanAppend(Start, Readings(done), Readings(PageLines(text)));
      } else {
        assert Readings(done) + Readings(PageLines(text)) == Readings(done);
      }
    }
    assert pages[..|pages|] == pages;
    if data == [] {
      return None;
    }
    // The two column assignments of the backfill.
    var filled := FillRoll(data, rollNo);
    return Some(FillName(filled, studentName));
  }

  // ----- Properties of the scan -----

  lemma ReadingsSnoc(lines: seq<string>, l: nat)
    requires l < |lines|
    ensures Readings(lines[..l + 1]) == Readings(lines[..l]) + [Read(lines[l])]
  {
    assert lines[..l + 1] == lines[..l] + [lines[l]];
  }

  lemma ReadingsAppend(a: seq<string>, b: seq<string>)
    ensures Readings(a + b) == Readings(a) + Readings(b)
  {
    var ab, ra, rb := a + b, Readings(a), Readings(b);
    forall k | 0 <= k < |ab| ensures Readings(ab)[k] == (ra + rb)[k] {
      if k < |a| {
        assert ab[k] == a[k];
      } else {
        assert ab[k] == b[k - |a|];
      }
    }
  }

  lemma ScanSnoc(st: ScanState, rds: seq<Reading>, rd: Reading)
    ensures Scan(st, rds + [rd]) == Step(Scan(st, rds), rd)
  {
    var all := rds + [rd];
    assert all[..|all| - 1] == rds;
  }

  lemma {:induction false} ScanAppend(st: ScanState, a: seq<Reading>, b: seq<Reading>)
    ensures Scan(st, a + b) == Scan(Scan(st, a), b)
    decreases |b|
  {
    if b == [] {
      assert a + b == a;
    } else {
      var ab := a + b;
      assert ab[..|ab| - 1] == a + b[..|b| - 1];
      assert ab[|ab| - 1] == b[|b| - 1];
      ScanAppend(st, a, b[..|b| - 1]);
    }
  }

  lemma SplitAround<T>(s: seq<T>, k: nat)
    requires k < |s|
    ensures s[..k + 1] == s[..k] + [s[k]]
    ensures s == s[..k + 1] + s[k + 1..]
    ensures forall j | 0 <= j < k :: s[..k][j] == s[j]
  {
  }

  lemma {:induction false} RollKeptWithoutMatch(st: ScanState, rds: seq<Reading>)
    requires forall k | 0 <= k < |rds| :: rds[k].roll.None?
    ensures Scan(st, rds).rollNo == st.rollNo
    decreases |rds|
  {
    if rds != [] {
      RollKeptWithoutMatch(st, rds[..|rds| - 1]);
    }
  }

  lemma {:induction false} RollFrozenOnceFound(st: ScanState, rds: seq<Reading>)
    requires st.rollNo != Unknown
    ensures Scan(st, rds).rollNo == st.rollNo
    decreases |rds|
  {
    if rds != [] {
      RollFrozenOnceFound(st, rds[..|rds| - 1]);
    }
  }

  /** The roll number after the earliest reading with a match is that
      match, and it stays. */
  lemma RollFromEarliestMatch(rds: seq<Reading>, k: nat)
    requires k < |rds| && rds[k].roll.Some? && rds[k].roll.value != Unknown
    requires forall j | 0 <= j < k :: rds[j].roll.None?
    ensures Scan(Start, rds).rollNo == rds[k].roll.value
  {
    var upTo, rest := rds[..k + 1], rds[k + 1..];
    SplitAround(rds, k);
    RollKeptWithoutMatch(Start, rds[..k]);
    ScanSnoc(Start, rds[..k], rds[k]);
    RollFrozenOnceFound(Scan(Start, upTo), rest);
    ScanAppend(Start, upTo, rest);
  }

  /** The roll number is the first match in the document: the match on the
      earliest line that has one, whatever later lines hold; "Unknown" when
      no line has one. */
  lemma RollIsFirstMatch(lines: seq<string>)
    ensures (forall k | 0 <= k < |lines| :: Read(lines[k]).roll.None?) ==> Scan(Start, Readings(lines)).rollNo == Unknown
    ensures forall k | 0 <= k < |lines| && Read(lines[k]).roll.Some? && (forall j | 0 <= j < k :: Read(lines[j]).roll.None?) ::
      Scan(Start, Readings(lines)).rollNo == Read(lines[k]).roll.value
  {
    var rds := Readings(lines);
    if forall k | 0 <= k < |lines| :: Read(lines[k]).roll.None? {
      RollKeptWithoutMatch(Start, rds);
    }
    forall k | 0 <= k < |lines| && Read(lines[k]).roll.Some? && (forall j | 0 <= j < k :: Read(lines[j]).roll.None?)
      ensures Scan(Start, rds).rollNo == Read(lines[k]).roll.value
    {
      RollFromEarliestMatch(rds, k);
    }
  }

  lemma {:induction false} NameKeptWithoutMatch(st: ScanState, rds: seq<Reading>)
    requires forall k | 0 <= k < |rds| :: rds[k].name.None?
    ensures Scan(st, rds).studentName == st.studentName
    decreases |rds|
  {
    if rds != [] {
      NameKeptWithoutMatch(st, rds[..|rds| - 1]);
    }
  }

  /** The name after the latest reading with a name is that name. */
  lemma NameFromLatestMatch(st: ScanState, rds: seq<Reading>, k: nat)
    requires k < |rds| && rds[k].name.Some?
    requires forall j | k < j < |rds| :: rds[j].name.None?
    ensures Scan(st, rds).studentName == rds[k].name.value
  {
    var upTo, rest := rds[..k + 1], rds[k + 1..];
    SplitAround(rds, k);
    ScanSnoc(st, rds[..k], rds[k]);
    assert forall j | 0 <= j < |rest| :: rest[j] == rds[k + 1 + j];
    NameKeptWithoutMatch(Scan(st, upTo), rest);
    ScanAppend(st, upTo, rest);
  }

  /** The name has no such guard: it is the name given by the LAST line
      that gives one, and stays as it was when no line gives one. */
  lemma NameIsLastMatch(st: ScanState, lines: seq<string>)
    ensures (forall k | 0 <= k < |lines| :: Read(lines[k]).name.None?) ==> Scan(st, Readings(lines)).studentName == st.studentName
    ensures forall k | 0 <= k < |lines| && Read(lines[k]).name.Some? && (forall j | k < j < |lines| :: Read(lines[j]).name.None?) ::
      Scan(st, Readings(lines)).studentName == Read(lines[k]).name.value
  {
    var rds := Readings(lines);
    if forall k | 0 <= k < |lines| :: Read(lines[k]).name.None? {
      NameKeptWithoutMatch(st, rds);
    }
    forall k | 0 <= k < |lines| && Read(lines[k]).name.Some? && (forall j | k < j < |lines| :: Read(lines[j]).name.None?)
      ensures Scan(st, rds).studentName == Read(lines[k]).name.value
    {
      NameFromLatestMatch(st, rds, k);
    }
  }

  /** Every row collected so far is well formed and carries either
      "Unknown" or the roll number in force. */
  ghost predicate RowsConsistent(st: ScanState) {
    forall r | r in st.rows :: WellFormed(r) && (r.rollNo == Unknown || r.rollNo == st.rollNo)
  }

  lemma {:induction false} ScanKeepsRowsConsistent(st: ScanState, rds: seq<Reading>)
    requires RowsConsistent(st)
    requires forall k | 0 <= k < |rds| :: rds[k].row.Some? ==> WellFormed(rds[k].row.value)
    ensures RowsConsistent(Scan(st, rds))
    decreases |rds|
  {
    if rds != [] {
      var init, rd := rds[..|rds| - 1], rds[|rds| - 1];
      ScanKeepsRowsConsistent(st, init);
      var prev := Scan(st, init);
      var next := Step(prev, rd);
      assert forall r | r in next.rows :: r in prev.rows || (rd.row.Some? && r == rd.row.value.(rollNo := next.rollNo, studentName := next.studentName));
    }
  }

  /** The identity of a parsed document: every row is well formed and
      carries the document's final roll number (the first match, or
      "Unknown" on every row when there is none), including rows read
      before the roll number appeared; when a name was found, every row
      carries the last one found. */
  lemma ParsedIdentity(pages: seq<string>)
    requires ParseSpec(pages).Some?
    ensures var final := Final(pages);
      forall r | r in ParseSpec(pages).value ::
        && WellFormed(r)
        && r.rollNo == final.rollNo
        && (final.studentName != Unknown ==> r.studentName == final.studentName)
    ensures var lines := AllLines(pages);
      (forall k | 0 <= k < |lines| :: Read(lines[k]).name.None?) ==>
        forall r | r in ParseSpec(pages).value :: r.studentName == Unknown
  {
    ParsedRowsConsistent(pages);
    var lines := AllLines(pages);
    if forall k | 0 <= k < |lines| :: Read(lines[k]).name.None? {
      ParsedNameless(pages);
    }
  }

  lemma ParsedRowsConsistent(pages: seq<string>)
    requires ParseSpec(pages).Some?
    ensures var final := Final(pages);
      forall r | r in ParseSpec(pages).value ::
        && WellFormed(r)
        && r.rollNo == final.rollNo
        && (final.studentName != Unknown ==> r.studentName == final.studentName)
  {
    var final := Final(pages);
    ScanKeepsRowsConsistent(Start, Readings(AllLines(pages)));
    BackfillIdentity(final.rows, final.rollNo, final.studentName);
  }

  /** The backfill leaves every row well formed, stamps a found roll number
      and name on every row, and leaves "Unknown" roll numbers "Unknown". */
  lemma BackfillIdentity(rows: seq<Record>, rollNo: string, studentName: string)
    requires forall r | r in rows :: WellFormed(r) && (r.rollNo == Unknown || r.rollNo == rollNo)
    ensures forall r | r in FillName(FillRoll(rows, rollNo), studentName) ::
      && WellFormed(r)
      && r.rollNo == rollNo
      && (studentName != Unknown ==> r.studentName == studentName)
  {
    var rolled := FillRoll(rows, rollNo);
    assert forall r | r in rolled :: WellFormed(r) && r.rollNo == rollNo by {
      forall r | r in rolled ensures WellFormed(r) && r.rollNo == rollNo {
        var k :| 0 <= k < |rolled| && rolled[k] == r;
        assert rows[k] in rows;
      }
    }
    var filled := FillName(rolled, studentName);
    forall r | r in filled ensures WellFormed(r) && r.rollNo == rollNo {
      var k :| 0 <= k < |filled| && filled[k] == r;
      assert rolled[k] in rolled;
    }
  }

  lemma ParsedNameless(pages: seq<string>)
    requires ParseSpec(pages).Some?
    requires forall k | 0 <= k < |Readings(AllLines(pages))| :: Readings(AllLines(pages))[k].name.None?
    ensures forall r | r in ParseSpec(pages).value :: r.studentName == Unknown
  {
    var final := Final(pages);
    NamelessScan(Start, Readings(AllLines(pages)));
    var rolled := FillRoll(final.rows, final.rollNo);
    forall r | r in ParseSpec(pages).value ensures r.studentName == Unknown {
      var k :| 0 <= k < |rolled| && rolled[k] == r;
      assert final.rows[k] in final.rows;
    }
  }

  /** Without a line that gives a name, the name stays "Unknown" and so do
      the names of every row collected. */
  lemma {:induction false} NamelessScan(st: ScanState, rds: seq<Reading>)
    requires st.studentName == Unknown && forall r | r in st.rows :: r.studentName == Unknown
    requires forall k | 0 <= k < |rds| :: rds[k].name.None?
    ensures Scan(st, rds).studentName == Unknown
    ensures forall r | r in Scan(st, rds).rows :: r.studentName == Unknown
    decreases |rds|
  {
    if rds != [] {
      var init := rds[..|rds| - 1];
      NamelessScan(st, init);
    }
  }

  // ----- Which rows a document yields -----

  /** A row without its identity columns. */
  function Anonymous(r: Record): Record {
    r.(rollNo := "", studentName := "")
  }

  function AnonymousRows(rows: seq<Record>): (a: seq<Record>)
    ensures |a| == |rows|
  {
    seq(|rows|, k requires 0 <= k < |rows| => Anonymous(rows[k]))
  }

  /** The records the readings hold, without identity, in line order:
      what the table holds apart from the identity columns. */
  function RowsRead(rds: seq<Reading>): seq<Record>
    decreases |rds|
  {
    if rds == [] then []
    else
      var rd := rds[|rds| - 1];
      RowsRead(rds[..|rds| - 1]) + (if rd.row.Some? then [Anonymous(rd.row.value)] else [])
  }

  lemma {:induction false} ScanCollectsRows(st: ScanState, rds: seq<Reading>)
    ensures AnonymousRows(Scan(st, rds).rows) == AnonymousRows(st.rows) + RowsRead(rds)
    decreases |rds|
  {
    if rds != [] {
      var init, rd := rds[..|rds| - 1], rds[|rds| - 1];
      ScanCollectsRows(st, init);
      var prev := Scan(st, init);
      if rd.row.Some? {
        var stamped := Step(prev, rd).rows[|prev.rows|];
        assert Anonymous(stamped) == Anonymous(rd.row.value);
        assert AnonymousRows(prev.rows + [stamped]) == AnonymousRows(prev.rows) + [Anonymous(stamped)];
      }
    }
  }

  /** Apart from the identity columns, the table is exactly the records of
      the lines that yield one, in line order; and `None` comes back exactly
      when no line yields one. */
  lemma ParsedRows(pages: seq<string>)
    ensures var expected := RowsRead(Readings(AllLines(pages)));
      && (ParseSpec(pages).None? <==> expected == [])
      && (ParseSpec(pages).Some? ==> AnonymousRows(ParseSpec(pages).value) == expected)
  {
    var final := Final(pages);
    var expected := RowsRead(Readings(AllLines(pages)));
    ScanCollectsRows(Start, Readings(AllLines(pages)));
    assert AnonymousRows(Start.rows) + expected == expected;
    var filled := FillName(FillRoll(final.rows, final.rollNo), final.studentName);
    assert AnonymousRows(filled) == AnonymousRows(final.rows);
  }
}
