/**
 * `calculate_results`: the result table grouped by roll number, one line
 * per roll number in ascending order, with the backlog count, the SGPA and
 * the failed subjects of that roll number's rows.
 */
module Aggregator {
  import opened Text
  import opened Grades
  import opened Ordering

  /** One line of the result table: the group key and the columns Backlogs,
      SGPA and Failed_Subjects. */
  datatype StudentResult = StudentResult(rollNo: string, backlogs: nat, sgpa: real, failedSubjects: string)

  /** `rows[rows['Grade'].isin(['F', 'AB', 'M'])]`: the backlog rows, in
      row order. */
  function Failed(rows: seq<Record>): (failed: seq<Record>)
    ensures |failed| <= |rows|
    decreases |rows|
  {
    if rows == [] then []
    else (if IsFailureGrade(rows[0].grade) then [rows[0]] else []) + Failed(rows[1..])
  }

  /** The backlog rows are exactly the rows graded F, AB or M. */
  lemma {:induction false} FailedMembers(rows: seq<Record>)
    ensures |Failed(rows)| <= |rows|
    ensures forall r | r in Failed(rows) :: r in rows && IsFailureGrade(r.grade)
    ensures forall r | r in rows && IsFailureGrade(r.grade) :: r in Failed(rows)
    decreases |rows|
  {
    if rows != [] {
      FailedMembers(rows[1..]);
      assert rows == [rows[0]] + rows[1..];
    }
  }

  /** The Subject column. */
  function Subjects(rows: seq<Record>): seq<string> {
    seq(|rows|, k requires 0 <= k < |rows| => rows[k].subject)
  }

  /** The rows of one roll number, in row order. */
  function Group(rows: seq<Record>, rollNo: string): (g: seq<Record>)
    ensures |g| <= |rows|
    ensures forall r | r in g :: r in rows && r.rollNo == rollNo
    ensures forall r | r in rows && r.rollNo == rollNo :: r in g
    decreases |rows|
  {
    if rows == [] then []
    else (if rows[0].rollNo == rollNo then [rows[0]] else []) + Group(rows[1..], rollNo)
  }

  /** The RollNo column. */
  function RollColumn(rows: seq<Record>): seq<string> {
    seq(|rows|, k requires 0 <= k < |rows| => rows[k].rollNo)
  }

  /** The group keys: the distinct roll numbers in ascending order. */
  function RollNumbers(rows: seq<Record>): seq<string> {
    SortedDistinct(RollColumn(rows))
  }

  /** The result line of one group. */
  function Summary(rollNo: string, group: seq<Record>): StudentResult {
    StudentResult(rollNo, |Failed(group)|, Sgpa(group), Join(", ", Subjects(Failed(group))))
  }

  function Summaries(keys: seq<string>, rows: seq<Record>): (results: seq<StudentResult>)
    ensures |results| == |keys|
    decreases |keys|
  {
    if keys == [] then [] else [Summary(keys[0], Group(rows, keys[0]))] + Summaries(keys[1..], rows)
  }

  /** `calculate_results`: one result line per distinct roll number. */
  function CalculateResults(rows: seq<Record>): (results: seq<StudentResult>)
    ensures |results| == |RollNumbers(rows)|
    ensures rows == [] <==> results == []
  {
    RollsOfEmpty(rows);
    Summaries(RollNumbers(rows), rows)
  }

  /** A table has roll numbers exactly when it has rows. */
  lemma RollsOfEmpty(rows: seq<Record>)
    ensures rows == [] <==> RollNumbers(rows) == []
  {
    if rows != [] {
      assert RollColumn(rows)[0] in RollColumn(rows);
    }
  }

  lemma {:induction false} SummariesAt(keys: seq<string>, rows: seq<Record>, k: nat)
    requires k < |keys|
    ensures Summaries(keys, rows)[k] == Summary(keys[k], Group(rows, keys[k]))
    decreases k
  {
    if k > 0 {
      SummariesAt(keys[1..], rows, k - 1);
    }
  }

  /** The group keys of a result table. */
  function Keys(results: seq<StudentResult>): seq<string> {
    seq(|results|, k requires 0 <= k < |results| => results[k].rollNo)
  }

  lemma KeysOfResults(rows: seq<Record>)
    ensures Keys(CalculateResults(rows)) == RollNumbers(rows)
  {
    var keys := RollNumbers(rows);
    forall k | 0 <= k < |keys| ensures Keys(CalculateResults(rows))[k] == keys[k] {
      SummariesAt(keys, rows, k);
    }
  }

  /** One result line per roll number that occurs in the table, none for
      any other, in strictly ascending roll-number order; each line counts
      the backlog rows of its roll number, lists their subjects in row order
      joined by ", ", and holds the SGPA of its rows. */
  lemma CalculateResultsSpec(rows: seq<Record>)
    ensures var results := CalculateResults(rows);
      && (forall i, j | 0 <= i < j < |results| :: StrLess(results[i].rollNo, results[j].rollNo))
      && (forall roll :: roll in Keys(results) <==> roll in RollColumn(rows))
      && (forall k | 0 <= k < |results| ::
            var group := Group(rows, results[k].rollNo);
            && results[k].backlogs == |Failed(group)|
            && results[k].sgpa == Sgpa(group)
            && results[k].failedSubjects == Join(", ", Subjects(Failed(group))))
  {
    var keys := RollNumbers(rows);
    var results := CalculateResults(rows);
    KeysOfResults(rows);
    forall k | 0 <= k < |results| ensures results[k] == Summary(keys[k], Group(rows, keys[k])) {
      SummariesAt(keys, rows, k);
    }
    forall i, j | 0 <= i < j < |results| ensures StrLess(results[i].rollNo, results[j].rollNo) {
      assert results[i].rollNo == Keys(results)[i] && results[j].rollNo == Keys(results)[j];
    }
  }

  /** A table whose rows all carry one roll number, as a parsed memo's do,
      gives exactly one result line, for the whole table. */
  lemma SingleStudent(rows: seq<Record>, rollNo: string)
    requires rows != []
    requires forall r | r in rows :: r.rollNo == rollNo
    ensures CalculateResults(rows) == [Summary(rollNo, rows)]
  {
    var rolls := RollColumn(rows);
    var keys := RollNumbers(rows);
    assert rows[0] in rows;
    assert forall y :: y in keys <==> y == rollNo;
    StrLessIsAsymmetric();
    SortedBySameElementsEqual(StrLess, keys, [rollNo]);
    GroupOfUniform(rows, rollNo);
  }

  lemma {:induction false} GroupOfUniform(rows: seq<Record>, rollNo: string)
    requires forall r | r in rows :: r.rollNo == rollNo
    ensures Group(rows, rollNo) == rows
    decreases |rows|
  {
    if rows != [] {
      assert rows[0] in rows;
      assert forall r | r in rows[1..] :: r in rows;
      GroupOfUniform(rows[1..], rollNo);
      assert rows == [rows[0]] + rows[1..];
    }
  }

  // ----- Backlogs add up -----

  function TotalBacklogs(results: seq<StudentResult>): nat
    decreases |results|
  {
    if results == [] then 0 else results[0].backlogs + TotalBacklogs(results[1..])
  }

  /** The sizes of the groups of `keys`, summed. */
  function GroupSizes(keys: seq<string>, rows: seq<Record>): nat
    decreases |keys|
  {
    if keys == [] then 0 else |Group(rows, keys[0])| + GroupSizes(keys[1..], rows)
  }

  /** How often `v` occurs in `keys`. */
  function Hits(keys: seq<string>, v: string): nat
    decreases |keys|
  {
    if keys == [] then 0 else (if keys[0] == v then 1 else 0) + Hits(keys[1..], v)
  }

  lemma {:induction false} FailedOfGroup(rows: seq<Record>, rollNo: string)
    ensures Failed(Group(rows, rollNo)) == Group(Failed(rows), rollNo)
    decreases |rows|
  {
    if rows != [] {
      FailedOfGroup(rows[1..], rollNo);
      var x := rows[0];
      var head := if x.rollNo == rollNo then [x] else [];
      FailedAppend(head, Group(rows[1..], rollNo));
      var fhead := if IsFailureGrade(x.grade) then [x] else [];
      GroupAppend(fhead, Failed(rows[1..]), rollNo);
    }
  }

  lemma {:induction false} FailedAppend(a: seq<Record>, b: seq<Record>)
    ensures Failed(a + b) == Failed(a) + Failed(b)
    decreases |a|
  {
    if a != [] {
      assert (a + b)[1..] == a[1..] + b;
      FailedAppend(a[1..], b);
    } else {
      assert a + b == b;
    }
  }

  lemma {:induction false} GroupAppend(a: seq<Record>, b: seq<Record>, rollNo: string)
    ensures Group(a + b, rollNo) == Group(a, rollNo) + Group(b, rollNo)
    decreases |a|
  {
    if a != [] {
      assert (a + b)[1..] == a[1..] + b;
      GroupAppend(a[1..], b, rollNo);
    } else {
      assert a + b == b;
    }
  }

  lemma {:induction false} SummariesBacklogs(keys: seq<string>, rows: seq<Record>)
    ensures TotalBacklogs(Summaries(keys, rows)) == GroupSizes(keys, Failed(rows))
    decreases |keys|
  {
    if keys != [] {
      FailedOfGroup(rows, keys[0]);
      SummariesBacklogs(keys[1..], rows);
      var s := Summaries(keys, rows);
      assert s[1..] == Summaries(keys[1..], rows);
    }
  }

  lemma {:induction false} GroupSizesEmpty(keys: seq<string>)
    ensures GroupSizes(keys, []) == 0
    decreases |keys|
  {
    if keys != [] {
      GroupSizesEmpty(keys[1..]);
    }
  }

  lemma {:induction false} GroupSizesCons(keys: seq<string>, x: Record, rest: seq<Record>)
    ensures GroupSizes(keys, [x] + rest) == Hits(keys, x.rollNo) + GroupSizes(keys, rest)
    decreases |keys|
  {
    if keys != [] {
      GroupSizesCons(keys[1..], x, rest);
      assert ([x] + rest)[1..] == rest;
    }
  }

  lemma {:induction false} HitsAbsent(keys: seq<string>, v: string)
    requires v !in keys
    ensures Hits(keys, v) == 0
    decreases |keys|
  {
    if keys != [] {
      HitsAbsent(keys[1..], v);
    }
  }

  lemma {:induction false} HitsOnce(keys: seq<string>, v: string)
    requires StrictlySortedBy(StrLess, keys)
    requires v in keys
    ensures Hits(keys, v) == 1
    decreases |keys|
  {
    if keys[0] == v {
      forall j | 1 <= j < |keys| ensures keys[j] != v {
        assert StrLess(keys[0], keys[j]);
        StrLessIrreflexive(v);
      }
      HitsAbsent(keys[1..], v);
    } else {
      HitsOnce(keys[1..], v);
    }
  }

  /** Strictly increasing keys that cover every roll number of the rows
      split the rows without loss or overlap. */
  lemma {:induction false} GroupSizesPartition(keys: seq<string>, rows: seq<Record>)
    requires StrictlySortedBy(StrLess, keys)
    requires forall r | r in rows :: r.rollNo in keys
    ensures GroupSizes(keys, rows) == |rows|
    decreases |rows|
  {
    if rows == [] {
      GroupSizesEmpty(keys);
    } else {
      assert rows == [rows[0]] + rows[1..];
      assert rows[0] in rows;
      assert forall r | r in rows[1..] :: r in rows;
      GroupSizesCons(keys, rows[0], rows[1..]);
      HitsOnce(keys, rows[0].rollNo);
      GroupSizesPartition(keys, rows[1..]);
    }
  }

  /** Every backlog row is counted in exactly one result line: the backlog
      counts of the result table add up to the backlog rows of the input. */
  lemma BacklogsAddUp(rows: seq<Record>)
    ensures TotalBacklogs(CalculateResults(rows)) == |Failed(rows)|
  {
    var keys := RollNumbers(rows);
    var rolls := RollColumn(rows);
    SummariesBacklogs(keys, rows);
    FailedMembers(rows);
    forall r | r in Failed(rows) ensures r.rollNo in keys {
      var i :| 0 <= i < |rows| && rows[i] == r;
      assert rolls[i] == r.rollNo;
    }
    GroupSizesPartition(keys, Failed(rows));
  }
}
