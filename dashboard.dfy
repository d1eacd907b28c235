/**
 * The dashboard of app.py: the parsed tables are concatenated into one
 * history, the history is cleaned up (one row per subject, the one with the
 * most points, ordered by term and subject), and the backlog list, the term
 * tabs with their SGPA and the final CGPA are read off it.
 */
module Dashboard {
  import opened Wrappers
  import opened Text
  import opened Grades
  import opened Ordering
  import opened Aggregator

  // ----- The order of the history -----

  /** The order of `sort_values(by=['Semester', 'Subject'])`. */
  predicate KeyLess(a: Record, b: Record) {
    StrLess(a.semester, b.semester) || (a.semester == b.semester && StrLess(a.subject, b.subject))
  }

  lemma KeyLessTransitive(a: Record, b: Record, c: Record)
    requires KeyLess(a, b) && KeyLess(b, c)
    ensures KeyLess(a, c)
  {
    if StrLess(a.semester, b.semester) && StrLess(b.semester, c.semester) {
      StrLessTransitive(a.semester, b.semester, c.semester);
    } else if a.semester == b.semester && b.semester == c.semester {
      StrLessTransitive(a.subject, b.subject, c.subject);
    }
  }

  /** Rows with different subjects are always ordered one way or the other. */
  lemma KeyLessTotal(a: Record, b: Record)
    requires a.subject != b.subject
    ensures KeyLess(a, b) || KeyLess(b, a)
  {
    StrLessTotal(a.semester, b.semester);
    StrLessTotal(a.subject, b.subject);
  }

  lemma KeyLessIrreflexive(a: Record)
    ensures !KeyLess(a, a)
  {
    StrLessIrreflexive(a.semester);
    StrLessIrreflexive(a.subject);
  }

  lemma KeyLessIsAsymmetric()
    ensures Asymmetric(KeyLess)
  {
    forall a, b ensures KeyLess(a, b) ==> !KeyLess(b, a) {
      if KeyLess(a, b) && KeyLess(b, a) {
        KeyLessTransitive(a, b, a);
        KeyLessIrreflexive(a);
      }
    }
  }

  // ----- Cleanup -----

  /** Each subject appears at most once. */
  predicate SubjectsUnique(rows: seq<Record>) {
    forall i, j | 0 <= i < j < |rows| :: rows[i].subject != rows[j].subject
  }

  /** What sorting by Points and dropping repeated subjects leaves: rows of
      the merged table, one per subject, the same subjects as the merged
      table, and for each subject a row with the most points among the
      merged rows of that subject. Which row wins a tie is left open. */
  ghost predicate Deduplicated(merged: seq<Record>, kept: seq<Record>)
    ensures Deduplicated(merged, kept) ==> (kept == [] <==> merged == [])
  {
    DeduplicatedEmpty(merged, kept);
    && SubjectsUnique(kept)
    && (forall h | h in kept :: h in merged)
    && (forall s :: s in Subjects(kept) <==> s in Subjects(merged))
    && (forall h, r | h in kept && r in merged && r.subject == h.subject :: r.points <= h.points)
  }

  lemma DeduplicatedEmpty(merged: seq<Record>, kept: seq<Record>)
    ensures && SubjectsUnique(kept)
            && (forall h | h in kept :: h in merged)
            && (forall s :: s in Subjects(kept) <==> s in Subjects(merged))
            ==> (kept == [] <==> merged == [])
  {
    if merged != [] && (forall s :: s in Subjects(kept) <==> s in Subjects(merged)) {
      assert Subjects(merged)[0] in Subjects(merged);
    }
    if kept != [] && (forall h | h in kept :: h in merged) {
      assert kept[0] in kept;
    }
  }

  lemma SubjectOfRow(rows: seq<Record>, r: Record)
    requires r in rows
    ensures r.subject in Subjects(rows)
  {
    var i :| 0 <= i < |rows| && rows[i] == r;
    assert Subjects(rows)[i] == r.subject;
  }

  lemma RowOfSubject(rows: seq<Record>, s: string) returns (r: Record)
    requires s in Subjects(rows)
    ensures r in rows && r.subject == s
  {
    var i :| 0 <= i < |rows| && Subjects(rows)[i] == s;
    r := rows[i];
  }

  /** The position of the row with `subject`, or `|rows|` when there is none. */
  function FindSubject(rows: seq<Record>, subject: string): (j: nat)
    ensures j <= |rows|
    ensures j < |rows| ==> rows[j].subject == subject
    ensures forall k | 0 <= k < j :: rows[k].subject != subject
    decreases |rows|
  {
    if rows == [] then 0
    else if rows[0].subject == subject then 0
    else 1 + FindSubject(rows[1..], subject)
  }

  /** `sort_values(by='Points', ascending=False)` followed by
      `drop_duplicates(subset=['Subject'], keep='first')`, by its effect:
      one row per subject with the most points. */
  method KeepBest(merged: seq<Record>) returns (best: seq<Record>)
    ensures Deduplicated(merged, best)
  {
    best := [];
    for i := 0 to |merged|
      invariant SubjectsUnique(best)
      invariant forall h | h in best :: h in merged[..i]
      invariant forall s :: s in Subjects(best) <==> s in Subjects(merged[..i])
      invariant forall h, r | h in best && r in merged[..i] && r.subject == h.subject :: r.points <= h.points
    {
      var r := merged[i];
      assert merged[..i + 1] == merged[..i] + [r];
      assert Subjects(merged[..i + 1]) == Subjects(merged[..i]) + [r.subject];
      var j := FindSubject(best, r.subject);
      if j == |best| {
        AppendKeepsBest(best, r, merged[..i]);
        best := best + [r];
      } else if r.points > best[j].points {
        ReplaceKeepsBest(best, j, r, merged[..i]);
        best := best[j := r];
      } else {
        SkipKeepsBest(best, j, r, merged[..i]);
      }
    }
    assert merged[..|merged|] == merged;
  }

  /** The step of `KeepBest` where a row brings a new subject. */
  lemma AppendKeepsBest(best: seq<Record>, r: Record, seen: seq<Record>)
    requires forall k | 0 <= k < |best| :: best[k].subject != r.subject
    requires SubjectsUnique(best)
    requires forall h | h in best :: h in seen
    requires forall s :: s in Subjects(best) <==> s in Subjects(seen)
    requires forall h, x | h in best && x in seen && x.subject == h.subject :: x.points <= h.points
    ensures var best' := best + [r];
      && SubjectsUnique(best')
      && (forall h | h in best' :: h in seen + [r])
      && (forall s :: s in Subjects(best') <==> s in Subjects(seen + [r]))
      && (forall h, x | h in best' && x in seen + [r] && x.subject == h.subject :: x.points <= h.points)
  {
    var best' := best + [r];
    assert Subjects(best') == Subjects(best) + [r.subject];
    assert Subjects(seen + [r]) == Subjects(seen) + [r.subject];
    assert r.subject !in Subjects(best);
    forall h, x | h in best' && x in seen + [r] && x.subject == h.subject ensures x.points <= h.points {
      if h == r && x != r {
        assert x in seen;
        SubjectOfRow(seen, x);
      } else if h != r && x == r {
        assert h in best;
        SubjectOfRow(best, h);
      }
    }
  }

  /** The step of `KeepBest` where a row does not beat the kept row of its
      subject. */
  lemma SkipKeepsBest(best: seq<Record>, j: nat, r: Record, seen: seq<Record>)
    requires j < |best| && best[j].subject == r.subject && r.points <= best[j].points
    requires SubjectsUnique(best)
    requires forall h | h in best :: h in seen
    requires forall s :: s in Subjects(best) <==> s in Subjects(seen)
    requires forall h, x | h in best && x in seen && x.subject == h.subject :: x.points <= h.points
    ensures forall h | h in best :: h in seen + [r]
    ensures forall s :: s in Subjects(best) <==> s in Subjects(seen + [r])
    ensures forall h, x | h in best && x in seen + [r] && x.subject == h.subject :: x.points <= h.points
  {
    assert Subjects(seen + [r]) == Subjects(seen) + [r.subject];
    assert Subjects(best)[j] == r.subject;
    forall h, x | h in best && x in seen + [r] && x.subject == h.subject ensures x.points <= h.points {
      if x == r {
        assert best[j] in best;
        SameSubjectSameRow(best, h, best[j]);
      }
    }
  }

  /** The step of `KeepBest` where a row beats the kept row of its
      subject. */
  lemma ReplaceKeepsBest(best: seq<Record>, j: nat, r: Record, seen: seq<Record>)
    requires j < |best| && best[j].subject == r.subject && r.points > best[j].points
    requires SubjectsUnique(best)
    requires forall h | h in best :: h in seen
    requires forall s :: s in Subjects(best) <==> s in Subjects(seen)
    requires forall h, x | h in best && x in seen && x.subject == h.subject :: x.points <= h.points
    ensures var best' := best[j := r];
      && SubjectsUnique(best')
      && (forall h | h in best' :: h in seen + [r])
      && (forall s :: s in Subjects(best') <==> s in Subjects(seen + [r]))
      && (forall h, x | h in best' && x in seen + [r] && x.subject == h.subject :: x.points <= h.points)
  {
    var best' := best[j := r];
    assert Subjects(best') == Subjects(best)[j := r.subject];
    assert Subjects(seen + [r]) == Subjects(seen) + [r.subject];
    assert r.subject in Subjects(best) by {
      assert Subjects(best)[j] == r.subject;
    }
    forall s ensures s in Subjects(best') <==> s in Subjects(best) {
      if s in Subjects(best) {
        var k :| 0 <= k < |best| && Subjects(best)[k] == s;
        if k == j {
          assert Subjects(best')[j] == s;
        } else {
          assert Subjects(best')[k] == s;
        }
      }
    }
    forall h | h in best' ensures h in seen + [r] {
      var k :| 0 <= k < |best'| && best'[k] == h;
      if k != j {
        assert best[k] in best;
      }
    }
    forall h, x | h in best' && x in seen + [r] && x.subject == h.subject ensures x.points <= h.points {
      var k :| 0 <= k < |best'| && best'[k] == h;
      if k == j {
        if x != r {
          assert best[j] in best;
        }
      } else {
        assert best[k] in best;
        assert best[k].subject != best[j].subject;
      }
    }
  }

  /** In a table where each subject appears once, two rows with the same
      subject are the same row. */
  lemma SameSubjectSameRow(rows: seq<Record>, a: Record, b: Record)
    requires SubjectsUnique(rows)
    requires a in rows && b in rows && a.subject == b.subject
    ensures a == b
  {
    var i :| 0 <= i < |rows| && rows[i] == a;
    var j :| 0 <= j < |rows| && rows[j] == b;
  }

  /** Adds a row to a history sorted by term and subject, keeping it so;
      the row's subject must be new. */
  function InsertByKey(s: seq<Record>, x: Record): (r: seq<Record>)
    requires StrictlySortedBy(KeyLess, s)
    requires forall y | y in s :: y.subject != x.subject
    ensures StrictlySortedBy(KeyLess, r)
    ensures forall y :: y in r <==> y in s || y == x
    decreases |s|
  {
    if s == [] then [x]
    else if KeyLess(x, s[0]) then
      assert StrictlySortedBy(KeyLess, [x] + s) by {
        forall j | 0 <= j < |s| ensures KeyLess(x, s[j]) {
          if j > 0 { KeyLessTransitive(x, s[0], s[j]); }
        }
      }
      [x] + s
    else
      assert forall y | y in s[1..] :: y in s;
      var tail := InsertByKey(s[1..], x);
      assert StrictlySortedBy(KeyLess, [s[0]] + tail) by {
        assert s[0] in s;
        KeyLessTotal(x, s[0]);
        forall y | y in tail ensures KeyLess(s[0], y) {
          if y != x {
            var j :| 1 <= j < |s| && s[j] == y;
          }
        }
      }
      [s[0]] + tail
  }

  /** A history strictly sorted by term and subject in which rows sharing a
      subject are the same row has each subject once. */
  lemma SortedSubjectsUnique(rows: seq<Record>)
    requires StrictlySortedBy(KeyLess, rows)
    requires forall a, b | a in rows && b in rows && a.subject == b.subject :: a == b
    ensures SubjectsUnique(rows)
  {
    forall i, j | 0 <= i < j < |rows| ensures rows[i].subject != rows[j].subject {
      KeyLessIrreflexive(rows[i]);
    }
  }

  /** `sort_values(by=['Semester', 'Subject'])` on rows with distinct
      subjects. */
  method SortByKey(rows: seq<Record>) returns (sorted: seq<Record>)
    requires SubjectsUnique(rows)
    ensures StrictlySortedBy(KeyLess, sorted)
    ensures SubjectsUnique(sorted)
    ensures forall y :: y in sorted <==> y in rows
  {
    sorted := [];
    for k := 0 to |rows|
      invariant StrictlySortedBy(KeyLess, sorted)
      invariant forall y :: y in sorted <==> y in rows[..k]
    {
      assert rows[..k + 1] == rows[..k] + [rows[k]];
      forall y | y in sorted ensures y.subject != rows[k].subject {
        var i :| 0 <= i < k && rows[i] == y;
      }
      sorted := InsertByKey(sorted, rows[k]);
    }
    assert rows[..|rows|] == rows;
    forall a, b | a in sorted && b in sorted && a.subject == b.subject ensures a == b {
      SameSubjectSameRow(rows, a, b);
    }
    SortedSubjectsUnique(sorted);
  }

  /** The cleanup of app.py: keep the best row of each subject, then order
      the history by term and subject. */
  method Cleanup(merged: seq<Record>) returns (history: seq<Record>)
    ensures Deduplicated(merged, history)
    ensures StrictlySortedBy(KeyLess, history)
  {
    var best := KeepBest(merged);
    history := SortByKey(best);
    DeduplicatedSameRows(merged, best, history);
  }

  /** Only the rows of a deduplicated table matter, not their order. */
  lemma DeduplicatedSameRows(merged: seq<Record>, kept: seq<Record>, other: seq<Record>)
    requires Deduplicated(merged, kept)
    requires SubjectsUnique(other) && forall y :: y in other <==> y in kept
    ensures Deduplicated(merged, other)
  {
    forall h | h in other ensures h in merged {
      assert h in kept;
    }
    forall s ensures s in Subjects(other) <==> s in Subjects(kept) {
      if s in Subjects(other) {
        var h := RowOfSubject(other, s);
        SubjectOfRow(kept, h);
      }
      if s in Subjects(kept) {
        var h := RowOfSubject(kept, s);
        SubjectOfRow(other, h);
      }
    }
    forall h, r | h in other && r in merged && r.subject == h.subject ensures r.points <= h.points {
      assert h in kept;
    }
  }

  /** When no subject repeats, the cleanup removes nothing. */
  lemma NothingRemovedWhenDistinct(merged: seq<Record>, kept: seq<Record>)
    requires SubjectsUnique(merged)
    requires Deduplicated(merged, kept)
    ensures forall x :: x in kept <==> x in merged
  {
    forall x | x in merged ensures x in kept {
      SubjectOfRow(merged, x);
      var h := RowOfSubject(kept, x.subject);
      SameSubjectSameRow(merged, h, x);
    }
  }

  /** The cleaned-up history of a table without repeated subjects is the
      table's own rows sorted by term and subject, whatever the cleanup
      chose: it is fixed by its rows. */
  lemma HistoryOfDistinctSubjects(merged: seq<Record>, history: seq<Record>, sorted: seq<Record>)
    requires SubjectsUnique(merged)
    requires Deduplicated(merged, history) && StrictlySortedBy(KeyLess, history)
    requires StrictlySortedBy(KeyLess, sorted) && forall x :: x in sorted <==> x in merged
    ensures history == sorted
  {
    NothingRemovedWhenDistinct(merged, history);
    KeyLessIsAsymmetric();
    SortedBySameElementsEqual(KeyLess, history, sorted);
  }

  /** A subject passed in any memo is no longer a backlog: when a merged row
      of that subject has points, the history's row of that subject has at
      least as many, so its grade is not a failure. */
  lemma ClearedSubjectIsNotBacklog(merged: seq<Record>, history: seq<Record>, passed: Record)
    requires forall r | r in merged :: WellFormed(r)
    requires Deduplicated(merged, history)
    requires passed in merged && passed.points > 0
    ensures forall h | h in Failed(history) :: h.subject != passed.subject
  {
    GradePointsRange();
    FailedMembers(history);
    forall h | h in Failed(history) ensures h.subject != passed.subject {
      assert h in history && h in merged;
      if h.subject == passed.subject {
        assert false;
      }
    }
  }

  /** A subject passed with COMPLETED or Y ties with its F at 0 points, so
      the cleanup may keep either row: the F can stay a backlog. */
  lemma PassMarkerTiesWithFail(fail: Record, pass: Record)
    requires fail.subject == pass.subject && fail != pass
    requires fail.grade == "F" && WellFormed(fail) && IsPassMarker(pass.grade) && WellFormed(pass)
    ensures Deduplicated([fail, pass], [fail]) && Deduplicated([fail, pass], [pass])
    ensures Failed([fail]) == [fail] && Failed([pass]) == []
  {
    GradePointsRange();
    assert Subjects([fail]) == [fail.subject] && Subjects([pass]) == [pass.subject];
    assert Subjects([fail, pass]) == [fail.subject, pass.subject];
    assert Failed([fail]) == [fail] + Failed([]);
    assert Failed([pass]) == [] + Failed([]);
  }

  // ----- The dashboard -----

  /** `pd.concat(all_semesters_data, ignore_index=True)`. */
  function Concat(tables: seq<seq<Record>>): (rows: seq<Record>)
    ensures forall r | r in rows :: exists t | t in tables :: r in t
    ensures forall t, r | t in tables && r in t :: r in rows
    decreases |tables|
  {
    if tables == [] then [] else Concat(tables[..|tables| - 1]) + tables[|tables| - 1]
  }

  /** `all_semesters_data`: the tables of the memos that parsed, in upload
      order. */
  function Collected(tables: seq<Option<seq<Record>>>): seq<seq<Record>>
    decreases |tables|
  {
    if tables == [] then []
    else
      var last := tables[|tables| - 1];
      Collected(tables[..|tables| - 1]) + (if last.Some? then [last.value] else [])
  }

  lemma {:induction false} CollectedEmpty(tables: seq<Option<seq<Record>>>)
    ensures Collected(tables) == [] <==> forall k | 0 <= k < |tables| :: tables[k].None?
    decreases |tables|
  {
    if tables != [] {
      var init := tables[..|tables| - 1];
      CollectedEmpty(init);
      assert forall k | 0 <= k < |init| :: init[k] == tables[k];
    }
  }

  /** The Semester column. */
  function SemesterColumn(rows: seq<Record>): seq<string> {
    seq(|rows|, k requires 0 <= k < |rows| => rows[k].semester)
  }

  /** `sorted(full_history['Semester'].unique())`: the tab labels. */
  function Tabs(history: seq<Record>): (tabs: seq<string>)
    ensures StrictlySortedBy(StrLess, tabs)
    ensures forall sem :: sem in tabs <==> sem in SemesterColumn(history)
  {
    SortedDistinct(SemesterColumn(history))
  }

  /** `full_history[full_history['Semester'] == sem]`. */
  function TabRows(history: seq<Record>, sem: string): (rows: seq<Record>)
    ensures |rows| <= |history|
    decreases |history|
  {
    if history == [] then []
    else (if history[0].semester == sem then [history[0]] else []) + TabRows(history[1..], sem)
  }

  /** A tab shows exactly the history's rows of its term. */
  lemma {:induction false} TabRowsMembers(history: seq<Record>, sem: string)
    ensures forall r | r in TabRows(history, sem) :: r in history && r.semester == sem
    ensures forall r | r in history && r.semester == sem :: r in TabRows(history, sem)
    decreases |history|
  {
    if history != [] {
      TabRowsMembers(history[1..], sem);
      assert history == [history[0]] + history[1..];
    }
  }

  /** One tab per term of the history and none other; every row is shown
      under the tab of its term, and no tab is empty. */
  lemma TabsCoverHistory(history: seq<Record>)
    ensures forall r | r in history :: r.semester in Tabs(history) && r in TabRows(history, r.semester)
    ensures forall sem | sem in Tabs(history) :: TabRows(history, sem) != []
  {
    var column := SemesterColumn(history);
    forall r | r in history ensures r.semester in Tabs(history) && r in TabRows(history, r.semester) {
      var i :| 0 <= i < |history| && history[i] == r;
      assert column[i] == r.semester;
      TabRowsMembers(history, r.semester);
    }
    forall sem | sem in Tabs(history) ensures TabRows(history, sem) != [] {
      var i :| 0 <= i < |column| && column[i] == sem;
      assert history[i] in history;
      TabRowsMembers(history, sem);
    }
  }

  /** The final CGPA: the credit-weighted mean of the points of the
      history's rows that are not pass markers, rounded to hundredths; 0.0
      unless those rows carry a positive credit total. */
  function Cgpa(history: seq<Record>): (g: real)
    ensures (g * 100.0).Floor as real == g * 100.0
    ensures CreditTotal(Academic(history)) <= 0.0 ==> g == 0.0
    ensures CreditTotal(Academic(history)) > 0.0 ==>
      g - 0.005 <= PointTotal(Academic(history)) / CreditTotal(Academic(history)) < g + 0.005
  {
    var academic := Academic(history);
    var credits := CreditTotal(academic);
    if credits > 0.0 then Round2(PointTotal(academic) / credits) else 0.0
  }

  lemma {:induction false} CreditTotalNonNegative(rows: seq<Record>)
    requires forall r | r in rows :: r.credits >= 0.0
    ensures CreditTotal(rows) >= 0.0
    decreases |rows|
  {
    if rows != [] {
      assert rows[0] in rows;
      assert forall r | r in rows[1..] :: r in rows;
      CreditTotalNonNegative(rows[1..]);
    }
  }

  /** With credits that are not negative, the two guards (`> 0` here, `== 0`
      in `calculate_sgpa`) agree and the CGPA is the SGPA of the whole
      history; for well-formed rows it lies between 0 and 10. */
  lemma CgpaIsSgpaOfHistory(history: seq<Record>)
    requires forall r | r in history :: r.credits >= 0.0
    ensures Cgpa(history) == Sgpa(history)
    ensures (forall r | r in history :: WellFormed(r)) ==> 0.0 <= Cgpa(history) <= 10.0
  {
    AcademicMembers(history);
    CreditTotalNonNegative(Academic(history));
    if forall r | r in history :: WellFormed(r) {
      WellFormedPoints(history);
      SgpaRange(history);
    }
  }

  /** A row with negative credits (possible only from a hand-made table)
      tells the two guards apart: the SGPA of the row is its grade's points,
      the CGPA is 0.0. */
  lemma GuardsDifferOnNegativeCredits()
    ensures var rows := [Record("", "", "1-1", "Maths", "A", -1.0, 9)];
      Sgpa(rows) == 9.0 && Cgpa(rows) == 0.0
  {
    var rows := [Record("", "", "1-1", "Maths", "A", -1.0, 9)];
    assert Academic(rows) == rows;
    assert CreditTotal(rows) == -1.0;
    assert PointTotal(rows) == -9.0;
    assert Round2(9.0) == 9.0;
  }

  /** What the dashboard shows: the cleaned-up history, the backlog rows,
      the tab labels with each tab's SGPA, the credit total and the CGPA.
      The number of terms shown is the number of tabs. */
  datatype Board = Board(
    history: seq<Record>,
    backlogs: seq<Record>,
    tabs: seq<string>,
    tabSgpa: seq<real>,
    totalCredits: real,
    cgpa: real)

  /** The dashboard of app.py over the results of the uploaded memos
      (`None` for a memo that gave no rows): nothing is shown when no memo
      gave a table. */
  method BuildDashboard(tables: seq<Option<seq<Record>>>) returns (board: Option<Board>)
    ensures board.None? <==> forall k | 0 <= k < |tables| :: tables[k].None?
    ensures board.Some? ==>
      var b := board.value;
      && Deduplicated(Concat(Collected(tables)), b.history)
      && StrictlySortedBy(KeyLess, b.history)
      && b.backlogs == Failed(b.history)
      && b.tabs == Tabs(b.history)
      && |b.tabSgpa| == |b.tabs|
      && (forall k | 0 <= k < |b.tabs| :: b.tabSgpa[k] == Sgpa(TabRows(b.history, b.tabs[k])))
      && b.totalCredits == CreditTotal(Academic(b.history))
      && b.cgpa == Cgpa(b.history)
  {
    var collected: seq<seq<Record>> := [];
    for f := 0 to |tables|
      invariant collected == Collected(tables[..f])
    {
      assert tables[..f + 1][..f] == tables[..f];
      if tables[f].Some? {
        collected := collected + [tables[f].value];
      }
    }
    assert tables[..|tables|] == tables;
    CollectedEmpty(tables);
    if collected == [] {
      return None;
    }
    var history := Cleanup(Concat(collected));
    var tabs := Tabs(history);
    var tabSgpa: seq<real> := [];
    for k := 0 to |tabs|
      invariant |tabSgpa| == k
      invariant forall j | 0 <= j < k :: tabSgpa[j] == Sgpa(TabRows(history, tabs[j]))
    {
      tabSgpa := tabSgpa + [Sgpa(TabRows(history, tabs[k]))];
    }
    board := Some(Board(history, Failed(history), tabs, tabSgpa, CreditTotal(Academic(history)), Cgpa(history)));
  }
}
