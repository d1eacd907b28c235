/**
 * The demo data set of app.py run through the dashboard: six rows of one
 * student over three terms, two of them backlogs.
 */
module Demo {
  import opened Wrappers
  import opened Grades
  import opened Ordering
  import opened Aggregator
  import opened Dashboard

  const Roll: string := "22HJ1A4311"
  const Name: string := "LEKKALA DIVAKAR REDDY"

  const Python: Record := Record(Roll, Name, "1-1", "Python", "B", 3.0, 8)
  const MathsI: Record := Record(Roll, Name, "1-1", "Maths-I", "A", 3.0, 9)
  const Physics: Record := Record(Roll, Name, "1-1", "Physics", "F", 3.0, 0)
  const DataStructures: Record := Record(Roll, Name, "1-2", "Data Structures", "S", 3.0, 10)
  const MathsII: Record := Record(Roll, Name, "1-2", "Maths-II", "B", 3.0, 8)
  const Java: Record := Record(Roll, Name, "2-1", "Java", "F", 3.0, 0)

  /** The demo table in its own row order. */
  const DemoRows: seq<Record> := [Python, MathsI, Physics, DataStructures, MathsII, Java]

  /** The demo table ordered by term and subject. */
  const DemoHistory: seq<Record> := [MathsI, Physics, Python, DataStructures, MathsII, Java]

  lemma DemoRowsWellFormed()
    ensures forall r | r in DemoRows :: WellFormed(r)
  {
  }

  lemma DemoSubjectsUnique()
    ensures SubjectsUnique(DemoRows)
  {
  }

  lemma {:induction false} SortedFromNeighbours(s: seq<Record>)
    requires forall i | 0 <= i < |s| - 1 :: KeyLess(s[i], s[i + 1])
    ensures StrictlySortedBy(KeyLess, s)
    decreases |s|
  {
    if |s| > 1 {
      SortedFromNeighbours(s[1..]);
      forall j | 1 <= j < |s| ensures KeyLess(s[0], s[j]) {
        if j > 1 {
          assert KeyLess(s[1], s[j]) by {
            assert s[1..][0] == s[1] && s[1..][j - 1] == s[j];
          }
          KeyLessTransitive(s[0], s[1], s[j]);
        }
      }
    }
  }

  lemma DemoHistorySorted()
    ensures StrictlySortedBy(KeyLess, DemoHistory)
  {
    assert KeyLess(MathsI, Physics);
    assert KeyLess(Physics, Python);
    assert KeyLess(Python, DataStructures);
    assert KeyLess(DataStructures, MathsII);
    assert KeyLess(MathsII, Java);
    SortedFromNeighbours(DemoHistory);
  }

  /** The demo has no repeated subject, so the cleanup keeps all six rows
      and only reorders them. */
  lemma DemoCleanup(history: seq<Record>)
    requires Deduplicated(DemoRows, history) && StrictlySortedBy(KeyLess, history)
    ensures history == DemoHistory
  {
    DemoSubjectsUnique();
    DemoHistorySorted();
    HistoryOfDistinctSubjects(DemoRows, history, DemoHistory);
  }

  // The row-by-row functions on short tables of arbitrary rows.

  lemma {:induction false} AcademicAll(rows: seq<Record>)
    requires forall k | 0 <= k < |rows| :: !IsPassMarker(rows[k].grade)
    ensures Academic(rows) == rows
    decreases |rows|
  {
    if rows != [] {
      AcademicAll(rows[1..]);
      assert rows == [rows[0]] + rows[1..];
    }
  }

  lemma FailedCons(x: Record, rest: seq<Record>)
    ensures Failed([x] + rest) == (if IsFailureGrade(x.grade) then [x] else []) + Failed(rest)
  {
    assert ([x] + rest)[1..] == rest;
  }

  /** The backlog rows of three rows. */
  lemma FailedThree(a: Record, b: Record, c: Record)
    ensures Failed([a, b, c]) ==
      (if IsFailureGrade(a.grade) then [a] else []) +
      (if IsFailureGrade(b.grade) then [b] else []) +
      (if IsFailureGrade(c.grade) then [c] else [])
  {
    FailedCons(c, []);
    assert [b, c] == [b] + [c];
    FailedCons(b, [c]);
    assert [a, b, c] == [a] + [b, c];
    FailedCons(a, [b, c]);
  }

  lemma FailedSix(a: Record, b: Record, c: Record, d: Record, e: Record, f: Record)
    requires IsFailureGrade(b.grade) && IsFailureGrade(f.grade)
    requires !IsFailureGrade(a.grade) && !IsFailureGrade(c.grade) && !IsFailureGrade(d.grade) && !IsFailureGrade(e.grade)
    ensures Failed([a, b, c, d, e, f]) == [b, f]
  {
    FailedThree(a, b, c);
    FailedThree(d, e, f);
    assert [a, b, c, d, e, f] == [a, b, c] + [d, e, f];
    FailedAppend([a, b, c], [d, e, f]);
  }

  lemma TotalsCons(x: Record, rest: seq<Record>)
    ensures CreditTotal([x] + rest) == x.credits + CreditTotal(rest)
    ensures PointTotal([x] + rest) == Weight(x) + PointTotal(rest)
  {
    var s := [x] + rest;
    assert s[0] == x && s[1..] == rest;
  }

  lemma TotalsThree(a: Record, b: Record, c: Record)
    ensures CreditTotal([a, b, c]) == a.credits + b.credits + c.credits
    ensures PointTotal([a, b, c]) == Weight(a) + Weight(b) + Weight(c)
  {
    TotalsCons(c, []);
    assert [b, c] == [b] + [c];
    TotalsCons(b, [c]);
    assert [a, b, c] == [a] + [b, c];
    TotalsCons(a, [b, c]);
  }

  lemma TotalsSix(a: Record, b: Record, c: Record, d: Record, e: Record, f: Record)
    ensures CreditTotal([a, b, c, d, e, f]) == a.credits + b.credits + c.credits + d.credits + e.credits + f.credits
    ensures PointTotal([a, b, c, d, e, f]) == Weight(a) + Weight(b) + Weight(c) + Weight(d) + Weight(e) + Weight(f)
  {
    TotalsThree(a, b, c);
    TotalsThree(d, e, f);
    assert [a, b, c, d, e, f] == [a, b, c] + [d, e, f];
    TotalsAppend([a, b, c], [d, e, f]);
  }

  lemma TabRowsCons(x: Record, rest: seq<Record>, sem: string)
    ensures TabRows([x] + rest, sem) == (if x.semester == sem then [x] else []) + TabRows(rest, sem)
  {
    assert ([x] + rest)[1..] == rest;
  }

  /** The rows of one term among three rows. */
  lemma TabRowsThree(a: Record, b: Record, c: Record, sem: string)
    ensures TabRows([a, b, c], sem) ==
      (if a.semester == sem then [a] else []) +
      (if b.semester == sem then [b] else []) +
      (if c.semester == sem then [c] else [])
  {
    TabRowsCons(c, [], sem);
    assert [b, c] == [b] + [c];
    TabRowsCons(b, [c], sem);
    assert [a, b, c] == [a] + [b, c];
    TabRowsCons(a, [b, c], sem);
  }

  lemma {:induction false} TabRowsAppend(x: seq<Record>, y: seq<Record>, sem: string)
    ensures TabRows(x + y, sem) == TabRows(x, sem) + TabRows(y, sem)
    decreases |x|
  {
    if x == [] {
      assert x + y == y;
    } else {
      assert x + y == [x[0]] + (x[1..] + y);
      TabRowsCons(x[0], x[1..] + y, sem);
      TabRowsAppend(x[1..], y, sem);
      assert x == [x[0]] + x[1..];
      TabRowsCons(x[0], x[1..], sem);
    }
  }

  /** The rows of each term of six rows whose terms are `t, t, t, u, u, v`. */
  lemma TabRowsSix(a: Record, b: Record, c: Record, d: Record, e: Record, f: Record, sem: string)
    requires a.semester == b.semester == c.semester && d.semester == e.semester
    requires a.semester != d.semester && a.semester != f.semester && d.semester != f.semester
    requires sem == a.semester || sem == d.semester || sem == f.semester
    ensures TabRows([a, b, c, d, e, f], sem) ==
      if sem == a.semester then [a, b, c] else if sem == d.semester then [d, e] else [f]
  {
    TabRowsThree(a, b, c, sem);
    TabRowsThree(d, e, f, sem);
    assert [a, b, c, d, e, f] == [a, b, c] + [d, e, f];
    TabRowsAppend([a, b, c], [d, e, f], sem);
  }

  // The figures of the demo.

  /** Two backlogs, Physics then Java. */
  lemma DemoBacklogs()
    ensures Failed(DemoHistory) == [Physics, Java]
  {
    FailedSix(MathsI, Physics, Python, DataStructures, MathsII, Java);
  }

  /** No demo row is a pass marker. */
  lemma DemoAcademic()
    ensures Academic(DemoHistory) == DemoHistory
  {
    AcademicAll(DemoHistory);
  }

  lemma DemoTabs()
    ensures Tabs(DemoHistory) == ["1-1", "1-2", "2-1"]
  {
    var tabs: seq<string> := ["1-1", "1-2", "2-1"];
    assert StrLess("1-1", "1-2") && StrLess("1-2", "2-1") && StrLess("1-1", "2-1");
    assert StrictlySortedBy(StrLess, tabs);
    assert SemesterColumn(DemoHistory) == ["1-1", "1-1", "1-1", "1-2", "1-2", "2-1"];
    StrLessIsAsymmetric();
    SortedBySameElementsEqual(StrLess, Tabs(DemoHistory), tabs);
  }

  /** The rows of each tab. */
  lemma DemoTabRows(sem: string)
    requires sem == "1-1" || sem == "1-2" || sem == "2-1"
    ensures TabRows(DemoHistory, sem) ==
      if sem == "1-1" then [MathsI, Physics, Python] else if sem == "1-2" then [DataStructures, MathsII] else [Java]
  {
    TabRowsSix(MathsI, Physics, Python, DataStructures, MathsII, Java, sem);
  }

  /** SGPA of 1-1: (9 + 0 + 8) * 3 / 9 = 5.666..., shown as 5.67. */
  lemma DemoSgpaFirst()
    ensures Sgpa([MathsI, Physics, Python]) == 5.67
  {
    var rows := [MathsI, Physics, Python];
    AcademicAll(rows);
    TotalsThree(MathsI, Physics, Python);
    assert Weight(MathsI) == 27.0 && Weight(Physics) == 0.0 && Weight(Python) == 24.0;
    RoundFirst();
  }

  lemma RoundFirst()
    ensures Round2(51.0 / 9.0) == 5.67
  {
    assert (51.0 / 9.0 * 100.0 + 0.5).Floor == 567;
  }

  /** SGPA of 1-2: (10 + 8) * 3 / 6 = 9.0. */
  lemma DemoSgpaSecond()
    ensures Sgpa([DataStructures, MathsII]) == 9.0
  {
    var rows := [DataStructures, MathsII];
    AcademicAll(rows);
    TotalsCons(MathsII, []);
    assert rows == [DataStructures] + [MathsII];
    TotalsCons(DataStructures, [MathsII]);
    assert (54.0 / 6.0 * 100.0 + 0.5).Floor == 900;
  }

  /** SGPA of 2-1: a single failed subject, 0.0. */
  lemma DemoSgpaThird()
    ensures Sgpa([Java]) == 0.0
  {
    AcademicAll([Java]);
    TotalsCons(Java, []);
    assert [Java] == [Java] + [];
  }

  lemma DemoTotals()
    ensures CreditTotal(DemoHistory) == 18.0 && PointTotal(DemoHistory) == 105.0
  {
    TotalsSix(MathsI, Physics, Python, DataStructures, MathsII, Java);
    assert Weight(MathsI) == 27.0 && Weight(Physics) == 0.0 && Weight(Python) == 24.0;
    assert Weight(DataStructures) == 30.0 && Weight(MathsII) == 24.0 && Weight(Java) == 0.0;
  }

  /** CGPA: 105 / 18 = 5.833..., shown as 5.83, over 18 credits. */
  lemma DemoCgpa()
    ensures CreditTotal(Academic(DemoHistory)) == 18.0
    ensures Cgpa(DemoHistory) == 5.83
  {
    DemoAcademic();
    DemoTotals();
    RoundCgpa();
  }

  lemma RoundCgpa()
    ensures Round2(105.0 / 18.0) == 5.83
  {
    assert (105.0 / 18.0 * 100.0 + 0.5).Floor == 583;
  }

  /** The SGPA shown on each tab. */
  lemma DemoTabSgpaFirst()
    ensures Sgpa(TabRows(DemoHistory, "1-1")) == 5.67
  {
    DemoTabRows("1-1");
    DemoSgpaFirst();
  }

  lemma DemoTabSgpaSecond()
    ensures Sgpa(TabRows(DemoHistory, "1-2")) == 9.0
  {
    DemoTabRows("1-2");
    DemoSgpaSecond();
  }

  lemma DemoTabSgpaThird()
    ensures Sgpa(TabRows(DemoHistory, "2-1")) == 0.0
  {
    DemoTabRows("2-1");
    DemoSgpaThird();
  }

  lemma DemoTabSgpa(tabSgpa: seq<real>)
    requires |tabSgpa| == 3
    requires tabSgpa[0] == Sgpa(TabRows(DemoHistory, "1-1"))
    requires tabSgpa[1] == Sgpa(TabRows(DemoHistory, "1-2"))
    requires tabSgpa[2] == Sgpa(TabRows(DemoHistory, "2-1"))
    ensures tabSgpa[0] == 5.67 && tabSgpa[1] == 9.0 && tabSgpa[2] == 0.0
  {
    DemoTabSgpaFirst();
    DemoTabSgpaSecond();
    DemoTabSgpaThird();
  }

  lemma ThreeValues(s: seq<real>, a: real, b: real, c: real)
    requires |s| == 3 && s[0] == a && s[1] == b && s[2] == c
    ensures s == [a, b, c]
  {
  }

  /** The tab labels and tab SGPAs of any dashboard over the demo history. */
  lemma DemoTabValues(tabs: seq<string>, tabSgpa: seq<real>)
    requires tabs == Tabs(DemoHistory) && |tabSgpa| == |tabs|
    requires forall k | 0 <= k < |tabs| :: tabSgpa[k] == Sgpa(TabRows(DemoHistory, tabs[k]))
    ensures tabs == ["1-1", "1-2", "2-1"] && tabSgpa == [5.67, 9.0, 0.0]
  {
    DemoTabs();
    assert tabs[0] == "1-1" && tabs[1] == "1-2" && tabs[2] == "2-1";
    DemoTabSgpa(tabSgpa);
    ThreeValues(tabSgpa, 5.67, 9.0, 0.0);
  }

  /** The demo checkbox of app.py: the dashboard of the demo table. */
  method DemoDashboard() returns (board: Option<Board>)
    ensures board == Some(Board(DemoHistory, [Physics, Java], ["1-1", "1-2", "2-1"], [5.67, 9.0, 0.0], 18.0, 5.83))
  {
    board := BuildDashboard([Some(DemoRows)]);
    assert Collected([Some(DemoRows)]) == [DemoRows];
    assert Concat([DemoRows]) == DemoRows;
    var b := board.value;
    DemoCleanup(b.history);
    DemoTabValues(b.tabs, b.tabSgpa);
    DemoBacklogs();
    DemoCgpa();
  }
}
