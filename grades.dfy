/**
 * The rule book of analyzer.py: the grade vocabulary with its point
 * weights, the record every table row is made of, and `calculate_sgpa`,
 * the credit-weighted mean that both the per-term SGPA and the final CGPA
 * are built on.
 */
module Grades {

  /** `grade_points`: the grade vocabulary and the weight of each grade. */
  const GradePoints: map<string, int> := map[
    "O" := 10, "S" := 10, "A+" := 10, "A" := 9, "B" := 8, "C" := 7,
    "D" := 6, "E" := 5, "F" := 0, "AB" := 0, "M" := 0,
    "COMPLETED" := 0, "Y" := 0]

  /** `F`, `AB` and `M` are backlogs. */
  predicate IsFailureGrade(g: string) {
    g == "F" || g == "AB" || g == "M"
  }

  /** `COMPLETED` and `Y` are passes that carry no grade points. */
  predicate IsPassMarker(g: string) {
    g == "COMPLETED" || g == "Y"
  }

  /** Every weight lies between 0 and 10, and the failure grades and pass
      markers are vocabulary entries worth nothing. */
  lemma GradePointsRange()
    ensures forall g | g in GradePoints :: 0 <= GradePoints[g] <= 10
    ensures forall g | IsFailureGrade(g) || IsPassMarker(g) :: g in GradePoints && GradePoints[g] == 0
  {
  }

  /** One row of a result table: the columns RollNo, StudentName, Semester,
      Subject, Grade, Credits and Points. */
  datatype Record = Record(
    rollNo: string,
    studentName: string,
    semester: string,
    subject: string,
    grade: string,
    credits: real,
    points: int)

  /** Rows whose grade is in the vocabulary and whose points are that
      grade's weight, with credits that are not negative: every row the
      extractor produces. */
  predicate WellFormed(r: Record) {
    r.grade in GradePoints && r.points == GradePoints[r.grade] && r.credits >= 0.0
  }

  /** `round(x, 2)`, taken as rounding half up to hundredths on the exact
      value. */
  function Round2(x: real): (r: real)
    ensures (r * 100.0).Floor as real == r * 100.0
    ensures r - 0.005 <= x < r + 0.005
  {
    (x * 100.0 + 0.5).Floor as real / 100.0
  }

  /** Rounding keeps a value inside an interval whose ends are whole
      hundredths. */
  lemma Round2Bounds(x: real, lo: int, hi: int)
    requires lo as real <= x * 100.0 <= hi as real
    ensures lo as real / 100.0 <= Round2(x) <= hi as real / 100.0
  {
    var y := x * 100.0 + 0.5;
    var n := y.Floor;
    assert n as real <= y < n as real + 1.0;
    assert lo <= n;
    assert n <= hi;
    assert Round2(x) == n as real / 100.0;
  }

  /** `df[~df['Grade'].isin(['COMPLETED', 'Y'])]`. */
  function Academic(rows: seq<Record>): seq<Record>
    decreases |rows|
  {
    if rows == [] then []
    else if IsPassMarker(rows[0].grade) then Academic(rows[1..])
    else [rows[0]] + Academic(rows[1..])
  }

  /** The academic rows are exactly the rows that are not pass markers. */
  lemma {:induction false} AcademicMembers(rows: seq<Record>)
    ensures |Academic(rows)| <= |rows|
    ensures forall r | r in Academic(rows) :: r in rows && !IsPassMarker(r.grade)
    ensures forall r | r in rows && !IsPassMarker(r.grade) :: r in Academic(rows)
    decreases |rows|
  {
    if rows != [] {
      AcademicMembers(rows[1..]);
      assert rows == [rows[0]] + rows[1..];
    }
  }

  /** `rows['Credits'].sum()`. */
  function CreditTotal(rows: seq<Record>): real
    decreases |rows|
  {
    if rows == [] then 0.0 else rows[0].credits + CreditTotal(rows[1..])
  }

  /** One row's term of the weighted sum: `Credits * Points`. */
  function Weight(r: Record): real {
    r.credits * r.points as real
  }

  /** `(rows['Credits'] * rows['Points']).sum()`. */
  function PointTotal(rows: seq<Record>): real
    decreases |rows|
  {
    if rows == [] then 0.0 else Weight(rows[0]) + PointTotal(rows[1..])
  }

  /** `calculate_sgpa`: the credit-weighted mean of the points of the rows
      that are not pass markers, rounded to hundredths; 0.0 when those rows
      carry no credits. */
  function Sgpa(rows: seq<Record>): (g: real)
    ensures (g * 100.0).Floor as real == g * 100.0
    ensures CreditTotal(Academic(rows)) == 0.0 ==> g == 0.0
    ensures CreditTotal(Academic(rows)) != 0.0 ==>
      g - 0.005 <= PointTotal(Academic(rows)) / CreditTotal(Academic(rows)) < g + 0.005
  {
    var academic := Academic(rows);
    var credits := CreditTotal(academic);
    if credits == 0.0 then 0.0 else Round2(PointTotal(academic) / credits)
  }

  lemma {:induction false} AcademicAppend(a: seq<Record>, b: seq<Record>)
    ensures Academic(a + b) == Academic(a) + Academic(b)
    decreases |a|
  {
    if a != [] {
      assert (a + b)[1..] == a[1..] + b;
      AcademicAppend(a[1..], b);
    } else {
      assert a + b == b;
    }
  }

  lemma {:induction false} TotalsAppend(a: seq<Record>, b: seq<Record>)
    ensures CreditTotal(a + b) == CreditTotal(a) + CreditTotal(b)
    ensures PointTotal(a + b) == PointTotal(a) + PointTotal(b)
    decreases |a|
  {
    if a != [] {
      assert (a + b)[1..] == a[1..] + b;
      TotalsAppend(a[1..], b);
    } else {
      assert a + b == b;
    }
  }

  /** A pass-marker row anywhere in a group changes nothing in its SGPA. */
  lemma SgpaIgnoresPassMarker(before: seq<Record>, x: Record, after: seq<Record>)
    requires IsPassMarker(x.grade)
    ensures Sgpa(before + [x] + after) == Sgpa(before + after)
  {
    AcademicAppend(before + [x], after);
    AcademicAppend(before, [x]);
    AcademicAppend(before, after);
    assert Academic([x]) == [];
    assert Academic(before + [x]) == Academic(before);
  }

  /** With credits that are not negative and points between 0 and 10, the
      weighted point sum lies between 0 and ten times the credit sum. */
  lemma {:induction false} PointTotalBounds(rows: seq<Record>)
    requires forall r | r in rows :: r.credits >= 0.0 && 0 <= r.points <= 10
    ensures 0.0 <= CreditTotal(rows)
    ensures 0.0 <= PointTotal(rows) <= 10.0 * CreditTotal(rows)
    decreases |rows|
  {
    if rows != [] {
      var x := rows[0];
      assert x in rows;
      assert forall r | r in rows[1..] :: r in rows;
      PointTotalBounds(rows[1..]);
      WeightBound(x);
      SumBound(Weight(x), PointTotal(rows[1..]), x.credits, CreditTotal(rows[1..]));
    }
  }

  lemma SumBound(a: real, b: real, c: real, d: real)
    requires 0.0 <= a <= 10.0 * c && 0.0 <= b <= 10.0 * d
    ensures 0.0 <= c + d && 0.0 <= a + b <= 10.0 * (c + d)
  {
  }

  lemma WeightBound(r: Record)
    requires r.credits >= 0.0 && 0 <= r.points <= 10
    ensures 0.0 <= Weight(r) <= 10.0 * r.credits
  {
    var c, p := r.credits, r.points as real;
    ProductBound(c, p);
    assert Weight(r) == c * p;
  }

  lemma ProductBound(c: real, p: real)
    requires c >= 0.0 && 0.0 <= p <= 10.0
    ensures 0.0 <= c * p <= 10.0 * c
  {
    assert c * (10.0 - p) >= 0.0;
  }

  /** For rows like the extractor's (credits not negative, points between 0
      and 10) the SGPA lies between 0 and 10. */
  lemma SgpaRange(rows: seq<Record>)
    requires forall r | r in rows :: r.credits >= 0.0 && 0 <= r.points <= 10
    ensures 0.0 <= Sgpa(rows) <= 10.0
  {
    var academic := Academic(rows);
    AcademicMembers(rows);
    PointTotalBounds(academic);
    var c, p := CreditTotal(academic), PointTotal(academic);
    if c != 0.0 {
      assert 0.0 <= p / c <= 10.0 by {
        assert c > 0.0;
        assert p <= 10.0 * c;
      }
      Round2Bounds(p / c, 0, 1000);
    }
  }

  /** Well-formed rows have points between 0 and 10. */
  lemma WellFormedPoints(rows: seq<Record>)
    requires forall r | r in rows :: WellFormed(r)
    ensures forall r | r in rows :: r.credits >= 0.0 && 0 <= r.points <= 10
  {
    GradePointsRange();
  }
}
