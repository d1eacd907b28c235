/**
 * What `parse_pdf` does with one line of memo text: the line is cleaned of
 * quotes and commas, searched for a roll number, searched for a student
 * name, and read as a result row when its words look like one.
 */
module LineParser {
  import opened Wrappers
  import opened Text
  import opened Grades
  import opened Semester

  /** `line.replace('"', '').replace(',', '').strip()`. */
  function CleanLine(line: string): (clean: string)
    ensures '"' !in clean && ',' !in clean
  {
    var unquoted := RemoveChar(RemoveChar(line, '"'), ',');
    StripKeepsOut(unquoted, '"');
    StripKeepsOut(unquoted, ',');
    Strip(unquoted)
  }

  /** The cleaned line is `Strip` of the text left once quotes and commas
      are removed, and that text keeps every other character of the line as
      often as it occurs. The counts follow from `RemoveChar`'s contract, the
      order from `RemoveCharAppend`, and what `Strip` cuts from
      `StripRule`. */
  lemma CleanLineRule(line: string)
    ensures var kept := RemoveChar(RemoveChar(line, '"'), ',');
      && (forall x | x != '"' && x != ',' :: multiset(kept)[x] == multiset(line)[x])
      && CleanLine(line) == Strip(kept)
  {
  }

  lemma StripKeepsOut(s: string, c: char)
    requires c !in s
    ensures c !in Strip(s)
  {
    TrimStartKeepsOut(s, c);
    TrimEndKeepsOut(TrimStart(s), c);
  }

  lemma {:induction false} TrimStartKeepsOut(s: string, c: char)
    requires c !in s
    ensures c !in TrimStart(s)
    decreases |s|
  {
    if s != [] && IsSpace(s[0]) {
      TrimStartKeepsOut(s[1..], c);
    }
  }

  lemma {:induction false} TrimEndKeepsOut(s: string, c: char)
    requires c !in s
    ensures c !in TrimEnd(s)
    decreases |s|
  {
    if s != [] && IsSpace(s[|s| - 1]) {
      assert forall x | x in s[..|s| - 1] :: x in s;
      TrimEndKeepsOut(s[..|s| - 1], c);
    }
  }

  // ----- Roll number: \b\d{2}[A-Z]{2}[0-9A-Z]\d{4}\b -----

  /** The nine characters from `k` are two digits, two upper-case letters,
      an upper-case letter or digit and four digits, with no word character
      right before or right after them. */
  predicate RollAt(s: string, k: nat) {
    && k + 9 <= |s|
    && IsDigit(s[k]) && IsDigit(s[k + 1])
    && IsUpperLetter(s[k + 2]) && IsUpperLetter(s[k + 3])
    && (IsDigit(s[k + 4]) || IsUpperLetter(s[k + 4]))
    && IsDigit(s[k + 5]) && IsDigit(s[k + 6]) && IsDigit(s[k + 7]) && IsDigit(s[k + 8])
    && (k == 0 || !IsWordChar(s[k - 1]))
    && (k + 9 == |s| || !IsWordChar(s[k + 9]))
  }

  /** The leftmost roll-number position at or after `from`, or `|s|`. */
  function FirstRollFrom(s: string, from: nat): (k: nat)
    requires from <= |s|
    ensures from <= k <= |s|
    ensures k < |s| ==> RollAt(s, k)
    ensures forall j | from <= j < k :: !RollAt(s, j)
    decreases |s| - from
  {
    if from == |s| then |s|
    else if RollAt(s, from) then from
    else FirstRollFrom(s, from + 1)
  }

  /** `re.search(...)` for the roll-number pattern: the leftmost match. */
  function RollSearch(s: string): (m: Option<string>)
    ensures m.None? <==> forall k: nat :: !RollAt(s, k)
    ensures m.Some? ==> exists k: nat :: RollAt(s, k) && m.value == s[k..k + 9] && forall j: nat | j < k :: !RollAt(s, j)
    ensures m.Some? ==> |m.value| == 9 && IsDigit(m.value[0])
  {
    var k := FirstRollFrom(s, 0);
    if k == |s| then None else Some(s[k..k + 9])
  }

  /** A ten-character roll number of the form 22HJ1A4311 has a letter where
      the pattern wants the first of its four closing digits, and no match
      can start inside it: such a roll number is never found. */
  lemma TenCharacterRollNotFound()
    ensures RollSearch("22HJ1A4311").None?
  {
    var s := "22HJ1A4311";
    forall k: nat ensures !RollAt(s, k) {
      if k == 0 {
        assert !IsDigit(s[5]);
      } else if k == 1 {
        assert IsWordChar(s[0]);
      }
    }
  }

  /** Nine characters of the pattern standing alone are found. */
  lemma NineCharacterRollFound()
    ensures RollSearch("Roll No: 22HJ14311") == Some("22HJ14311")
  {
    var s := "Roll No: 22HJ14311";
    assert RollAt(s, 9);
    forall k: nat | k < 9 ensures !RollAt(s, k) {
      assert !IsDigit(s[k]);
    }
    assert s[9..18] == "22HJ14311";
  }

  /** A tenth digit leaves no word boundary after the ninth character, so
      nothing is found. */
  lemma TrailingDigitBlocksRoll()
    ensures RollSearch("22HJ143110").None?
  {
    var s := "22HJ143110";
    forall k: nat ensures !RollAt(s, k) {
      if k == 0 {
        assert IsWordChar(s[9]);
      } else if k == 1 {
        assert IsWordChar(s[0]);
      }
    }
  }

  // ----- Student name: re.split(r'Name\s*[:\-\.]?\s*', line, flags=re.IGNORECASE) -----

  /** "name" in any mix of cases starts at `i`. */
  predicate NameAt(s: string, i: nat) {
    i + 4 <= |s| && Upper(s[i..i + 4]) == "NAME"
  }

  /** The first case-insensitive "name" at or after `from`, or `|s|`. */
  function FirstNameFrom(s: string, from: nat): (i: nat)
    requires from <= |s|
    ensures from <= i <= |s|
    ensures i < |s| ==> NameAt(s, i)
    ensures forall j | from <= j < i :: !NameAt(s, j)
    decreases |s| - from
  {
    if from == |s| then |s|
    else if NameAt(s, from) then from
    else FirstNameFrom(s, from + 1)
  }

  function SkipSpaces(s: string, from: nat): (j: nat)
    requires from <= |s|
    ensures from <= j <= |s|
    ensures j < |s| ==> !IsSpace(s[j])
    ensures forall k | from <= k < j :: IsSpace(s[k])
    decreases |s| - from
  {
    if from == |s| || !IsSpace(s[from]) then from else SkipSpaces(s, from + 1)
  }

  /** Where a separator match that starts at `i` ends: "name", the spaces
      after it, one optional ':', '-' or '.', and the spaces after that. */
  predicate IsNameSeparator(c: char) {
    c == ':' || c == '-' || c == '.'
  }

  /** The match is greedy: what follows "name" up to `e` is whitespace with
      at most one separator among it, and it stops at the first character
      that cannot extend it. */
  function NameSeparatorEnd(s: string, i: nat): (e: nat)
    requires NameAt(s, i)
    ensures i + 4 <= e <= |s|
    ensures forall k | i + 4 <= k < e :: IsSpace(s[k]) || IsNameSeparator(s[k])
    ensures forall k, m | i + 4 <= k < m < e :: !(IsNameSeparator(s[k]) && IsNameSeparator(s[m]))
    ensures e < |s| ==> !IsSpace(s[e])
    ensures e < |s| && IsNameSeparator(s[e]) ==> exists k | i + 4 <= k < e :: IsNameSeparator(s[k])
  {
    var j := SkipSpaces(s, i + 4);
    var j' := if j < |s| && IsNameSeparator(s[j]) then j + 1 else j;
    var e := SkipSpaces(s, j');
    assert e < |s| && IsNameSeparator(s[e]) ==> j' == j + 1 && IsNameSeparator(s[j]);
    e
  }

  /** `parts[1]` of the split, when the split has a second part: the text
      from the end of the first separator match up to the next match. */
  function NameSplitSecond(s: string): (part: Option<string>)
    ensures part.None? <==> forall i: nat :: !NameAt(s, i)
  {
    var i := FirstNameFrom(s, 0);
    if i == |s| then None
    else
      var e := NameSeparatorEnd(s, i);
      Some(s[e..FirstNameFrom(s, e)])
  }

  /** The name a cleaned line sets, if any: the line contains "Name"
      (exactly so cased) and a ':' or a space, and the stripped second part
      of the split is longer than three characters and does not start with
      "Subject". */
  function NameFound(clean: string): (name: Option<string>)
    ensures name.Some? ==> Contains(clean, "Name")
    ensures name.Some? ==> |name.value| > 3 && !StartsWith(name.value, "Subject")
  {
    if Contains(clean, "Name") && (Contains(clean, ":") || Contains(clean, " ")) then
      match NameSplitSecond(clean)
      case None => None
      case Some(part) =>
        var candidate := Strip(part);
        if |candidate| > 3 && !StartsWith(candidate, "Subject") then Some(candidate) else None
    else None
  }

  /** The second part of the split is the text from the end of the first
      separator match, at the first case-insensitive "name", up to the next
      "name" or the end of the line. */
  lemma NameSplitRule(s: string)
    ensures NameSplitSecond(s).Some? ==> exists i: nat | NameAt(s, i) ::
      && (forall j: nat | j < i :: !NameAt(s, j))
      && var e := NameSeparatorEnd(s, i);
         exists n: nat | e <= n <= |s| ::
           && NameSplitSecond(s).value == s[e..n]
           && (n == |s| || NameAt(s, n))
           && forall j: nat | e <= j < n :: !NameAt(s, j)
  {
    if NameSplitSecond(s).Some? {
      var i := FirstNameFrom(s, 0);
      var e := NameSeparatorEnd(s, i);
      var n := FirstNameFrom(s, e);
      assert NameSplitSecond(s).value == s[e..n];
    }
  }

  /** A line sets a name exactly when it holds "Name" and a ':' or a space,
      and the stripped second part of its split is longer than three
      characters and does not start with "Subject"; the name is that part.
      A line holding "Name" always has a second part. */
  lemma NameRule(clean: string)
    ensures Contains(clean, "Name") ==> NameSplitSecond(clean).Some?
    ensures NameFound(clean).Some? <==>
      && Contains(clean, "Name") && (Contains(clean, ":") || Contains(clean, " "))
      && NameSplitSecond(clean).Some?
      && |Strip(NameSplitSecond(clean).value)| > 3
      && !StartsWith(Strip(NameSplitSecond(clean).value), "Subject")
    ensures NameFound(clean).Some? ==> NameFound(clean).value == Strip(NameSplitSecond(clean).value)
  {
    NameSplitsWhenPresent(clean);
  }

  /** A line holding "Name" has a case-insensitive "name" to split at. */
  lemma NameSplitsWhenPresent(s: string)
    ensures Contains(s, "Name") ==> NameSplitSecond(s).Some?
  {
    if Contains(s, "Name") {
      var i := NamePosition(s);
    }
  }

  lemma {:induction false} NamePosition(s: string) returns (i: nat)
    requires Contains(s, "Name")
    ensures NameAt(s, i)
    decreases |s|
  {
    if StartsWith(s, "Name") {
      assert s[0..4] == "Name";
      assert Upper("Name") == "NAME";
      i := 0;
    } else {
      var k := NamePosition(s[1..]);
      assert s[1..][k..k + 4] == s[k + 1..k + 5];
      i := k + 1;
    }
  }

  /** A line naming the student, as a memo prints it. */
  lemma NameLineExample()
    ensures NameFound("Name: RAVI KUMAR") == Some("RAVI KUMAR")
  {
    NameLineSplits();
    NameLineTests();
    StripUntouched("RAVI KUMAR");
    assert !StartsWith("RAVI KUMAR", "Subject") by {
      assert "RAVI KUMAR"[0] != "Subject"[0];
    }
  }

  lemma NameLineSplits()
    ensures NameSplitSecond("Name: RAVI KUMAR") == Some("RAVI KUMAR")
  {
    var name := "RAVI KUMAR";
    var s := "Name: " + name;
    assert s == "Name: RAVI KUMAR";
    assert NameAt(s, 0) by {
      assert s[0..4] == "Name";
      assert Upper("Name") == "NAME";
    }
    assert NameSeparatorEnd(s, 0) == 6 by {
      assert s[4] == ':' && IsSpace(s[5]) && !IsSpace(s[6]);
    }
    assert FirstNameFrom(s, 0) == 0;
    NoNameFrom(s, 6);
    assert s[6..FirstNameFrom(s, 6)] == name;
  }

  /** No "name" starts where no 'N' or 'n' stands. */
  lemma {:induction false} NoNameFrom(s: string, from: nat)
    requires from <= |s|
    requires forall j | from <= j < |s| :: s[j] != 'N' && s[j] != 'n'
    ensures FirstNameFrom(s, from) == |s|
    decreases |s| - from
  {
    if from < |s| {
      assert !NameAt(s, from) by {
        if from + 4 <= |s| {
          var u := Upper(s[from..from + 4]);
          assert u[0] == UpperChar(s[from]) && u[0] != 'N';
          assert u != "NAME";
        }
      }
      NoNameFrom(s, from + 1);
    }
  }

  lemma NameLineTests()
    ensures Contains("Name: RAVI KUMAR", "Name") && Contains("Name: RAVI KUMAR", ":")
  {
    var s := "Name: RAVI KUMAR";
    assert s[0..4] == "Name";
    ContainsAt(s, "Name", 0);
    assert s[4..5] == ":";
    ContainsAt(s, ":", 4);
  }

  // ----- Result row -----

  /** `len(code) > 3 and (code.startswith('R') or code[0].isdigit())`. */
  predicate IsSubjectCode(code: string) {
    |code| > 3 && (code[0] == 'R' || IsDigit(code[0]))
  }

  /** Python's `parts[k]` for an index that may count from the end. */
  function At(parts: seq<string>, k: int): string
    requires -|parts| <= k < |parts|
  {
    if k < 0 then parts[|parts| + k] else parts[k]
  }

  /** Python's `parts[lo:hi]` for `0 <= lo` and `-|parts| <= hi < 0`. */
  function Slice(parts: seq<string>, lo: nat, hi: int): (r: seq<string>)
    requires lo <= |parts| && -|parts| <= hi < 0
  {
    var end := |parts| + hi;
    if lo < end then parts[lo..end] else []
  }

  /** `parts[-i].upper()`: the grade candidate `i` words from the end. */
  function GradeCandidate(parts: seq<string>, i: int): string
    requires 1 <= i <= |parts|
  {
    Upper(At(parts, -i))
  }

  /** The first `i` of 1, 2, 3 whose candidate is a grade, or 0. */
  function GradeIndex(parts: seq<string>): (i: nat)
    requires |parts| >= 4
    ensures i <= 3
    ensures 0 < i ==> GradeCandidate(parts, i) in GradePoints
    ensures forall j | 1 <= j <= 3 && (i == 0 || j < i) :: GradeCandidate(parts, j) !in GradePoints
  {
    if GradeCandidate(parts, 1) in GradePoints then 1
    else if GradeCandidate(parts, 2) in GradePoints then 2
    else if GradeCandidate(parts, 3) in GradePoints then 3
    else 0
  }

  /** The credits found next to the grade at `-i`: `parts[-i-1]` when it is
      a decimal token, else `parts[-i+1]` when that is one (for `i = 1` this
      is `parts[0]`, the subject code), else 0. */
  function CreditsNear(parts: seq<string>, i: int): (c: real)
    requires |parts| >= 4 && 1 <= i <= 3
    ensures c >= 0.0
    ensures IsDecimalToken(parts[|parts| - i - 1]) ==> c == DecimalValue(parts[|parts| - i - 1])
    ensures var after := parts[if i == 1 then 0 else |parts| - i + 1];
      !IsDecimalToken(parts[|parts| - i - 1]) && IsDecimalToken(after) ==> c == DecimalValue(after)
    ensures !IsDecimalToken(parts[|parts| - i - 1]) && !IsDecimalToken(parts[if i == 1 then 0 else |parts| - i + 1]) ==> c == 0.0
  {
    var before := At(parts, -i - 1);
    var after := At(parts, -i + 1);
    if IsDecimalToken(before) then DecimalValue(before)
    else if IsDecimalToken(after) then DecimalValue(after)
    else 0.0
  }

  /** The two credit repairs: 15 becomes 1.5, then an `F` with no credits
      gets 3. Afterwards the credits are never 15 and an `F` never has 0;
      values that need no repair are kept, so repairing twice is repairing
      once. */
  function NormaliseCredits(grade: string, credits: real): (c: real)
    ensures c != 15.0
    ensures grade == "F" ==> c != 0.0
    ensures credits == 15.0 ==> c == 1.5
    ensures grade == "F" && credits == 0.0 ==> c == 3.0
    ensures credits >= 0.0 ==> c >= 0.0
    ensures credits != 15.0 && (grade != "F" || credits != 0.0) ==> c == credits
  {
    var c := if credits == 15.0 then 1.5 else credits;
    if grade == "F" && c == 0.0 then 3.0 else c
  }

  /** Repairing credits a second time changes nothing. */
  lemma NormaliseIdempotent(grade: string, credits: real)
    ensures NormaliseCredits(grade, NormaliseCredits(grade, credits)) == NormaliseCredits(grade, credits)
  {
  }

  /** The record a line's words make, if they make one (the body of the
      `try` block); the roll number and name are those in force. */
  function RecognizeRow(parts: seq<string>, rollNo: string, studentName: string): (row: Option<Record>)
    ensures row.Some? ==> |parts| >= 4 && IsSubjectCode(parts[0])
    ensures row.Some? ==> row.value.grade in GradePoints && row.value.points == GradePoints[row.value.grade]
    ensures row.Some? ==> row.value.rollNo == rollNo && row.value.studentName == studentName
  {
    if |parts| < 4 || !IsSubjectCode(parts[0]) then None
    else
      var i: int := GradeIndex(parts);
      if i == 0 then None
      else
        var grade := GradeCandidate(parts, i);
        Some(Record(
          rollNo, studentName,
          SemesterFromCode(parts[0]),
          Join(" ", Slice(parts, 1, -i - 1)),
          grade,
          NormaliseCredits(grade, CreditsNear(parts, i)),
          GradePoints[grade]))
  }

  /** A line's words make a record exactly when there are at least four,
      the first is a subject code and one of the last three, upper-cased, is
      a grade. The record's grade is the first such word counting from the
      end, its points are that grade's weight, its credits are the repaired
      credits next to the grade, its subject is the words between the code
      and `parts[-i-1]` whichever side the credits came from, its term is
      decoded from the code, and it carries the identity passed in. */
  lemma {:induction false} RowRule(parts: seq<string>, rollNo: string, studentName: string)
    ensures RecognizeRow(parts, rollNo, studentName).Some? <==>
      |parts| >= 4 && IsSubjectCode(parts[0]) && exists i | 1 <= i <= 3 :: GradeCandidate(parts, i) in GradePoints
    ensures RecognizeRow(parts, rollNo, studentName).Some? ==>
      var r := RecognizeRow(parts, rollNo, studentName).value;
      && WellFormed(r)
      && r.rollNo == rollNo && r.studentName == studentName
      && r.semester == SemesterFromCode(parts[0])
      && exists i | 1 <= i <= 3 ::
        && (forall j | 1 <= j < i :: GradeCandidate(parts, j) !in GradePoints)
        && r.grade == Upper(parts[|parts| - i])
        && r.credits == NormaliseCredits(r.grade, CreditsNear(parts, i))
        && r.subject == Join(" ", if 1 < |parts| - i - 1 then parts[1..|parts| - i - 1] else [])
  {
    if |parts| >= 4 && IsSubjectCode(parts[0]) {
      var i := GradeIndex(parts);
      if i != 0 {
        var r := RecognizeRow(parts, rollNo, studentName).value;
        assert r.grade == Upper(parts[|parts| - i]);
        assert r.credits == NormaliseCredits(r.grade, CreditsNear(parts, i));
      }
    }
  }

  /** Whether a line yields a record does not depend on the identity in
      force, and the record's other fields do not either. */
  lemma RowIgnoresIdentity(parts: seq<string>, roll1: string, name1: string, roll2: string, name2: string)
    ensures RecognizeRow(parts, roll1, name1).Some? == RecognizeRow(parts, roll2, name2).Some?
    ensures RecognizeRow(parts, roll1, name1).Some? ==>
      RecognizeRow(parts, roll1, name1).value.(rollNo := roll2, studentName := name2) ==
      RecognizeRow(parts, roll2, name2).value
  {
  }

  /** When the grade is the last word and the word before it is not a
      number, the credits are read from the subject code itself. */
  lemma CodeReadAsCredits(parts: seq<string>, rollNo: string, studentName: string)
    requires |parts| >= 4 && IsSubjectCode(parts[0])
    requires GradeCandidate(parts, 1) in GradePoints
    requires !IsDecimalToken(parts[|parts| - 2]) && IsDecimalToken(parts[0])
    ensures RecognizeRow(parts, rollNo, studentName).Some?
    ensures RecognizeRow(parts, rollNo, studentName).value.credits ==
      NormaliseCredits(GradeCandidate(parts, 1), DecimalValue(parts[0]))
  {
    assert GradeIndex(parts) == 1;
    assert CreditsNear(parts, 1) == DecimalValue(parts[0]);
  }

  /** A lab printed with 15 credits counts 1.5. */
  lemma FifteenCreditsExample()
    ensures var row := RecognizeRow(["R201101", "Lab", "15", "A"], "", "");
      row.Some? && row.value.credits == 1.5 && row.value.grade == "A"
  {
    var parts := ["R201101", "Lab", "15", "A"];
    assert GradeIndex(parts) == 1 && GradeCandidate(parts, 1) == "A" by {
      assert Upper("A") == "A";
    }
    assert CreditsNear(parts, 1) == 15.0 by {
      assert RemoveFirst("15", '.') == "15";
      CreditTokenValues();
    }
    RowGradeAndCredits(parts, "", "");
  }

  /** The grade and credits of a recognised row, without the other fields. */
  lemma RowGradeAndCredits(parts: seq<string>, rollNo: string, studentName: string)
    requires |parts| >= 4 && IsSubjectCode(parts[0]) && GradeIndex(parts) != 0
    ensures var i := GradeIndex(parts);
      var row := RecognizeRow(parts, rollNo, studentName);
      && row.Some?
      && row.value.grade == GradeCandidate(parts, i)
      && row.value.credits == NormaliseCredits(GradeCandidate(parts, i), CreditsNear(parts, i))
  {
  }

  /** A failed subject printed without credits counts 3. */
  lemma FailWithoutCreditsExample()
    ensures var row := RecognizeRow(["R201101", "Maths", "-", "F"], "", "");
      row.Some? && row.value.credits == 3.0 && row.value.grade == "F"
  {
    var parts := ["R201101", "Maths", "-", "F"];
    assert Upper("F") == "F";
    assert GradeIndex(parts) == 1;
    assert !IsDecimalToken("-") by {
      assert RemoveFirst("-", '.') == "-";
    }
    assert !IsDecimalToken("R201101") by {
      assert RemoveFirst("R201101", '.')[0] == 'R';
    }
    assert CreditsNear(parts, 1) == 0.0;
  }

  /** The probe loop of the line-level extraction: try `i = 1, 2, 3` and
      stop at the first grade, reading the credits beside it and noting
      where the subject ends. */
  method ProbeGrade(parts: seq<string>) returns (grade: Option<string>, credits: real, subjectEnd: int)
    requires |parts| >= 4
    ensures grade.None? <==> GradeIndex(parts) == 0
    ensures grade.Some? ==>
      && grade.value == GradeCandidate(parts, GradeIndex(parts))
      && credits == CreditsNear(parts, GradeIndex(parts))
      && subjectEnd == -(GradeIndex(parts) as int) - 1
  {
    grade, credits, subjectEnd := None, 0.0, -1;
    var i: int := 1;
    while i < 4
      invariant 1 <= i <= 4
      invariant forall j | 1 <= j < i :: GradeCandidate(parts, j) !in GradePoints
    {
      var item := Upper(At(parts, -i));
      if item in GradePoints {
        grade := Some(item);
        if IsDecimalToken(At(parts, -i - 1)) {
          credits := DecimalValue(At(parts, -i - 1));
        } else if IsDecimalToken(At(parts, -i + 1)) {
          credits := DecimalValue(At(parts, -i + 1));
        }
        subjectEnd := -i - 1;
        return;
      }
      i := i + 1;
    }
  }

  /** The line-level extraction as the source runs it: split the cleaned
      line into words, check the code, probe for the grade, then repair the
      credits and build the record. */
  method ExtractRow(clean: string, rollNo: string, studentName: string) returns (row: Option<Record>)
    ensures row == RecognizeRow(SplitWords(clean), rollNo, studentName)
  {
    var parts := SplitWords(clean);
    row := None;
    if |parts| >= 4 {
      var code := parts[0];
      if |code| > 3 && (code[0] == 'R' || IsDigit(code[0])) {
        var grade, credits, subjectEnd := ProbeGrade(parts);
        if grade.Some? {
          var g := grade.value;
          if credits == 15.0 {
            credits := 1.5;
          }
          if g == "F" && credits == 0.0 {
            credits := 3.0;
          }
          var subject := Join(" ", Slice(parts, 1, subjectEnd));
          row := Some(Record(rollNo, studentName, SemesterFromCode(code), subject, g, credits, GradePoints[g]));
        }
      }
    }
  }
}
