/**
 * `get_semester_from_code`: the term label ("1-1", "2-2", ...) of a subject
 * code, or "Others".
 */
module Semester {
  import opened Text

  /** The curriculum-revision codes, in the order they are cut out. */
  const RevisionCodes: seq<string> := ["R13", "R16", "R19", "R20", "R23"]

  /** Removes every occurrence of each code of `revisions` in turn. */
  function RemoveEach(code: string, revisions: seq<string>): string
    requires forall k | 0 <= k < |revisions| :: revisions[k] != []
    decreases |revisions|
  {
    if revisions == [] then code else RemoveEach(RemoveAll(code, revisions[0]), revisions[1..])
  }

  /** The chain of `replace` calls on the upper-cased code: every
      occurrence of R13, then of R16, R19, R20 and R23 is cut out, wherever
      it stands. */
  function StripRevisions(code: string): (clean: string)
    ensures 'R' !in code ==> clean == code
  {
    if 'R' !in code then
      RemoveEachAbsent(code, RevisionCodes);
      RemoveEach(code, RevisionCodes)
    else
      RemoveEach(code, RevisionCodes)
  }

  /** The term label of a subject code: the code is upper-cased, the
      revision codes are cut out, and when the first two characters left are
      digits `d1` and `d2` the label is "d1-d2"; otherwise it is "Others". */
  function SemesterFromCode(code: string): (term: string)
    ensures term == "Others" || (|term| == 3 && IsDigit(term[0]) && term[1] == '-' && IsDigit(term[2]))
    ensures var clean := StripRevisions(Upper(code));
      term != "Others" <==> |clean| >= 2 && IsDigit(clean[0]) && IsDigit(clean[1])
  {
    var clean := StripRevisions(Upper(code));
    if |clean| >= 2 && IsDigit(clean[0]) && IsDigit(clean[1]) then [clean[0], '-', clean[1]]
    else "Others"
  }

  /** Text without the first character of a pattern contains no occurrence
      of it, so removing the pattern leaves the text as it is. */
  lemma {:induction false} RemoveAllAbsent(s: string, pattern: string)
    requires pattern != [] && pattern[0] !in s
    ensures RemoveAll(s, pattern) == s
    decreases |s|
  {
    if |s| >= |pattern| {
      assert s[..|pattern|] != pattern by {
        assert s[..|pattern|][0] == s[0];
      }
      RemoveAllAbsent(s[1..], pattern);
      assert s == [s[0]] + s[1..];
    }
  }

  /** Text in front of which no occurrence can start passes through a
      removal untouched. */
  lemma {:induction false} RemoveAllAfter(lead: string, s: string, pattern: string)
    requires pattern != [] && pattern[0] !in lead
    ensures RemoveAll(lead + s, pattern) == lead + RemoveAll(s, pattern)
    decreases |lead|
  {
    if lead != [] {
      var t := lead + s;
      if |t| >= |pattern| {
        assert t[..|pattern|] != pattern by {
          assert t[..|pattern|][0] == lead[0];
        }
        assert t[1..] == lead[1..] + s;
        RemoveAllAfter(lead[1..], s, pattern);
        assert lead == [lead[0]] + lead[1..];
      } else {
        assert |s| < |pattern|;
      }
    } else {
      assert lead + s == s;
    }
  }

  /** Removing a list of R-codes from text without an `R` leaves it. */
  lemma {:induction false} RemoveEachAbsent(s: string, revisions: seq<string>)
    requires forall k | 0 <= k < |revisions| :: |revisions[k]| == 3 && revisions[k][0] == 'R'
    requires 'R' !in s
    ensures RemoveEach(s, revisions) == s
    decreases |revisions|
  {
    if revisions != [] {
      RemoveAllAbsent(s, revisions[0]);
      RemoveEachAbsent(s, revisions[1..]);
    }
  }

  /** One removal of the pattern the code holds cuts that code out. */
  lemma CutOnce(lead: string, rev: string, rest: string)
    requires |rev| == 3 && rev[0] == 'R'
    requires 'R' !in lead && 'R' !in rest
    ensures RemoveAll(lead + rev + rest, rev) == lead + rest
  {
    var t := rev + rest;
    assert lead + rev + rest == lead + t;
    RemoveAllAfter(lead, t, rev);
    assert t[..3] == rev && t[3..] == rest;
    RemoveAllAbsent(rest, rev);
  }

  /** One removal of another R-code leaves the code as it is. */
  lemma KeptOnce(lead: string, rev: string, rest: string, p: string)
    requires |rev| == 3 && rev[0] == 'R' && 'R' !in rev[1..]
    requires |p| == 3 && p[0] == 'R' && rev != p
    requires 'R' !in lead && 'R' !in rest
    ensures RemoveAll(lead + rev + rest, p) == lead + rev + rest
  {
    var t := rev + rest;
    assert lead + rev + rest == lead + t;
    RemoveAllAfter(lead, t, p);
    assert t[..3] == rev;
    assert 'R' !in t[1..] by {
      assert t[1..] == rev[1..] + rest;
    }
    RemoveAllAbsent(t[1..], p);
    assert [t[0]] + t[1..] == t;
  }

  /** A revision code standing between two stretches of text without an
      `R` is cut out, whether it is a prefix or sits in the middle; an R-code
      that is not a revision code stays. */
  lemma {:induction false} RevisionCodeIsCut(lead: string, rev: string, rest: string, revisions: seq<string>)
    requires forall k | 0 <= k < |revisions| :: |revisions[k]| == 3 && revisions[k][0] == 'R' && 'R' !in revisions[k][1..]
    requires |rev| == 3 && rev[0] == 'R' && 'R' !in rev[1..]
    requires 'R' !in lead && 'R' !in rest
    ensures RemoveEach(lead + rev + rest, revisions) == if rev in revisions then lead + rest else lead + rev + rest
    decreases |revisions|
  {
    if revisions != [] {
      var p := revisions[0];
      if rev == p {
        CutOnce(lead, rev, rest);
        assert 'R' !in lead + rest;
        RemoveEachAbsent(lead + rest, revisions[1..]);
      } else {
        KeptOnce(lead, rev, rest, p);
        RevisionCodeIsCut(lead, rev, rest, revisions[1..]);
        assert rev in revisions <==> rev in revisions[1..];
      }
    }
  }

  /** A code without any `R` or `r` keeps its own first two characters: a
      bare numeric code such as "201101" is read as term "2-0". */
  lemma BareCodeTerm(code: string)
    requires 'R' !in code && 'r' !in code
    requires |code| >= 2 && IsDigit(code[0]) && IsDigit(code[1])
    ensures SemesterFromCode(code) == [code[0], '-', code[1]]
  {
    var u := Upper(code);
    assert 'R' !in u by {
      forall k | 0 <= k < |u| ensures u[k] != 'R' {
        assert code[k] != 'R' && code[k] != 'r';
      }
    }
    RemoveAllAbsent(u, "R13");
    RemoveAllAbsent(u, "R16");
    RemoveAllAbsent(u, "R19");
    RemoveAllAbsent(u, "R20");
    RemoveAllAbsent(u, "R23");
  }

  /** The term of a code made of text without `R`, a revision code and
      more text without `R`: the revision code is cut out before the first
      two characters are read. */
  lemma RevisionCodeTerm(lead: string, rev: string, rest: string)
    requires rev in RevisionCodes
    requires 'R' !in lead && 'R' !in rest
    requires Upper(lead + rev + rest) == lead + rev + rest
    ensures var clean := lead + rest;
      SemesterFromCode(lead + rev + rest) ==
        if |clean| >= 2 && IsDigit(clean[0]) && IsDigit(clean[1]) then [clean[0], '-', clean[1]] else "Others"
  {
    RevisionCodeIsCut(lead, rev, rest, RevisionCodes);
  }

  /** "R201101" loses its R20 prefix: term "1-1". */
  lemma R20CodeExample()
    ensures SemesterFromCode("R201101") == "1-1"
  {
    assert "R201101" == "" + "R20" + "1101";
    RevisionCodeTerm("", "R20", "1101");
  }

  /** "R161101" loses its R16 prefix: term "1-1". */
  lemma R16CodeExample()
    ensures SemesterFromCode("R161101") == "1-1"
  {
    assert "R161101" == "" + "R16" + "1101";
    RevisionCodeTerm("", "R16", "1101");
  }

  /** A lower-case code reads like an upper-case one: "r231205" is "1-2". */
  lemma LowerCaseCodeExample()
    ensures SemesterFromCode("r231205") == "1-2"
  {
    assert Upper("r231205") == "" + "R23" + "1205";
    RevisionCodeTerm("", "R23", "1205");
  }

  /** A revision code in the middle is cut out too: "2R2011" is "2-1". */
  lemma MiddleRevisionExample()
    ensures SemesterFromCode("2R2011") == "2-1"
  {
    assert "2R2011" == "2" + "R20" + "11";
    RevisionCodeTerm("2", "R20", "11");
  }

  /** A bare numeric code keeps its first two digits: "201101" is "2-0". */
  lemma BareCodeExample()
    ensures SemesterFromCode("201101") == "2-0"
  {
    BareCodeTerm("201101");
  }

  /** "XYZ" has no digit pair: "Others". */
  lemma OthersExample()
    ensures SemesterFromCode("XYZ") == "Others"
  {
    assert Upper("XYZ") == "XYZ";
    RemoveEachAbsent("XYZ", RevisionCodes);
  }
}
