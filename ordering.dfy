/**
 * Python's ordering of strings (code point by code point, a proper prefix
 * first) and the two facts the tables rely on: `sorted(set(...))` yields a
 * strictly increasing list, and a strictly increasing list is determined by
 * its elements.
 */
module Ordering {

  /** Python's `a < b` on `str`. */
  predicate StrLess(a: string, b: string)
    decreases |a|
  {
    if a == [] then b != []
    else if b == [] then false
    else if a[0] != b[0] then a[0] < b[0]
    else StrLess(a[1..], b[1..])
  }

  lemma {:induction false} StrLessIrreflexive(a: string)
    ensures !StrLess(a, a)
    decreases |a|
  {
    if a != [] {
      StrLessIrreflexive(a[1..]);
    }
  }

  lemma {:induction false} StrLessAsymmetric(a: string, b: string)
    ensures StrLess(a, b) ==> !StrLess(b, a)
    decreases |a|
  {
    if a != [] && b != [] && a[0] == b[0] {
      StrLessAsymmetric(a[1..], b[1..]);
    }
  }

  lemma {:induction false} StrLessTransitive(a: string, b: string, c: string)
    requires StrLess(a, b) && StrLess(b, c)
    ensures StrLess(a, c)
    decreases |a|
  {
    if a != [] && a[0] == b[0] && b[0] == c[0] {
      StrLessTransitive(a[1..], b[1..], c[1..]);
    }
  }

  lemma {:induction false} StrLessTotal(a: string, b: string)
    ensures a == b || StrLess(a, b) || StrLess(b, a)
    decreases |a|
  {
    if a != [] && b != [] && a[0] == b[0] {
      StrLessTotal(a[1..], b[1..]);
      if a[1..] == b[1..] {
        assert a == [a[0]] + a[1..] && b == [b[0]] + b[1..];
      }
    }
  }

  /** `less` holds between every earlier and every later element. */
  ghost predicate StrictlySortedBy<T>(less: (T, T) -> bool, s: seq<T>) {
    forall i, j | 0 <= i < j < |s| :: less(s[i], s[j])
  }

  ghost predicate Asymmetric<T(!new)>(less: (T, T) -> bool) {
    forall x, y :: less(x, y) ==> !less(y, x)
  }

  /** Two strictly sorted sequences with the same elements are equal: the
      order of a table sorted on a key that no two rows share is fixed. */
  lemma {:induction false} SortedBySameElementsEqual<T(!new)>(less: (T, T) -> bool, a: seq<T>, b: seq<T>)
    requires Asymmetric(less)
    requires StrictlySortedBy(less, a) && StrictlySortedBy(less, b)
    requires forall x :: x in a <==> x in b
    ensures a == b
    decreases |a|
  {
    if a != [] {
      assert a[0] in b && b[0] in a;
      assert a[0] == b[0];
      forall x
        ensures x in a[1..] <==> x in b[1..]
      {
        if x in a[1..] {
          var i :| 1 <= i < |a| && a[i] == x;
          assert less(a[0], a[i]);
        }
        if x in b[1..] {
          var j :| 1 <= j < |b| && b[j] == x;
          assert less(b[0], b[j]);
        }
        assert x in a <==> x == a[0] || x in a[1..];
        assert x in b <==> x == b[0] || x in b[1..];
      }
      SortedBySameElementsEqual(less, a[1..], b[1..]);
      assert a == [a[0]] + a[1..] && b == [b[0]] + b[1..];
    } else if b != [] {
      FirstIsElement(b);
      assert false;
    }
  }

  lemma FirstIsElement<T>(s: seq<T>)
    requires s != []
    ensures s[0] in s
  {
  }

  /** Adds `x` to a strictly increasing list of strings, keeping it so. */
  function InsertString(s: seq<string>, x: string): (r: seq<string>)
    requires StrictlySortedBy(StrLess, s)
    ensures StrictlySortedBy(StrLess, r)
    ensures forall y :: y in r <==> y in s || y == x
    decreases |s|
  {
    if s == [] then [x]
    else if x == s[0] then s
    else if StrLess(x, s[0]) then
      assert StrictlySortedBy(StrLess, [x] + s) by {
        forall j | 0 <= j < |s| ensures StrLess(x, s[j]) {
          if j > 0 { StrLessTransitive(x, s[0], s[j]); }
        }
      }
      [x] + s
    else
      var tail := InsertString(s[1..], x);
      assert StrictlySortedBy(StrLess, [s[0]] + tail) by {
        StrLessTotal(x, s[0]);
        forall y | y in tail ensures StrLess(s[0], y) {
          if y != x {
            var j :| 1 <= j < |s| && s[j] == y;
          }
        }
      }
      [s[0]] + tail
  }

  /** Python's `sorted(set(xs))`. */
  function SortedDistinct(xs: seq<string>): (r: seq<string>)
    ensures StrictlySortedBy(StrLess, r)
    ensures forall y :: y in r <==> y in xs
    decreases |xs|
  {
    if xs == [] then []
    else
      var init := xs[..|xs| - 1];
      assert xs == init + [xs[|xs| - 1]];
      InsertString(SortedDistinct(init), xs[|xs| - 1])
  }

  lemma StrLessIsAsymmetric()
    ensures Asymmetric(StrLess)
  {
    forall x, y ensures StrLess(x, y) ==> !StrLess(y, x) {
      StrLessAsymmetric(x, y);
    }
  }
}
