/**
 * The string primitives of Python's `str` that the memo parser relies on:
 * `isspace`, `isdigit`, `upper`, `strip`, `split()`, `split(sep)`, `join`,
 * `replace` and `float` on decimal tokens. Characters outside ASCII are
 * treated by their ASCII rules (a non-ASCII digit or space is neither).
 */
module Text {

  /** `str.isspace` on ASCII: tab, line feed, vertical tab, form feed,
      carriage return, the four information separators and the space. */
  predicate IsSpace(c: char) {
    (9 <= c as int <= 13) || (28 <= c as int <= 32)
  }

  predicate IsDigit(c: char) {
    '0' <= c <= '9'
  }

  predicate IsUpperLetter(c: char) {
    'A' <= c <= 'Z'
  }

  predicate IsLowerLetter(c: char) {
    'a' <= c <= 'z'
  }

  /** A character of the regular-expression class `\w`. */
  predicate IsWordChar(c: char) {
    IsDigit(c) || IsUpperLetter(c) || IsLowerLetter(c) || c == '_'
  }

  predicate AllDigits(s: string) {
    forall k | 0 <= k < |s| :: IsDigit(s[k])
  }

  function UpperChar(c: char): char {
    if IsLowerLetter(c) then (c as int - 32) as char else c
  }

  /** `str.upper`. */
  function Upper(s: string): (u: string)
    ensures |u| == |s|
    ensures forall k | 0 <= k < |s| :: u[k] == UpperChar(s[k])
  {
    seq(|s|, k requires 0 <= k < |s| => UpperChar(s[k]))
  }

  predicate StartsWith(s: string, prefix: string) {
    |prefix| <= |s| && s[..|prefix|] == prefix
  }

  /** Python's `needle in s`. */
  predicate Contains(s: string, needle: string)
    decreases |s|
  {
    StartsWith(s, needle) || (s != [] && Contains(s[1..], needle))
  }

  /** Text holds every stretch of itself. */
  lemma {:induction false} ContainsAt(s: string, needle: string, k: nat)
    requires k + |needle| <= |s| && s[k..k + |needle|] == needle
    ensures Contains(s, needle)
    decreases k
  {
    if k > 0 {
      assert s[1..][k - 1..k - 1 + |needle|] == s[k..k + |needle|];
      ContainsAt(s[1..], needle, k - 1);
    }
  }

  /** The text without its leading whitespace. */
  function TrimStart(s: string): (r: string)
    ensures |r| <= |s|
    decreases |s|
  {
    if s != [] && IsSpace(s[0]) then TrimStart(s[1..]) else s
  }

  /** The text without its trailing whitespace. */
  function TrimEnd(s: string): (r: string)
    ensures |r| <= |s|
    decreases |s|
  {
    if s != [] && IsSpace(s[|s| - 1]) then TrimEnd(s[..|s| - 1]) else s
  }

  /** `str.strip()` with no argument. */
  function Strip(s: string): string {
    TrimEnd(TrimStart(s))
  }

  /** Leading whitespace goes: the result is a suffix of `s` that does not
      start with whitespace, and every character cut off is whitespace. */
  lemma {:induction false} TrimStartRule(s: string)
    ensures var r := TrimStart(s);
      && r == s[|s| - |r|..]
      && (forall k | 0 <= k < |s| - |r| :: IsSpace(s[k]))
      && (r != [] ==> !IsSpace(r[0]))
    decreases |s|
  {
    if s != [] && IsSpace(s[0]) {
      TrimStartRule(s[1..]);
    }
  }

  /** Trailing whitespace goes: the result is a prefix of `s` that does not
      end with whitespace, and every character cut off is whitespace. */
  lemma {:induction false} TrimEndRule(s: string)
    ensures var r := TrimEnd(s);
      && r == s[..|r|]
      && (forall k | |r| <= k < |s| :: IsSpace(s[k]))
      && (r != [] ==> !IsSpace(r[|r| - 1]))
    decreases |s|
  {
    if s != [] && IsSpace(s[|s| - 1]) {
      TrimEndRule(s[..|s| - 1]);
    }
  }

  /** `strip()` keeps the stretch of `s` between the whitespace at its two
      ends, and that stretch neither starts nor ends with whitespace. */
  lemma StripRule(s: string)
    ensures var r, i := Strip(s), |s| - |TrimStart(s)|;
      && (r != [] ==> !IsSpace(r[0]) && !IsSpace(r[|r| - 1]))
      && i + |r| <= |s|
      && r == s[i..i + |r|]
      && (forall k | 0 <= k < i :: IsSpace(s[k]))
      && (forall k | i + |r| <= k < |s| :: IsSpace(s[k]))
  {
    var t := TrimStart(s);
    TrimStartRule(s);
    TrimEndRule(t);
  }

  /** Text without whitespace at its ends is its own strip. */
  lemma StripUntouched(s: string)
    requires s != [] && !IsSpace(s[0]) && !IsSpace(s[|s| - 1])
    ensures Strip(s) == s
  {
    assert TrimStart(s) == s;
    assert TrimEnd(s) == s;
  }

  /** `s.replace(c, '')` for a single character: every `c` goes, and every
      other character stays, as often as it occurs. */
  function RemoveChar(s: string, c: char): (r: string)
    ensures forall x | x in r :: x in s && x != c
    ensures |r| == |s| - multiset(s)[c]
    ensures forall x | x != c :: multiset(r)[x] == multiset(s)[x]
    decreases |s|
  {
    if s == [] then []
    else
      assert s == [s[0]] + s[1..];
      if s[0] == c then RemoveChar(s[1..], c)
      else [s[0]] + RemoveChar(s[1..], c)
  }

  /** Removal works character by character: it distributes over
      concatenation, so the characters that stay keep their order. */
  lemma {:induction false} RemoveCharAppend(a: string, b: string, c: char)
    ensures RemoveChar(a + b, c) == RemoveChar(a, c) + RemoveChar(b, c)
    decreases |a|
  {
    if a == [] {
      assert a + b == b;
    } else {
      assert (a + b)[1..] == a[1..] + b;
      RemoveCharAppend(a[1..], b, c);
    }
  }

  /** A single character goes exactly when it is the one removed. */
  lemma RemoveCharOne(x: char, c: char)
    ensures RemoveChar([x], c) == if x == c then [] else [x]
  {
    assert [x][1..] == [];
  }

  /** `s.replace(c, '', 1)`: only the first occurrence goes. */
  function RemoveFirst(s: string, c: char): string
    decreases |s|
  {
    if s == [] then []
    else if s[0] == c then s[1..]
    else [s[0]] + RemoveFirst(s[1..], c)
  }

  /** `s.replace(pattern, '')`: occurrences are found left to right and do
      not overlap; text that becomes an occurrence only after a removal
      stays. */
  function RemoveAll(s: string, pattern: string): (r: string)
    requires pattern != []
    ensures |r| <= |s|
    decreases |s|
  {
    if |s| < |pattern| then s
    else if s[..|pattern|] == pattern then RemoveAll(s[|pattern|..], pattern)
    else [s[0]] + RemoveAll(s[1..], pattern)
  }

  /** An occurrence of `pattern` starts at `k`. */
  predicate OccursAt(s: string, pattern: string, k: nat) {
    k + |pattern| <= |s| && s[k..k + |pattern|] == pattern
  }

  /** Text without an occurrence of the pattern is left as it is. */
  lemma {:induction false} RemoveAllNoOccurrence(s: string, pattern: string)
    requires pattern != []
    requires forall k: nat :: !OccursAt(s, pattern, k)
    ensures RemoveAll(s, pattern) == s
    decreases |s|
  {
    if |s| >= |pattern| {
      assert !OccursAt(s, pattern, 0);
      forall k: nat ensures !OccursAt(s[1..], pattern, k) {
        assert !OccursAt(s, pattern, k + 1);
        if k + |pattern| <= |s[1..]| {
          assert s[1..][k..k + |pattern|] == s[k + 1..k + 1 + |pattern|];
        }
      }
      RemoveAllNoOccurrence(s[1..], pattern);
      assert s == [s[0]] + s[1..];
    }
  }

  /** The leftmost occurrence is cut out, the text before it is kept, and
      the search goes on after it: occurrences do not overlap. */
  lemma RemoveAllFirstOccurrence(s: string, pattern: string, k: nat)
    requires pattern != []
    requires OccursAt(s, pattern, k)
    requires forall j: nat | j < k :: !OccursAt(s, pattern, j)
    ensures RemoveAll(s, pattern) == s[..k] + RemoveAll(s[k + |pattern|..], pattern)
  {
    RemoveAllUpTo(s, pattern, k, 0);
    assert s[0..] == s && s[0..k] == s[..k];
  }

  /** From position `i` on, the text up to the next occurrence at `k` is
      kept and the occurrence is cut out. */
  lemma {:induction false} RemoveAllUpTo(s: string, pattern: string, k: nat, i: nat)
    requires pattern != [] && i <= k
    requires OccursAt(s, pattern, k)
    requires forall j: nat | i <= j < k :: !OccursAt(s, pattern, j)
    ensures RemoveAll(s[i..], pattern) == s[i..k] + RemoveAll(s[k + |pattern|..], pattern)
    decreases k - i
  {
    var rest := RemoveAll(s[k + |pattern|..], pattern);
    if i == k {
      RemoveAllAt(s, pattern, k);
      assert s[k..k] + rest == rest;
    } else {
      RemoveAllUpTo(s, pattern, k, i + 1);
      calc {
        RemoveAll(s[i..], pattern);
        == { RemoveAllSkip(s, pattern, i); }
        [s[i]] + RemoveAll(s[i + 1..], pattern);
        == { assert [s[i]] + (s[i + 1..k] + rest) == ([s[i]] + s[i + 1..k]) + rest; }
        ([s[i]] + s[i + 1..k]) + rest;
        == { assert s[i..k] == [s[i]] + s[i + 1..k]; }
        s[i..k] + rest;
      }
    }
  }

  /** An occurrence at `k` is cut out. */
  lemma RemoveAllAt(s: string, pattern: string, k: nat)
    requires pattern != [] && OccursAt(s, pattern, k)
    ensures RemoveAll(s[k..], pattern) == RemoveAll(s[k + |pattern|..], pattern)
  {
    assert s[k..][..|pattern|] == pattern;
    assert s[k..][|pattern|..] == s[k + |pattern|..];
  }

  /** A character at which no occurrence starts is kept. */
  lemma RemoveAllSkip(s: string, pattern: string, i: nat)
    requires pattern != [] && i + |pattern| <= |s| && !OccursAt(s, pattern, i)
    ensures RemoveAll(s[i..], pattern) == [s[i]] + RemoveAll(s[i + 1..], pattern)
  {
    var u := s[i..];
    assert u[..|pattern|] == s[i..i + |pattern|];
    assert u[1..] == s[i + 1..];
  }

  /** The index of the first `c` in `s`, or `|s|` when there is none. */
  function IndexOf(s: string, c: char): (i: nat)
    ensures i <= |s|
    ensures i < |s| ==> s[i] == c
    ensures forall k | 0 <= k < i :: s[k] != c
    decreases |s|
  {
    if s == [] then 0
    else if s[0] == c then 0
    else 1 + IndexOf(s[1..], c)
  }

  /** `s.split(sep)`: the pieces between separators, empty ones included. */
  function SplitOn(s: string, sep: char): (pieces: seq<string>)
    ensures |pieces| >= 1
    ensures forall k | 0 <= k < |pieces| :: sep !in pieces[k]
    decreases |s|
  {
    var i := IndexOf(s, sep);
    if i == |s| then [s]
    else [s[..i]] + SplitOn(s[i + 1..], sep)
  }

  /** The lengths of `xs`, summed. */
  function TotalLength(xs: seq<string>): nat
    decreases |xs|
  {
    if xs == [] then 0 else |xs[0]| + TotalLength(xs[1..])
  }

  /** `sep.join(xs)`: every piece once, with one separator between each two
      neighbours. */
  function Join(sep: string, xs: seq<string>): (r: string)
    ensures xs != [] ==> StartsWith(r, xs[0])
    ensures |r| == TotalLength(xs) + (if xs == [] then 0 else (|xs| - 1) * |sep|)
    decreases |xs|
  {
    if xs == [] then ""
    else if |xs| == 1 then xs[0]
    else xs[0] + sep + Join(sep, xs[1..])
  }

  /** Joining the pieces of a split with its separator gives back the text. */
  lemma {:induction false} JoinSplitOn(s: string, sep: char)
    ensures Join([sep], SplitOn(s, sep)) == s
    decreases |s|
  {
    var i := IndexOf(s, sep);
    if i < |s| {
      var rest := s[i + 1..];
      JoinSplitOn(rest, sep);
      assert SplitOn(s, sep) == [s[..i]] + SplitOn(rest, sep);
      var tail := SplitOn(rest, sep);
      assert ([s[..i]] + tail)[1..] == tail;
      assert s == s[..i] + [sep] + rest;
    }
  }

  /** Splitting pieces joined with a separator none of them holds gives the
      pieces back: a join is determined by its pieces and undone by a split. */
  lemma {:induction false} SplitOnJoin(xs: seq<string>, sep: char)
    requires xs != []
    requires forall k | 0 <= k < |xs| :: sep !in xs[k]
    ensures SplitOn(Join([sep], xs), sep) == xs
    decreases |xs|
  {
    var first := xs[0];
    if |xs| == 1 {
      assert IndexOf(first, sep) == |first|;
    } else {
      var rest := Join([sep], xs[1..]);
      var s := first + ([sep] + rest);
      assert Join([sep], xs) == s;
      IndexOfAfter(first, [sep] + rest, sep);
      assert IndexOf(s, sep) == |first|;
      assert s[..|first|] == first && s[|first| + 1..] == rest;
      SplitOnJoin(xs[1..], sep);
      assert [first] + xs[1..] == xs;
    }
  }

  /** The end of the run of non-space characters that starts at `from`. */
  function WordEnd(s: string, from: nat): (e: nat)
    requires from <= |s|
    ensures from <= e <= |s|
    ensures e < |s| ==> IsSpace(s[e])
    ensures forall k | from <= k < e :: !IsSpace(s[k])
    decreases |s| - from
  {
    if from == |s| || IsSpace(s[from]) then from else WordEnd(s, from + 1)
  }

  /** `str.split()` with no argument: maximal runs of non-space characters.
      Text of whitespace only has no words; with that, `SplitWordsAtSpace`
      and `SplitWordsOfWord` pin the words down. */
  function SplitWords(s: string): (words: seq<string>)
    ensures forall k | 0 <= k < |words| :: words[k] != []
    ensures forall k, j | 0 <= k < |words| && 0 <= j < |words[k]| :: !IsSpace(words[k][j])
    ensures (forall k | 0 <= k < |s| :: IsSpace(s[k])) ==> words == []
    decreases |s|
  {
    if s == [] then []
    else if IsSpace(s[0]) then SplitWords(s[1..])
    else
      var e := WordEnd(s, 0);
      [s[..e]] + SplitWords(s[e..])
  }

  /** The run of non-space characters from `from` reaches past the end of
      `s` into `t` only when it reaches the end of `s`, and a space at the
      start of `t` ends it there. */
  lemma {:induction false} WordEndAppend(s: string, t: string, from: nat)
    requires from <= |s|
    ensures WordEnd(s, from) < |s| ==> WordEnd(s + t, from) == WordEnd(s, from)
    ensures WordEnd(s, from) == |s| && t != [] && IsSpace(t[0]) ==> WordEnd(s + t, from) == |s|
    decreases |s| - from
  {
    var st := s + t;
    if from < |s| {
      assert st[from] == s[from];
      if !IsSpace(s[from]) {
        WordEndAppend(s, t, from + 1);
      }
    } else if t != [] {
      assert st[from] == t[0];
    }
  }

  /** Whitespace separates words: splitting text at a whitespace character
      splits its word list there. */
  lemma {:induction false} SplitWordsAtSpace(a: string, c: char, b: string)
    requires IsSpace(c)
    ensures SplitWords(a + [c] + b) == SplitWords(a) + SplitWords(b)
    decreases |a|
  {
    var s := a + [c] + b;
    if a == [] {
      assert s == [c] + b && s[1..] == b;
    } else if IsSpace(a[0]) {
      assert s[0] == a[0] && s[1..] == a[1..] + [c] + b;
      SplitWordsAtSpace(a[1..], c, b);
    } else {
      assert s[0] == a[0];
      var e := WordEnd(a, 0);
      WordEndAppend(a, [c] + b, 0);
      assert s == a + ([c] + b);
      assert s[..e] == a[..e];
      if e < |a| {
        assert s[e..] == a[e..] + [c] + b;
        SplitWordsAtSpace(a[e..], c, b);
      } else {
        assert s[e..] == [c] + b && ([c] + b)[1..] == b;
        assert a[e..] == [] && a[..e] == a;
      }
    }
  }

  /** A non-empty run of non-space characters is one word. */
  lemma SplitWordsOfWord(w: string)
    requires w != [] && forall k | 0 <= k < |w| :: !IsSpace(w[k])
    ensures SplitWords(w) == [w]
  {
    assert WordEnd(w, 0) == |w|;
    assert w[..|w|] == w && w[|w|..] == [];
  }

  function DigitValue(c: char): nat {
    if IsDigit(c) then c as int - '0' as int else 0
  }

  /** The value of a string of decimal digits. */
  function DigitsValue(s: string): nat
    decreases |s|
  {
    if s == [] then 0 else 10 * DigitsValue(s[..|s| - 1]) + DigitValue(s[|s| - 1])
  }

  function Pow10(n: nat): (p: nat)
    ensures p >= 1
  {
    if n == 0 then 1 else 10 * Pow10(n - 1)
  }

  /** The test `t.replace('.', '', 1).isdigit()`: digits with at most one
      dot, and at least one digit. */
  predicate IsDecimalToken(t: string) {
    var u := RemoveFirst(t, '.');
    u != [] && AllDigits(u)
  }

  /** `float(t)` for a token that passes `IsDecimalToken`, as an exact real. */
  function DecimalValue(t: string): (v: real)
    ensures v >= 0.0
    ensures AllDigits(t) ==> v == DigitsValue(t) as real
  {
    var d := IndexOf(t, '.');
    if d == |t| then DigitsValue(t) as real
    else Decimal(DigitsValue(t[..d]), DigitsValue(t[d + 1..]), |t| - d - 1)
  }

  /** The number with whole part `whole` and `digits` fraction digits
      `fraction`. */
  function Decimal(whole: nat, fraction: nat, digits: nat): (v: real)
    ensures v >= 0.0
  {
    whole as real + fraction as real / Pow10(digits) as real
  }

  lemma {:induction false} IndexOfAfter(a: string, b: string, c: char)
    requires c !in a
    ensures IndexOf(a + b, c) == |a| + IndexOf(b, c)
    decreases |a|
  {
    if a != [] {
      assert (a + b)[0] == a[0] && (a + b)[1..] == a[1..] + b;
      IndexOfAfter(a[1..], b, c);
    } else {
      assert a + b == b;
    }
  }

  /** The first dot of a token with one dot follows its whole part. */
  lemma DotAfterWhole(whole: string, fraction: string)
    requires AllDigits(whole)
    ensures var t := whole + "." + fraction;
      && IndexOf(t, '.') == |whole|
      && t[..|whole|] == whole && t[|whole| + 1..] == fraction
  {
    var t := whole + ("." + fraction);
    assert whole + "." + fraction == t;
    assert '.' !in whole by {
      forall k | 0 <= k < |whole| ensures whole[k] != '.' {
        assert IsDigit(whole[k]);
      }
    }
    IndexOfAfter(whole, "." + fraction, '.');
    assert t[..|whole|] == whole && t[|whole| + 1..] == fraction;
  }

  /** A token with one dot is worth its whole part plus its fraction. */
  lemma DecimalValueWithDot(whole: string, fraction: string)
    requires AllDigits(whole) && AllDigits(fraction)
    ensures DecimalValue(whole + "." + fraction) == Decimal(DigitsValue(whole), DigitsValue(fraction), |fraction|)
  {
    var t := whole + "." + fraction;
    DotAfterWhole(whole, fraction);
    assert |t| - |whole| - 1 == |fraction|;
  }

  /** The credit tokens a memo holds: "15" is 15, "1.5" is 1.5, "3" is 3. */
  lemma CreditTokenValues()
    ensures DecimalValue("15") == 15.0
    ensures DecimalValue("1.5") == 1.5
    ensures DecimalValue("3") == 3.0
  {
    assert "15"[..1] == "1" && "1"[..0] == "";
    assert DigitsValue("15") == 15;
    DecimalValueWithDot("1", "5");
    assert "1" + "." + "5" == "1.5";
    assert "1"[..0] == "" && "5"[..0] == "";
    assert Decimal(1, 5, 1) == 1.5;
  }
}
