/** String operations the content validator relies on: prefix and suffix tests,
    substring search (`String.prototype.includes`), ASCII lower-casing
    (`toLowerCase`), the count of non-overlapping matches of a literal pattern
    (`match(/```/g).length`) and the decimal rendering of numbers and booleans
    that the report messages interpolate. */
module Text {

  predicate StartsWith(s: string, prefix: string) {
    |prefix| <= |s| && s[..|prefix|] == prefix
  }

  predicate EndsWith(s: string, suffix: string) {
    |suffix| <= |s| && s[|s| - |suffix|..] == suffix
  }

  /** Reference definition of an occurrence: `pattern` sits in `s` at index `i`. */
  ghost predicate OccursAt(s: string, pattern: string, i: int) {
    0 <= i && i + |pattern| <= |s| && s[i..i + |pattern|] == pattern
  }

  /** `s.includes(pattern)`, as a left-to-right scan. */
  predicate Contains(s: string, pattern: string)
    decreases |s|
  {
    StartsWith(s, pattern) || (|s| > 0 && Contains(s[1..], pattern))
  }

  lemma {:induction false} ContainsIffOccurs(s: string, pattern: string)
    ensures Contains(s, pattern) <==> exists i :: OccursAt(s, pattern, i)
    decreases |s|
  {
    if StartsWith(s, pattern) {
      assert OccursAt(s, pattern, 0);
    } else if |s| > 0 {
      ContainsIffOccurs(s[1..], pattern);
      if Contains(s[1..], pattern) {
        var j :| OccursAt(s[1..], pattern, j);
        assert s[1..][j..j + |pattern|] == s[j + 1..j + 1 + |pattern|];
        assert OccursAt(s, pattern, j + 1);
      }
      forall i | OccursAt(s, pattern, i) ensures Contains(s[1..], pattern) {
        if i == 0 {
          assert false;
        } else {
          assert s[1..][i - 1..i - 1 + |pattern|] == s[i..i + |pattern|];
          assert OccursAt(s[1..], pattern, i - 1);
        }
      }
    }
  }

  /** Containment is transitive: a text holding `t` holds every substring of `t`. */
  lemma ContainsTransitive(s: string, t: string, u: string)
    requires Contains(s, t) && Contains(t, u)
    ensures Contains(s, u)
  {
    ContainsIffOccurs(s, t);
    ContainsIffOccurs(t, u);
    var i :| OccursAt(s, t, i);
    var j :| OccursAt(t, u, j);
    var inS, inT := s[i + j..i + j + |u|], t[j..j + |u|];
    forall k | 0 <= k < |u| ensures inS[k] == inT[k] {
      assert t[j + k] == s[i..i + |t|][j + k];
    }
    assert inS == inT;
    assert OccursAt(s, u, i + j);
    ContainsIffOccurs(s, u);
  }

  // ---------------------------------------------------------------------------
  // Lower-casing, restricted to ASCII letters.

  predicate IsUpper(c: char) {
    'A' <= c <= 'Z'
  }

  function LowerChar(c: char): char {
    if IsUpper(c) then (c as int - 'A' as int + 'a' as int) as char else c
  }

  /** `s.toLowerCase()` over ASCII letters. */
  function ToLower(s: string): string {
    seq(|s|, i requires 0 <= i < |s| => LowerChar(s[i]))
  }

  predicate IsLowerCase(s: string) {
    forall i :: 0 <= i < |s| ==> !IsUpper(s[i])
  }

  /** Reference definition of "the same letters up to case": position by
      position the characters are equal, or one is an upper-case letter and
      the other its lower-case partner. */
  ghost predicate SameUpToCase(a: string, b: string) {
    |a| == |b| &&
    forall i :: 0 <= i < |a| ==>
      a[i] == b[i] ||
      (IsUpper(a[i]) && b[i] as int == a[i] as int + 32) ||
      (IsUpper(b[i]) && a[i] as int == b[i] as int + 32)
  }

  lemma ToLowerMakesLowerCase(s: string)
    ensures |ToLower(s)| == |s|
    ensures IsLowerCase(ToLower(s))
    ensures IsLowerCase(s) ==> ToLower(s) == s
  {
  }

  /** Two texts lower-case to the same text exactly when they agree up to case. */
  lemma ToLowerEqualIff(a: string, b: string)
    ensures ToLower(a) == ToLower(b) <==> SameUpToCase(a, b)
  {
    if ToLower(a) == ToLower(b) {
      forall i | 0 <= i < |a|
        ensures a[i] == b[i] ||
                (IsUpper(a[i]) && b[i] as int == a[i] as int + 32) ||
                (IsUpper(b[i]) && a[i] as int == b[i] as int + 32)
      {
        assert LowerChar(a[i]) == ToLower(a)[i] == ToLower(b)[i] == LowerChar(b[i]);
      }
    }
    if SameUpToCase(a, b) {
      forall i | 0 <= i < |a| ensures ToLower(a)[i] == ToLower(b)[i] {
      }
    }
  }

  /** A lower-case keyword found case-sensitively is also found after lower-casing. */
  lemma LowerCaseKeywordSurvives(s: string, keyword: string)
    requires IsLowerCase(keyword) && Contains(s, keyword)
    ensures Contains(ToLower(s), keyword)
  {
    ContainsIffOccurs(s, keyword);
    var i :| OccursAt(s, keyword, i);
    assert ToLower(s)[i..i + |keyword|] == ToLower(s[i..i + |keyword|]);
    ToLowerMakesLowerCase(keyword);
    assert OccursAt(ToLower(s), keyword, i);
    ContainsIffOccurs(ToLower(s), keyword);
  }

  // ---------------------------------------------------------------------------
  // Counting matches of a global literal regular expression.

  /** `(s.match(/pattern/g) || []).length` for a literal, non-empty pattern:
      the scan tries each position from left to right and, after a match,
      resumes just past it, so matches never overlap. */
  function CountMatches(s: string, pattern: string): nat
    requires |pattern| > 0
    decreases |s|
  {
    if |s| < |pattern| then 0
    else if s[..|pattern|] == pattern then 1 + CountMatches(s[|pattern|..], pattern)
    else CountMatches(s[1..], pattern)
  }

  lemma {:induction false} ShortTextContainsNothing(s: string, pattern: string)
    requires |s| < |pattern|
    ensures !Contains(s, pattern)
    decreases |s|
  {
    if |s| > 0 {
      ShortTextContainsNothing(s[1..], pattern);
    }
  }

  /** There is a match exactly when the pattern occurs somewhere. */
  lemma {:induction false} CountMatchesPositiveIff(s: string, pattern: string)
    requires |pattern| > 0
    ensures CountMatches(s, pattern) > 0 <==> Contains(s, pattern)
    decreases |s|
  {
    if |s| < |pattern| {
      ShortTextContainsNothing(s, pattern);
    } else if s[..|pattern|] != pattern {
      CountMatchesPositiveIff(s[1..], pattern);
    }
  }

  /** Matches do not overlap, so together they never exceed the text. */
  lemma {:induction false} CountMatchesBound(s: string, pattern: string)
    requires |pattern| > 0
    ensures CountMatches(s, pattern) * |pattern| <= |s|
    decreases |s|
  {
    if |s| < |pattern| {
    } else if s[..|pattern|] == pattern {
      var rest := s[|pattern|..];
      CountMatchesBound(rest, pattern);
      calc {
        CountMatches(s, pattern) * |pattern|;
        (1 + CountMatches(rest, pattern)) * |pattern|;
        |pattern| + CountMatches(rest, pattern) * |pattern|;
      }
    } else {
      CountMatchesBound(s[1..], pattern);
    }
  }

  /** A match at the very start is counted and the scan resumes after it. */
  lemma CountMatchesLeading(pattern: string, s: string)
    requires |pattern| > 0
    ensures CountMatches(pattern + s, pattern) == 1 + CountMatches(s, pattern)
  {
    assert (pattern + s)[..|pattern|] == pattern;
    assert (pattern + s)[|pattern|..] == s;
  }

  // ---------------------------------------------------------------------------
  // Rendering values inside template literals.

  predicate IsDigit(c: char) {
    '0' <= c <= '9'
  }

  function DigitChar(d: nat): char
    requires d < 10
  {
    ('0' as int + d) as char
  }

  /** Reference reading of a run of decimal digits, most significant first. */
  ghost function DecimalValue(s: string): nat
    requires forall i :: 0 <= i < |s| ==> IsDigit(s[i])
  {
    if s == [] then 0
    else
      assert IsDigit(s[|s| - 1]);
      DecimalValue(s[..|s| - 1]) * 10 + (s[|s| - 1] as int - '0' as int)
  }

  /** `${n}` for a non-negative integer: its decimal digits. */
  function NatToString(n: nat): string
    decreases n
  {
    if n < 10 then [DigitChar(n)] else NatToString(n / 10) + [DigitChar(n % 10)]
  }

  /** The rendering is a canonical decimal numeral of `n`: digits only,
      no leading zero, and it reads back as `n`. */
  lemma {:induction false} NatToStringIsDecimal(n: nat)
    ensures var s := NatToString(n);
      |s| > 0 && (forall i :: 0 <= i < |s| ==> IsDigit(s[i])) &&
      (|s| > 1 ==> s[0] != '0') && DecimalValue(s) == n
    decreases n
  {
    var s := NatToString(n);
    if n < 10 {
      assert s[..0] == [];
    } else {
      NatToStringIsDecimal(n / 10);
      var h := NatToString(n / 10);
      assert s[..|s| - 1] == h;
      assert s[0] == h[0];
    }
  }

  /** `${b}` for a boolean. */
  function BoolText(b: bool): string {
    if b then "true" else "false"
  }

  /** The `b ? 'yes' : 'no'` of the report messages. */
  function YesNo(b: bool): string {
    if b then "yes" else "no"
  }
}
