/**
 * The JavaScript string built-ins the core relies on, written out:
 * `String.prototype.split` with a string separator, `Number.prototype.toString()`
 * for non-negative integers, and `parseInt(s, 10)`.
 */
module JsText {

  /** A JavaScript number as it is used here: an integer, or NaN. */
  datatype IntOrNaN = Int(i: int) | NaN

  // ---------------------------------------------------------------------------
  // String.prototype.split(separator), for a non-empty string separator
  // ---------------------------------------------------------------------------

  /** `sep` occurs in `s` starting at index `k`. */
  predicate OccursAt(s: string, sep: string, k: nat)
  {
    k + |sep| <= |s| && s[k..k + |sep|] == sep
  }

  /**
   * The parts `s.split(sep)` returns: the separator is searched left to right,
   * each occurrence found ends one part, and the search resumes after it.
   */
  function Split(s: string, sep: string): (parts: seq<string>)
    requires sep != []
    ensures |parts| >= 1
    decreases |s|
  {
    if |s| < |sep| then [s]
    else if s[..|sep|] == sep then [""] + Split(s[|sep|..], sep)
    else
      var rest := Split(s[1..], sep);
      [[s[0]] + rest[0]] + rest[1..]
  }

  /** `parts.join(sep)`. */
  function Join(parts: seq<string>, sep: string): string
    requires |parts| >= 1
  {
    if |parts| == 1 then parts[0] else parts[0] + sep + Join(parts[1..], sep)
  }

  /** The number of positions of `s` at which `sep` occurs (overlaps included). */
  function Count(s: string, sep: string): nat
    requires sep != []
    decreases |s|
  {
    if |s| < |sep| then 0
    else (if s[..|sep|] == sep then 1 else 0) + Count(s[1..], sep)
  }

  /** The first character of `sep` does not occur again in `sep`, so two
      occurrences of `sep` can never overlap. */
  predicate HeadUnique(sep: string)
  {
    sep != [] && forall k :: 0 < k < |sep| ==> sep[k] != sep[0]
  }

  /** Putting a character in front of the first part puts it in front of the
      joined text. */
  lemma JoinPrepend(c: char, parts: seq<string>, sep: string)
    requires |parts| >= 1
    ensures Join([[c] + parts[0]] + parts[1..], sep) == [c] + Join(parts, sep)
  {
    var q := [[c] + parts[0]] + parts[1..];
    if |parts| > 1 {
      assert q[1..] == parts[1..];
      assert Join(q, sep) == ([c] + parts[0]) + sep + Join(parts[1..], sep);
    }
  }

  /** An empty first part leaves just the separator in front. */
  lemma JoinEmptyHead(parts: seq<string>, sep: string)
    requires |parts| >= 1
    ensures Join([""] + parts, sep) == sep + Join(parts, sep)
  {
    assert ([""] + parts)[1..] == parts;
  }

  /** Splitting and joining again gives back the original string. */
  lemma {:induction false} JoinSplit(s: string, sep: string)
    requires sep != []
    ensures Join(Split(s, sep), sep) == s
    decreases |s|
  {
    if |s| < |sep| {
    } else if s[..|sep|] == sep {
      JoinSplit(s[|sep|..], sep);
      JoinEmptyHead(Split(s[|sep|..], sep), sep);
      assert s == sep + s[|sep|..];
    } else {
      JoinSplit(s[1..], sep);
      JoinPrepend(s[0], Split(s[1..], sep), sep);
      assert s == [s[0]] + s[1..];
    }
  }

  /** A string that does not start with the separator's first character has
      the same occurrences as its tail. */
  lemma CountSkip(t: string, sep: string)
    requires sep != [] && |t| > 0 && t[0] != sep[0]
    ensures Count(t, sep) == Count(t[1..], sep)
  {
    if |t| >= |sep| {
      assert t[..|sep|][0] == t[0];
    }
  }

  /** Under `HeadUnique`, the parts of a split are one more than the occurrences:
      the split has exactly two parts exactly when the separator occurs once. */
  lemma {:induction false} SplitCount(s: string, sep: string)
    requires HeadUnique(sep)
    ensures |Split(s, sep)| == Count(s, sep) + 1
    decreases |s|
  {
    if |s| < |sep| {
    } else if s[..|sep|] == sep {
      SplitCount(s[|sep|..], sep);
      var k := 1;
      while k < |sep|
        invariant 1 <= k <= |sep|
        invariant Count(s[1..], sep) == Count(s[k..], sep)
      {
        assert s[k..][0] == s[..|sep|][k];
        CountSkip(s[k..], sep);
        assert s[k..][1..] == s[k + 1..];
        k := k + 1;
      }
    } else {
      SplitCount(s[1..], sep);
    }
  }

  /** Every occurrence is counted. */
  lemma {:induction false} CountOccurrence(s: string, sep: string, k: nat)
    requires sep != [] && OccursAt(s, sep, k)
    ensures Count(s, sep) >= 1
    decreases k
  {
    if k > 0 {
      assert s[1..][k - 1..k - 1 + |sep|] == s[k..k + |sep|];
      CountOccurrence(s[1..], sep, k - 1);
    }
  }

  /** Two occurrences at different positions count twice. */
  lemma {:induction false} CountTwoOccurrences(s: string, sep: string, i: nat, j: nat)
    requires sep != [] && i < j && OccursAt(s, sep, i) && OccursAt(s, sep, j)
    ensures Count(s, sep) >= 2
    decreases i
  {
    assert s[1..][j - 1..j - 1 + |sep|] == s[j..j + |sep|];
    if i == 0 {
      CountOccurrence(s[1..], sep, j - 1);
    } else {
      assert s[1..][i - 1..i - 1 + |sep|] == s[i..i + |sep|];
      CountTwoOccurrences(s[1..], sep, i - 1, j - 1);
    }
  }

  /** A string in which the separator does not occur splits into itself. */
  lemma {:induction false} SplitAbsent(s: string, sep: string)
    requires sep != [] && Count(s, sep) == 0
    ensures Split(s, sep) == [s]
    decreases |s|
  {
    if |s| >= |sep| {
      SplitAbsent(s[1..], sep);
      assert [s[0]] + s[1..] == s;
    }
  }

  /** A separator containing a character the string lacks does not occur in it. */
  lemma {:induction false} CountWithoutChar(s: string, sep: string, c: char)
    requires sep != [] && c in sep && c !in s
    ensures Count(s, sep) == 0
    decreases |s|
  {
    if |s| >= |sep| {
      assert forall x :: x in s[1..] ==> x in s;
      CountWithoutChar(s[1..], sep, c);
    }
  }

  /** When the separator occurs exactly once, splitting on it yields what
      precedes and what follows that one occurrence, wherever it sits. */
  lemma SplitSingle(s: string, sep: string, before: string, after: string)
    requires HeadUnique(sep) && s == before + sep + after && Count(s, sep) == 1
    ensures Split(s, sep) == [before, after]
  {
    var parts := Split(s, sep);
    SplitCount(s, sep);
    JoinSplit(s, sep);
    assert s == parts[0] + sep + parts[1];
    assert OccursAt(s, sep, |before|) by {
      assert s[|before|..|before| + |sep|] == sep;
    }
    assert OccursAt(s, sep, |parts[0]|) by {
      assert s[|parts[0]|..|parts[0]| + |sep|] == sep;
    }
    if |parts[0]| < |before| {
      CountTwoOccurrences(s, sep, |parts[0]|, |before|);
    } else if |before| < |parts[0]| {
      CountTwoOccurrences(s, sep, |before|, |parts[0]|);
    }
    assert parts[0] == s[..|before|] == before;
    assert parts[1] == s[|before| + |sep|..] == after;
  }

  /** A string that begins with the separator and has no other occurrence of it
      splits into the empty string and the rest. */
  lemma SplitAfterLeadingSeparator(sep: string, rest: string)
    requires HeadUnique(sep) && Count(rest, sep) == 0
    ensures Split(sep + rest, sep) == ["", rest]
    ensures Count(sep + rest, sep) == 1
  {
    var s := sep + rest;
    assert s[..|sep|] == sep;
    assert s[|sep|..] == rest;
    SplitAbsent(rest, sep);
    SplitCount(s, sep);
  }

  // ---------------------------------------------------------------------------
  // Number.prototype.toString() for non-negative integers
  // ---------------------------------------------------------------------------

  predicate IsDigit(c: char)
  {
    '0' <= c <= '9'
  }

  function DigitChar(d: nat): (c: char)
    requires d < 10
    ensures IsDigit(c) && c as int - '0' as int == d
  {
    "0123456789"[d]
  }

  /** The decimal rendering of `n`, most significant digit first, no leading zero. */
  function DecimalString(n: nat): (r: string)
    ensures |r| >= 1 && forall k :: 0 <= k < |r| ==> IsDigit(r[k])
    ensures |r| > 1 ==> r[0] != '0'
    decreases n
  {
    if n < 10 then [DigitChar(n)] else DecimalString(n / 10) + [DigitChar(n % 10)]
  }

  /** Every integer from 10000 to 99999 renders as exactly five digits. */
  lemma FiveDigits(n: nat)
    requires 10000 <= n <= 99999
    ensures |DecimalString(n)| == 5
  {
    var a := n / 10;
    var b := a / 10;
    var c := b / 10;
    var d := c / 10;
    assert 1 <= d < 10 && 10 <= c < 100 && 100 <= b < 1000 && 1000 <= a < 10000;
    assert |DecimalString(d)| == 1;
    assert |DecimalString(c)| == 2;
    assert |DecimalString(b)| == 3;
    assert |DecimalString(a)| == 4;
  }

  // ---------------------------------------------------------------------------
  // parseInt(s, 10)
  // ---------------------------------------------------------------------------

  /** LineTerminator of ECMAScript: LF, CR, LINE SEPARATOR, PARAGRAPH SEPARATOR. */
  predicate IsLineTerminator(c: char)
  {
    c == '\n' || c == '\r' || c == '\U{2028}' || c == '\U{2029}'
  }

  /** StrWhiteSpaceChar of ECMAScript: WhiteSpace (including every space
      separator of Unicode category Zs) and LineTerminator. */
  predicate IsStrWhiteSpace(c: char)
  {
    || c == '\t' || c == '\U{000B}' || c == '\U{000C}' || c == ' '
    || c == '\U{00A0}' || c == '\U{FEFF}' || c == '\U{1680}'
    || ('\U{2000}' <= c <= '\U{200A}')
    || c == '\U{202F}' || c == '\U{205F}' || c == '\U{3000}'
    || IsLineTerminator(c)
  }

  /** `s` with its leading white space removed. */
  function TrimStart(s: string): (t: string)
    ensures |t| <= |s| && t == s[|s| - |t|..]
    ensures t == [] || !IsStrWhiteSpace(t[0])
    ensures forall k :: 0 <= k < |s| - |t| ==> IsStrWhiteSpace(s[k])
  {
    if s != [] && IsStrWhiteSpace(s[0]) then TrimStart(s[1..]) else s
  }

  /** The longest prefix of `s` made of decimal digits. */
  function LeadingDigits(s: string): (z: string)
    ensures |z| <= |s| && z == s[..|z|]
    ensures forall k :: 0 <= k < |z| ==> IsDigit(z[k])
    ensures |z| < |s| ==> !IsDigit(s[|z|])
  {
    if s == [] || !IsDigit(s[0]) then [] else [s[0]] + LeadingDigits(s[1..])
  }

  /** The value of a string of decimal digits. */
  function DigitsValue(z: string): nat
    requires forall k :: 0 <= k < |z| ==> IsDigit(z[k])
  {
    if z == [] then 0
    else
      var last := z[|z| - 1];
      assert IsDigit(last);
      DigitsValue(z[..|z| - 1]) * 10 + (last as int - '0' as int)
  }

  /**
   * `parseInt(s, 10)`: skip leading white space, take an optional sign, then
   * the longest run of decimal digits; NaN when that run is empty. Whatever
   * follows the digits is ignored.
   */
  function ParseInt(s: string): IntOrNaN
  {
    var t := TrimStart(s);
    var negative := |t| > 0 && t[0] == '-';
    var u := if |t| > 0 && (t[0] == '-' || t[0] == '+') then t[1..] else t;
    var z := LeadingDigits(u);
    if z == [] then NaN
    else if negative then Int(-(DigitsValue(z) as int))
    else Int(DigitsValue(z))
  }

  lemma {:induction false} DigitsValueOfDecimal(n: nat)
    ensures DigitsValue(DecimalString(n)) == n
    decreases n
  {
    if n >= 10 {
      var z := DecimalString(n);
      DigitsValueOfDecimal(n / 10);
      assert z[..|z| - 1] == DecimalString(n / 10);
    }
  }

  lemma {:induction false} LeadingDigitsOfDigitsThen(z: string, rest: string)
    requires forall k :: 0 <= k < |z| ==> IsDigit(z[k])
    requires rest == [] || !IsDigit(rest[0])
    ensures LeadingDigits(z + rest) == z
    decreases |z|
  {
    if z != [] {
      assert (z + rest)[1..] == z[1..] + rest;
      LeadingDigitsOfDigitsThen(z[1..], rest);
    }
  }

  /** `parseInt` reads back the decimal rendering of `n`, whatever non-digit
      text follows it. */
  lemma ParseIntOfDecimal(n: nat, rest: string)
    requires rest == [] || !IsDigit(rest[0])
    ensures ParseInt(DecimalString(n) + rest) == Int(n)
  {
    var z := DecimalString(n);
    var s := z + rest;
    assert s[0] == z[0] && IsDigit(z[0]);
    DigitNotWhiteSpace(s[0]);
    assert TrimStart(s) == s;
    LeadingDigitsOfDigitsThen(z, rest);
    DigitsValueOfDecimal(n);
    assert LeadingDigits(s) == z;
  }

  lemma DigitNotWhiteSpace(c: char)
    requires IsDigit(c)
    ensures !IsStrWhiteSpace(c) && c != '-' && c != '+'
  {
  }

  /** Text that starts with a character that is neither white space, a sign nor
      a digit parses as NaN. */
  lemma ParseIntNonNumeric(s: string)
    requires s != [] && !IsStrWhiteSpace(s[0]) && !IsDigit(s[0]) && s[0] != '-' && s[0] != '+'
    ensures ParseInt(s) == NaN
  {
    assert TrimStart(s) == s;
  }
}
