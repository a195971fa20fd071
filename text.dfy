/** The JavaScript string operations the layout and formatting code relies on:
    `String(n)` for integers, `padStart`, `includes`, `indexOf`, `replace` of the
    first occurrence, `split`, `trim`, `slice` and `charAt(0)`. Strings are
    sequences of characters; one character stands for one UTF-16 code unit. */
module Text {
  import opened Wrappers

  // ---------------------------------------------------------------------------
  // Decimal numerals (`String(n)` for an integer `n`)
  // ---------------------------------------------------------------------------

  predicate IsDigit(c: char) {
    '0' <= c <= '9'
  }

  predicate AllDigits(s: string) {
    forall i | 0 <= i < |s| :: IsDigit(s[i])
  }

  function DigitChar(d: nat): (c: char)
    requires d < 10
    ensures IsDigit(c) && c as int - '0' as int == d
  {
    (d + '0' as int) as char
  }

  /** The value of a string of decimal digits, most significant first. */
  function DigitsValue(s: string): nat
    requires AllDigits(s)
  {
    if s == [] then 0 else 10 * DigitsValue(s[..|s| - 1]) + (s[|s| - 1] as int - '0' as int)
  }

  /** The shortest decimal numeral of `n`: non-empty, digits only, no leading zero. */
  function NatDigits(n: nat): (s: string)
    ensures 1 <= |s| && AllDigits(s)
    ensures IsCanonicalNumeral(s)
    ensures n > 0 ==> s[0] != '0'
    ensures DigitsValue(s) == n
  {
    if n < 10 then
      [DigitChar(n)]
    else
      var front := NatDigits(n / 10);
      var s := front + [DigitChar(n % 10)];
      assert s[..|s| - 1] == front;
      s
  }

  /** `String(n)` for an integer: a minus sign for negative numbers, then the digits. */
  function DecimalString(n: int): string {
    if n < 0 then "-" + NatDigits(-n) else NatDigits(n)
  }

  /** Reads back the numerals `String(n)` writes: an optional minus sign, then
      digits without superfluous leading zeros, and no `-0`. */
  function ParseInt(s: string): Option<int> {
    if s != [] && s[0] == '-' then
      (if IsCanonicalNumeral(s[1..]) && s[1] != '0' then Some(0 - DigitsValue(s[1..])) else None)
    else if IsCanonicalNumeral(s) then
      Some(DigitsValue(s))
    else
      None
  }

  lemma ParseDecimalString(n: int)
    ensures ParseInt(DecimalString(n)) == Some(n)
  {
  }

  /** A numeral without superfluous leading zeros. */
  predicate IsCanonicalNumeral(s: string) {
    s != [] && AllDigits(s) && (|s| > 1 ==> s[0] != '0')
  }

  lemma {:induction false} LeadingDigitPositive(s: string)
    requires s != [] && AllDigits(s) && s[0] != '0'
    ensures DigitsValue(s) >= 1
  {
    if |s| > 1 {
      LeadingDigitPositive(s[..|s| - 1]);
    }
  }

  /** Every canonical numeral is the numeral of its own value, so `NatDigits`
      and `DigitsValue` are inverse bijections between naturals and canonical numerals. */
  lemma {:induction false} NatDigitsOfValue(s: string)
    requires IsCanonicalNumeral(s)
    ensures NatDigits(DigitsValue(s)) == s
  {
    if |s| > 1 {
      var front := s[..|s| - 1];
      LeadingDigitPositive(front);
      NatDigitsOfValue(front);
      var n := DigitsValue(s);
      assert n / 10 == DigitsValue(front);
      assert n % 10 == s[|s| - 1] as int - '0' as int;
      assert s == front + [s[|s| - 1]];
    }
  }

  /** `ParseInt` accepts exactly the numerals `DecimalString` writes: a text
      that reads as `n` is the decimal string of `n`, with no padding zeros and no `-0`. */
  lemma {:induction false} ParseIntExact(s: string, n: int)
    requires ParseInt(s) == Some(n)
    ensures s == DecimalString(n)
  {
    if s != [] && s[0] == '-' {
      var digits := s[1..];
      LeadingDigitPositive(digits);
      NatDigitsOfValue(digits);
      assert s == "-" + digits;
    } else {
      NatDigitsOfValue(s);
    }
  }

  function Pow10(k: nat): nat {
    if k == 0 then 1 else 10 * Pow10(k - 1)
  }

  /** The numeral of `n` has at most `k` digits exactly when `n < 10^k`. */
  lemma {:induction false} NatDigitsLength(n: nat, k: nat)
    requires k >= 1
    ensures |NatDigits(n)| <= k <==> n < Pow10(k)
  {
    if n < 10 {
      Pow10AtLeastTen(k);
    } else if k > 1 {
      NatDigitsLength(n / 10, k - 1);
      assert n < Pow10(k) <==> n / 10 < Pow10(k - 1);
    }
  }

  lemma {:induction false} Pow10AtLeastTen(k: nat)
    requires k >= 1
    ensures Pow10(k) >= 10
  {
    if k > 1 {
      Pow10AtLeastTen(k - 1);
    }
  }

  // ---------------------------------------------------------------------------
  // padStart
  // ---------------------------------------------------------------------------

  /** `s.padStart(width, fill)` with a one-character fill string. */
  function PadStart(s: string, width: int, fill: char): (r: string)
    ensures |r| == if |s| >= width then |s| else width
    ensures r[|r| - |s|..] == s
    ensures forall i | 0 <= i < |r| - |s| :: r[i] == fill
  {
    if |s| >= width then s else seq(width - |s|, _ => fill) + s
  }

  /** `String(n).padStart(2, '0')`. */
  function TwoDigits(n: nat): string {
    PadStart(DecimalString(n), 2, '0')
  }

  /** A two-digit field is exactly two digits and reads back as its value. */
  lemma TwoDigitsValue(n: nat)
    requires n < 100
    ensures |TwoDigits(n)| == 2 && AllDigits(TwoDigits(n))
    ensures DigitsValue(TwoDigits(n)) == n
  {
    NatDigitsLength(n, 2);
    var t := TwoDigits(n);
    if n < 10 {
      assert t == ['0'] + NatDigits(n);
      assert t[..1] == "0";
    }
  }

  // ---------------------------------------------------------------------------
  // includes, indexOf, replace
  // ---------------------------------------------------------------------------

  /** `pat` occurs in `s` starting at position `i`. */
  predicate OccursAt(s: string, pat: string, i: nat) {
    i + |pat| <= |s| && s[i..i + |pat|] == pat
  }

  lemma OccursAtShift(s: string, pat: string, i: nat)
    requires s != []
    ensures OccursAt(s[1..], pat, i) <==> OccursAt(s, pat, i + 1)
  {
  }

  /** `s.indexOf(pat)`: the first position where `pat` occurs, `None` for -1. */
  function IndexOf(s: string, pat: string): (r: Option<nat>)
    ensures r.Some? ==> OccursAt(s, pat, r.value)
    ensures r.Some? ==> forall j | 0 <= j < r.value :: !OccursAt(s, pat, j)
    ensures r.None? ==> forall j: nat :: !OccursAt(s, pat, j)
  {
    if pat <= s then
      assert s[0..|pat|] == pat;
      Some(0)
    else if s == [] then
      None
    else
      match IndexOf(s[1..], pat)
      case None =>
        assert forall j: nat :: !OccursAt(s, pat, j) by {
          forall j: nat ensures !OccursAt(s, pat, j) {
            if j > 0 { OccursAtShift(s, pat, j - 1); }
          }
        }
        None
      case Some(k) =>
        OccursAtShift(s, pat, k);
        assert forall j | 0 <= j < k + 1 :: !OccursAt(s, pat, j) by {
          forall j | 0 <= j < k + 1 ensures !OccursAt(s, pat, j) {
            if j > 0 { OccursAtShift(s, pat, j - 1); }
          }
        }
        Some(k + 1)
  }

  /** `s.includes(pat)`. */
  function Includes(s: string, pat: string): (b: bool)
    ensures b <==> exists i: nat :: OccursAt(s, pat, i)
  {
    IndexOf(s, pat).Some?
  }

  /** `s.replace(pat, '')` with a string pattern: only the first occurrence is removed. */
  function RemoveFirst(s: string, pat: string): (r: string)
    ensures !Includes(s, pat) ==> r == s
    ensures Includes(s, pat) ==> |r| == |s| - |pat|
    ensures IndexOf(s, pat).Some? ==>
      var k := IndexOf(s, pat).value; r == s[..k] + s[k + |pat|..]
    ensures forall c :: c in r ==> c in s
  {
    match IndexOf(s, pat)
    case None => s
    case Some(k) =>
      var r := s[..k] + s[k + |pat|..];
      assert forall c :: c in r ==> c in s by {
        forall c | c in r ensures c in s {
          var i :| 0 <= i < |r| && r[i] == c;
          if i < k { assert s[i] == c; } else { assert s[i + |pat|] == c; }
        }
      }
      r
  }

  // ---------------------------------------------------------------------------
  // split
  // ---------------------------------------------------------------------------

  /** `s.split(sep)` with a one-character separator: the pieces between
      separators, empty pieces included, and always at least one piece. */
  function Split(s: string, sep: char): (parts: seq<string>)
    ensures |parts| >= 1
  {
    if s == [] then
      [[]]
    else
      var rest := Split(s[1..], sep);
      if s[0] == sep then [[]] + rest else [[s[0]] + rest[0]] + rest[1..]
  }

  /** `parts.join(sep)`. */
  function Join(parts: seq<string>, sep: char): string
    requires |parts| >= 1
  {
    if |parts| == 1 then parts[0] else parts[0] + [sep] + Join(parts[1..], sep)
  }

  lemma {:induction false} SplitPiecesHaveNoSeparator(s: string, sep: char)
    ensures forall i | 0 <= i < |Split(s, sep)| :: sep !in Split(s, sep)[i]
  {
    if s != [] {
      SplitPiecesHaveNoSeparator(s[1..], sep);
    }
  }

  /** Joining the pieces with the separator gives back the string. */
  lemma {:induction false} JoinSplit(s: string, sep: char)
    ensures Join(Split(s, sep), sep) == s
  {
    if s != [] {
      var rest := Split(s[1..], sep);
      JoinSplit(s[1..], sep);
      if s[0] == sep {
        var parts := [[]] + rest;
        assert parts[1..] == rest;
        assert Join(parts, sep) == [] + [sep] + Join(rest, sep);
        assert s == [sep] + s[1..];
      } else {
        JoinExtendFirst(s[0], rest, sep);
        assert s == [s[0]] + s[1..];
      }
    }
  }

  lemma JoinExtendFirst(c: char, parts: seq<string>, sep: char)
    requires |parts| >= 1
    ensures Join([[c] + parts[0]] + parts[1..], sep) == [c] + Join(parts, sep)
  {
  }

  /** Splitting a join of separator-free pieces gives back the pieces. */
  lemma {:induction false} SplitJoin(parts: seq<string>, sep: char)
    requires |parts| >= 1
    requires forall i | 0 <= i < |parts| :: sep !in parts[i]
    ensures Split(Join(parts, sep), sep) == parts
  {
    if |parts| == 1 {
      SplitWithoutSeparator(parts[0], sep);
    } else {
      SplitJoin(parts[1..], sep);
      SplitConcat(parts[0], Join(parts[1..], sep), sep);
      SplitWithoutSeparator(parts[0], sep);
      assert parts == [parts[0]] + parts[1..];
    }
  }

  lemma {:induction false} SplitWithoutSeparator(s: string, sep: char)
    requires sep !in s
    ensures Split(s, sep) == [s]
  {
    if s != [] {
      SplitWithoutSeparator(s[1..], sep);
      assert [s[0]] + s[1..] == s;
    }
  }

  /** A separator splits the string into the pieces before it and the pieces after it. */
  lemma {:induction false} SplitConcat(a: string, b: string, sep: char)
    ensures Split(a + [sep] + b, sep) == Split(a, sep) + Split(b, sep)
  {
    if a == [] {
      assert [sep] + b == a + [sep] + b;
      assert ([sep] + b)[1..] == b;
    } else {
      var s := a + [sep] + b;
      assert s[1..] == a[1..] + [sep] + b;
      SplitConcat(a[1..], b, sep);
    }
  }

  /** The last piece of `s.split(sep)`, as `split(sep).pop()` returns it. */
  function LastSegment(s: string, sep: char): string {
    var parts := Split(s, sep);
    parts[|parts| - 1]
  }

  /** The last segment is the longest separator-free suffix. */
  lemma LastSegmentIsSuffix(s: string, sep: char)
    ensures sep !in LastSegment(s, sep)
    ensures |LastSegment(s, sep)| <= |s| && s[|s| - |LastSegment(s, sep)|..] == LastSegment(s, sep)
    ensures |LastSegment(s, sep)| < |s| ==> s[|s| - |LastSegment(s, sep)| - 1] == sep
  {
    var parts := Split(s, sep);
    SplitPiecesHaveNoSeparator(s, sep);
    JoinSplit(s, sep);
    JoinEndsWithLast(parts, sep);
  }

  lemma {:induction false} JoinEndsWithLast(parts: seq<string>, sep: char)
    requires |parts| >= 1
    ensures var j, last := Join(parts, sep), parts[|parts| - 1];
      |last| <= |j| && j[|j| - |last|..] == last && (|parts| > 1 ==> |last| < |j| && j[|j| - |last| - 1] == sep)
  {
    if |parts| > 1 {
      JoinEndsWithLast(parts[1..], sep);
    }
  }

  lemma LastSegmentAfterSeparator(dir: string, name: string, sep: char)
    requires sep !in name
    ensures LastSegment(dir + [sep] + name, sep) == name
  {
    SplitConcat(dir, name, sep);
    SplitWithoutSeparator(name, sep);
  }

  // ---------------------------------------------------------------------------
  // trim, slice, charAt
  // ---------------------------------------------------------------------------

  /** The characters `String.prototype.trim` removes: ECMAScript WhiteSpace and LineTerminator. */
  predicate IsWhiteSpace(c: char) {
    c == '\t' || c == '\n' || c == '\U{000B}' || c == '\U{000C}' || c == '\r' || c == ' '
    || c == '\U{00A0}' || c == '\U{1680}' || ('\U{2000}' <= c <= '\U{200A}')
    || c == '\U{2028}' || c == '\U{2029}' || c == '\U{202F}' || c == '\U{205F}'
    || c == '\U{3000}' || c == '\U{FEFF}'
  }

  predicate AllWhiteSpace(s: string) {
    forall i | 0 <= i < |s| :: IsWhiteSpace(s[i])
  }

  function TrimStart(s: string): (r: string)
    ensures |r| <= |s| && r == s[|s| - |r|..]
    ensures AllWhiteSpace(s[..|s| - |r|])
    ensures r == [] || !IsWhiteSpace(r[0])
  {
    if s != [] && IsWhiteSpace(s[0]) then TrimStart(s[1..]) else s
  }

  function TrimEnd(s: string): (r: string)
    ensures |r| <= |s| && r == s[..|r|]
    ensures AllWhiteSpace(s[|r|..])
    ensures r == [] || !IsWhiteSpace(r[|r| - 1])
  {
    if s != [] && IsWhiteSpace(s[|s| - 1]) then TrimEnd(s[..|s| - 1]) else s
  }

  /** `s.trim()`: what is left between the leading and the trailing white space. */
  function Trim(s: string): (r: string)
    ensures r == [] || (!IsWhiteSpace(r[0]) && !IsWhiteSpace(r[|r| - 1]))
    ensures exists lo: nat :: TrimmedAt(s, r, lo)
  {
    var front := TrimStart(s);
    var r := TrimEnd(front);
    TrimBothEnds(s, front, r);
    assert r == [] || r[0] == front[0];
    r
  }

  /** Trimming the back of what trimming the front left: the result sits in
      `s` between two runs of white space. */
  lemma {:induction false} TrimBothEnds(s: string, front: string, r: string)
    requires |front| <= |s| && front == s[|s| - |front|..] && AllWhiteSpace(s[..|s| - |front|])
    requires |r| <= |front| && r == front[..|r|] && AllWhiteSpace(front[|r|..])
    ensures TrimmedAt(s, r, |s| - |front|)
  {
    var lo := |s| - |front|;
    assert s[lo..lo + |r|] == r;
    assert s[lo + |r|..] == front[|r|..];
  }

  /** `r` sits at position `lo` of `s` with only white space before and after it. */
  predicate TrimmedAt(s: string, r: string, lo: nat) {
    lo + |r| <= |s| && s[lo..lo + |r|] == r && AllWhiteSpace(s[..lo]) && AllWhiteSpace(s[lo + |r|..])
  }

  /** `s.charAt(0)`: the first character, or the empty string. */
  function FirstChar(s: string): string {
    if s == [] then [] else [s[0]]
  }

  /** The end position `s.slice(0, end)` stops at: a negative end counts from the back. */
  function SliceEnd(len: nat, end: int): (e: nat)
    ensures e <= len
  {
    if end < 0 then (if len + end > 0 then len + end else 0)
    else if end < len then end else len
  }
}
