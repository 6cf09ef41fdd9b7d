/** The parts of Go's `strings` and `bytes` packages that groot relies on,
    restricted to ASCII: whitespace trimming, lower-casing, splitting on and
    joining with a one-character separator, counting, the byte-wise string
    order used by `sort.Strings`, and decimal formatting of integers. */
module Text {

  /** Number of occurrences of `x` in `s` (`strings.Count`, `bytes.Count`). */
  function Count<T(==)>(s: seq<T>, x: T): (n: nat)
    ensures n <= |s|
    ensures n == 0 <==> x !in s
  {
    if s == [] then 0 else (if s[0] == x then 1 else 0) + Count(s[1..], x)
  }

  lemma CountAppend<T>(a: seq<T>, b: seq<T>, x: T)
    ensures Count(a + b, x) == Count(a, x) + Count(b, x)
  {
    if a == [] {
      assert a + b == b;
    } else {
      assert (a + b)[1..] == a[1..] + b;
      CountAppend(a[1..], b, x);
    }
  }

  // ---------------------------------------------------------------------
  // Whitespace (ASCII subset of unicode.IsSpace used by strings.TrimSpace)
  // ---------------------------------------------------------------------

  predicate IsSpace(c: char) {
    c == ' ' || c == '\t' || c == '\n' || c == '\r' || c == '\U{B}' || c == '\U{C}'
  }

  /** The index of the first non-whitespace character at or after `i`, or
      the length when there is none. */
  function SkipSpace(s: string, i: nat): (n: nat)
    requires i <= |s|
    ensures i <= n <= |s| && (n == |s| || !IsSpace(s[n]))
    ensures forall k :: i <= k < n ==> IsSpace(s[k])
    decreases |s| - i
  {
    if i < |s| && IsSpace(s[i]) then SkipSpace(s, i + 1) else i
  }

  /** The index just past the last non-whitespace character of `s[lo..j]`,
      or `lo` when there is none. */
  function SkipSpaceBack(s: string, lo: nat, j: nat): (m: nat)
    requires lo <= j <= |s|
    ensures lo <= m <= j && (m == lo || !IsSpace(s[m - 1]))
    ensures forall k :: m <= k < j ==> IsSpace(s[k])
    decreases j
  {
    if lo < j && IsSpace(s[j - 1]) then SkipSpaceBack(s, lo, j - 1) else j
  }

  /** True when `s` has no whitespace at either end. */
  predicate Trimmed(s: string) {
    s == [] || (!IsSpace(s[0]) && !IsSpace(s[|s| - 1]))
  }

  /** `strings.TrimSpace`: the infix of `s` left after removing leading and
      trailing whitespace; everything removed is whitespace. */
  function TrimSpace(s: string): (r: string)
    ensures Trimmed(r)
    ensures var a := SkipSpace(s, 0);
      var b := SkipSpaceBack(s, a, |s|);
      r == s[a..b] &&
      (forall i :: 0 <= i < a ==> IsSpace(s[i])) &&
      (forall i :: b <= i < |s| ==> IsSpace(s[i]))
    ensures forall c :: c in r ==> c in s
  {
    var a := SkipSpace(s, 0);
    var b := SkipSpaceBack(s, a, |s|);
    assert forall c :: c in s[a..b] ==> c in s by {
      forall c | c in s[a..b] ensures c in s {
        var k :| a <= k < b && s[k] == c;
      }
    }
    s[a..b]
  }

  /** Trimming a string that has no surrounding whitespace leaves it alone. */
  lemma TrimSpaceOfTrimmed(s: string)
    requires Trimmed(s)
    ensures TrimSpace(s) == s
  {
  }

  // ---------------------------------------------------------------------
  // Lower-casing (ASCII letters only)
  // ---------------------------------------------------------------------

  function LowerChar(c: char): char {
    if 'A' <= c <= 'Z' then (c as int + 32) as char else c
  }

  predicate IsUpper(c: char) {
    'A' <= c <= 'Z'
  }

  /** `strings.ToLower` on ASCII: every upper-case letter is replaced by its
      lower-case form and nothing else changes. */
  function ToLower(s: string): (r: string)
    ensures |r| == |s|
    ensures forall i :: 0 <= i < |s| ==> r[i] == LowerChar(s[i])
    ensures forall i :: 0 <= i < |r| ==> !IsUpper(r[i])
  {
    if s == [] then [] else [LowerChar(s[0])] + ToLower(s[1..])
  }

  predicate IsLower(s: string) {
    forall i :: 0 <= i < |s| ==> !IsUpper(s[i])
  }

  /** A string without upper-case letters is its own lower-case form. */
  lemma {:induction false} ToLowerOfLower(s: string)
    requires IsLower(s)
    ensures ToLower(s) == s
  {
    if s != [] {
      ToLowerOfLower(s[1..]);
    }
  }

  // ---------------------------------------------------------------------
  // Split and Join on a one-character separator
  // ---------------------------------------------------------------------

  /** `strings.Join` with a one-character separator (`bytes.Join` when the
      elements are bytes). */
  function Join<T>(parts: seq<seq<T>>, sep: T): seq<T> {
    if parts == [] then []
    else if |parts| == 1 then parts[0]
    else parts[0] + [sep] + Join(parts[1..], sep)
  }

  /** `strings.Split` with a one-character separator (`bytes.Split` on
      bytes): the maximal runs between separators, so one more segment than there are separators, none of them
      containing the separator, and joining them back gives the input. */
  function Split<T(==)>(s: seq<T>, sep: T): (r: seq<seq<T>>)
    ensures |r| == Count(s, sep) + 1
    ensures forall i :: 0 <= i < |r| ==> sep !in r[i]
    ensures Join(r, sep) == s
  {
    if s == [] then [[]]
    else
      var rest := Split(s[1..], sep);
      assert s == [s[0]] + s[1..];
      if s[0] == sep then
        JoinEmptyHead(rest, sep);
        [[]] + rest
      else
        JoinExtendHead(s[0], rest, sep);
        [[s[0]] + rest[0]] + rest[1..]
  }

  lemma JoinEmptyHead<T>(rest: seq<seq<T>>, sep: T)
    requires rest != []
    ensures Join([[]] + rest, sep) == [sep] + Join(rest, sep)
  {
    assert ([[]] + rest)[1..] == rest;
  }

  lemma JoinExtendHead<T>(c: T, rest: seq<seq<T>>, sep: T)
    requires rest != []
    ensures Join([[c] + rest[0]] + rest[1..], sep) == [c] + Join(rest, sep)
  {
    var r := [[c] + rest[0]] + rest[1..];
    if |rest| > 1 {
      assert r[1..] == rest[1..];
    }
  }

  /** Splitting undoes joining, for parts that do not contain the separator. */
  lemma {:induction false} SplitJoin<T>(parts: seq<seq<T>>, sep: T)
    requires |parts| >= 1
    requires forall i :: 0 <= i < |parts| ==> sep !in parts[i]
    ensures Split(Join(parts, sep), sep) == parts
  {
    if |parts| == 1 {
      SplitOfSeparatorFree(parts[0], sep);
    } else {
      SplitJoin(parts[1..], sep);
      SplitPrefix(parts[0], Join(parts[1..], sep), sep);
      assert [parts[0]] + parts[1..] == parts;
    }
  }

  lemma {:induction false} SplitOfSeparatorFree<T>(s: seq<T>, sep: T)
    requires sep !in s
    ensures Split(s, sep) == [s]
  {
    if s != [] {
      SplitOfSeparatorFree(s[1..], sep);
    }
  }

  lemma {:induction false} SplitPrefix<T>(a: seq<T>, b: seq<T>, sep: T)
    requires sep !in a
    ensures Split(a + [sep] + b, sep) == [a] + Split(b, sep)
  {
    if a == [] {
      assert (a + [sep] + b)[1..] == b;
    } else {
      assert (a + [sep] + b)[1..] == a[1..] + [sep] + b;
      SplitPrefix(a[1..], b, sep);
      assert [a[0]] + a[1..] == a;
    }
  }

  // ---------------------------------------------------------------------
  // Byte-wise (code point) lexicographic order, as Go compares strings
  // ---------------------------------------------------------------------

  predicate LessEq(a: string, b: string) {
    a == [] || (b != [] && (a[0] < b[0] || (a[0] == b[0] && LessEq(a[1..], b[1..]))))
  }

  lemma {:induction false} LessEqTotal(a: string, b: string)
    ensures LessEq(a, b) || LessEq(b, a)
  {
    if a != [] && b != [] && a[0] == b[0] {
      LessEqTotal(a[1..], b[1..]);
    }
  }

  lemma {:induction false} LessEqTransitive(a: string, b: string, c: string)
    requires LessEq(a, b) && LessEq(b, c)
    ensures LessEq(a, c)
  {
    if a != [] && b != [] && c != [] && a[0] == b[0] == c[0] {
      LessEqTransitive(a[1..], b[1..], c[1..]);
    }
  }

  lemma {:induction false} LessEqAntisymmetric(a: string, b: string)
    requires LessEq(a, b) && LessEq(b, a)
    ensures a == b
  {
    if a != [] && b != [] {
      LessEqAntisymmetric(a[1..], b[1..]);
      assert a == [a[0]] + a[1..];
      assert b == [b[0]] + b[1..];
    }
  }

  // ---------------------------------------------------------------------
  // Decimal formatting of integers (the %d verb)
  // ---------------------------------------------------------------------

  function DigitChar(d: nat): char
    requires d < 10
  {
    ('0' as int + d) as char
  }

  /** `%d`: an optional minus sign, then the digits, most significant
      first. Written as a single recursion so that it unfolds only on
      demand. */
  function IntToDecimal(n: int): string
    decreases if n < 0 then 1 - n else n
  {
    if n < 0 then "-" + IntToDecimal(-n)
    else if n < 10 then [DigitChar(n)]
    else IntToDecimal(n / 10) + [DigitChar(n % 10)]
  }
}
