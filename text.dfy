/**
 * The pieces of Rust's `str` API that the core relies on, over `string`
 * (a sequence of Unicode scalar values): `split`, `starts_with`,
 * `ends_with`, `find`, the `trim` family, `char::is_numeric`,
 * `char::is_whitespace`, `chars().filter(..)` and `u32::from_str`.
 */
module Text {
  import opened Wrappers

  /** The characters with the Unicode White_Space property, listed in full. */
  const WhitespaceChars: set<char> := {
    '\t', '\n', '\U{0B}', '\U{0C}', '\r', ' ', '\U{85}', '\U{A0}', '\U{1680}',
    '\U{2000}', '\U{2001}', '\U{2002}', '\U{2003}', '\U{2004}', '\U{2005}',
    '\U{2006}', '\U{2007}', '\U{2008}', '\U{2009}', '\U{200A}',
    '\U{2028}', '\U{2029}', '\U{202F}', '\U{205F}', '\U{3000}'
  }

  /** `char::is_whitespace`. */
  predicate IsWhitespace(c: char) {
    c in WhitespaceChars
  }

  /** Printable ASCII characters are not white space. */
  lemma PrintableIsNotWhitespace(c: char)
    requires '!' <= c <= '~'
    ensures !IsWhitespace(c)
  {
  }

  predicate IsAsciiDigit(c: char) {
    '0' <= c <= '9'
  }

  /**
   * `char::is_numeric` (general categories Nd, Nl and No). The model knows the
   * ASCII digits and the numeric characters of Latin-1; the other scripts'
   * digits are not part of this model.
   */
  predicate IsNumeric(c: char) {
    || IsAsciiDigit(c)
    || c == '\U{B2}' || c == '\U{B3}' || c == '\U{B9}'
    || ('\U{BC}' <= c <= '\U{BE}')
  }

  lemma NumericIsNotWhitespace(c: char)
    requires IsNumeric(c) || c == '.'
    ensures !IsWhitespace(c)
  {
  }

  // ---------------------------------------------------------------------------
  // split / join

  /**
   * `s.split(sep).collect::<Vec<_>>()`: the pieces between separators. There is
   * always at least one piece: the empty string splits into `[""]`.
   */
  function Split(s: string, sep: char): (parts: seq<string>)
    ensures |parts| >= 1
    decreases |s|
  {
    if s == [] then [""]
    else
      var rest := Split(s[1..], sep);
      if s[0] == sep then [""] + rest
      else [[s[0]] + rest[0]] + rest[1..]
  }

  /** `parts.join(sep)`, the inverse of `Split`. */
  function Join(parts: seq<string>, sep: char): string
    requires |parts| >= 1
    decreases |parts|
  {
    if |parts| == 1 then parts[0] else parts[0] + [sep] + Join(parts[1..], sep)
  }

  lemma {:induction false} JoinSplit(s: string, sep: char)
    ensures Join(Split(s, sep), sep) == s
    decreases |s|
  {
    if s != [] {
      JoinSplit(s[1..], sep);
      var rest := Split(s[1..], sep);
      if s[0] != sep {
        if |rest| == 1 {
        } else {
          assert Join(rest, sep) == rest[0] + [sep] + Join(rest[1..], sep);
          assert s == [s[0]] + s[1..];
        }
      }
    }
  }

  /** No piece contains the separator. */
  lemma {:induction false} SplitPiecesFree(s: string, sep: char)
    ensures forall i :: 0 <= i < |Split(s, sep)| ==> sep !in Split(s, sep)[i]
    decreases |s|
  {
    if s != [] {
      SplitPiecesFree(s[1..], sep);
      var rest := Split(s[1..], sep);
      if s[0] != sep {
        var parts := Split(s, sep);
        forall i | 0 <= i < |parts| ensures sep !in parts[i] {
          if i == 0 {
            assert parts[0] == [s[0]] + rest[0];
          } else {
            assert parts[i] == rest[i];
          }
        }
      }
    }
  }

  /** A string without the separator is a single piece. */
  lemma {:induction false} SplitNoSeparator(s: string, sep: char)
    requires sep !in s
    ensures Split(s, sep) == [s]
    decreases |s|
  {
    if s != [] {
      assert sep !in s[1..];
      SplitNoSeparator(s[1..], sep);
      assert s == [s[0]] + s[1..];
    }
  }

  /** Splitting a string given by its first character and the rest. */
  lemma SplitCons(c: char, t: string, sep: char)
    ensures Split([c] + t, sep) ==
      if c == sep then [""] + Split(t, sep) else [[c] + Split(t, sep)[0]] + Split(t, sep)[1..]
  {
    var s := [c] + t;
    assert s[0] == c && s[1..] == t;
  }

  /** Splitting distributes over a separator: the pieces of each side, in order. */
  lemma {:induction false} SplitAround(a: string, b: string, sep: char)
    ensures Split(a + [sep] + b, sep) == Split(a, sep) + Split(b, sep)
    decreases |a|
  {
    if a == [] {
      assert a + [sep] + b == [sep] + b;
      SplitCons(sep, b, sep);
    } else {
      var c, t := a[0], a[1..];
      var pre, post := Split(t, sep), Split(b, sep);
      var whole := Split(a + [sep] + b, sep);
      assert whole == if c == sep then [""] + (pre + post) else [[c] + (pre + post)[0]] + (pre + post)[1..] by {
        assert a + [sep] + b == [c] + (t + [sep] + b);
        SplitAround(t, b, sep);
        SplitCons(c, t + [sep] + b, sep);
      }
      assert Split(a, sep) == if c == sep then [""] + pre else [[c] + pre[0]] + pre[1..] by {
        assert a == [c] + t;
        SplitCons(c, t, sep);
      }
      ConsPieces(c, sep, pre, post);
    }
  }

  /** Prepending a character to the first piece commutes with appending further pieces. */
  lemma ConsPieces(c: char, sep: char, pre: seq<string>, post: seq<string>)
    requires |pre| >= 1
    ensures (if c == sep then [""] + (pre + post) else [[c] + (pre + post)[0]] + (pre + post)[1..])
         == (if c == sep then [""] + pre else [[c] + pre[0]] + pre[1..]) + post
  {
    if c != sep {
      assert (pre + post)[0] == pre[0] && (pre + post)[1..] == pre[1..] + post;
    }
  }

  /** Joining separator-free pieces and splitting again gives the pieces back. */
  lemma {:induction false} SplitJoin(parts: seq<string>, sep: char)
    requires |parts| >= 1
    requires forall i :: 0 <= i < |parts| ==> sep !in parts[i]
    ensures Split(Join(parts, sep), sep) == parts
    decreases |parts|
  {
    SplitNoSeparator(parts[0], sep);
    if |parts| > 1 {
      SplitJoin(parts[1..], sep);
      SplitAround(parts[0], Join(parts[1..], sep), sep);
    }
  }

  /** Two separator-free pieces joined by one separator split back into the two pieces. */
  lemma SplitPair(a: string, b: string, sep: char)
    requires sep !in a && sep !in b
    ensures Split(a + [sep] + b, sep) == [a, b]
  {
    SplitAround(a, b, sep);
    SplitNoSeparator(a, sep);
    SplitNoSeparator(b, sep);
  }

  /** Three separator-free pieces joined by separators split back into the three pieces. */
  lemma SplitTriple(a: string, b: string, c: string, sep: char)
    requires sep !in a && sep !in b && sep !in c
    ensures Split(a + [sep] + b + [sep] + c, sep) == [a, b, c]
  {
    assert a + [sep] + b + [sep] + c == a + [sep] + (b + [sep] + c);
    SplitAround(a, b + [sep] + c, sep);
    SplitNoSeparator(a, sep);
    SplitPair(b, c, sep);
  }

  // ---------------------------------------------------------------------------
  // prefixes, suffixes, search

  /** `s.starts_with(prefix)`. */
  predicate StartsWith(s: string, prefix: string) {
    |prefix| <= |s| && s[..|prefix|] == prefix
  }

  /** `s.ends_with(suffix)`. */
  predicate EndsWith(s: string, suffix: string) {
    |suffix| <= |s| && s[|s| - |suffix|..] == suffix
  }

  /** `s.find(c)`: the index of the first occurrence of `c`. */
  function Find(s: string, c: char): (r: Option<nat>)
    ensures r.None? <==> c !in s
    ensures r.Some? ==> r.value < |s| && s[r.value] == c && c !in s[..r.value]
    decreases |s|
  {
    if s == [] then None
    else if s[0] == c then Some(0)
    else
      match Find(s[1..], c)
      case None => None
      case Some(i) =>
        assert s[..i + 1] == [s[0]] + s[1..][..i];
        Some(i + 1)
  }

  // ---------------------------------------------------------------------------
  // trimming

  /** `trim_start_matches(strip)`: drop the longest prefix of characters in `strip`. */
  function TrimStartBy(s: string, strip: set<char>): string
    decreases |s|
  {
    if s != [] && s[0] in strip then TrimStartBy(s[1..], strip) else s
  }

  /** `trim_end_matches(strip)`: drop the longest suffix of characters in `strip`. */
  function TrimEndBy(s: string, strip: set<char>): string
    decreases |s|
  {
    if s != [] && s[|s| - 1] in strip then TrimEndBy(s[..|s| - 1], strip) else s
  }

  /** What `TrimStartBy` drops is a prefix of characters in `strip`, and what it keeps does not start with one. */
  lemma {:induction false} TrimStartByDropsPrefix(s: string, strip: set<char>)
    ensures var r := TrimStartBy(s, strip);
      && |r| <= |s| && r == s[|s| - |r|..]
      && (forall i :: 0 <= i < |s| - |r| ==> s[i] in strip)
      && (r != [] ==> r[0] !in strip)
    decreases |s|
  {
    if s != [] && s[0] in strip {
      TrimStartByDropsPrefix(s[1..], strip);
    }
  }

  /** What `TrimEndBy` drops is a suffix of characters in `strip`, and what it keeps does not end with one. */
  lemma {:induction false} TrimEndByDropsSuffix(s: string, strip: set<char>)
    ensures var r := TrimEndBy(s, strip);
      && |r| <= |s| && r == s[..|r|]
      && (forall i :: |r| <= i < |s| ==> s[i] in strip)
      && (r != [] ==> r[|r| - 1] !in strip)
    decreases |s|
  {
    if s != [] && s[|s| - 1] in strip {
      TrimEndByDropsSuffix(s[..|s| - 1], strip);
    }
  }

  /** `str::trim`: strip leading and trailing whitespace. */
  function Trim(s: string): string {
    TrimEndBy(TrimStartBy(s, WhitespaceChars), WhitespaceChars)
  }

  /** `str::trim_matches(c)`: strip every leading and trailing `c`. */
  function TrimMatches(s: string, c: char): string {
    TrimEndBy(TrimStartBy(s, {c}), {c})
  }

  /** What `Trim` returns is a contiguous piece of its input, without whitespace at either end. */
  lemma TrimIsSlice(s: string)
    ensures exists i, j :: 0 <= i <= j <= |s| && Trim(s) == s[i..j]
    ensures Trim(s) != [] ==> !IsWhitespace(Trim(s)[0]) && !IsWhitespace(Trim(s)[|Trim(s)| - 1])
  {
    var t := TrimStartBy(s, WhitespaceChars);
    var r := TrimEndBy(t, WhitespaceChars);
    TrimStartByDropsPrefix(s, WhitespaceChars);
    TrimEndByDropsSuffix(t, WhitespaceChars);
    assert r == s[|s| - |t|..][..|r|] == s[|s| - |t|..|s| - |t| + |r|];
    if r != [] {
      assert r[0] == t[0];
    }
  }

  /** A string with no whitespace at either end is its own trim. */
  lemma TrimNoop(s: string)
    requires s != [] ==> !IsWhitespace(s[0]) && !IsWhitespace(s[|s| - 1])
    ensures Trim(s) == s
  {
  }

  // ---------------------------------------------------------------------------
  // filtering

  /** `s.chars().filter(keep).collect::<String>()`. */
  function Filter(s: string, keep: char -> bool): (r: string)
    ensures |r| <= |s|
    ensures forall i :: 0 <= i < |r| ==> keep(r[i])
    decreases |s|
  {
    if s == [] then []
    else (if keep(s[0]) then [s[0]] else []) + Filter(s[1..], keep)
  }

  /** Filtering distributes over concatenation. */
  lemma {:induction false} FilterConcat(a: string, b: string, keep: char -> bool)
    ensures Filter(a + b, keep) == Filter(a, keep) + Filter(b, keep)
    decreases |a|
  {
    if a != [] {
      assert (a + b)[0] == a[0] && (a + b)[1..] == a[1..] + b;
      FilterConcat(a[1..], b, keep);
      var head := if keep(a[0]) then [a[0]] else [];
      assert Filter(a + b, keep) == head + Filter(a[1..] + b, keep);
      assert Filter(a, keep) == head + Filter(a[1..], keep);
      assert head + (Filter(a[1..], keep) + Filter(b, keep)) == (head + Filter(a[1..], keep)) + Filter(b, keep);
    } else {
      assert a + b == b;
    }
  }

  /** Text around `v` that the filter removes entirely leaves just the filtered `v`. */
  lemma FilterDropsAffixes(before: string, v: string, after: string, keep: char -> bool)
    requires Filter(before, keep) == [] && Filter(after, keep) == []
    ensures Filter(before + v + after, keep) == Filter(v, keep)
  {
    FilterConcat(before + v, after, keep);
    FilterConcat(before, v, keep);
  }

  /** `a` is obtained from `b` by deleting characters, keeping the order of the rest. */
  predicate IsSubsequence(a: string, b: string)
    decreases |b|
  {
    if a == [] then true
    else if b == [] then false
    else if a[0] == b[0] then IsSubsequence(a[1..], b[1..])
    else IsSubsequence(a, b[1..])
  }

  lemma {:induction false} FilterIsSubsequence(s: string, keep: char -> bool)
    ensures IsSubsequence(Filter(s, keep), s)
    decreases |s|
  {
    if s != [] {
      FilterIsSubsequence(s[1..], keep);
      var r := Filter(s, keep);
      if keep(s[0]) {
        assert r[1..] == Filter(s[1..], keep);
      } else {
        assert r == Filter(s[1..], keep);
        if r != [] {
          assert keep(r[0]) && r[0] != s[0];
        }
      }
    }
  }

  /** Filtering a string whose characters all pass changes nothing. */
  lemma {:induction false} FilterKeepsAll(s: string, keep: char -> bool)
    requires forall i :: 0 <= i < |s| ==> keep(s[i])
    ensures Filter(s, keep) == s
    decreases |s|
  {
    if s != [] {
      FilterKeepsAll(s[1..], keep);
      assert s == [s[0]] + s[1..];
    }
  }

  // ---------------------------------------------------------------------------
  // ordering of strings

  /**
   * Rust's `<` on `&str`: lexicographic by character (UTF-8 byte order is code
   * point order), a proper prefix being smaller.
   */
  predicate LexLess(a: string, b: string)
    decreases |a|
  {
    if b == [] then false
    else if a == [] then true
    else if a[0] != b[0] then a[0] < b[0]
    else LexLess(a[1..], b[1..])
  }

  lemma {:induction false} LexLessIrreflexive(a: string)
    ensures !LexLess(a, a)
    decreases |a|
  {
    if a != [] {
      LexLessIrreflexive(a[1..]);
    }
  }

  /** Two different strings are ordered one way or the other, never both. */
  lemma {:induction false} LexLessTrichotomy(a: string, b: string)
    ensures a == b || LexLess(a, b) || LexLess(b, a)
    ensures !(LexLess(a, b) && LexLess(b, a))
    decreases |a|
  {
    if a != [] && b != [] && a[0] == b[0] {
      LexLessTrichotomy(a[1..], b[1..]);
      if a[1..] == b[1..] {
        assert a == [a[0]] + a[1..] && b == [b[0]] + b[1..];
      }
    }
  }

  // ---------------------------------------------------------------------------
  // unsigned decimal numbers

  const U32_MAX: nat := 0xFFFF_FFFF

  function DigitValue(c: char): nat
    requires IsAsciiDigit(c)
  {
    (c as int - '0' as int) as nat
  }

  predicate AllDigits(s: string) {
    forall i :: 0 <= i < |s| ==> IsAsciiDigit(s[i])
  }

  /** The value of a string of decimal digits, most significant first. */
  function DigitsValue(s: string): nat
    requires AllDigits(s)
    decreases |s|
  {
    if s == [] then 0 else DigitsValue(s[..|s| - 1]) * 10 + DigitValue(s[|s| - 1])
  }

  /**
   * `s.parse::<u32>().ok()`: an optional leading `+` followed by at least one
   * ASCII digit, with a value that fits in 32 bits. A lone `+`, a sign `-`,
   * any other character and an overflow all fail.
   */
  function ParseU32(s: string): (r: Option<nat>)
    ensures r.Some? ==> r.value <= U32_MAX
    ensures r.Some? ==> s != [] && (IsAsciiDigit(s[0]) || s[0] == '+')
  {
    var digits := if |s| > 1 && s[0] == '+' then s[1..] else s;
    AccumulateDigits(digits)
  }

  /**
   * The digit loop of the parse: each digit multiplies the value so far by ten
   * and adds itself, failing on a character that is not a digit and on the
   * first step that leaves 32 bits. The empty string has no digits and fails.
   */
  function AccumulateDigits(d: string): (r: Option<nat>)
    ensures r.Some? ==> r.value <= U32_MAX && d != [] && IsAsciiDigit(d[0])
    decreases |d|
  {
    if d == [] || !IsAsciiDigit(d[|d| - 1]) then None
    else if |d| == 1 then Some(DigitValue(d[0]))
    else
      match AccumulateDigits(d[..|d| - 1])
      case None => None
      case Some(v) =>
        var n := v * 10 + DigitValue(d[|d| - 1]);
        if n <= U32_MAX then Some(n) else None
  }

  /** Checking overflow digit by digit fails exactly when the whole value does not fit. */
  lemma {:induction false} AccumulateDigitsValue(d: string)
    ensures AccumulateDigits(d) ==
      if d != [] && AllDigits(d) && DigitsValue(d) <= U32_MAX then Some(DigitsValue(d)) else None
    decreases |d|
  {
    if d != [] && IsAsciiDigit(d[|d| - 1]) && |d| > 1 {
      var init := d[..|d| - 1];
      AccumulateDigitsValue(init);
      assert AllDigits(d) <==> AllDigits(init) by {
        if AllDigits(init) {
          forall i | 0 <= i < |d| ensures IsAsciiDigit(d[i]) {
            if i < |d| - 1 { assert d[i] == init[i]; }
          }
        }
      }
    } else if d != [] && IsAsciiDigit(d[0]) && |d| == 1 {
      assert d[..0] == [];
    }
  }

  /** The parse as a condition on the value: digits after the optional `+`, fitting in 32 bits. */
  lemma ParseU32Value(s: string)
    ensures var digits := if |s| > 1 && s[0] == '+' then s[1..] else s;
      ParseU32(s) == if digits != [] && AllDigits(digits) && DigitsValue(digits) <= U32_MAX then Some(DigitsValue(digits)) else None
  {
    AccumulateDigitsValue(if |s| > 1 && s[0] == '+' then s[1..] else s);
  }

  function DigitChar(d: nat): (c: char)
    requires d < 10
    ensures IsAsciiDigit(c) && DigitValue(c) == d
  {
    ('0' as int + d) as char
  }

  /** The shortest decimal spelling of `n`, as Rust's `to_string` writes it. */
  function DecimalString(n: nat): (s: string)
    ensures s != [] && AllDigits(s)
    decreases n
  {
    if n < 10 then [DigitChar(n)] else DecimalString(n / 10) + [DigitChar(n % 10)]
  }

  lemma {:induction false} DecimalStringValue(n: nat)
    ensures DigitsValue(DecimalString(n)) == n
    decreases n
  {
    if n >= 10 {
      DecimalStringValue(n / 10);
      var s := DecimalString(n);
      assert s[..|s| - 1] == DecimalString(n / 10);
    }
  }

  /** Printing a 32-bit value and parsing it back gives the value. */
  lemma ParseDecimalString(n: nat)
    requires n <= U32_MAX
    ensures ParseU32(DecimalString(n)) == Some(n)
  {
    DecimalStringValue(n);
    ParseU32Value(DecimalString(n));
  }
}
