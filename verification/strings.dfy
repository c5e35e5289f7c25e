/**
 * The parts of Swift's and Foundation's string API that the conversion code
 * relies on: `split(separator:)` (which omits empty pieces), trimming of
 * `.whitespaces` and `.whitespacesAndNewlines`, `Int(String)` and the decimal
 * printing of `Int` inside string interpolation.
 */
module Strings {
  import opened Wrappers

  const MinInt64: int := -0x8000_0000_0000_0000
  const MaxInt64: int := 0x7FFF_FFFF_FFFF_FFFF

  /** Swift's `Int` on a 64-bit platform. */
  type Int64 = x: int | MinInt64 <= x <= MaxInt64

  // ---------------------------------------------------------------------------
  // Splitting

  /** Every piece between occurrences of `sep`, empty pieces included. */
  function SplitKeep(s: string, sep: char): (r: seq<string>)
    ensures |r| >= 1
    ensures forall i :: 0 <= i < |r| ==> sep !in r[i]
  {
    if s == [] then [[]]
    else if s[0] == sep then [[]] + SplitKeep(s[1..], sep)
    else
      var rest := SplitKeep(s[1..], sep);
      [[s[0]] + rest[0]] + rest[1..]
  }

  function NonEmpty(pieces: seq<string>): (r: seq<string>)
    ensures forall i :: 0 <= i < |r| ==> r[i] != [] && r[i] in pieces
  {
    if pieces == [] then []
    else if pieces[0] == [] then NonEmpty(pieces[1..])
    else [pieces[0]] + NonEmpty(pieces[1..])
  }

  /** `s.split(separator: sep)`: the non-empty pieces between separators, in order. */
  function Split(s: string, sep: char): (r: seq<string>)
    ensures forall i :: 0 <= i < |r| ==> r[i] != [] && sep !in r[i]
  {
    NonEmpty(SplitKeep(s, sep))
  }

  lemma {:induction false} SplitKeepWithoutSeparator(s: string, sep: char)
    requires sep !in s
    ensures SplitKeep(s, sep) == [s]
  {
    if s != [] {
      assert sep !in s[1..];
      SplitKeepWithoutSeparator(s[1..], sep);
      assert [s[0]] + s[1..] == s;
    }
  }

  lemma {:induction false} SplitKeepConcat(a: string, b: string, sep: char)
    ensures SplitKeep(a + [sep] + b, sep) == SplitKeep(a, sep) + SplitKeep(b, sep)
  {
    var s := a + [sep] + b;
    if a == [] {
      assert s[0] == sep && s[1..] == b;
    } else {
      assert s[0] == a[0] && s[1..] == a[1..] + [sep] + b;
      SplitKeepConcat(a[1..], b, sep);
      if a[0] != sep {
        var rest := SplitKeep(s[1..], sep);
        var ra := SplitKeep(a[1..], sep);
        assert rest == ra + SplitKeep(b, sep);
        assert rest[0] == ra[0];
        assert rest[1..] == ra[1..] + SplitKeep(b, sep);
      }
    }
  }

  lemma {:induction false} NonEmptyConcat(p: seq<string>, q: seq<string>)
    ensures NonEmpty(p + q) == NonEmpty(p) + NonEmpty(q)
  {
    if p == [] {
      assert p + q == q;
    } else {
      assert (p + q)[1..] == p[1..] + q;
      NonEmptyConcat(p[1..], q);
    }
  }

  /** Splitting distributes over a separator placed between two strings. */
  lemma SplitConcat(a: string, b: string, sep: char)
    ensures Split(a + [sep] + b, sep) == Split(a, sep) + Split(b, sep)
  {
    SplitKeepConcat(a, b, sep);
    NonEmptyConcat(SplitKeep(a, sep), SplitKeep(b, sep));
  }

  /** A non-empty string without the separator is one piece. */
  lemma SplitSingle(s: string, sep: char)
    requires s != [] && sep !in s
    ensures Split(s, sep) == [s]
  {
    SplitKeepWithoutSeparator(s, sep);
    assert NonEmpty([s]) == [s] + NonEmpty([]);
  }

  lemma SplitEmpty(sep: char)
    ensures Split([], sep) == []
  {
    assert SplitKeep([], sep) == [[]];
    assert NonEmpty([[]]) == NonEmpty([]);
  }

  // ---------------------------------------------------------------------------
  // Trimming

  /** Foundation's `.whitespaces` (space and tab; other Unicode space separators are not modelled). */
  predicate IsWhitespace(c: char) {
    c == ' ' || c == '\t'
  }

  /** Foundation's `.whitespacesAndNewlines` (ASCII members only). */
  predicate IsWhitespaceOrNewline(c: char) {
    IsWhitespace(c) || c == '\n' || c == '\r' || c == '\U{0B}' || c == '\U{0C}'
  }

  predicate IsSpace(c: char, newlines: bool) {
    if newlines then IsWhitespaceOrNewline(c) else IsWhitespace(c)
  }

  /** Neither the first nor the last character is a space of the given class. */
  predicate Trimmed(s: string, newlines: bool) {
    s == [] || (!IsSpace(s[0], newlines) && !IsSpace(s[|s| - 1], newlines))
  }

  predicate AllSpaces(s: string, newlines: bool) {
    forall i :: 0 <= i < |s| ==> IsSpace(s[i], newlines)
  }

  function TrimLeading(s: string, newlines: bool): (r: string)
    ensures |r| <= |s| && r == s[|s| - |r|..]
    ensures AllSpaces(s[..|s| - |r|], newlines)
    ensures r == [] || !IsSpace(r[0], newlines)
  {
    if s != [] && IsSpace(s[0], newlines) then TrimLeading(s[1..], newlines) else s
  }

  function TrimTrailing(s: string, newlines: bool): (r: string)
    ensures |r| <= |s| && r == s[..|r|]
    ensures AllSpaces(s[|r|..], newlines)
    ensures r == [] || !IsSpace(r[|r| - 1], newlines)
  {
    if s != [] && IsSpace(s[|s| - 1], newlines) then TrimTrailing(s[..|s| - 1], newlines) else s
  }

  /**
   * `s.trimmingCharacters(in:)`: the infix of `s` left once the leading and
   * trailing spaces are dropped.
   */
  function TrimBy(s: string, newlines: bool): (r: string)
    ensures Trimmed(r, newlines)
    ensures |r| <= |s|
  {
    TrimTrailing(TrimLeading(s, newlines), newlines)
  }

  /** `s.trimmingCharacters(in: .whitespaces)`. */
  function Trim(s: string): (r: string)
    ensures Trimmed(r, false)
  {
    TrimBy(s, false)
  }

  /** `s.trimmingCharacters(in: .whitespacesAndNewlines)`. */
  function TrimWithNewlines(s: string): (r: string)
    ensures Trimmed(r, true)
  {
    TrimBy(s, true)
  }

  lemma {:induction false} TrimLeadingOfSpaces(pre: string, s: string, newlines: bool)
    requires AllSpaces(pre, newlines)
    requires s == [] || !IsSpace(s[0], newlines)
    ensures TrimLeading(pre + s, newlines) == s
  {
    if pre == [] {
      assert pre + s == s;
    } else {
      assert (pre + s)[1..] == pre[1..] + s;
      TrimLeadingOfSpaces(pre[1..], s, newlines);
    }
  }

  lemma {:induction false} TrimTrailingOfSpaces(s: string, post: string, newlines: bool)
    requires AllSpaces(post, newlines)
    requires s == [] || !IsSpace(s[|s| - 1], newlines)
    ensures TrimTrailing(s + post, newlines) == s
  {
    if post == [] {
      assert s + post == s;
    } else {
      var n := |post|;
      assert (s + post)[..|s + post| - 1] == s + post[..n - 1];
      TrimTrailingOfSpaces(s, post[..n - 1], newlines);
    }
  }

  /** Trimming removes exactly the padding around an already trimmed, non-empty string. */
  lemma TrimPadded(pre: string, s: string, post: string, newlines: bool)
    requires AllSpaces(pre, newlines) && AllSpaces(post, newlines)
    requires s != [] && Trimmed(s, newlines)
    ensures TrimBy(pre + s + post, newlines) == s
  {
    assert pre + s + post == pre + (s + post);
    TrimLeadingOfSpaces(pre, s + post, newlines);
    TrimTrailingOfSpaces(s, post, newlines);
  }

  /** A string that is already trimmed is left alone. */
  lemma TrimIdentity(s: string, newlines: bool)
    requires Trimmed(s, newlines)
    ensures TrimBy(s, newlines) == s
  {
    if s != [] {
      assert [] + s + [] == s;
      TrimPadded([], s, [], newlines);
    }
  }

  // ---------------------------------------------------------------------------
  // Case

  /** `lowercased()` on ASCII letters; other characters are left as they are. */
  function ToLower(s: string): (r: string)
    ensures |r| == |s|
    ensures forall i :: 0 <= i < |s| ==> r[i] == LowerChar(s[i])
  {
    if s == [] then [] else [LowerChar(s[0])] + ToLower(s[1..])
  }

  function LowerChar(c: char): char {
    if 'A' <= c <= 'Z' then (c as int - 'A' as int + 'a' as int) as char else c
  }

  // ---------------------------------------------------------------------------
  // Decimal integers

  predicate IsDigit(c: char) {
    '0' <= c <= '9'
  }

  predicate AllDigits(s: string) {
    forall i :: 0 <= i < |s| ==> IsDigit(s[i])
  }

  function DigitValue(c: char): nat
    requires IsDigit(c)
  {
    c as int - '0' as int
  }

  function DigitChar(d: nat): (c: char)
    requires d < 10
    ensures IsDigit(c) && DigitValue(c) == d
  {
    ('0' as int + d) as char
  }

  /** The value of a string of decimal digits, most significant first. */
  function DigitsValue(s: string): nat
    requires AllDigits(s)
  {
    if s == [] then 0 else DigitsValue(s[..|s| - 1]) * 10 + DigitValue(s[|s| - 1])
  }

  /** The shortest decimal digits of `n` (so `"0"` for zero). */
  function NatToDigits(n: nat): (s: string)
    ensures s != [] && AllDigits(s)
    decreases n
  {
    if n < 10 then [DigitChar(n)] else NatToDigits(n / 10) + [DigitChar(n % 10)]
  }

  lemma {:induction false} NatToDigitsValue(n: nat)
    ensures DigitsValue(NatToDigits(n)) == n
    decreases n
  {
    if n >= 10 {
      var s := NatToDigits(n);
      assert s[..|s| - 1] == NatToDigits(n / 10);
      NatToDigitsValue(n / 10);
    }
  }

  /** `"\(n)"` for a Swift `Int`: a minus sign for negatives, then the digits. */
  function IntToString(n: int): (s: string)
    ensures s != []
    ensures n >= 0 <==> IsDigit(s[0])
  {
    if n < 0 then "-" + NatToDigits(-n) else NatToDigits(n)
  }

  /**
   * `Int(s)`: an optional `+` or `-` followed by one or more decimal digits,
   * and nothing else; nil also when the value does not fit in 64 bits.
   */
  function ParseInt(s: string): (r: Option<Int64>)
    ensures r.Some? ==> s != [] && (IsDigit(s[0]) || s[0] == '+' || s[0] == '-')
    ensures r.Some? ==> forall i :: 1 <= i < |s| ==> IsDigit(s[i])
  {
    if s == [] then None
    else
      var neg := s[0] == '-';
      var digits := if s[0] == '-' || s[0] == '+' then s[1..] else s;
      if digits == [] || !AllDigits(digits) then None
      else
        var v := if neg then -(DigitsValue(digits) as int) else DigitsValue(digits) as int;
        if MinInt64 <= v <= MaxInt64 then Some(v) else None
  }

  /** Printing an `Int` and reading it back with `Int(_:)` gives the same number. */
  lemma ParseIntToString(n: Int64)
    ensures ParseInt(IntToString(n)) == Some(n)
  {
    var s := IntToString(n);
    if n < 0 {
      var m: nat := -(n as int);
      var ds := NatToDigits(m);
      NatToDigitsValue(m);
      assert s == "-" + ds && s[0] == '-' && s[1..] == ds;
      assert ParseInt(s) == Some(-(DigitsValue(ds) as int));
    } else {
      var ds := NatToDigits(n);
      NatToDigitsValue(n);
      assert s == ds && IsDigit(s[0]);
      assert ParseInt(s) == Some(DigitsValue(ds) as int);
    }
  }

  /** A decimal string never contains a space, a `:` or a `;`. */
  lemma IntToStringPlain(n: int)
    ensures Trimmed(IntToString(n), false)
    ensures ':' !in IntToString(n) && ';' !in IntToString(n)
  {
    var s := IntToString(n);
    assert n >= 0 ==> AllDigits(s);
    assert n < 0 ==> s == "-" + NatToDigits(-n);
  }

  /**
   * `String.count`: the number of Swift Characters (extended grapheme
   * clusters) of ASCII text, where a carriage return followed by a line feed
   * is one Character and every other character is one on its own.
   */
  function CharacterCount(s: string): (r: nat)
    ensures r <= |s|
  {
    if s == [] then 0
    else if |s| >= 2 && s[0] == '\r' && s[1] == '\n' then 1 + CharacterCount(s[2..])
    else 1 + CharacterCount(s[1..])
  }

  /** Text without a carriage return has one Character per character. */
  lemma {:induction false} CharacterCountWithoutCr(s: string)
    requires '\r' !in s
    ensures CharacterCount(s) == |s|
  {
    if s != [] {
      assert s[0] != '\r';
      assert '\r' !in s[1..];
      CharacterCountWithoutCr(s[1..]);
    }
  }

  /** A leading CR LF pair is one Character. */
  lemma CharacterCountCrLf(t: string)
    ensures CharacterCount("\r\n" + t) == 1 + CharacterCount(t)
  {
    assert ("\r\n" + t)[2..] == t;
  }

  /** Swift's `/` on `Int`, which truncates toward zero (Dafny's `/` rounds toward minus infinity). */
  function TruncDiv(a: int, b: int): (r: int)
    requires b > 0
    ensures a >= 0 ==> 0 <= r && r * b <= a < r * b + b
    ensures a < 0 ==> r <= 0 && r * b - b < a <= r * b
  {
    if a >= 0 then a / b else -((-a) / b)
  }

  /** `parts.joined(separator: [sep])`. */
  function Join(parts: seq<string>, sep: char): (r: string)
    ensures parts == [] ==> r == []
    ensures |parts| == 1 ==> r == parts[0]
    ensures |parts| >= 2 ==> r == parts[0] + [sep] + Join(parts[1..], sep)
  {
    if parts == [] then []
    else if |parts| == 1 then parts[0]
    else parts[0] + [sep] + Join(parts[1..], sep)
  }

  /** Splitting a join of non-empty, separator-free parts gives the parts back. */
  lemma {:induction false} SplitJoin(parts: seq<string>, sep: char)
    requires forall i :: 0 <= i < |parts| ==> parts[i] != [] && sep !in parts[i]
    ensures Split(Join(parts, sep), sep) == parts
  {
    if parts == [] {
      SplitEmpty(sep);
    } else if |parts| == 1 {
      SplitSingle(parts[0], sep);
    } else {
      SplitJoin(parts[1..], sep);
      SplitSingle(parts[0], sep);
      SplitConcat(parts[0], Join(parts[1..], sep), sep);
      assert [parts[0]] + parts[1..] == parts;
    }
  }

  /** The number of characters in all the parts together. */
  function TotalLength(parts: seq<string>): nat {
    if parts == [] then 0 else |parts[0]| + TotalLength(parts[1..])
  }

  /** A join holds every part's characters and one separator between each two parts. */
  lemma {:induction false} JoinLength(parts: seq<string>, sep: char)
    requires parts != []
    ensures |Join(parts, sep)| == TotalLength(parts) + |parts| - 1
  {
    if |parts| >= 2 {
      JoinLength(parts[1..], sep);
    }
  }
}
