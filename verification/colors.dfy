/**
 * The two colour-string parsers of `UIColor`: `init?(hex:)` for the eight
 * digit form `#RRGGBBAA` (section 5.2 of CSS Color Module Level 4, only that
 * form), and `init?(rgb:)` for the comma forms `rgb(r, g, b)` and
 * `rgba(r, g, b, a)` (sections 4.2.1 and 4.2.2 of CSS Color Module Level 3).
 * A colour is four channels in [0, 1].
 */
module Colors {
  import opened Wrappers
  import opened Strings

  datatype Color = Color(red: real, green: real, blue: real, alpha: real)

  predicate InUnitRange(c: Color) {
    0.0 <= c.red <= 1.0 && 0.0 <= c.green <= 1.0 && 0.0 <= c.blue <= 1.0 && 0.0 <= c.alpha <= 1.0
  }

  // ---------------------------------------------------------------------------
  // Hexadecimal

  predicate IsHexDigit(c: char) {
    ('0' <= c <= '9') || ('a' <= c <= 'f') || ('A' <= c <= 'F')
  }

  function HexDigitValue(c: char): (v: nat)
    requires IsHexDigit(c)
    ensures v < 16
  {
    if '0' <= c <= '9' then c as int - '0' as int
    else if 'a' <= c <= 'f' then c as int - 'a' as int + 10
    else c as int - 'A' as int + 10
  }

  predicate AllHexDigits(s: string) {
    forall i :: 0 <= i < |s| ==> IsHexDigit(s[i])
  }

  /** The value of a string of hexadecimal digits, most significant first. */
  function HexValue(s: string): nat
    requires AllHexDigits(s)
  {
    if s == [] then 0 else HexValue(s[..|s| - 1]) * 16 + HexDigitValue(s[|s| - 1])
  }

  /** The length of the longest prefix of `s` made of hexadecimal digits. */
  function HexRunLength(s: string): (n: nat)
    ensures n <= |s| && AllHexDigits(s[..n])
    ensures n < |s| ==> !IsHexDigit(s[n])
  {
    if s == [] || !IsHexDigit(s[0]) then 0
    else
      var n := 1 + HexRunLength(s[1..]);
      assert s[..n] == [s[0]] + s[1..][..n - 1];
      n
  }

  /**
   * `Scanner.scanHexInt64` on a fresh scanner: leading whitespace and
   * newlines are skipped, a `0x` or `0X` prefix is allowed before a digit,
   * and the longest run of hexadecimal digits is read. It fails when there is
   * no digit to read.
   */
  function ScanHexInt64(s: string): (r: Option<nat>)
    ensures r.None? <==> HexRunLength(TrimLeading(s, true)) == 0
  {
    var t := TrimLeading(s, true);
    var digits := if |t| >= 3 && t[0] == '0' && (t[1] == 'x' || t[1] == 'X') && IsHexDigit(t[2]) then t[2..] else t;
    var n := HexRunLength(digits);
    if n == 0 then None else Some(HexValue(digits[..n]))
  }

  /** Byte `k` of `n` (0 the least significant): `(n & (0xff << 8k)) >> 8k`. */
  function Byte(n: nat, k: nat): (b: nat)
    requires k < 4
    ensures b < 256
  {
    if k == 0 then n % 0x100
    else if k == 1 then (n / 0x100) % 0x100
    else if k == 2 then (n / 0x1_0000) % 0x100
    else (n / 0x100_0000) % 0x100
  }

  /**
   * `init?(hex:)`: a `#` followed by exactly eight Swift Characters (a CR LF
   * pair is one) whose scan succeeds; the four bytes of the scanned number,
   * most significant first, are red, green, blue and alpha over 255.
   */
  function ColorFromHex(hex: string): (r: Option<Color>)
    ensures r.Some? ==> |hex| >= 9 && hex[0] == '#' && CharacterCount(hex[1..]) == 8
    ensures r.Some? ==> InUnitRange(r.value)
  {
    if |hex| >= 1 && hex[0] == '#' && CharacterCount(hex[1..]) == 8 then
      match ScanHexInt64(hex[1..])
      case Some(n) => Some(HexColor(n))
      case None => None
    else None
  }

  /** The colour of a scanned number: its four bytes, most significant first, over 255. */
  function HexColor(n: nat): (c: Color)
    ensures InUnitRange(c)
  {
    Color(Byte(n, 3) as real / 255.0, Byte(n, 2) as real / 255.0, Byte(n, 1) as real / 255.0, Byte(n, 0) as real / 255.0)
  }

  /** The lower-case hexadecimal digit of `d`. */
  function HexChar(d: nat): (c: char)
    requires d < 16
    ensures IsHexDigit(c) && HexDigitValue(c) == d
    ensures !IsWhitespaceOrNewline(c) && c != 'x' && c != 'X'
  {
    if d < 10 then ('0' as int + d) as char else ('a' as int + d - 10) as char
  }

  /** A byte as two hexadecimal digits. */
  function Hex2(b: nat): (s: string)
    requires b < 256
    ensures |s| == 2 && AllHexDigits(s) && HexValue(s) == b
  {
    var s := [HexChar(b / 16), HexChar(b % 16)];
    assert s[..1] == [HexChar(b / 16)] && s[..1][..0] == [];
    assert HexValue(s[..1]) == b / 16;
    s
  }

  /** The `#RRGGBBAA` text of four bytes. */
  function HexString(r: nat, g: nat, b: nat, a: nat): (s: string)
    requires r < 256 && g < 256 && b < 256 && a < 256
  {
    "#" + Hex2(r) + Hex2(g) + Hex2(b) + Hex2(a)
  }

  /** Appending digits multiplies the value read so far by 16 for each of them. */
  lemma {:induction false} HexValueConcat(s: string, t: string)
    requires AllHexDigits(s) && AllHexDigits(t)
    ensures AllHexDigits(s + t)
    ensures HexValue(s + t) == HexValue(s) * Pow16(|t|) + HexValue(t)
    decreases |t|
  {
    if t != [] {
      var n := |t|;
      assert (s + t)[..|s + t| - 1] == s + t[..n - 1];
      assert (s + t)[|s + t| - 1] == t[n - 1];
      HexValueConcat(s, t[..n - 1]);
      calc {
        HexValue(s + t);
        HexValue(s + t[..n - 1]) * 16 + HexDigitValue(t[n - 1]);
        (HexValue(s) * Pow16(n - 1) + HexValue(t[..n - 1])) * 16 + HexDigitValue(t[n - 1]);
        { MulAssoc(HexValue(s), Pow16(n - 1)); }
        HexValue(s) * Pow16(n) + HexValue(t);
      }
    } else {
      assert s + t == s;
    }
  }

  lemma MulAssoc(x: nat, p: nat)
    ensures (x * p) * 16 == x * (p * 16)
  {
  }

  function Pow16(n: nat): (p: nat)
    ensures p >= 1
  {
    if n == 0 then 1 else Pow16(n - 1) * 16
  }

  /** Eight digits that print four bytes read back as the 32-bit number they spell. */
  lemma HexStringValue(r: nat, g: nat, b: nat, a: nat)
    requires r < 256 && g < 256 && b < 256 && a < 256
    ensures AllHexDigits(HexString(r, g, b, a)[1..])
    ensures HexValue(HexString(r, g, b, a)[1..]) == r * 0x100_0000 + g * 0x1_0000 + b * 0x100 + a
  {
    var s := HexString(r, g, b, a);
    assert s[1..] == Hex2(r) + Hex2(g) + Hex2(b) + Hex2(a);
    assert Pow16(2) == 0x100;
    HexValueConcat(Hex2(r), Hex2(g));
    HexValueConcat(Hex2(r) + Hex2(g), Hex2(b));
    HexValueConcat(Hex2(r) + Hex2(g) + Hex2(b), Hex2(a));
  }

  /** The bytes of `r * 2^24 + g * 2^16 + b * 2^8 + a` are `r`, `g`, `b` and `a`. */
  lemma BytesOf(r: nat, g: nat, b: nat, a: nat)
    requires r < 256 && g < 256 && b < 256 && a < 256
    ensures Byte(r * 0x100_0000 + g * 0x1_0000 + b * 0x100 + a, 3) == r
    ensures Byte(r * 0x100_0000 + g * 0x1_0000 + b * 0x100 + a, 2) == g
    ensures Byte(r * 0x100_0000 + g * 0x1_0000 + b * 0x100 + a, 1) == b
    ensures Byte(r * 0x100_0000 + g * 0x1_0000 + b * 0x100 + a, 0) == a
  {
    var n := r * 0x100_0000 + g * 0x1_0000 + b * 0x100 + a;
    assert n / 0x100 == r * 0x1_0000 + g * 0x100 + b;
    assert n / 0x1_0000 == r * 0x100 + g;
    assert n / 0x100_0000 == r;
  }

  /**
   * Printing four bytes as `#RRGGBBAA` and parsing the text gives the colour
   * whose channels are those bytes over 255.
   */
  lemma HexRoundTrip(r: nat, g: nat, b: nat, a: nat)
    requires r < 256 && g < 256 && b < 256 && a < 256
    ensures ColorFromHex(HexString(r, g, b, a))
         == Some(Color(r as real / 255.0, g as real / 255.0, b as real / 255.0, a as real / 255.0))
  {
    var s := HexString(r, g, b, a);
    assert |s| == 9 && s[0] == '#';
    HexStringValue(r, g, b, a);
    assert '\r' !in s[1..];
    CharacterCountWithoutCr(s[1..]);
    ScanAllHexDigits(s[1..]);
    ScannedBytes(s, r, g, b, a);
  }

  /** Text whose digits scan as four bytes parses as those bytes over 255. */
  lemma ScannedBytes(hex: string, r: nat, g: nat, b: nat, a: nat)
    requires r < 256 && g < 256 && b < 256 && a < 256
    requires |hex| >= 1 && hex[0] == '#' && CharacterCount(hex[1..]) == 8
    requires ScanHexInt64(hex[1..]) == Some(r * 0x100_0000 + g * 0x1_0000 + b * 0x100 + a)
    ensures ColorFromHex(hex) == Some(Color(r as real / 255.0, g as real / 255.0, b as real / 255.0, a as real / 255.0))
  {
    HexScanned(hex, r * 0x100_0000 + g * 0x1_0000 + b * 0x100 + a);
    HexColorOfBytes(r, g, b, a);
  }

  /** The colour of the number the four bytes spell has those bytes over 255 as channels. */
  lemma HexColorOfBytes(r: nat, g: nat, b: nat, a: nat)
    requires r < 256 && g < 256 && b < 256 && a < 256
    ensures HexColor(r * 0x100_0000 + g * 0x1_0000 + b * 0x100 + a)
         == Color(r as real / 255.0, g as real / 255.0, b as real / 255.0, a as real / 255.0)
  {
    BytesOf(r, g, b, a);
  }

  lemma HexScanned(hex: string, n: nat)
    requires |hex| >= 1 && hex[0] == '#' && CharacterCount(hex[1..]) == 8 && ScanHexInt64(hex[1..]) == Some(n)
    ensures ColorFromHex(hex) == Some(Color(Byte(n, 3) as real / 255.0, Byte(n, 2) as real / 255.0,
                                            Byte(n, 1) as real / 255.0, Byte(n, 0) as real / 255.0))
  {
  }

  /** A non-empty run of hexadecimal digits scans as its value. */
  lemma ScanAllHexDigits(h: string)
    requires h != [] && AllHexDigits(h)
    ensures ScanHexInt64(h) == Some(HexValue(h))
  {
    assert IsHexDigit(h[0]) && !IsSpace(h[0], true);
    assert TrimLeading(h, true) == h;
    assert |h| >= 3 ==> IsHexDigit(h[1]) && h[1] != 'x' && h[1] != 'X';
    HexRunLengthAll(h);
    assert h[..|h|] == h;
  }

  lemma {:induction false} HexRunLengthAll(s: string)
    requires AllHexDigits(s)
    ensures HexRunLength(s) == |s|
  {
    if s != [] {
      HexRunLengthAll(s[1..]);
    }
  }

  /** Without a leading `#` the hex parser gives nil. */
  lemma HexNeedsHash(hex: string)
    requires hex == [] || hex[0] != '#'
    ensures ColorFromHex(hex) == None
  {
  }

  /**
   * Anything but `#` and eight Characters gives nil; in particular the six
   * digit `#RRGGBB`, and any text without a carriage return whose length is not 9.
   */
  lemma HexNeedsEightDigits(hex: string)
    requires hex == [] || CharacterCount(hex[1..]) != 8
    ensures ColorFromHex(hex) == None
  {
  }

  /**
   * A CR LF pair is one Character, so a `#`, a line break and seven digits
   * pass the length test; the scanner skips the line break and reads the digits.
   */
  lemma CrLfCountsOnce(hex: string, d: string, n: nat)
    requires hex == "#\r\n" + d && |d| == 7 && AllHexDigits(d) && n == HexValue(d)
    ensures ColorFromHex(hex)
         == Some(Color(Byte(n, 3) as real / 255.0, Byte(n, 2) as real / 255.0,
                       Byte(n, 1) as real / 255.0, Byte(n, 0) as real / 255.0))
  {
    assert hex[1..] == "\r\n" + d;
    CrLfLength(d);
    CrLfScan(d);
    HexScanned(hex, n);
  }

  /** A line break and seven digits are eight Characters. */
  lemma CrLfLength(d: string)
    requires |d| == 7 && AllHexDigits(d)
    ensures CharacterCount("\r\n" + d) == 8
  {
    assert '\r' !in d;
    CharacterCountWithoutCr(d);
    CharacterCountCrLf(d);
  }

  /** The scanner skips a leading line break. */
  lemma CrLfScan(d: string)
    requires |d| == 7 && AllHexDigits(d)
    ensures ScanHexInt64("\r\n" + d) == Some(HexValue(d))
  {
    CrLfTrimmed(d);
    ScanOfSameTrim("\r\n" + d, d);
    ScanAllHexDigits(d);
  }

  lemma CrLfTrimmed(d: string)
    ensures TrimLeading("\r\n" + d, true) == TrimLeading(d, true)
  {
    var t := "\r\n" + d;
    assert IsSpace(t[0], true) && IsSpace(t[1..][0], true) && t[1..][1..] == d;
  }

  /** The scanner looks only at the text after the leading whitespace. */
  lemma ScanOfSameTrim(s: string, t: string)
    requires TrimLeading(s, true) == TrimLeading(t, true)
    ensures ScanHexInt64(s) == ScanHexInt64(t)
  {
  }

  /** `#\r\n1234567`, eight Characters, is the colour of 0x01234567. */
  lemma CrLfExample()
    ensures ColorFromHex("#\r\n" + "1234567") == Some(Color(1.0 / 255.0, 35.0 / 255.0, 69.0 / 255.0, 103.0 / 255.0))
  {
    DigitsValue();
    CrLfCountsOnce("#\r\n" + "1234567", "1234567", 0x1234567);
    ExampleBytes();
  }

  lemma ExampleBytes()
    ensures Byte(0x1234567, 3) == 0x01 && Byte(0x1234567, 2) == 0x23
    ensures Byte(0x1234567, 1) == 0x45 && Byte(0x1234567, 0) == 0x67
  {
  }

  lemma DigitsValue()
    ensures HexValue("1234567") == 0x1234567
  {
    assert "1234567"[..6] == "123456" && "123456"[..5] == "12345" && "12345"[..4] == "1234";
    assert "1234"[..3] == "123" && "123"[..2] == "12" && "12"[..1] == "1" && "1"[..0] == "";
  }

  // ---------------------------------------------------------------------------
  // rgb() and rgba()

  /**
   * What `Double(_:)` makes of a piece of text, which is not part of this
   * model: a finite number, or an infinity or NaN (which no range accepts).
   */
  datatype Number = Finite(value: real) | NotFinite

  predicate InRange(x: Number, lo: real, hi: real) {
    x.Finite? && lo <= x.value <= hi
  }

  predicate StartsWith(s: string, prefix: string) {
    |prefix| <= |s| && s[..|prefix|] == prefix
  }

  predicate EndsWith(s: string, suffix: string) {
    |suffix| <= |s| && s[|s| - |suffix|..] == suffix
  }

  /** The input trimmed of whitespace and newlines, then lower-cased. */
  function CleanString(s: string): (r: string)
    ensures |r| <= |s|
  {
    ToLower(TrimWithNewlines(s))
  }

  /** `compactMap { parseDouble($0.trimmingCharacters(in: .whitespaces)) }`: the pieces that parse, in order. */
  function ParseComponents(pieces: seq<string>, parseDouble: string -> Option<Number>): (r: seq<Number>)
    ensures |r| <= |pieces|
  {
    if pieces == [] then []
    else
      var rest := ParseComponents(pieces[..|pieces| - 1], parseDouble);
      match parseDouble(Trim(pieces[|pieces| - 1]))
      case Some(x) => rest + [x]
      case None => rest
  }

  /** The text between the opening `(` and the closing `)` of a cleaned `rgb(`/`rgba(` string. */
  function Inner(clean: string, isRgba: bool): (r: string)
    requires isRgba ==> StartsWith(clean, "rgba(")
    requires !isRgba ==> StartsWith(clean, "rgb(")
    requires EndsWith(clean, ")")
  {
    var start := if isRgba then 5 else 4;
    assert clean[start - 1] == '(';
    clean[start..|clean| - 1]
  }

  /** The components of a cleaned `rgb(`/`rgba(` string. */
  function Components(clean: string, isRgba: bool, parseDouble: string -> Option<Number>): seq<Number>
    requires isRgba ==> StartsWith(clean, "rgba(")
    requires !isRgba ==> StartsWith(clean, "rgb(")
    requires EndsWith(clean, ")")
  {
    ParseComponents(Split(Inner(clean, isRgba), ','), parseDouble)
  }

  /**
   * The components a colour is made from: four for `rgba`, three for `rgb`,
   * red, green and blue finite and in [0, 255], an `rgba` alpha finite and in [0, 1].
   */
  predicate ChannelsInRange(c: seq<Number>, isRgba: bool) {
    |c| == (if isRgba then 4 else 3)
    && InRange(c[0], 0.0, 255.0) && InRange(c[1], 0.0, 255.0) && InRange(c[2], 0.0, 255.0)
    && (isRgba ==> InRange(c[3], 0.0, 1.0))
  }

  /** The range checks and the channel division, on the parsed components. */
  function FromComponents(c: seq<Number>, isRgba: bool): (r: Option<Color>)
    ensures r.Some? <==> ChannelsInRange(c, isRgba)
    ensures r.Some? ==> InUnitRange(r.value)
    ensures r.Some? ==> r.value.red * 255.0 == c[0].value && r.value.green * 255.0 == c[1].value
                        && r.value.blue * 255.0 == c[2].value
    ensures r.Some? ==> r.value.alpha == if isRgba then c[3].value else 1.0
  {
    if isRgba then
      if |c| != 4 then None
      else if !(InRange(c[0], 0.0, 255.0) && InRange(c[1], 0.0, 255.0) && InRange(c[2], 0.0, 255.0)
                && InRange(c[3], 0.0, 1.0)) then None
      else Some(Color(c[0].value / 255.0, c[1].value / 255.0, c[2].value / 255.0, c[3].value))
    else
      if |c| != 3 then None
      else if !(InRange(c[0], 0.0, 255.0) && InRange(c[1], 0.0, 255.0) && InRange(c[2], 0.0, 255.0)) then None
      else Some(Color(c[0].value / 255.0, c[1].value / 255.0, c[2].value / 255.0, 1.0))
  }

  /** `init?(rgb:)` after the input has been cleaned. */
  function ColorFromClean(clean: string, parseDouble: string -> Option<Number>): (r: Option<Color>)
    ensures r.Some? ==> (StartsWith(clean, "rgb(") || StartsWith(clean, "rgba(")) && EndsWith(clean, ")")
    ensures r.Some? ==> InUnitRange(r.value)
  {
    var isRgba := StartsWith(clean, "rgba(");
    var isRgb := StartsWith(clean, "rgb(");
    if !((isRgb || isRgba) && EndsWith(clean, ")")) then None
    else FromComponents(Components(clean, isRgba, parseDouble), isRgba)
  }

  /**
   * `init?(rgb:)`, with the number parser as a parameter: the cleaned string
   * must start with `rgba(` or `rgb(` and end with `)`; `rgba` needs exactly
   * four parsed components with red, green and blue in [0, 255] and alpha in
   * [0, 1], `rgb` exactly three in [0, 255] and gets alpha 1.
   */
  function ColorFromRgb(rgb: string, parseDouble: string -> Option<Number>): (r: Option<Color>)
    ensures r.Some? ==> InUnitRange(r.value)
  {
    ColorFromClean(CleanString(rgb), parseDouble)
  }

  /** Parsing the pieces of two lists is parsing each list in turn. */
  lemma {:induction false} ParseComponentsConcat(p: seq<string>, q: seq<string>, parseDouble: string -> Option<Number>)
    ensures ParseComponents(p + q, parseDouble) == ParseComponents(p, parseDouble) + ParseComponents(q, parseDouble)
    decreases |q|
  {
    if q == [] {
      assert p + q == p;
    } else {
      var n := |q|;
      assert (p + q)[..|p + q| - 1] == p + q[..n - 1];
      assert (p + q)[|p + q| - 1] == q[n - 1];
      ParseComponentsConcat(p, q[..n - 1], parseDouble);
    }
  }

  /** The components of `rgb(body)` or `rgba(body)` are read from `body` alone. */
  lemma InnerOfCall(name: string, body: string, isRgba: bool)
    requires name == (if isRgba then "rgba(" else "rgb(")
    ensures StartsWith(name + body + ")", name) && EndsWith(name + body + ")", ")")
    ensures Inner(name + body + ")", isRgba) == body
  {
    var clean := name + body + ")";
    assert clean[..|name|] == name;
    assert clean[|clean| - 1..] == ")";
    assert clean[|name|..|clean| - 1] == body;
  }

  /** Splitting `x,y,z` at commas gives the three pieces, when none is empty or holds a comma. */
  lemma SplitThree(x: string, y: string, z: string)
    requires x != [] && y != [] && z != []
    requires ',' !in x && ',' !in y && ',' !in z
    ensures Split(x + "," + y + "," + z, ',') == [x, y, z]
  {
    assert x + "," + y + "," + z == (x + [','] + y) + [','] + z;
    SplitConcat(x + [','] + y, z, ',');
    SplitConcat(x, y, ',');
    SplitSingle(x, ',');
    SplitSingle(y, ',');
    SplitSingle(z, ',');
  }

  /** Text that is neither padded nor upper-case is its own cleaned form. */
  lemma CleanOfClean(s: string)
    requires Trimmed(s, true) && ToLower(s) == s
    ensures CleanString(s) == s
  {
    TrimIdentity(s, true);
  }

  /** A cleaned call `rgb(body)` or `rgba(body)` is decided by the numbers parsed from `body`. */
  lemma CleanCall(name: string, body: string, isRgba: bool, parseDouble: string -> Option<Number>)
    requires name == (if isRgba then "rgba(" else "rgb(")
    ensures ColorFromClean(name + body + ")", parseDouble)
         == FromComponents(ParseComponents(Split(body, ','), parseDouble), isRgba)
  {
    var clean := name + body + ")";
    InnerOfCall(name, body, isRgba);
    assert clean[3] == name[3];
    assert StartsWith(clean, "rgba(") == isRgba;
  }

  /**
   * A call `rgb(body)` or `rgba(body)` gives a colour exactly when the numbers
   * parsed from `body` pass the count and range checks, and then the channels
   * are those numbers over 255 and the alpha the fourth number, or 1 for `rgb`.
   */
  lemma RgbCallDecided(rgb: string, name: string, body: string, isRgba: bool, parseDouble: string -> Option<Number>)
    requires name == (if isRgba then "rgba(" else "rgb(")
    requires CleanString(rgb) == name + body + ")"
    ensures var c := ParseComponents(Split(body, ','), parseDouble);
            var r := ColorFromRgb(rgb, parseDouble);
            (r.Some? <==> ChannelsInRange(c, isRgba))
            && (r.Some? ==> r.value == Color(c[0].value / 255.0, c[1].value / 255.0, c[2].value / 255.0,
                                             if isRgba then c[3].value else 1.0))
  {
    CleanCall(name, body, isRgba, parseDouble);
  }

  /**
   * One component out of its range rejects the whole call: red, green or
   * blue outside [0, 255] (or not finite), or an alpha outside [0, 1].
   */
  lemma OutOfRangeRejected(rgb: string, name: string, body: string, isRgba: bool,
                           parseDouble: string -> Option<Number>, k: nat)
    requires name == (if isRgba then "rgba(" else "rgb(")
    requires CleanString(rgb) == name + body + ")"
    requires var c := ParseComponents(Split(body, ','), parseDouble);
             k < |c| && !InRange(c[k], 0.0, if k < 3 then 255.0 else 1.0)
    ensures ColorFromRgb(rgb, parseDouble).None?
  {
    var c := ParseComponents(Split(body, ','), parseDouble);
    OutOfRangeNotChannels(c, isRgba, k);
    RgbCallDecided(rgb, name, body, isRgba, parseDouble);
  }

  /** A component outside its range fails the range checks, whatever the call. */
  lemma OutOfRangeNotChannels(c: seq<Number>, isRgba: bool, k: nat)
    requires k < |c| && !InRange(c[k], 0.0, if k < 3 then 255.0 else 1.0)
    ensures !ChannelsInRange(c, isRgba)
  {
  }

  /** `rgba(...)` with four in-range numbers is the colour with those channels over 255 and that alpha. */
  lemma RgbaValue(rgb: string, body: string, parseDouble: string -> Option<Number>,
                  red: real, green: real, blue: real, alpha: real)
    requires CleanString(rgb) == "rgba(" + body + ")"
    requires ParseComponents(Split(body, ','), parseDouble) == [Finite(red), Finite(green), Finite(blue), Finite(alpha)]
    requires 0.0 <= red <= 255.0 && 0.0 <= green <= 255.0 && 0.0 <= blue <= 255.0 && 0.0 <= alpha <= 1.0
    ensures ColorFromRgb(rgb, parseDouble) == Some(Color(red / 255.0, green / 255.0, blue / 255.0, alpha))
  {
    CleanCall("rgba(", body, true, parseDouble);
    FromFour(red, green, blue, alpha);
    assert ColorFromRgb(rgb, parseDouble) == ColorFromClean("rgba(" + body + ")", parseDouble);
  }

  /** Four in-range numbers make the colour with those channels over 255 and that alpha. */
  lemma FromFour(red: real, green: real, blue: real, alpha: real)
    requires 0.0 <= red <= 255.0 && 0.0 <= green <= 255.0 && 0.0 <= blue <= 255.0 && 0.0 <= alpha <= 1.0
    ensures FromComponents([Finite(red), Finite(green), Finite(blue), Finite(alpha)], true)
         == Some(Color(red / 255.0, green / 255.0, blue / 255.0, alpha))
  {
    var c := [Finite(red), Finite(green), Finite(blue), Finite(alpha)];
    assert ChannelsInRange(c, true);
  }

  /**
   * `rgb(x,y,z)` whose three pieces parse to finite numbers in [0, 255]
   * is the opaque colour with those channels over 255.
   */
  lemma RgbOfThreeNumbers(rgb: string, x: string, y: string, z: string,
                          parseDouble: string -> Option<Number>, red: real, green: real, blue: real)
    requires CleanString(rgb) == "rgb(" + (x + "," + y + "," + z) + ")"
    requires x != [] && y != [] && z != []
    requires ',' !in x && ',' !in y && ',' !in z
    requires parseDouble(Trim(x)) == Some(Finite(red)) && 0.0 <= red <= 255.0
    requires parseDouble(Trim(y)) == Some(Finite(green)) && 0.0 <= green <= 255.0
    requires parseDouble(Trim(z)) == Some(Finite(blue)) && 0.0 <= blue <= 255.0
    ensures ColorFromRgb(rgb, parseDouble) == Some(Color(red / 255.0, green / 255.0, blue / 255.0, 1.0))
  {
    var body := x + "," + y + "," + z;
    var c := [Finite(red), Finite(green), Finite(blue)];
    CleanCall("rgb(", body, false, parseDouble);
    SplitThree(x, y, z);
    ThreeComponents(x, y, z, parseDouble, red, green, blue);
    assert ParseComponents(Split(body, ','), parseDouble) == c;
    OpaqueFromThree(red, green, blue);
    assert ColorFromRgb(rgb, parseDouble) == ColorFromClean("rgb(" + body + ")", parseDouble);
  }

  lemma OpaqueFromThree(red: real, green: real, blue: real)
    requires 0.0 <= red <= 255.0 && 0.0 <= green <= 255.0 && 0.0 <= blue <= 255.0
    ensures FromComponents([Finite(red), Finite(green), Finite(blue)], false)
         == Some(Color(red / 255.0, green / 255.0, blue / 255.0, 1.0))
  {
    var c := [Finite(red), Finite(green), Finite(blue)];
    assert InRange(c[0], 0.0, 255.0) && InRange(c[1], 0.0, 255.0) && InRange(c[2], 0.0, 255.0);
  }

  lemma ThreeComponents(x: string, y: string, z: string,
                        parseDouble: string -> Option<Number>, red: real, green: real, blue: real)
    requires parseDouble(Trim(x)) == Some(Finite(red))
    requires parseDouble(Trim(y)) == Some(Finite(green))
    requires parseDouble(Trim(z)) == Some(Finite(blue))
    ensures ParseComponents([x, y, z], parseDouble) == [Finite(red), Finite(green), Finite(blue)]
  {
    assert [x][..0] == [];
    assert ParseComponents([x], parseDouble) == [Finite(red)];
    assert [x, y][..1] == [x];
    assert ParseComponents([x, y], parseDouble) == [Finite(red), Finite(green)];
    assert [x, y, z][..2] == [x, y];
  }

  /**
   * A piece that does not parse is dropped, not rejected: `rgb(x,w,rest)`
   * gives the colour `rgb(x,rest)` gives when `w` is not a number.
   */
  lemma UnparseablePieceDropped(x: string, w: string, rest: string, parseDouble: string -> Option<Number>)
    requires x != [] && w != [] && ',' !in x && ',' !in w
    requires parseDouble(Trim(w)).None?
    ensures ColorFromClean("rgb(" + (x + "," + w + "," + rest) + ")", parseDouble)
         == ColorFromClean("rgb(" + (x + "," + rest) + ")", parseDouble)
  {
    CleanCall("rgb(", x + "," + w + "," + rest, false, parseDouble);
    CleanCall("rgb(", x + "," + rest, false, parseDouble);
    SplitDropped(x, w, rest);
    var px := Split(x, ',');
    var pr := Split(rest, ',');
    ParseComponentsConcat(px + [w], pr, parseDouble);
    ParseComponentsConcat(px, [w], parseDouble);
    ParseComponentsConcat(px, pr, parseDouble);
    assert ParseComponents([w], parseDouble) == [] by {
      assert [w][..0] == [];
    }
  }

  lemma SplitDropped(x: string, w: string, rest: string)
    requires x != [] && w != [] && ',' !in x && ',' !in w
    ensures Split(x + "," + w + "," + rest, ',') == Split(x, ',') + [w] + Split(rest, ',')
    ensures Split(x + "," + rest, ',') == Split(x, ',') + Split(rest, ',')
  {
    assert x + "," + w + "," + rest == (x + [','] + w) + [','] + rest;
    SplitConcat(x + [','] + w, rest, ',');
    SplitConcat(x, w, ',');
    SplitSingle(w, ',');
    assert x + "," + rest == x + [','] + rest;
    SplitConcat(x, rest, ',');
  }

  /** The `rgb(` form always has alpha 1. */
  lemma RgbIsOpaque(rgb: string, parseDouble: string -> Option<Number>)
    requires !StartsWith(CleanString(rgb), "rgba(")
    ensures ColorFromRgb(rgb, parseDouble).Some? ==> ColorFromRgb(rgb, parseDouble).value.alpha == 1.0
  {
  }

  /**
   * A colour is produced only from a well-formed call with exactly four
   * parsed numbers for `rgba(` and three for `rgb(`.
   */
  lemma RgbComponentCount(rgb: string, parseDouble: string -> Option<Number>)
    ensures ColorFromRgb(rgb, parseDouble).Some? ==>
      var clean := CleanString(rgb);
      var isRgba := StartsWith(clean, "rgba(");
      (isRgba || StartsWith(clean, "rgb(")) && EndsWith(clean, ")")
      && |Components(clean, isRgba, parseDouble)| == (if isRgba then 4 else 3)
  {
  }

  /** Surrounding whitespace and newlines do not change the result. */
  lemma RgbIgnoresPadding(pre: string, rgb: string, post: string, parseDouble: string -> Option<Number>)
    requires AllSpaces(pre, true) && AllSpaces(post, true)
    requires rgb != [] && Trimmed(rgb, true)
    ensures ColorFromRgb(pre + rgb + post, parseDouble) == ColorFromRgb(rgb, parseDouble)
  {
    TrimPadded(pre, rgb, post, true);
    TrimIdentity(rgb, true);
    assert CleanString(pre + rgb + post) == CleanString(rgb);
  }
}
