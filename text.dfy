/** Option, character classes and the string primitives that Python's `re`, `str.strip`,
    `str.split` and `int` are modelled with. */
module Text {

  datatype Option<+T> = None | Some(value: T)

  /** Python's `str.isspace`; a `\s` in a str pattern matches exactly these characters. */
  predicate IsSpace(c: char) {
    var n := c as int;
    (0x09 <= n <= 0x0D) || (0x1C <= n <= 0x20) || n == 0x85 || n == 0xA0 || n == 0x1680
    || (0x2000 <= n <= 0x200A) || n == 0x2028 || n == 0x2029 || n == 0x202F || n == 0x205F
    || n == 0x3000
  }

  /** The whitespace `int()` skips around its numeral. CPython turns every non-ASCII whitespace
      character into a space but keeps ASCII characters as they are, and then skips only space,
      `\t`, `\n`, `\v`, `\f` and `\r`: U+001C to U+001F, which `\s` counts, are refused. */
  predicate IsIntSpace(c: char) {
    IsSpace(c) && !(0x1C <= c as int <= 0x1F)
  }

  /** `\d`, restricted to the ASCII digits. */
  predicate IsDigit(c: char) {
    '0' <= c <= '9'
  }

  /** `\w`, restricted to ASCII letters, digits and the underscore. */
  predicate IsWordChar(c: char) {
    ('a' <= c <= 'z') || ('A' <= c <= 'Z') || IsDigit(c) || c == '_'
  }

  /** The classes a greedy character-class repetition in the source's patterns ranges over, and
      the padding `int()` skips. */
  datatype CharClass =
    | Space           // \s
    | IntSpace        // the whitespace `int()` skips
    | NonSpace        // \S
    | Digit           // \d
    | Word            // \w
    | Only(c: char)   // a literal repeated, as in \n+
    | AllBut(c: char) // [^c]

  predicate In(k: CharClass, ch: char) {
    match k
    case Space => IsSpace(ch)
    case IntSpace => IsIntSpace(ch)
    case NonSpace => !IsSpace(ch)
    case Digit => IsDigit(ch)
    case Word => IsWordChar(ch)
    case Only(c) => ch == c
    case AllBut(c) => ch != c
  }

  predicate AllIn(k: CharClass, s: string) {
    forall m :: 0 <= m < |s| ==> In(k, s[m])
  }

  /** Where the longest run of `k` characters starting at `i` ends: what a greedy `k*` consumes. */
  function RunEnd(s: string, i: nat, k: CharClass): (j: nat)
    requires i <= |s|
    ensures i <= j <= |s|
    ensures forall m :: i <= m < j ==> In(k, s[m])
    ensures j == |s| || !In(k, s[j])
    decreases |s| - i
  {
    if i == |s| || !In(k, s[i]) then i else RunEnd(s, i + 1, k)
  }

  /** A run of `k` from `i` that stops at `j` is the longest one: greedy matching is deterministic. */
  lemma {:induction false} RunEndUnique(s: string, i: nat, j: nat, k: CharClass)
    requires i <= j <= |s|
    requires forall m :: i <= m < j ==> In(k, s[m])
    requires j == |s| || !In(k, s[j])
    ensures RunEnd(s, i, k) == j
    decreases j - i
  {
    if i < j {
      RunEndUnique(s, i + 1, j, k);
    }
  }

  /** A greedy run goes at least as far as any run of the class. */
  lemma {:induction false} RunEndAtLeast(s: string, i: nat, j: nat, k: CharClass)
    requires i <= j <= |s| && AllIn(k, s[i..j])
    ensures RunEnd(s, i, k) >= j
    decreases j - i
  {
    if i < j {
      assert s[i..j][0] == s[i];
      assert s[i + 1..j] == s[i..j][1..];
      RunEndAtLeast(s, i + 1, j, k);
    }
  }

  lemma RunIsAllIn(s: string, i: nat, j: nat, k: CharClass)
    requires i <= j <= |s| && forall m :: i <= m < j ==> In(k, s[m])
    ensures AllIn(k, s[i..j])
  {
  }

  lemma AllInIsRun(s: string, i: nat, j: nat, k: CharClass)
    requires i <= j <= |s| && AllIn(k, s[i..j])
    ensures forall m :: i <= m < j ==> In(k, s[m])
  {
    forall m | i <= m < j ensures In(k, s[m]) {
      assert s[m] == s[i..j][m - i];
    }
  }

  /** The literal `lit` occurs in `s` at `i`. */
  predicate StartsAt(s: string, i: nat, lit: string) {
    i + |lit| <= |s| && s[i..i + |lit|] == lit
  }

  /** A literal occurs only where its first character does. */
  lemma StartsAtHead(s: string, i: nat, lit: string)
    requires |lit| > 0
    ensures StartsAt(s, i, lit) ==> s[i] == lit[0]
  {
    if StartsAt(s, i, lit) {
      assert s[i..i + |lit|][0] == s[i];
    }
  }

  /** Python's `str.strip()` with no argument. */
  function Strip(s: string): (r: string)
    ensures |r| <= |s|
    ensures r == [] <==> AllIn(Space, s)
    ensures r == [] || (!IsSpace(r[0]) && !IsSpace(r[|r| - 1]))
    ensures exists a :: 0 <= a <= |s| - |r| && s[a..a + |r|] == r
                        && AllIn(Space, s[..a]) && AllIn(Space, s[a + |r|..])
  {
    var a := RunEnd(s, 0, Space);
    var b := TrailEnd(s, a);
    RunIsAllIn(s, 0, a, Space);
    RunIsAllIn(s, b, |s|, Space);
    assert s[..a] == s[0..a] && s[b..] == s[b..|s|];
    s[a..b]
  }

  /** The end of `s` once its trailing whitespace, after position `a`, is dropped. */
  function TrailEnd(s: string, a: nat): (b: nat)
    requires a <= |s|
    ensures a <= b <= |s|
    ensures forall m :: b <= m < |s| ==> IsSpace(s[m])
    ensures b == a || !IsSpace(s[b - 1])
    decreases |s| - a
  {
    if a == |s| then a
    else if !IsSpace(s[|s| - 1]) then |s|
    else TrailEnd(s[..|s| - 1], a)
  }

  /** Digits with single underscores between them: the body Python's `int` accepts. */
  predicate UnderscoredDigits(t: string) {
    && |t| > 0
    && IsDigit(t[0]) && IsDigit(t[|t| - 1])
    && (forall m :: 0 <= m < |t| ==> IsDigit(t[m]) || t[m] == '_')
    && (forall m :: 0 <= m < |t| - 1 ==> !(t[m] == '_' && t[m + 1] == '_'))
  }

  /** CPython's default cap on the digits `int()` reads from text
      (`sys.int_info.default_max_str_digits`): a longer numeral raises `ValueError`. Leading
      zeros count; the sign and the underscores do not. */
  const MaxStrDigits := 4300

  /** The number of decimal digits in `t`. */
  function DigitCount(t: string): (n: nat)
    ensures n <= |t|
    decreases |t|
  {
    if t == [] then 0
    else DigitCount(t[..|t| - 1]) + (if IsDigit(t[|t| - 1]) then 1 else 0)
  }

  /** In a text made of digits only, every character counts. */
  lemma {:induction false} DigitCountOfDigits(s: string)
    requires forall m :: 0 <= m < |s| ==> IsDigit(s[m])
    ensures DigitCount(s) == |s|
    decreases |s|
  {
    if s != [] {
      DigitCountOfDigits(s[..|s| - 1]);
    }
  }

  function DigitValue(c: char): (v: nat)
    requires IsDigit(c)
  {
    (c as int) - ('0' as int)
  }

  /** The value of a decimal numeral, underscores skipped. */
  function NumeralValue(t: string): (v: nat)
    decreases |t|
  {
    if t == [] then 0
    else
      var last := t[|t| - 1];
      if IsDigit(last) then NumeralValue(t[..|t| - 1]) * 10 + DigitValue(last)
      else NumeralValue(t[..|t| - 1])
  }

  /** The part of `int(s)` that reads the stripped text: an optional sign, then digits that
      may be grouped by single underscores, at most `MaxStrDigits` of them. */
  function SignedNumeral(t: string): (r: Option<int>)
    ensures r.Some? ==> exists m :: 0 <= m < |t| && IsDigit(t[m])
  {
    if |t| > 0 && (t[0] == '+' || t[0] == '-') then
      if UnderscoredDigits(t[1..]) && DigitCount(t[1..]) <= MaxStrDigits then
        assert IsDigit(t[1..][0]);
        var v: int := NumeralValue(t[1..]);
        Some(if t[0] == '-' then -v else v)
      else None
    else if UnderscoredDigits(t) && DigitCount(t) <= MaxStrDigits then
      Some(NumeralValue(t))
    else None
  }

  /** Python's `int(s)` in base 10: surrounding whitespace, an optional sign, then digits that
      may be grouped by single underscores; `None` where Python raises `ValueError`. The
      padding is what `str.strip()` would remove, and it must hold only whitespace `int()`
      skips. */
  function PyInt(s: string): (r: Option<int>)
    ensures r.Some? ==> exists m :: 0 <= m < |s| && IsDigit(s[m])
  {
    var a := RunEnd(s, 0, Space);
    var b := TrailEnd(s, a);
    if !AllIn(IntSpace, s[..a]) || !AllIn(IntSpace, s[b..]) then None
    else
      var r := SignedNumeral(Strip(s));
      if r.Some? then
        DigitOfStrip(s);
        r
      else r
  }

  /** `int('\x1c5')` raises: U+001C is whitespace to `str.strip()` but not to `int()`. */
  lemma PyIntRefusesFileSeparator()
    ensures PyInt(['\U{1C}', '5']) == None
  {
    var s := ['\U{1C}', '5'];
    RunEndUnique(s, 0, 1, Space);
    assert !In(IntSpace, s[..1][0]);
  }

  /** `int()` rejects a run of digits longer than the digit limit. */
  lemma PyIntRefusesLongDigits(s: string)
    requires |s| > MaxStrDigits && forall m :: 0 <= m < |s| ==> IsDigit(s[m])
    ensures PyInt(s) == None
  {
    assert AllIn(NonSpace, s);
    PyIntOfWord(s);
    DigitCountOfDigits(s);
    assert IsDigit(s[0]);
  }

  /** Whitespace `int()` skips is whitespace. */
  lemma IntSpaceIsSpace(w: string)
    requires AllIn(IntSpace, w)
    ensures AllIn(Space, w)
  {
  }

  /** A digit of `Strip(s)` is a digit of `s`. */
  lemma DigitOfStrip(s: string)
    requires exists m :: 0 <= m < |Strip(s)| && IsDigit(Strip(s)[m])
    ensures exists n :: 0 <= n < |s| && IsDigit(s[n])
  {
    var t := Strip(s);
    var m :| 0 <= m < |t| && IsDigit(t[m]);
    var a := RunEnd(s, 0, Space);
    assert t == s[a..TrailEnd(s, a)];
    assert s[a + m] == t[m];
  }

  /** The decimal numeral of `n`, as `str(n)` writes it. */
  function DecimalString(n: nat): (r: string)
    ensures |r| > 0
    ensures forall m :: 0 <= m < |r| ==> IsDigit(r[m])
  {
    var d := ['0' + ((n % 10) as char)];
    if n < 10 then d else DecimalString(n / 10) + d
  }

  /** Reading back a written numeral gives the number: `int(str(n)) == n`, within the digit
      limit. */
  lemma PyIntDecimalString(n: nat)
    requires |DecimalString(n)| <= MaxStrDigits
    ensures PyInt(DecimalString(n)) == Some(n)
  {
    NumeralOfDecimalString(n);
    PyIntOfDigits(DecimalString(n));
  }

  /** A non-empty string of at most `MaxStrDigits` digits converts to the number it spells. */
  lemma PyIntOfDigits(s: string)
    requires 0 < |s| <= MaxStrDigits && forall m :: 0 <= m < |s| ==> IsDigit(s[m])
    ensures PyInt(s) == Some(NumeralValue(s))
  {
    assert AllIn(NonSpace, s);
    PyIntOfWord(s);
    assert UnderscoredDigits(s);
    DigitCountOfDigits(s);
    UnsignedNumeral(s);
  }

  lemma {:induction false} NumeralOfDecimalString(n: nat)
    ensures NumeralValue(DecimalString(n)) == n
  {
    var s := DecimalString(n);
    if n >= 10 {
      NumeralOfDecimalString(n / 10);
      assert s[..|s| - 1] == DecimalString(n / 10);
    }
  }

  /** A string with no whitespace at either end is its own strip. */
  lemma StripOfUntrimmed(s: string)
    requires |s| > 0 && !IsSpace(s[0]) && !IsSpace(s[|s| - 1])
    ensures Strip(s) == s
  {
    RunEndUnique(s, 0, 0, Space);
  }

  /** `TrailEnd` is determined by what it promises. */
  lemma {:induction false} TrailEndUnique(s: string, a: nat, b: nat)
    requires a <= b <= |s|
    requires forall m :: b <= m < |s| ==> IsSpace(s[m])
    requires b == a || !IsSpace(s[b - 1])
    ensures TrailEnd(s, a) == b
    decreases |s|
  {
    if a < |s| && IsSpace(s[|s| - 1]) {
      var t := s[..|s| - 1];
      forall m | b <= m < |t| ensures IsSpace(t[m]) {
        assert t[m] == s[m];
      }
      if b > a {
        assert t[b - 1] == s[b - 1];
      }
      TrailEndUnique(t, a, b);
    }
  }

  /** Stripping whitespace padding gives back the padded text. */
  lemma StripPadded(w1: string, u: string, w2: string)
    requires AllIn(Space, w1) && AllIn(Space, w2)
    requires |u| > 0 && !IsSpace(u[0]) && !IsSpace(u[|u| - 1])
    ensures Strip(w1 + u + w2) == u
  {
    PaddedBounds(w1, u, w2);
    var s := w1 + u + w2;
    assert s[|w1|..|w1| + |u|] == u;
  }

  /** In padded text, the leading whitespace run ends where the text starts, and the trailing
      one starts where it ends. */
  lemma PaddedBounds(w1: string, u: string, w2: string)
    requires AllIn(Space, w1) && AllIn(Space, w2)
    requires |u| > 0 && !IsSpace(u[0]) && !IsSpace(u[|u| - 1])
    ensures RunEnd(w1 + u + w2, 0, Space) == |w1|
    ensures TrailEnd(w1 + u + w2, |w1|) == |w1| + |u|
  {
    LeadingPad(w1 + u + w2, w1, u);
    TrailingPad(w1 + u + w2, w1, u, w2);
  }

  lemma LeadingPad(s: string, w1: string, u: string)
    requires AllIn(Space, w1) && |u| > 0 && !IsSpace(u[0])
    requires |w1| + |u| <= |s| && s[..|w1| + |u|] == w1 + u
    ensures RunEnd(s, 0, Space) == |w1|
  {
    forall m | 0 <= m < |w1| ensures In(Space, s[m]) {
      assert s[m] == (w1 + u)[m] == w1[m];
    }
    assert s[|w1|] == (w1 + u)[|w1|] == u[0];
    RunEndUnique(s, 0, |w1|, Space);
  }

  lemma TrailingPad(s: string, w1: string, u: string, w2: string)
    requires AllIn(Space, w2) && |u| > 0 && !IsSpace(u[|u| - 1])
    requires s == w1 + u + w2
    ensures TrailEnd(s, |w1|) == |w1| + |u|
  {
    var b := |w1| + |u|;
    forall m | b <= m < |s| ensures IsSpace(s[m]) {
      assert s[m] == w2[m - b];
    }
    assert s[b - 1] == u[|u| - 1];
    TrailEndUnique(s, |w1|, b);
  }

  /** A sign and an underscored numeral read as the numeral's value, negated after `-`. */
  lemma SignedNumeralOfParts(sign: string, t: string)
    requires sign == "" || sign == "+" || sign == "-"
    requires UnderscoredDigits(t) && DigitCount(t) <= MaxStrDigits
    ensures SignedNumeral(sign + t) == Some(if sign == "-" then -(NumeralValue(t) as int) else NumeralValue(t))
  {
    if sign == "" {
      assert sign + t == t;
      UnsignedNumeral(t);
    } else {
      assert sign == [sign[0]];
      SignedNumeralOfSign(sign[0], t);
    }
  }

  lemma UnsignedNumeral(t: string)
    requires UnderscoredDigits(t) && DigitCount(t) <= MaxStrDigits
    ensures SignedNumeral(t) == Some(NumeralValue(t))
  {
    assert IsDigit(t[0]);
  }

  lemma SignedNumeralOfSign(c: char, t: string)
    requires c == '+' || c == '-'
    requires UnderscoredDigits(t) && DigitCount(t) <= MaxStrDigits
    ensures SignedNumeral([c] + t) == Some(if c == '-' then -(NumeralValue(t) as int) else NumeralValue(t))
  {
    var u := [c] + t;
    assert u[0] == c && u[1..] == t;
  }

  /** What `int()` accepts, from the text's side: whitespace, an optional sign, digits grouped
      by single underscores, whitespace; the value is the numeral's, negated after `-`. */
  lemma PyIntOfParts(w1: string, sign: string, t: string, w2: string)
    requires AllIn(IntSpace, w1) && AllIn(IntSpace, w2)
    requires sign == "" || sign == "+" || sign == "-"
    requires UnderscoredDigits(t) && DigitCount(t) <= MaxStrDigits
    ensures PyInt(w1 + sign + t + w2) == Some(if sign == "-" then -(NumeralValue(t) as int) else NumeralValue(t))
  {
    var u := sign + t;
    assert w1 + sign + t + w2 == w1 + u + w2;
    assert u[|u| - 1] == t[|t| - 1];
    assert u[0] == (if sign == "" then t[0] else sign[0]);
    PyIntOfPadded(w1, u, w2);
    SignedNumeralOfParts(sign, t);
  }

  /** A sign and an underscored numeral, unpadded, read as the numeral's value. */
  lemma PyIntOfNumeral(sign: string, t: string)
    requires sign == "" || sign == "+" || sign == "-"
    requires UnderscoredDigits(t) && DigitCount(t) <= MaxStrDigits
    ensures PyInt(sign + t) == Some(if sign == "-" then -(NumeralValue(t) as int) else NumeralValue(t))
  {
    NumeralIsWord(sign, t);
    PyIntOfWord(sign + t);
    SignedNumeralOfParts(sign, t);
  }

  /** A sign and an underscored numeral contain no whitespace. */
  lemma NumeralIsWord(sign: string, t: string)
    requires sign == "" || sign == "+" || sign == "-"
    requires UnderscoredDigits(t)
    ensures |sign + t| > 0 && AllIn(NonSpace, sign + t)
  {
    var u := sign + t;
    forall m | 0 <= m < |u| ensures !IsSpace(u[m]) {
      if m < |sign| {
        assert u[m] == sign[m];
      } else {
        assert u[m] == t[m - |sign|];
      }
    }
  }

  /** Padding `int()` skips around a text without whitespace at its ends leaves that text to
      the numeral reader. */
  lemma PyIntOfPadded(w1: string, u: string, w2: string)
    requires AllIn(IntSpace, w1) && AllIn(IntSpace, w2)
    requires |u| > 0 && !IsSpace(u[0]) && !IsSpace(u[|u| - 1])
    ensures PyInt(w1 + u + w2) == SignedNumeral(u)
  {
    IntSpaceIsSpace(w1);
    IntSpaceIsSpace(w2);
    StripPadded(w1, u, w2);
    PaddedBounds(w1, u, w2);
    var s := w1 + u + w2;
    assert s[..|w1|] == w1 && s[|w1| + |u|..] == w2;
  }

  /** What `int()` accepts, from the result's side: every text it converts has that shape, and
      the value is the one `PyIntOfParts` gives. */
  lemma PyIntParts(s: string) returns (w1: string, sign: string, t: string, w2: string)
    requires PyInt(s).Some?
    ensures s == w1 + sign + t + w2
    ensures AllIn(IntSpace, w1) && AllIn(IntSpace, w2)
    ensures sign == "" || sign == "+" || sign == "-"
    ensures UnderscoredDigits(t) && DigitCount(t) <= MaxStrDigits
    ensures PyInt(s) == Some(if sign == "-" then -(NumeralValue(t) as int) else NumeralValue(t))
  {
    var u := Strip(s);
    w1, w2 := StripParts(s);
    sign, t := SignParts(u);
    SignedNumeralOfParts(sign, t);
    ConcatFour(w1, sign, t, w2);
  }

  /** The whitespace that `Strip` removes from either end. */
  lemma StripParts(s: string) returns (w1: string, w2: string)
    ensures s == w1 + Strip(s) + w2
    ensures AllIn(Space, w1) && AllIn(Space, w2)
    ensures w1 == s[..RunEnd(s, 0, Space)] && w2 == s[TrailEnd(s, RunEnd(s, 0, Space))..]
  {
    var a := RunEnd(s, 0, Space);
    var b := TrailEnd(s, a);
    assert Strip(s) == s[a..b];
    w1, w2 := s[..a], s[b..];
    RunIsAllIn(s, 0, a, Space);
    RunIsAllIn(s, b, |s|, Space);
    assert w1 == s[0..a] && w2 == s[b..|s|];
    SliceThree(s, a, b);
  }

  lemma ConcatFour(w1: string, sign: string, t: string, w2: string)
    ensures w1 + (sign + t) + w2 == w1 + sign + t + w2
  {
  }

  /** A text is its three consecutive slices. */
  lemma SliceThree(s: string, a: nat, b: nat)
    requires a <= b <= |s|
    ensures s == s[..a] + s[a..b] + s[b..]
  {
  }

  /** Where `SignedNumeral` accepts, its text is an optional sign and an underscored numeral. */
  lemma SignParts(u: string) returns (sign: string, t: string)
    requires SignedNumeral(u).Some?
    ensures u == sign + t
    ensures sign == "" || sign == "+" || sign == "-"
    ensures UnderscoredDigits(t) && DigitCount(t) <= MaxStrDigits
  {
    if u[0] == '+' || u[0] == '-' {
      sign, t := [u[0]], u[1..];
    } else {
      sign, t := "", u;
    }
  }

  /** Python's `str.split()` with no argument, from position `i`: the maximal runs of
      non-whitespace characters, in order. */
  function FieldsFrom(s: string, i: nat): (r: seq<string>)
    requires i <= |s|
    ensures forall k :: 0 <= k < |r| ==> |r[k]| > 0 && AllIn(NonSpace, r[k])
    decreases |s| - i
  {
    var a := RunEnd(s, i, Space);
    if a == |s| then []
    else
      var b := RunEnd(s, a, NonSpace);
      RunIsAllIn(s, a, b, NonSpace);
      [s[a..b]] + FieldsFrom(s, b)
  }

  function Fields(s: string): (r: seq<string>)
    ensures forall k :: 0 <= k < |r| ==> |r[k]| > 0 && AllIn(NonSpace, r[k])
  {
    FieldsFrom(s, 0)
  }

  /** `fs` are the maximal whitespace-free runs of `s` from position `i` on, in order:
      `fs[k]` is `s[starts[k]..ends[k]]`, whitespace (or an end of `s`) bounds it on both
      sides, the runs do not overlap, and every other character from `i` on is whitespace. */
  predicate MaximalRuns(s: string, i: nat, fs: seq<string>, starts: seq<nat>, ends: seq<nat>) {
    RunsAt(s, i, fs, starts, ends) && RunsOrdered(fs, starts, ends) && RunsCover(s, i, fs, starts, ends)
  }

  predicate RunsAt(s: string, i: nat, fs: seq<string>, starts: seq<nat>, ends: seq<nat>) {
    && |starts| == |fs| && |ends| == |fs|
    && (forall k :: 0 <= k < |fs| ==>
          && i <= starts[k] < ends[k] <= |s|
          && fs[k] == s[starts[k]..ends[k]]
          && (starts[k] == 0 || IsSpace(s[starts[k] - 1]))
          && (ends[k] == |s| || IsSpace(s[ends[k]])))
  }

  predicate RunsOrdered(fs: seq<string>, starts: seq<nat>, ends: seq<nat>)
    requires |starts| == |fs| && |ends| == |fs|
  {
    forall k :: 0 <= k < |fs| - 1 ==> ends[k] < starts[k + 1]
  }

  predicate RunsCover(s: string, i: nat, fs: seq<string>, starts: seq<nat>, ends: seq<nat>)
    requires |starts| == |fs| && |ends| == |fs|
  {
    forall m :: i <= m < |s| && !IsSpace(s[m]) ==>
      exists k :: 0 <= k < |fs| && starts[k] <= m < ends[k]
  }

  /** One more run in front of the runs found from `b`. */
  lemma RunsCons(s: string, i: nat, a: nat, b: nat, rest: seq<string>, st: seq<nat>, en: seq<nat>)
    requires i <= a < b <= |s|
    requires forall m :: i <= m < a ==> IsSpace(s[m])
    requires a == 0 || IsSpace(s[a - 1])
    requires forall m :: a <= m < b ==> !IsSpace(s[m])
    requires b == |s| || IsSpace(s[b])
    requires MaximalRuns(s, b, rest, st, en)
    ensures MaximalRuns(s, i, [s[a..b]] + rest, [a] + st, [b] + en)
  {
    RunsAtCons(s, i, a, b, rest, st, en);
    RunsOrderedCons(s[a..b], a, b, rest, st, en);
    RunsCoverCons(s, i, a, b, rest, st, en);
  }

  lemma RunsAtCons(s: string, i: nat, a: nat, b: nat, rest: seq<string>, st: seq<nat>, en: seq<nat>)
    requires i <= a < b <= |s|
    requires a == 0 || IsSpace(s[a - 1])
    requires b == |s| || IsSpace(s[b])
    requires RunsAt(s, b, rest, st, en)
    ensures RunsAt(s, i, [s[a..b]] + rest, [a] + st, [b] + en)
  {
    var fs, starts, ends := [s[a..b]] + rest, [a] + st, [b] + en;
    forall k | 0 < k < |fs|
      ensures fs[k] == rest[k - 1] && starts[k] == st[k - 1] && ends[k] == en[k - 1]
    {
    }
  }

  lemma RunsOrderedCons(f: string, a: nat, b: nat, rest: seq<string>, st: seq<nat>, en: seq<nat>)
    requires |st| == |rest| && |en| == |rest|
    requires forall k :: 0 <= k < |rest| ==> b <= st[k]
    requires |rest| > 0 ==> b < st[0]
    requires RunsOrdered(rest, st, en)
    ensures RunsOrdered([f] + rest, [a] + st, [b] + en)
  {
    var fs, starts, ends := [f] + rest, [a] + st, [b] + en;
    forall k | 0 < k < |fs| - 1 ensures ends[k] < starts[k + 1] {
      assert ends[k] == en[k - 1] && starts[k + 1] == st[k];
    }
  }

  lemma RunsCoverCons(s: string, i: nat, a: nat, b: nat, rest: seq<string>, st: seq<nat>, en: seq<nat>)
    requires i <= a < b <= |s|
    requires forall m :: i <= m < a ==> IsSpace(s[m])
    requires |st| == |rest| && |en| == |rest|
    requires RunsCover(s, b, rest, st, en)
    ensures RunsCover(s, i, [s[a..b]] + rest, [a] + st, [b] + en)
  {
    var fs, starts, ends := [s[a..b]] + rest, [a] + st, [b] + en;
    forall m | i <= m < |s| && !IsSpace(s[m])
      ensures exists k :: 0 <= k < |fs| && starts[k] <= m < ends[k]
    {
      if m < b {
        assert starts[0] <= m < ends[0];
      } else {
        var k :| 0 <= k < |rest| && st[k] <= m < en[k];
        assert starts[k + 1] <= m < ends[k + 1];
      }
    }
  }

  /** `FieldsFrom` returns the maximal runs, when `i` does not cut one. */
  lemma {:induction false} FieldsFromRuns(s: string, i: nat) returns (starts: seq<nat>, ends: seq<nat>)
    requires i <= |s|
    requires i == 0 || i == |s| || IsSpace(s[i])
    ensures MaximalRuns(s, i, FieldsFrom(s, i), starts, ends)
    decreases |s| - i
  {
    var a := RunEnd(s, i, Space);
    if a == |s| {
      starts, ends := [], [];
    } else {
      var b := RunEnd(s, a, NonSpace);
      var st, en := FieldsFromRuns(s, b);
      RunsCons(s, i, a, b, FieldsFrom(s, b), st, en);
      starts, ends := [a] + st, [b] + en;
    }
  }

  /** `str.split()` returns exactly the maximal whitespace-free runs of its text, in order,
      and drops only whitespace. */
  lemma FieldsAreRuns(s: string) returns (starts: seq<nat>, ends: seq<nat>)
    ensures MaximalRuns(s, 0, Fields(s), starts, ends)
  {
    starts, ends := FieldsFromRuns(s, 0);
  }

  /** One field of `str.split()`: whitespace up to `a`, then a whitespace-free run up to `b`
      that whitespace or the end closes. */
  lemma FieldStep(s: string, i: nat, a: nat, b: nat)
    requires i <= a < b <= |s|
    requires forall m :: i <= m < a ==> IsSpace(s[m])
    requires forall m :: a <= m < b ==> !IsSpace(s[m])
    requires b == |s| || IsSpace(s[b])
    ensures FieldsFrom(s, i) == [s[a..b]] + FieldsFrom(s, b)
  {
    RunEndUnique(s, i, a, Space);
    RunEndUnique(s, a, b, NonSpace);
  }

  /** Only whitespace left: no more fields. */
  lemma FieldsEnd(s: string, i: nat)
    requires i <= |s| && forall m :: i <= m < |s| ==> IsSpace(s[m])
    ensures FieldsFrom(s, i) == []
  {
    RunEndUnique(s, i, |s|, Space);
  }

  /** Two words with whitespace between them, and any whitespace around them, split into
      exactly those words. */
  lemma FieldsOfPadded(w1: string, x: string, w: string, y: string, w3: string)
    requires |x| > 0 && AllIn(NonSpace, x) && |y| > 0 && AllIn(NonSpace, y)
    requires AllIn(Space, w1) && |w| > 0 && AllIn(Space, w) && AllIn(Space, w3)
    ensures Fields(w1 + x + w + y + w3) == [x, y]
  {
    var s := w1 + x + w + y + w3;
    var p0 := |w1|;
    var p1 := p0 + |x|;
    var p2 := p1 + |w|;
    var p3 := p2 + |y|;
    forall m | 0 <= m < p0 ensures IsSpace(s[m]) {
      assert s[m] == w1[m];
    }
    forall m | p0 <= m < p1 ensures !IsSpace(s[m]) {
      assert s[m] == x[m - p0];
    }
    forall m | p1 <= m < p2 ensures IsSpace(s[m]) {
      assert s[m] == w[m - p1];
    }
    forall m | p2 <= m < p3 ensures !IsSpace(s[m]) {
      assert s[m] == y[m - p2];
    }
    forall m | p3 <= m < |s| ensures IsSpace(s[m]) {
      assert s[m] == w3[m - p3];
    }
    TwoFieldsAt(s, p0, p1, p2, p3);
    assert s[p0..p1] == x && s[p2..p3] == y;
  }

  /** Text that is whitespace, a word, whitespace, a word and whitespace, given by the
      positions where each part ends, splits into the two words. */
  lemma TwoFieldsAt(s: string, p0: nat, p1: nat, p2: nat, p3: nat)
    requires p0 < p1 < p2 < p3 <= |s|
    requires forall m :: 0 <= m < p0 ==> IsSpace(s[m])
    requires forall m :: p0 <= m < p1 ==> !IsSpace(s[m])
    requires forall m :: p1 <= m < p2 ==> IsSpace(s[m])
    requires forall m :: p2 <= m < p3 ==> !IsSpace(s[m])
    requires forall m :: p3 <= m < |s| ==> IsSpace(s[m])
    ensures Fields(s) == [s[p0..p1], s[p2..p3]]
  {
    FieldStep(s, 0, p0, p1);
    FieldStep(s, p1, p2, p3);
    FieldsEnd(s, p3);
  }

  /** Conversely, text that splits into two fields is whitespace, the first field, some
      whitespace, the second field and whitespace. */
  lemma TwoFieldsShape(s: string) returns (w1: string, w: string, w3: string)
    requires |Fields(s)| == 2
    ensures s == w1 + Fields(s)[0] + w + Fields(s)[1] + w3
    ensures AllIn(Space, w1) && |w| > 0 && AllIn(Space, w) && AllIn(Space, w3)
  {
    var fs := Fields(s);
    var starts, ends := FieldsAreRuns(s);
    TwoFieldGaps(s, fs, starts, ends);
    w1, w, w3 := s[..starts[0]], s[ends[0]..starts[1]], s[ends[1]..];
    assert fs[0] == s[starts[0]..ends[0]] && fs[1] == s[starts[1]..ends[1]];
    SliceFive(s, starts[0], ends[0], starts[1], ends[1]);
  }

  /** Around and between two maximal runs there is only whitespace. */
  lemma TwoFieldGaps(s: string, fs: seq<string>, starts: seq<nat>, ends: seq<nat>)
    requires |fs| == 2 && MaximalRuns(s, 0, fs, starts, ends)
    ensures starts[0] < ends[0] < starts[1] < ends[1] <= |s|
    ensures AllIn(Space, s[..starts[0]]) && AllIn(Space, s[ends[0]..starts[1]])
    ensures AllIn(Space, s[ends[1]..])
  {
    GapIsSpace(s, fs, starts, ends, 0, starts[0]);
    GapIsSpace(s, fs, starts, ends, ends[0], starts[1]);
    GapIsSpace(s, fs, starts, ends, ends[1], |s|);
    assert s[..starts[0]] == s[0..starts[0]] && s[ends[1]..] == s[ends[1]..|s|];
  }

  /** Between two fields, and before the first and after the last, there is only whitespace. */
  lemma GapIsSpace(s: string, fs: seq<string>, starts: seq<nat>, ends: seq<nat>, lo: nat, hi: nat)
    requires MaximalRuns(s, 0, fs, starts, ends) && lo <= hi <= |s|
    requires forall k :: 0 <= k < |fs| ==> ends[k] <= lo || hi <= starts[k]
    ensures AllIn(Space, s[lo..hi])
  {
    assert forall m :: lo <= m < hi ==> IsSpace(s[m]);
    RunIsAllIn(s, lo, hi, Space);
  }

  /** A text is its five consecutive slices. */
  lemma SliceFive(s: string, a: nat, b: nat, c: nat, d: nat)
    requires a <= b <= c <= d <= |s|
    ensures s == s[..a] + s[a..b] + s[b..c] + s[c..d] + s[d..]
  {
  }

  /** A whitespace-free text that `int()` accepts is a sign and an underscored numeral, with no
      padding. */
  lemma WordPyInt(x: string) returns (sign: string, t: string)
    requires AllIn(NonSpace, x) && PyInt(x).Some?
    ensures x == sign + t
    ensures sign == "" || sign == "+" || sign == "-"
    ensures UnderscoredDigits(t) && DigitCount(t) <= MaxStrDigits
    ensures PyInt(x) == Some(if sign == "-" then -(NumeralValue(t) as int) else NumeralValue(t))
  {
    PyIntOfWord(x);
    sign, t := SignParts(x);
    SignedNumeralOfParts(sign, t);
  }

  /** `int()` reads a non-empty whitespace-free text as it stands. */
  lemma PyIntOfWord(x: string)
    requires |x| > 0 && AllIn(NonSpace, x)
    ensures PyInt(x) == SignedNumeral(x)
  {
    assert In(NonSpace, x[0]) && In(NonSpace, x[|x| - 1]);
    RunEndUnique(x, 0, 0, Space);
    TrailEndUnique(x, 0, |x|);
    assert x[..0] == [] && x[|x|..] == [] && x[0..|x|] == x;
  }

  /** Two words with whitespace between them split into exactly those words. */
  lemma FieldsOfTwo(x: string, w: string, y: string)
    requires |x| > 0 && AllIn(NonSpace, x) && |y| > 0 && AllIn(NonSpace, y)
    requires |w| > 0 && AllIn(Space, w)
    ensures Fields(x + w + y) == [x, y]
  {
    var s := x + w + y;
    var i, j := |x|, |x| + |w|;
    assert s[..i] == x && s[i..j] == w && s[j..] == y && s[j..|s|] == y && s[0..i] == x;
    assert s[i] == w[0] && s[j] == y[0];
    RunEndUnique(s, 0, 0, Space);
    AllInIsRun(s, 0, i, NonSpace);
    RunEndUnique(s, 0, i, NonSpace);
    AllInIsRun(s, i, j, Space);
    RunEndUnique(s, i, j, Space);
    AllInIsRun(s, j, |s|, NonSpace);
    RunEndUnique(s, j, |s|, NonSpace);
    RunEndUnique(s, |s|, |s|, Space);
    assert FieldsFrom(s, |s|) == [];
    assert FieldsFrom(s, i) == [y] + FieldsFrom(s, |s|);
  }
}
