/** `extract_engagement_metrics`: the four counters of a post, read from the numbers that
    `re.findall(r'\n(\d+(?:,\d+)?)\s*$', block)` captures. Without MULTILINE, `$` only matches
    at the end of the block (or before a final line break, which `\s*` has already consumed),
    so a match always runs to the end, the scan stops there, and at most one number is ever
    captured: the metrics are never filled in. */
module Engagement {
  import opened Text

  /** The tuple `(retweets, quotes, replies, likes)`. */
  datatype Metrics = Metrics(retweets: Option<int>, quotes: Option<int>, replies: Option<int>,
                             likes: Option<int>)

  const NoMetrics := Metrics(None, None, None, None)

  /** Either all four counters are present or none is. */
  predicate AllOrNone(m: Metrics) {
    && m.retweets.Some? == m.quotes.Some?
    && m.quotes.Some? == m.replies.Some?
    && m.replies.Some? == m.likes.Some?
  }

  /** `\d+(?:,\d+)?`: digits, optionally a comma and more digits. */
  predicate IsGroupedNumber(x: string) {
    var d := RunEnd(x, 0, Digit);
    d > 0 && (d == |x| || (x[d] == ',' && d + 1 < |x| && AllIn(Digit, x[d + 1..])))
  }

  /** The pattern tried at `i`: the captured number and the end of the match. The optional
      `,\d+` is tried first; when the rest fails after it, every way back fails too, since a
      comma or a digit can neither start `\s*` nor stand at `$`. */
  function NumberAt(s: string, i: nat): (r: Option<(string, nat)>)
    ensures r.Some? ==> r.value.1 == |s| && i < |s|
  {
    if !StartsAt(s, i, "\n") then None
    else
      var d := RunEnd(s, i + 1, Digit);
      if d == i + 1 then None
      else
        var g := if StartsAt(s, d, ",") && RunEnd(s, d + 1, Digit) > d + 1 then RunEnd(s, d + 1, Digit)
                 else d;
        if RunEnd(s, g, Space) == |s| then Some((s[i + 1..g], |s|)) else None
  }

  /** A match is a line break, a grouped number, and nothing but whitespace up to the end. */
  lemma NumberAtSound(s: string, i: nat)
    requires NumberAt(s, i).Some?
    ensures var x := NumberAt(s, i).value.0;
      && s[i] == '\n' && IsGroupedNumber(x) && StartsAt(s, i + 1, x)
      && AllIn(Space, s[i + 1 + |x|..])
  {
    StartsAtHead(s, i, "\n");
    var d := RunEnd(s, i + 1, Digit);
    var x := NumberAt(s, i).value.0;
    var g := i + 1 + |x|;
    assert x == s[i + 1..g];
    RunIsAllIn(s, g, |s|, Space);
    assert s[g..] == s[g..|s|];
    GroupedSlice(s, i + 1, d, g);
  }

  /** Conversely, a line break followed by a grouped number and nothing but whitespace up to
      the end is a match, and the number is what it captures. */
  lemma NumberAtComplete(s: string, i: nat, x: string)
    requires i < |s| && s[i] == '\n' && IsGroupedNumber(x) && StartsAt(s, i + 1, x)
    requires AllIn(Space, s[i + 1 + |x|..])
    ensures NumberAt(s, i) == Some((x, |s|))
  {
    var e := i + 1 + |x|;
    assert StartsAt(s, i, "\n") by { assert s[i..i + 1] == [s[i]]; }
    AllInIsRun(s, e, |s|, Space) by { assert s[e..] == s[e..|s|]; }
    RunEndUnique(s, e, |s|, Space);
    if RunEnd(x, 0, Digit) == |x| {
      PlainNumberAt(s, i, x);
    } else {
      CommaNumberAt(s, i, x);
    }
    assert s[i + 1..e] == x;
  }

  /** The digit run of a number without a comma ends where the number does, and no comma
      follows it. */
  lemma PlainNumberAt(s: string, i: nat, x: string)
    requires i + 1 + |x| <= |s| && StartsAt(s, i + 1, x) && RunEnd(x, 0, Digit) == |x|
    requires forall m :: i + 1 + |x| <= m < |s| ==> IsSpace(s[m])
    ensures RunEnd(s, i + 1, Digit) == i + 1 + |x|
    ensures !StartsAt(s, i + 1 + |x|, ",")
  {
    ShiftedRun(s, i + 1, x, 0, Digit);
    StartsAtHead(s, i + 1 + |x|, ",");
  }

  /** The digit run of a number with a comma stops at the comma, and the digits after it run
      to the number's end. */
  lemma CommaNumberAt(s: string, i: nat, x: string)
    requires StartsAt(s, i + 1, x) && IsGroupedNumber(x) && RunEnd(x, 0, Digit) < |x|
    requires i + 1 + |x| == |s| || IsSpace(s[i + 1 + |x|])
    ensures var d := RunEnd(s, i + 1, Digit);
      && d == i + 1 + RunEnd(x, 0, Digit) && StartsAt(s, d, ",")
      && RunEnd(s, d + 1, Digit) == i + 1 + |x| > d + 1
  {
    var dx := RunEnd(x, 0, Digit);
    ShiftedRun(s, i + 1, x, 0, Digit);
    CommaInText(s, i + 1, x, dx);
    DigitsAfterComma(x, dx);
    ShiftedRun(s, i + 1, x, dx + 1, Digit);
  }

  /** The comma of a number found at `a` stands in the text. */
  lemma CommaInText(s: string, a: nat, x: string, dx: nat)
    requires StartsAt(s, a, x) && dx < |x| && x[dx] == ','
    ensures StartsAt(s, a + dx, ",")
  {
    SliceAt(s, a, x, dx);
    assert s[a + dx..a + dx + 1] == [s[a + dx]];
  }

  /** After the comma of a grouped number, its digits run to its end. */
  lemma DigitsAfterComma(x: string, dx: nat)
    requires dx + 1 < |x| && AllIn(Digit, x[dx + 1..])
    ensures RunEnd(x, dx + 1, Digit) == |x|
  {
    AllInIsRun(x, dx + 1, |x|, Digit) by { assert x[dx + 1..] == x[dx + 1..|x|]; }
    RunEndUnique(x, dx + 1, |x|, Digit);
  }

  /** A character of a literal found at `a`, read in the text. */
  lemma SliceAt(s: string, a: nat, x: string, m: nat)
    requires StartsAt(s, a, x) && m < |x|
    ensures s[a + m] == x[m]
  {
    assert s[a..a + |x|][m] == s[a + m];
  }

  /** A run inside a literal found at `a` is the same run in the text, unless it reaches the
      literal's end and the text goes on with the class. */
  lemma ShiftedRun(s: string, a: nat, x: string, b: nat, k: CharClass)
    requires StartsAt(s, a, x) && b <= |x|
    requires RunEnd(x, b, k) < |x| || a + |x| == |s| || !In(k, s[a + |x|])
    ensures RunEnd(s, a + b, k) == a + RunEnd(x, b, k)
  {
    var j := RunEnd(x, b, k);
    forall m | a + b <= m < a + j ensures In(k, s[m]) {
      SliceAt(s, a, x, m - a);
    }
    if j < |x| {
      SliceAt(s, a, x, j);
    }
    RunEndUnique(s, a + b, a + j, k);
  }

  /** Digits up to `d`, then optionally a comma and more digits up to `g`, form a grouped
      number. */
  lemma GroupedSlice(s: string, a: nat, d: nat, g: nat)
    requires a < d <= g <= |s| && d == RunEnd(s, a, Digit)
    requires g == d || (s[d] == ',' && d + 1 < g && g == RunEnd(s, d + 1, Digit))
    ensures IsGroupedNumber(s[a..g])
  {
    var x := s[a..g];
    var k := d - a;
    assert forall m :: 0 <= m < k ==> x[m] == s[a + m];
    assert k < |x| ==> x[k] == s[d];
    RunEndUnique(x, 0, k, Digit);
    if g != d {
      RunIsAllIn(s, d + 1, g, Digit);
      assert x[k + 1..] == s[d + 1..g];
    }
  }

  /** `re.findall` from `i`: matches are collected left to right, the scan resuming where each
      one ends. At the end of the text nothing matches, since the pattern needs a line break. */
  function FindNumbersFrom(s: string, i: nat): (r: seq<string>)
    requires i <= |s|
    ensures forall k :: 0 <= k < |r| ==> IsGroupedNumber(r[k])
    ensures |r| > 0 <==> exists j :: i <= j < |s| && NumberAt(s, j).Some?
    decreases |s| - i
  {
    if i == |s| then []
    else
      match NumberAt(s, i)
      case Some((x, e)) =>
        NumberAtSound(s, i);
        [x] + FindNumbersFrom(s, e)
      case None => FindNumbersFrom(s, i + 1)
  }

  /** The anchored pattern captures at most one number, however many lines end the text. */
  lemma {:induction false} AtMostOneNumber(s: string, i: nat)
    requires i <= |s|
    ensures |FindNumbersFrom(s, i)| <= 1
    decreases |s| - i
  {
    if i < |s| && NumberAt(s, i).None? {
      AtMostOneNumber(s, i + 1);
    }
  }

  /** `str.replace(',', '')`. */
  function RemoveCommas(x: string): (r: string)
    ensures |r| <= |x|
    ensures forall k :: 0 <= k < |r| ==> r[k] != ','
  {
    if x == [] then []
    else (if x[0] == ',' then [] else [x[0]]) + RemoveCommas(x[1..])
  }

  /** `r` is `x` with some characters left out: `r[k]` is `x[idx[k]]`, the positions
      `idx` increase, and every character of `x` that is not a comma is among them. */
  predicate KeepsNonCommas(x: string, r: string, idx: seq<nat>) {
    && |idx| == |r|
    && (forall k :: 0 <= k < |idx| ==> idx[k] < |x| && r[k] == x[idx[k]])
    && (forall k :: 0 <= k < |idx| - 1 ==> idx[k] < idx[k + 1])
    && (forall m :: 0 <= m < |x| && x[m] != ',' ==> m in idx)
  }

  function Shifted(idx: seq<nat>): (r: seq<nat>)
    ensures |r| == |idx| && forall k :: 0 <= k < |idx| ==> r[k] == idx[k] + 1
  {
    seq(|idx|, k requires 0 <= k < |idx| => idx[k] + 1)
  }

  /** `str.replace(',', '')` keeps every character but the commas, in their order. */
  lemma {:induction false} RemoveCommasKeeps(x: string) returns (idx: seq<nat>)
    ensures KeepsNonCommas(x, RemoveCommas(x), idx)
    decreases |x|
  {
    if x == [] {
      idx := [];
    } else {
      var rest := RemoveCommasKeeps(x[1..]);
      idx := if x[0] == ',' then Shifted(rest) else [0] + Shifted(rest);
      KeepsStep(x, RemoveCommas(x[1..]), rest);
    }
  }

  lemma KeepsStep(x: string, r: string, rest: seq<nat>)
    requires |x| > 0 && KeepsNonCommas(x[1..], r, rest)
    ensures KeepsNonCommas(x, (if x[0] == ',' then [] else [x[0]]) + r,
                           if x[0] == ',' then Shifted(rest) else [0] + Shifted(rest))
  {
    var sh := Shifted(rest);
    ShiftedKeeps(x, r, rest);
    if x[0] == ',' {
      assert [] + r == r;
    } else {
      KeepsCons(x, r, sh);
    }
  }

  /** Positions in `x[1..]` shifted by one are positions in `x`. */
  lemma ShiftedKeeps(x: string, r: string, rest: seq<nat>)
    requires |x| > 0 && KeepsNonCommas(x[1..], r, rest)
    ensures |Shifted(rest)| == |r|
    ensures forall k :: 0 <= k < |r| ==> Shifted(rest)[k] < |x| && r[k] == x[Shifted(rest)[k]]
    ensures forall k :: 0 <= k < |r| - 1 ==> Shifted(rest)[k] < Shifted(rest)[k + 1]
    ensures forall k :: 0 <= k < |r| ==> 0 < Shifted(rest)[k]
    ensures forall m :: 1 <= m < |x| && x[m] != ',' ==> m in Shifted(rest)
  {
    var sh := Shifted(rest);
    forall m | 1 <= m < |x| && x[m] != ',' ensures m in sh {
      assert x[1..][m - 1] == x[m];
      var k :| 0 <= k < |rest| && rest[k] == m - 1;
      assert sh[k] == m;
    }
    forall k | 0 <= k < |rest| ensures sh[k] < |x| && r[k] == x[sh[k]] {
      assert x[1..][rest[k]] == x[rest[k] + 1];
    }
  }

  lemma KeepsCons(x: string, r: string, sh: seq<nat>)
    requires |x| > 0 && x[0] != ',' && |sh| == |r|
    requires forall k :: 0 <= k < |r| ==> sh[k] < |x| && r[k] == x[sh[k]]
    requires forall k :: 0 <= k < |r| - 1 ==> sh[k] < sh[k + 1]
    requires forall k :: 0 <= k < |r| ==> 0 < sh[k]
    requires forall m :: 1 <= m < |x| && x[m] != ',' ==> m in sh
    ensures KeepsNonCommas(x, [x[0]] + r, [0] + sh)
  {
    var idx, r' := [0] + sh, [x[0]] + r;
    forall k | 0 < k < |idx| ensures idx[k] == sh[k - 1] && r'[k] == r[k - 1] {
    }
  }

  /** Text without a comma is left as it is. */
  lemma {:induction false} RemoveCommasOfDigits(x: string)
    requires AllIn(Digit, x)
    ensures RemoveCommas(x) == x
    decreases |x|
  {
    if x != [] {
      assert IsDigit(x[0]);
      assert AllIn(Digit, x[1..]) by {
        forall m | 0 <= m < |x| - 1 ensures IsDigit(x[1..][m]) {
          assert x[1..][m] == x[m + 1];
        }
      }
      RemoveCommasOfDigits(x[1..]);
    }
  }

  lemma RemoveCommasAppend(x: string, y: string)
    ensures RemoveCommas(x + y) == RemoveCommas(x) + RemoveCommas(y)
    decreases |x|
  {
    if x == [] {
      assert x + y == y;
    } else {
      assert (x + y)[0] == x[0] && (x + y)[1..] == x[1..] + y;
      RemoveCommasAppend(x[1..], y);
    }
  }

  /** Dropping the comma between two runs of digits joins them. */
  lemma RemoveCommaBetween(u: string, v: string)
    requires AllIn(Digit, u) && AllIn(Digit, v)
    ensures RemoveCommas(u + [','] + v) == u + v
  {
    RemoveCommasAppend(u + [','], v);
    RemoveCommasAppend(u, [',']);
    RemoveCommasOfDigits(u);
    RemoveCommasOfDigits(v);
    assert RemoveCommas([',']) == [];
  }

  lemma DigitsJoin(u: string, v: string)
    requires AllIn(Digit, u) && AllIn(Digit, v)
    ensures AllIn(Digit, u + v)
  {
    var y := u + v;
    forall m | 0 <= m < |y| ensures IsDigit(y[m]) {
      if m < |u| {
        assert y[m] == u[m];
      } else {
        assert y[m] == v[m - |u|];
      }
    }
  }

  /** A grouped number with its comma dropped is a non-empty run of digits. */
  lemma DigitsOfGroupedNumber(x: string)
    requires IsGroupedNumber(x)
    ensures |RemoveCommas(x)| > 0 && AllIn(Digit, RemoveCommas(x))
  {
    var d := RunEnd(x, 0, Digit);
    RunIsAllIn(x, 0, d, Digit);
    assert x[..d] == x[0..d];
    if d == |x| {
      assert x == x[..d];
      RemoveCommasOfDigits(x);
    } else {
      var u, v := x[..d], x[d + 1..];
      assert x == u + [','] + v;
      RemoveCommaBetween(u, v);
      DigitsJoin(u, v);
    }
  }

  /** A captured number within the digit limit always converts: its digits with the comma
      dropped are a numeral, so the `ValueError` handler is not reached for it. */
  lemma GroupedNumberConverts(x: string)
    requires IsGroupedNumber(x) && |RemoveCommas(x)| <= MaxStrDigits
    ensures PyInt(RemoveCommas(x)).Some?
  {
    DigitsOfGroupedNumber(x);
    PyIntOfDigits(RemoveCommas(x));
  }

  /** A captured number past the digit limit does not convert: that is the one way to reach
      the `ValueError` handler. */
  lemma GroupedNumberTooLong(x: string)
    requires IsGroupedNumber(x) && |RemoveCommas(x)| > MaxStrDigits
    ensures PyInt(RemoveCommas(x)) == None
  {
    DigitsOfGroupedNumber(x);
    var y := RemoveCommas(x);
    assert forall m :: 0 <= m < |y| ==> IsDigit(y[m]) by {
      forall m | 0 <= m < |y| ensures IsDigit(y[m]) {
        assert In(Digit, y[m]);
      }
    }
    PyIntRefusesLongDigits(y);
  }

  /** With four numbers or more, the last four fill retweets, quotes, replies and
      likes in that order, commas removed; any failed conversion, or fewer numbers, gives four
      `None`s. */
  function MetricsFromNumbers(numbers: seq<string>): (m: Metrics)
    ensures AllOrNone(m)
    ensures |numbers| < 4 ==> m == NoMetrics
    ensures m.likes.Some? ==> var n := |numbers|;
      && n >= 4
      && m.retweets == PyInt(RemoveCommas(numbers[n - 4]))
      && m.quotes == PyInt(RemoveCommas(numbers[n - 3]))
      && m.replies == PyInt(RemoveCommas(numbers[n - 2]))
      && m.likes == PyInt(RemoveCommas(numbers[n - 1]))
  {
    var n := |numbers|;
    if n < 4 then NoMetrics
    else
      var retweets := PyInt(RemoveCommas(numbers[n - 4]));
      var quotes := PyInt(RemoveCommas(numbers[n - 3]));
      var replies := PyInt(RemoveCommas(numbers[n - 2]));
      var likes := PyInt(RemoveCommas(numbers[n - 1]));
      if retweets.Some? && quotes.Some? && replies.Some? && likes.Some? then
        Metrics(retweets, quotes, replies, likes)
      else NoMetrics
  }

  /** Four captured numbers at the end of the list are never dropped: the metrics are present. */
  lemma MetricsPresent(numbers: seq<string>)
    requires |numbers| >= 4
    requires forall k :: |numbers| - 4 <= k < |numbers| ==>
      IsGroupedNumber(numbers[k]) && |RemoveCommas(numbers[k])| <= MaxStrDigits
    ensures MetricsFromNumbers(numbers).likes.Some?
  {
    forall k | |numbers| - 4 <= k < |numbers| ensures PyInt(RemoveCommas(numbers[k])).Some? {
      GroupedNumberConverts(numbers[k]);
    }
    MetricsOfConverted(numbers);
  }

  lemma MetricsOfConverted(numbers: seq<string>)
    requires |numbers| >= 4
    requires forall k :: |numbers| - 4 <= k < |numbers| ==> PyInt(RemoveCommas(numbers[k])).Some?
    ensures MetricsFromNumbers(numbers).likes.Some?
  {
    var n := |numbers|;
    assert PyInt(RemoveCommas(numbers[n - 4])).Some?;
    assert PyInt(RemoveCommas(numbers[n - 3])).Some?;
    assert PyInt(RemoveCommas(numbers[n - 2])).Some?;
    assert PyInt(RemoveCommas(numbers[n - 1])).Some?;
  }

  /** `extract_engagement_metrics(block)`. */
  function ExtractEngagementMetrics(block: string): (m: Metrics)
    ensures AllOrNone(m)
  {
    MetricsFromNumbers(FindNumbersFrom(block, 0))
  }

  /** As written, the extraction never finds metrics: every block gives four `None`s. */
  lemma MetricsAlwaysNone(block: string)
    ensures ExtractEngagementMetrics(block) == NoMetrics
  {
    AtMostOneNumber(block, 0);
  }
}
