/** `clean_tweet_text`: nine substitutions applied one after the other to a post's block. */
module Cleaning {
  import opened Text
  import opened Patterns

  /** The patterns the cleaning substitutes. */
  datatype Pattern =
    | ImageLink                      // `\[!\[\]\([^)]+\)\]\([^)]+\)`
    | TitledLink(link: LinkPattern)  // the three titled-link patterns
    | StatusLink                     // `\[\]\(https://nitter\.net/[^)]+\)`
    | NumberLines(extra: nat)        // `\n\d+(?:\n\d+){extra}\s*$`
    | Newlines                       // `\n+`

  /** Where a match of `pat` that starts at `i` ends, if one does. */
  function MatchAt(pat: Pattern, s: string, i: nat): (r: Option<nat>)
    requires i <= |s|
    ensures r.Some? ==> i < r.value <= |s|
  {
    match pat
    case ImageLink => ImageLinkAt(s, i)
    case TitledLink(link) => LinkAt(s, i, link)
    case StatusLink => StatusLinkAt(s, i)
    case NumberLines(extra) => if NumberLinesAt(s, i, extra + 1) then Some(|s|) else None
    case Newlines => if StartsAt(s, i, "\n") then Some(RunEnd(s, i, Only('\n'))) else None
  }

  /** Where the match of `pat` starting at each position of `s` ends, for every position up to
      and including the end of `s`. */
  function MatchTable(pat: Pattern, s: string): (ms: seq<Option<nat>>)
    ensures IsMatchTable(ms, s)
    ensures forall i :: 0 <= i <= |s| ==> ms[i] == MatchAt(pat, s, i)
  {
    seq(|s| + 1, i requires 0 <= i <= |s| => MatchAt(pat, s, i))
  }

  /** A table of match ends for `s`: every match ends after it starts and within `s`. */
  predicate IsMatchTable(ms: seq<Option<nat>>, s: string) {
    |ms| == |s| + 1 && forall i :: 0 <= i <= |s| && ms[i].Some? ==> i < ms[i].value <= |s|
  }

  /** `re.sub` from position `i` on, given the table of match ends: every match, scanned left to
      right and never overlapping, is replaced by `repl`; the scan resumes where the match
      ended, and moves one character on where none starts. */
  function SubFrom(ms: seq<Option<nat>>, repl: string, s: string, i: nat): (r: string)
    requires IsMatchTable(ms, s) && i <= |s|
    decreases |s| - i
  {
    if i == |s| then []
    else
      match ms[i]
      case Some(e) => repl + SubFrom(ms, repl, s, e)
      case None => [s[i]] + SubFrom(ms, repl, s, i + 1)
  }

  /** `re.sub(pat, repl, s)`. Where the pattern matches nowhere, the text comes back as it
      was. */
  function Sub(pat: Pattern, repl: string, s: string): (r: string)
    ensures (forall j :: 0 <= j < |s| ==> MatchAt(pat, s, j).None?) ==> r == s
  {
    var ms := MatchTable(pat, s);
    SubFromNoMatch(ms, repl, s, 0);
    assert s[0..] == s;
    SubFrom(ms, repl, s, 0)
  }

  predicate NoMatchFrom(ms: seq<Option<nat>>, s: string, i: nat)
    requires IsMatchTable(ms, s) && i <= |s|
  {
    forall j :: i <= j < |s| ==> ms[j].None?
  }

  /** With no match from `i` on, the rest of the text is copied. */
  lemma {:induction false} SubFromNoMatch(ms: seq<Option<nat>>, repl: string, s: string, i: nat)
    requires IsMatchTable(ms, s) && i <= |s|
    ensures NoMatchFrom(ms, s, i) ==> SubFrom(ms, repl, s, i) == s[i..]
    decreases |s| - i
  {
    if i < |s| && NoMatchFrom(ms, s, i) {
      SubFromNoMatch(ms, repl, s, i + 1);
      assert s[i..] == [s[i]] + s[i + 1..];
    }
  }

  // ---------------------------------------------------------------------------------------
  // Deleting matches

  /** Deleting matches never lengthens the text, shortens it as soon as one match exists, and
      otherwise leaves it as it is. */
  lemma {:induction false} DeleteFromLength(ms: seq<Option<nat>>, s: string, i: nat)
    requires IsMatchTable(ms, s) && i <= |s|
    ensures |SubFrom(ms, [], s, i)| <= |s| - i
    ensures !NoMatchFrom(ms, s, i) ==> |SubFrom(ms, [], s, i)| < |s| - i
    ensures NoMatchFrom(ms, s, i) ==> SubFrom(ms, [], s, i) == s[i..]
    decreases |s| - i
  {
    if i < |s| {
      match ms[i]
      case Some(e) =>
        DeleteFromLength(ms, s, e);
      case None =>
        DeleteFromLength(ms, s, i + 1);
        assert !NoMatchFrom(ms, s, i) ==> !NoMatchFrom(ms, s, i + 1);
        assert s[i..] == [s[i]] + s[i + 1..];
    }
  }

  /** A deleting substitution leaves the text as it was exactly when the pattern occurs nowhere
      in it. */
  lemma DeleteUnchanged(pat: Pattern, s: string)
    ensures Sub(pat, [], s) == s <==> forall j :: 0 <= j < |s| ==> MatchAt(pat, s, j).None?
  {
    var ms := MatchTable(pat, s);
    DeleteFromLength(ms, s, 0);
    assert NoMatchFrom(ms, s, 0) <==> forall j :: 0 <= j < |s| ==> MatchAt(pat, s, j).None?;
  }

  /** `ps` and `es` are the starts and ends of the matches `re.sub` takes from `i` on, given
      the table `ms` of match ends: each starts at the first position, at or after where the
      previous one ended, where a match starts, and ends where that match ends; after the last
      one no match starts. */
  ghost predicate LeftmostMatches(ms: seq<Option<nat>>, s: string, i: nat, ps: seq<nat>, es: seq<nat>)
    requires IsMatchTable(ms, s) && i <= |s|
    decreases |ps|
  {
    && |ps| == |es|
    && if ps == [] then NoMatchFrom(ms, s, i)
       else
         && i <= ps[0] < |s| && ms[ps[0]] == Some(es[0])
         && (forall q :: i <= q < ps[0] ==> ms[q].None?)
         && LeftmostMatches(ms, s, es[0], ps[1..], es[1..])
  }

  /** The text between the matches: from `i` to the first start, from each end to the next
      start, and from the last end to the end of the text. */
  ghost function Gaps(ms: seq<Option<nat>>, s: string, i: nat, ps: seq<nat>, es: seq<nat>): (r: string)
    requires IsMatchTable(ms, s) && i <= |s| && LeftmostMatches(ms, s, i, ps, es)
    ensures |r| + |ps| <= |s| - i
    decreases |ps|
  {
    if ps == [] then s[i..]
    else s[i..ps[0]] + Gaps(ms, s, es[0], ps[1..], es[1..])
  }

  /** A deleting `re.sub` keeps exactly the text between the matches it takes, scanning left
      to right without overlap: `ps` are the positions where those matches start and `es`
      where they end. */
  lemma DeleteIsGaps(pat: Pattern, s: string) returns (ps: seq<nat>, es: seq<nat>)
    ensures LeftmostMatches(MatchTable(pat, s), s, 0, ps, es)
    ensures Sub(pat, [], s) == Gaps(MatchTable(pat, s), s, 0, ps, es)
  {
    ps, es := DeleteFromGaps(MatchTable(pat, s), s, 0);
  }

  lemma {:induction false} DeleteFromGaps(ms: seq<Option<nat>>, s: string, i: nat) returns (ps: seq<nat>, es: seq<nat>)
    requires IsMatchTable(ms, s) && i <= |s|
    ensures LeftmostMatches(ms, s, i, ps, es)
    ensures SubFrom(ms, [], s, i) == Gaps(ms, s, i, ps, es)
    decreases |s| - i
  {
    if i == |s| {
      ps, es := [], [];
    } else if ms[i].Some? {
      var e := ms[i].value;
      var ps', es' := DeleteFromGaps(ms, s, e);
      ps, es := [i] + ps', [e] + es';
      assert ps[1..] == ps' && es[1..] == es';
      assert s[i..i] == [];
    } else {
      ps, es := DeleteFromGaps(ms, s, i + 1);
      GapsStep(ms, s, i, ps, es);
    }
  }

  /** Where no match starts, the gap before the next match grows by one character. */
  lemma GapsStep(ms: seq<Option<nat>>, s: string, i: nat, ps: seq<nat>, es: seq<nat>)
    requires IsMatchTable(ms, s) && i < |s| && ms[i].None? && LeftmostMatches(ms, s, i + 1, ps, es)
    ensures LeftmostMatches(ms, s, i, ps, es)
    ensures Gaps(ms, s, i, ps, es) == [s[i]] + Gaps(ms, s, i + 1, ps, es)
  {
    if ps == [] {
      TailGapStep(ms, s, i);
    } else {
      InnerGapStep(ms, s, i, ps, es);
    }
  }

  lemma TailGapStep(ms: seq<Option<nat>>, s: string, i: nat)
    requires IsMatchTable(ms, s) && i < |s| && ms[i].None? && NoMatchFrom(ms, s, i + 1)
    ensures LeftmostMatches(ms, s, i, [], [])
    ensures Gaps(ms, s, i, [], []) == [s[i]] + Gaps(ms, s, i + 1, [], [])
  {
    assert s[i..] == [s[i]] + s[i + 1..];
  }

  lemma InnerGapStep(ms: seq<Option<nat>>, s: string, i: nat, ps: seq<nat>, es: seq<nat>)
    requires IsMatchTable(ms, s) && i < |s| && ms[i].None? && ps != []
    requires LeftmostMatches(ms, s, i + 1, ps, es)
    ensures LeftmostMatches(ms, s, i, ps, es)
    ensures Gaps(ms, s, i, ps, es) == [s[i]] + Gaps(ms, s, i + 1, ps, es)
  {
    var p0, e0, ps', es' := ps[0], es[0], ps[1..], es[1..];
    assert ps == [p0] + ps' && es == [e0] + es';
    FirstMatch(ms, s, i + 1, p0, e0, ps', es');
    assert forall q :: i <= q < p0 ==> ms[q].None?;
    FirstMatch(ms, s, i, p0, e0, ps', es');
    assert s[i..p0] == [s[i]] + s[i + 1..p0];
  }

  /** The matches from `i` on are the first match at or after `i` followed by the matches
      from its end on. */
  lemma FirstMatch(ms: seq<Option<nat>>, s: string, i: nat, p0: nat, e0: nat, ps: seq<nat>, es: seq<nat>)
    requires IsMatchTable(ms, s) && i <= p0 < |s| && ms[p0] == Some(e0)
    requires forall q :: i <= q < p0 ==> ms[q].None?
    requires LeftmostMatches(ms, s, e0, ps, es)
    ensures LeftmostMatches(ms, s, i, [p0] + ps, [e0] + es)
    ensures Gaps(ms, s, i, [p0] + ps, [e0] + es) == s[i..p0] + Gaps(ms, s, e0, ps, es)
  {
    assert ([p0] + ps)[1..] == ps && ([e0] + es)[1..] == es;
  }

  /** Every pattern but the numeric lines and the line breaks opens with `[`. */
  predicate OpensWithBracket(pat: Pattern) {
    pat.ImageLink? || pat.TitledLink? || pat.StatusLink?
  }

  /** Text without `[` contains no link annotation, so the five link deletions keep it. */
  lemma NoBracketNoLink(pat: Pattern, s: string)
    requires OpensWithBracket(pat) && forall j :: 0 <= j < |s| ==> s[j] != '['
    ensures Sub(pat, [], s) == s
  {
    forall j | 0 <= j < |s| ensures MatchAt(pat, s, j).None? {
      match pat
      case ImageLink => StartsAtHead(s, j, "[![](");
      case StatusLink => StartsAtHead(s, j, StatusPrefix);
      case TitledLink(link) => StartsAtHead(s, j, "[" + link.labelPrefix);
    }
    DeleteUnchanged(pat, s);
  }

  // ---------------------------------------------------------------------------------------
  // The two trailing-number deletions: a match runs to the end, so the text is cut at the
  // first position where the numeric lines start.

  /** Deleting trailing numeric lines keeps a prefix of the text: all of it when the lines occur
      nowhere, and otherwise everything before the first position they start at. */
  lemma {:induction false} DeleteNumberLinesFrom(extra: nat, n: nat, s: string, i: nat)
    requires n == extra + 1 && i <= |s|
    ensures CutBefore(s, n, i, SubFrom(MatchTable(NumberLines(extra), s), [], s, i))
    decreases |s| - i
  {
    var ms := MatchTable(NumberLines(extra), s);
    if i < |s| && !NumberLinesAt(s, i, n) {
      DeleteNumberLinesFrom(extra, n, s, i + 1);
      assert ms[i] == None;
      KeepOneMore(s, n, i, SubFrom(ms, [], s, i + 1));
    } else if i < |s| {
      assert ms[i] == Some(|s|);
    }
  }

  /** `r` is what is kept of `s` from `i` on: the text up to the first place, from `i`, where
      the `n` numeric lines start, or all of it when they start nowhere. */
  ghost predicate CutBefore(s: string, n: nat, i: nat, r: string)
    requires i <= |s|
  {
    && |r| <= |s| - i && r == s[i..i + |r|]
    && (forall j :: i <= j < i + |r| ==> !NumberLinesAt(s, j, n))
    && (i + |r| == |s| || NumberLinesAt(s, i + |r|, n))
  }

  lemma KeepOneMore(s: string, n: nat, i: nat, rest: string)
    requires i < |s| && !NumberLinesAt(s, i, n) && CutBefore(s, n, i + 1, rest)
    ensures CutBefore(s, n, i, [s[i]] + rest)
  {
    var r := [s[i]] + rest;
    assert r == s[i..i + |r|] by {
      assert s[i..i + |r|] == [s[i]] + s[i + 1..i + 1 + |rest|];
    }
    forall j | i <= j < i + |r|
      ensures !NumberLinesAt(s, j, n)
    {
      if j > i {
        assert i + 1 <= j < i + 1 + |rest|;
      }
    }
    assert i + |r| == i + 1 + |rest|;
  }

  lemma DeleteNumberLines(extra: nat, n: nat, s: string)
    requires n == extra + 1
    ensures var r := Sub(NumberLines(extra), [], s);
      && |r| <= |s| && r == s[..|r|]
      && (forall j :: 0 <= j < |r| ==> !NumberLinesAt(s, j, n))
      && (|r| == |s| || NumberLinesAt(s, |r|, n))
  {
    DeleteNumberLinesFrom(extra, n, s, 0);
    assert s[0..] == s;
  }

  // ---------------------------------------------------------------------------------------
  // Collapsing line breaks: `re.sub(r'\n+', '\n', ...)`

  /** No line break directly follows another. */
  predicate NoDoubleNewline(s: string) {
    forall j :: 0 <= j < |s| - 1 ==> !(s[j] == '\n' && s[j + 1] == '\n')
  }

  /** The text with its line breaks taken out. */
  function WithoutNewlines(s: string): (r: string)
    ensures |r| <= |s|
  {
    if s == [] then []
    else (if s[0] == '\n' then [] else [s[0]]) + WithoutNewlines(s[1..])
  }

  lemma {:induction false} WithoutNewlinesAppend(a: string, b: string)
    ensures WithoutNewlines(a + b) == WithoutNewlines(a) + WithoutNewlines(b)
  {
    if a != [] {
      assert (a + b)[0] == a[0];
      assert (a + b)[1..] == a[1..] + b;
      WithoutNewlinesAppend(a[1..], b);
    } else {
      assert a + b == b;
    }
  }

  lemma {:induction false} WithoutNewlinesOfBreaks(s: string)
    requires forall j :: 0 <= j < |s| ==> s[j] == '\n'
    ensures WithoutNewlines(s) == []
  {
    if s != [] {
      WithoutNewlinesOfBreaks(s[1..]);
    }
  }

  /** One step of the collapse: its first character is the text's. */
  lemma CollapseFromHead(s: string, i: nat)
    requires i < |s|
    ensures var r := SubFrom(MatchTable(Newlines, s), "\n", s, i); |r| > 0 && r[0] == s[i]
  {
  }

  /** Putting a character in front keeps a text free of double line breaks unless both are
      line breaks. */
  lemma NoDoubleNewlineCons(c: char, r: string)
    requires NoDoubleNewline(r) && (c == '\n' ==> r == [] || r[0] != '\n')
    ensures NoDoubleNewline([c] + r)
  {
    var t := [c] + r;
    forall j | 0 <= j < |t| - 1 ensures !(t[j] == '\n' && t[j + 1] == '\n') {
      if j > 0 {
        assert t[j] == r[j - 1] && t[j + 1] == r[j];
      }
    }
  }

  /** After collapsing, no line break follows another. */
  lemma {:induction false} CollapseFromNoDouble(s: string, i: nat)
    requires i <= |s|
    ensures NoDoubleNewline(SubFrom(MatchTable(Newlines, s), "\n", s, i))
    decreases |s| - i
  {
    if i < |s| {
      var ms := MatchTable(Newlines, s);
      if s[i] == '\n' {
        var e := RunEnd(s, i, Only('\n'));
        assert ms[i] == Some(e);
        CollapseFromNoDouble(s, e);
        if e < |s| {
          CollapseFromHead(s, e);
        }
        NoDoubleNewlineCons('\n', SubFrom(ms, "\n", s, e));
      } else {
        assert ms[i] == None;
        CollapseFromNoDouble(s, i + 1);
        NoDoubleNewlineCons(s[i], SubFrom(ms, "\n", s, i + 1));
      }
    }
  }

  /** Apart from line breaks, collapsing changes nothing. */
  lemma {:induction false} CollapseFromContent(s: string, i: nat)
    requires i <= |s|
    ensures WithoutNewlines(SubFrom(MatchTable(Newlines, s), "\n", s, i)) == WithoutNewlines(s[i..])
    decreases |s| - i
  {
    if i < |s| {
      var ms := MatchTable(Newlines, s);
      if s[i] == '\n' {
        var e := RunEnd(s, i, Only('\n'));
        assert ms[i] == Some(e);
        CollapseFromContent(s, e);
        CollapseBreakStep(ms, s, i, e);
      } else {
        assert ms[i] == None;
        CollapseFromContent(s, i + 1);
        CollapseCharStep(ms, s, i);
      }
    }
  }

  lemma CollapseBreakStep(ms: seq<Option<nat>>, s: string, i: nat, e: nat)
    requires IsMatchTable(ms, s) && i < |s| && ms[i] == Some(e) && e == RunEnd(s, i, Only('\n'))
    requires WithoutNewlines(SubFrom(ms, "\n", s, e)) == WithoutNewlines(s[e..])
    ensures WithoutNewlines(SubFrom(ms, "\n", s, i)) == WithoutNewlines(s[i..])
  {
    var rest := SubFrom(ms, "\n", s, e);
    assert SubFrom(ms, "\n", s, i) == "\n" + rest;
    BreakRunSlice(s, i, e);
    BreaksThenRest(s[i..e], s[e..], rest);
  }

  lemma BreakRunSlice(s: string, i: nat, e: nat)
    requires i < |s| && e == RunEnd(s, i, Only('\n'))
    ensures s[i..] == s[i..e] + s[e..]
    ensures forall j :: 0 <= j < |s[i..e]| ==> s[i..e][j] == '\n'
  {
    forall j | 0 <= j < e - i ensures s[i..e][j] == '\n' {
      assert s[i..e][j] == s[i + j];
    }
  }

  lemma CollapseCharStep(ms: seq<Option<nat>>, s: string, i: nat)
    requires IsMatchTable(ms, s) && i < |s| && ms[i] == None && s[i] != '\n'
    requires WithoutNewlines(SubFrom(ms, "\n", s, i + 1)) == WithoutNewlines(s[i + 1..])
    ensures WithoutNewlines(SubFrom(ms, "\n", s, i)) == WithoutNewlines(s[i..])
  {
    var rest := SubFrom(ms, "\n", s, i + 1);
    assert SubFrom(ms, "\n", s, i) == [s[i]] + rest;
    assert s[i..] == [s[i]] + s[i + 1..];
    CharThenRest(s[i], s[i + 1..], rest);
  }

  /** A run of line breaks counts as one. */
  lemma BreaksThenRest(u: string, v: string, rest: string)
    requires forall j :: 0 <= j < |u| ==> u[j] == '\n'
    requires WithoutNewlines(rest) == WithoutNewlines(v)
    ensures WithoutNewlines("\n" + rest) == WithoutNewlines(u + v)
  {
    WithoutNewlinesAppend(u, v);
    WithoutNewlinesOfBreaks(u);
    WithoutNewlinesAppend("\n", rest);
    WithoutNewlinesOfBreaks("\n");
  }

  lemma CharThenRest(c: char, v: string, rest: string)
    requires WithoutNewlines(rest) == WithoutNewlines(v)
    ensures WithoutNewlines([c] + rest) == WithoutNewlines([c] + v)
  {
    WithoutNewlinesAppend([c], v);
    WithoutNewlinesAppend([c], rest);
  }

  /** Every line break directly followed by another taken out: each maximal run of line breaks
      left as a single one, everything else as it was. */
  function SqueezeBreaks(s: string): (r: string)
    decreases |s|
  {
    if s == [] then []
    else if |s| > 1 && s[0] == '\n' && s[1] == '\n' then SqueezeBreaks(s[1..])
    else [s[0]] + SqueezeBreaks(s[1..])
  }

  /** `re.sub(r'\n+', '\n', s)` replaces every maximal run of line breaks by a single one. */
  lemma CollapseIsSqueeze(s: string)
    ensures Sub(Newlines, "\n", s) == SqueezeBreaks(s)
  {
    CollapseFromSqueeze(s, 0);
    assert s[0..] == s;
  }

  lemma {:induction false} CollapseFromSqueeze(s: string, i: nat)
    requires i <= |s|
    ensures SubFrom(MatchTable(Newlines, s), "\n", s, i) == SqueezeBreaks(s[i..])
    decreases |s| - i
  {
    if i < |s| {
      var ms := MatchTable(Newlines, s);
      if s[i] == '\n' {
        var e := RunEnd(s, i, Only('\n'));
        assert ms[i] == Some(e);
        CollapseFromSqueeze(s, e);
        SqueezeRun(s, i, e);
      } else {
        assert ms[i] == None;
        CollapseFromSqueeze(s, i + 1);
        assert s[i..][1..] == s[i + 1..];
      }
    }
  }

  /** A run of line breaks from `j` to `e` squeezes to one. */
  lemma {:induction false} SqueezeRun(s: string, j: nat, e: nat)
    requires j < e <= |s| && (forall m :: j <= m < e ==> s[m] == '\n') && (e == |s| || s[e] != '\n')
    ensures SqueezeBreaks(s[j..]) == "\n" + SqueezeBreaks(s[e..])
    decreases e - j
  {
    assert s[j..][1..] == s[j + 1..];
    if j + 1 < e {
      SqueezeRun(s, j + 1, e);
    }
  }

  /** Text in which no line break follows another is left as it is. */
  lemma {:induction false} CollapseKeeps(s: string, i: nat)
    requires i <= |s| && NoDoubleNewline(s)
    ensures SubFrom(MatchTable(Newlines, s), "\n", s, i) == s[i..]
    decreases |s| - i
  {
    if i < |s| {
      if s[i] == '\n' {
        RunEndUnique(s, i, i + 1, Only('\n'));
      }
      CollapseKeeps(s, i + 1);
      assert s[i..] == [s[i]] + s[i + 1..];
    }
  }

  /** The collapse changes the text exactly when a line break follows another. */
  lemma CollapseUnchanged(s: string)
    ensures Sub(Newlines, "\n", s) == s <==> NoDoubleNewline(s)
  {
    CollapseFromNoDouble(s, 0);
    if NoDoubleNewline(s) {
      CollapseKeeps(s, 0);
    }
  }

  /** A piece of text without a double line break has none either. */
  lemma NoDoubleNewlineSlice(s: string, a: nat, b: nat)
    requires a <= b <= |s| && NoDoubleNewline(s)
    ensures NoDoubleNewline(s[a..b])
  {
    forall j | 0 <= j < b - a - 1
      ensures !(s[a..b][j] == '\n' && s[a..b][j + 1] == '\n')
    {
      assert s[a..b][j] == s[a + j] && s[a..b][j + 1] == s[a + j + 1];
    }
  }

  lemma StripNoDoubleNewline(s: string)
    requires NoDoubleNewline(s)
    ensures NoDoubleNewline(Strip(s))
  {
    var a := RunEnd(s, 0, Space);
    NoDoubleNewlineSlice(s, a, TrailEnd(s, a));
  }

  // ---------------------------------------------------------------------------------------
  // The pipeline

  /** Steps one to five of `clean_tweet_text`: the link annotations are deleted. The text never
      grows, and it shrinks whenever it holds an image link. */
  function DeleteLinks(text: string): (r: string)
    ensures |r| <= |text|
    ensures (exists j :: 0 <= j < |text| && MatchAt(ImageLink, text, j).Some?) ==> |r| < |text|
  {
    var noImages := Sub(ImageLink, [], text);
    var noProfiles := Sub(TitledLink(ProfileLink), [], noImages);
    var noMentions := Sub(TitledLink(MentionLink), [], noProfiles);
    var noDates := Sub(TitledLink(DateLink), [], noMentions);
    DeleteLength(ImageLink, text);
    DeleteLength(TitledLink(ProfileLink), noImages);
    DeleteLength(TitledLink(MentionLink), noProfiles);
    DeleteLength(TitledLink(DateLink), noMentions);
    DeleteLength(StatusLink, noDates);
    Sub(StatusLink, [], noDates)
  }

  /** A deletion never lengthens the text, and shortens it when the pattern occurs. */
  lemma DeleteLength(pat: Pattern, s: string)
    ensures |Sub(pat, [], s)| <= |s|
    ensures (exists j :: 0 <= j < |s| && MatchAt(pat, s, j).Some?) ==> |Sub(pat, [], s)| < |s|
  {
    var ms := MatchTable(pat, s);
    DeleteFromLength(ms, s, 0);
  }

  /** Steps six to nine: the trailing numbers are deleted, line breaks collapsed, the ends
      stripped. */
  function TidyLines(text: string): (r: string)
    ensures r == [] || (!IsSpace(r[0]) && !IsSpace(r[|r| - 1]))
    ensures NoDoubleNewline(r)
  {
    var noMetrics := Sub(NumberLines(3), [], text);
    var noNumber := Sub(NumberLines(0), [], noMetrics);
    var collapsed := Sub(Newlines, "\n", noNumber);
    CollapseFromNoDouble(noNumber, 0);
    StripNoDoubleNewline(collapsed);
    Strip(collapsed)
  }

  /** `clean_tweet_text`: the nine steps in the source's order. The result has no whitespace at
      either end and no line break directly after another. */
  function CleanTweetText(text: string): (r: string)
    ensures r == [] || (!IsSpace(r[0]) && !IsSpace(r[|r| - 1]))
    ensures NoDoubleNewline(r)
  {
    TidyLines(DeleteLinks(text))
  }

  /** Text without `[` holds no link annotation: the first five steps keep it. */
  lemma DeleteLinksWithoutBracket(s: string)
    requires forall j :: 0 <= j < |s| ==> s[j] != '['
    ensures DeleteLinks(s) == s
  {
    NoBracketNoLink(ImageLink, s);
    NoBracketNoLink(TitledLink(ProfileLink), s);
    NoBracketNoLink(TitledLink(MentionLink), s);
    NoBracketNoLink(TitledLink(DateLink), s);
    NoBracketNoLink(StatusLink, s);
  }

  /** Numeric lines start only at a line break. */
  lemma NumberLinesNeedNewline(s: string, i: nat, n: nat)
    requires i <= |s| && n > 0 && (i == |s| || s[i] != '\n')
    ensures !NumberLinesAt(s, i, n)
  {
    StartsAtHead(s, i, "\n");
  }

  /** The deletion cuts the text at the first place the numeric lines start. */
  lemma DeleteNumberLinesAt(extra: nat, n: nat, s: string, k: nat)
    requires n == extra + 1
    requires k <= |s| && NumberLinesAt(s, k, n)
    requires forall j :: 0 <= j < k ==> !NumberLinesAt(s, j, n)
    ensures Sub(NumberLines(extra), [], s) == s[..k]
  {
    DeleteNumberLines(extra, n, s);
    var r := Sub(NumberLines(extra), [], s);
    FirstStartUnique(s, n, |r|, k);
  }

  /** Two first positions where the numeric lines start are the same. */
  lemma FirstStartUnique(s: string, n: nat, x: nat, k: nat)
    requires x <= |s| && k <= |s|
    requires x == |s| || NumberLinesAt(s, x, n)
    requires forall j :: 0 <= j < x ==> !NumberLinesAt(s, j, n)
    requires NumberLinesAt(s, k, n)
    requires forall j :: 0 <= j < k ==> !NumberLinesAt(s, j, n)
    ensures x == k
  {
    if x < k {
      assert false;
    }
    if k < x {
      assert false;
    }
  }

  /** Facts about the text "a\n1\n2", one line break and digit run at a time. */
  lemma TwoLinesFacts(s: string)
    requires s == "a\n1\n2"
    ensures forall j :: 0 <= j < |s| ==> !NumberLinesAt(s, j, 4)
    ensures NumberLinesAt(s, 3, 1)
    ensures forall j :: 0 <= j < 3 ==> !NumberLinesAt(s, j, 1)
  {
    RunEndUnique(s, 2, 3, Digit);
    RunEndUnique(s, 4, 5, Digit);
    RunEndUnique(s, 5, 5, Space);
    assert s[1..2] == "\n" && s[3..4] == "\n";
    NumberLinesNeedNewline(s, 5, 1);
    NumberLinesNeedNewline(s, 5, 2);
    NumberLinesNeedNewline(s, 5, 3);
    assert !NumberLinesAt(s, 3, 3);
    assert !NumberLinesAt(s, 1, 4);
    assert !NumberLinesAt(s, 3, 4);
    NumberLinesNeedNewline(s, 0, 4);
    NumberLinesNeedNewline(s, 2, 4);
    NumberLinesNeedNewline(s, 4, 4);
    RunEndUnique(s, 3, 4, Space);
    assert !NumberLinesAt(s, 1, 1);
    NumberLinesNeedNewline(s, 0, 1);
    NumberLinesNeedNewline(s, 2, 1);
  }

  /** Facts about the text "a\n1". */
  lemma OneLineFacts(t: string)
    requires t == "a\n1"
    ensures forall j :: 0 <= j < |t| ==> !NumberLinesAt(t, j, 4)
    ensures NumberLinesAt(t, 1, 1) && !NumberLinesAt(t, 0, 1)
  {
    RunEndUnique(t, 2, 3, Digit);
    RunEndUnique(t, 3, 3, Space);
    assert t[1..2] == "\n";
    NumberLinesNeedNewline(t, 3, 3);
    assert !NumberLinesAt(t, 1, 4);
    NumberLinesNeedNewline(t, 0, 4);
    NumberLinesNeedNewline(t, 2, 4);
    NumberLinesNeedNewline(t, 0, 1);
  }

  lemma TidyTwoNumberLines(s: string)
    requires s == "a\n1\n2"
    ensures TidyLines(s) == "a\n1"
  {
    TwoLinesFacts(s);
    DeleteUnchanged(NumberLines(3), s);
    DeleteNumberLinesAt(0, 1, s, 3);
    var t := s[..3];
    assert t == "a\n1";
    NoDoubleNewlineOfShort(t);
    CollapseUnchanged(t);
    StripOfUntrimmed(t);
    TidyLinesOf(s, s, t, t);
  }

  lemma NoDoubleNewlineOfShort(t: string)
    requires t == "a\n1"
    ensures NoDoubleNewline(t)
  {
    assert t[0] == 'a' && t[2] == '1';
  }

  /** `TidyLines` from what each of its steps gives. */
  lemma TidyLinesOf(text: string, noMetrics: string, noNumber: string, collapsed: string)
    requires Sub(NumberLines(3), [], text) == noMetrics
    requires Sub(NumberLines(0), [], noMetrics) == noNumber
    requires Sub(Newlines, "\n", noNumber) == collapsed
    ensures TidyLines(text) == Strip(collapsed)
  {
  }

  lemma TidyOneNumberLine(t: string)
    requires t == "a\n1"
    ensures TidyLines(t) == "a"
  {
    OneLineFacts(t);
    DeleteUnchanged(NumberLines(3), t);
    DeleteNumberLinesAt(0, 1, t, 1);
    assert t[..1] == "a";
    CollapseUnchanged("a");
    StripOfUntrimmed("a");
    TidyLinesOf(t, t, "a", "a");
  }

  /** Cleaning is not idempotent: a post ending in two numeric lines loses one per pass, since
      the seventh step deletes a single trailing number and leaves the line before it trailing
      in turn. */
  lemma CleaningNotIdempotent(s: string)
    requires s == "a\n1\n2"
    ensures CleanTweetText(s) == "a\n1"
    ensures CleanTweetText(CleanTweetText(s)) == "a"
  {
    CleanTwoNumberLines(s);
    CleanOneNumberLine(CleanTweetText(s));
  }

  lemma CleanTwoNumberLines(s: string)
    requires s == "a\n1\n2"
    ensures CleanTweetText(s) == "a\n1"
  {
    NoBracketInShort(s);
    DeleteLinksWithoutBracket(s);
    TidyTwoNumberLines(s);
  }

  lemma NoBracketInShort(s: string)
    requires s == "a\n1\n2"
    ensures forall j :: 0 <= j < |s| ==> s[j] != '['
  {
  }

  lemma CleanOneNumberLine(t: string)
    requires t == "a\n1"
    ensures CleanTweetText(t) == "a"
  {
    DeleteLinksWithoutBracket(t);
    TidyOneNumberLine(t);
  }
}
