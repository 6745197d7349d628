/** One hand-written matcher per regular expression of nitter_parser.py. A matcher tried at
    position `i` answers where Python's backtracking engine ends the match that starts there
    (greedy repetitions tried longest first), or `None` when no match starts there. Each is
    proved against the regex read literally, as a conjunction of its parts. */
module Patterns {
  import opened Text

  // ---------------------------------------------------------------------------------------
  // `\[!\[\]\([^)]+\)\]\([^)]+\)`: a profile picture wrapped in a link

  function ImageLinkAt(s: string, i: nat): (r: Option<nat>)
    ensures r.Some? ==> i < r.value <= |s|
  {
    if !StartsAt(s, i, "[![](") then None
    else
      var k := RunEnd(s, i + 5, AllBut(')'));
      if k == i + 5 || !StartsAt(s, k, ")](") then None
      else
        var e := RunEnd(s, k + 3, AllBut(')'));
        if e == k + 3 || e == |s| then None else Some(e + 1)
  }

  /** The image-link pattern read literally, with `s[i..e]` as the matched text and `k` the
      position of the `)` that closes the image. */
  ghost predicate ImageLinkParts(s: string, i: nat, k: nat, e: nat) {
    && StartsAt(s, i, "[![](")
    && i + 5 < k && StartsAt(s, k, ")](") && AllIn(AllBut(')'), s[i + 5..k])
    && k + 3 < e - 1 && e <= |s| && AllIn(AllBut(')'), s[k + 3..e - 1]) && s[e - 1] == ')'
  }

  lemma ImageLinkAtSpec(s: string, i: nat, e: nat)
    ensures ImageLinkAt(s, i) == Some(e) <==> exists k :: ImageLinkParts(s, i, k, e)
  {
    if ImageLinkAt(s, i) == Some(e) {
      var k := ImageLinkAtSound(s, i, e);
    }
    if k: nat :| ImageLinkParts(s, i, k, e) {
      ImageLinkAtComplete(s, i, k, e);
    }
  }

  lemma ImageLinkAtSound(s: string, i: nat, e: nat) returns (k: nat)
    requires ImageLinkAt(s, i) == Some(e)
    ensures ImageLinkParts(s, i, k, e)
  {
    k := RunEnd(s, i + 5, AllBut(')'));
    RunIsAllIn(s, i + 5, k, AllBut(')'));
    RunIsAllIn(s, k + 3, e - 1, AllBut(')'));
  }

  lemma ImageLinkAtComplete(s: string, i: nat, k: nat, e: nat)
    requires ImageLinkParts(s, i, k, e)
    ensures ImageLinkAt(s, i) == Some(e)
  {
    AllInIsRun(s, i + 5, k, AllBut(')'));
    AllInIsRun(s, k + 3, e - 1, AllBut(')'));
    StartsAtHead(s, k, ")](");
    RunEndUnique(s, i + 5, k, AllBut(')'));
    RunEndUnique(s, k + 3, e - 1, AllBut(')'));
  }

  // ---------------------------------------------------------------------------------------
  // `\[\]\(https://nitter\.net/[^)]+\)`: an unlabelled link to a post on the crawled site

  const StatusPrefix: string := "[](https://nitter.net/"

  function StatusLinkAt(s: string, i: nat): (r: Option<nat>)
    ensures r.Some? ==> i < r.value <= |s|
  {
    if !StartsAt(s, i, StatusPrefix) then None
    else
      var t := i + |StatusPrefix|;
      var e := RunEnd(s, t, AllBut(')'));
      if e == t || e == |s| then None else Some(e + 1)
  }

  ghost predicate StatusLinkParts(s: string, i: nat, e: nat) {
    && StartsAt(s, i, StatusPrefix)
    && i + |StatusPrefix| < e - 1 && e <= |s|
    && AllIn(AllBut(')'), s[i + |StatusPrefix|..e - 1]) && s[e - 1] == ')'
  }

  lemma StatusLinkAtSpec(s: string, i: nat, e: nat)
    ensures StatusLinkAt(s, i) == Some(e) <==> StatusLinkParts(s, i, e)
  {
    if StatusLinkParts(s, i, e) {
      RunEndUnique(s, i + |StatusPrefix|, e - 1, AllBut(')'));
    }
  }

  // ---------------------------------------------------------------------------------------
  // The titled links `\[L[^\]]+\]\([^)]+M\s+"T[^"]+"\)`, optionally followed by `\s+\[@\w+\]`,
  // for a label prefix L, a marker M before the title and a title prefix T.

  datatype LinkPattern = LinkPattern(labelPrefix: string, marker: string, titlePrefix: string,
                                     handleAfter: bool)

  /** `\[[^\]]+\]\([^)]+\s+"[^"]+"\)`: a link with a quoted title (a profile link). */
  const ProfileLink := LinkPattern("", "", "", false)
  /** `\[@[^\]]+\]\([^)]+\s+"@[^"]+"\)`: a link whose label and title are an @-handle. */
  const MentionLink := LinkPattern("@", "", "@", false)
  /** `\[[^\]]+\]\([^)]+#m\s+"[^"]+"\)`: a date permalink, whose target ends in `#m`. */
  const DateLink := LinkPattern("", "#m", "", false)
  /** `\[([^\]]+)\]\([^)]+\s+"([^"]+)"\)\s+\[@\w+\]`: a titled link followed by an @-handle. */
  const DisplayNameLink := LinkPattern("", "", "", true)

  /** The `]` that closes the label of a link opening at `p` and is followed by `(`. */
  function LabelEnd(s: string, p: nat, labelPrefix: string): (q: Option<nat>)
    ensures q.Some? ==> p + 1 + |labelPrefix| < q.value && q.value + 2 <= |s|
  {
    if !StartsAt(s, p, "[" + labelPrefix) then None
    else
      var t := p + 1 + |labelPrefix|;
      var q := RunEnd(s, t, AllBut(']'));
      if q == t || !StartsAt(s, q, "](") then None else Some(q)
  }

  /** `\s+\[@\w+\]` at `i`. */
  function HandleAfter(s: string, i: nat): (r: Option<nat>)
    requires i <= |s|
    ensures r.Some? ==> i < r.value <= |s|
  {
    var d := RunEnd(s, i, Space);
    if d == i || !StartsAt(s, d, "[@") then None
    else
      var f := RunEnd(s, d + 2, Word);
      if f == d + 2 || !StartsAt(s, f, "]") then None else Some(f + 1)
  }

  ghost predicate HandleParts(s: string, i: nat, d: nat, e: nat) {
    && i < d && d + 2 < e - 1 && e <= |s|
    && StartsAt(s, d, "[@") && AllIn(Space, s[i..d])
    && AllIn(Word, s[d + 2..e - 1]) && s[e - 1] == ']'
  }

  lemma HandleAfterSpec(s: string, i: nat, e: nat)
    requires i <= |s|
    ensures HandleAfter(s, i) == Some(e) <==> exists d :: HandleParts(s, i, d, e)
  {
    if HandleAfter(s, i) == Some(e) {
      var d := HandleAfterSound(s, i, e);
    }
    if d: nat :| HandleParts(s, i, d, e) {
      HandleAfterComplete(s, i, d, e);
    }
  }

  lemma HandleAfterSound(s: string, i: nat, e: nat) returns (d: nat)
    requires i <= |s| && HandleAfter(s, i) == Some(e)
    ensures HandleParts(s, i, d, e)
  {
    d := RunEnd(s, i, Space);
    RunIsAllIn(s, i, d, Space);
    RunIsAllIn(s, d + 2, e - 1, Word);
    StartsAtHead(s, e - 1, "]");
  }

  lemma HandleAfterComplete(s: string, i: nat, d: nat, e: nat)
    requires i <= |s| && HandleParts(s, i, d, e)
    ensures HandleAfter(s, i) == Some(e)
  {
    AllInIsRun(s, i, d, Space);
    AllInIsRun(s, d + 2, e - 1, Word);
    StartsAtHead(s, d, "[@");
    RunEndUnique(s, i, d, Space);
    RunEndUnique(s, d + 2, e - 1, Word);
    assert StartsAt(s, e - 1, "]") by {
      assert s[e - 1..e] == [s[e - 1]];
    }
  }

  /** The closing quote of `M\s+"T[^"]+"\)` once `[^)]+` has stopped at `a`. */
  function TitleClose(s: string, a: nat, pat: LinkPattern): (c: Option<nat>)
    requires a <= |s|
    ensures c.Some? ==> a < c.value && c.value + 2 <= |s|
  {
    if !StartsAt(s, a, pat.marker) then None
    else
      var w := a + |pat.marker|;
      var b := RunEnd(s, w, Space);
      if b == w || !StartsAt(s, b, "\"" + pat.titlePrefix) then None
      else
        var t := b + 1 + |pat.titlePrefix|;
        var c := RunEnd(s, t, AllBut('"'));
        if c == t || !StartsAt(s, c, "\")") then None else Some(c)
  }

  /** What must follow once `[^)]+` has stopped at `a`: the marker, `\s+`, the quoted title and
      `)`, then the handle when the pattern asks for one. */
  function TitleAt(s: string, a: nat, pat: LinkPattern): (r: Option<nat>)
    requires a <= |s|
    ensures r.Some? ==> a < r.value <= |s|
  {
    match TitleClose(s, a, pat)
    case None => None
    case Some(c) => if pat.handleAfter then HandleAfter(s, c + 2) else Some(c + 2)
  }

  /** Backtracking over `[^)]+` from `r`: it tries the stop `a`, then every shorter one. */
  function TargetFrom(s: string, r: nat, a: nat, pat: LinkPattern): (e: Option<nat>)
    requires r <= a <= |s|
    ensures e.Some? ==> r < e.value <= |s|
    decreases a
  {
    if a == r then None
    else
      match TitleAt(s, a, pat)
      case Some(e) => Some(e)
      case None => TargetFrom(s, r, a - 1, pat)
  }

  /** A titled link pattern tried at `p`. */
  function LinkAt(s: string, p: nat, pat: LinkPattern): (r: Option<nat>)
    ensures r.Some? ==> p < r.value <= |s|
  {
    match LabelEnd(s, p, pat.labelPrefix)
    case None => None
    case Some(q) => TargetFrom(s, q + 2, RunEnd(s, q + 2, AllBut(')')), pat)
  }

  /** `\[L[^\]]+\]\(` read literally: `q` is the `]` that closes the label. */
  ghost predicate LabelParts(s: string, p: nat, pat: LinkPattern, q: nat) {
    var lp := pat.labelPrefix;
    && StartsAt(s, p, "[" + lp)
    && p + 1 + |lp| < q && StartsAt(s, q, "](") && AllIn(AllBut(']'), s[p + 1 + |lp|..q])
  }

  /** `M\s+"T[^"]+"\)` read literally: `b` is the opening quote of the title and `c` its
      closing quote. */
  ghost predicate TitleParts(s: string, a: nat, pat: LinkPattern, b: nat, c: nat) {
    var mk, tp := pat.marker, pat.titlePrefix;
    && StartsAt(s, a, mk)
    && a + |mk| < b && StartsAt(s, b, "\"" + tp) && AllIn(Space, s[a + |mk|..b])
    && b + 1 + |tp| < c && StartsAt(s, c, "\")") && AllIn(AllBut('"'), s[b + 1 + |tp|..c])
  }

  /** The whole titled link pattern read literally, `a` being where the target's `[^)]+` stops
      and `s[p..e]` the matched text. */
  ghost predicate LinkParts(s: string, p: nat, pat: LinkPattern, q: nat, a: nat, b: nat, c: nat,
                            e: nat) {
    && LabelParts(s, p, pat, q)
    && q + 2 < a <= |s| && AllIn(AllBut(')'), s[q + 2..a])
    && TitleParts(s, a, pat, b, c)
    && TailParts(s, c, pat, e)
  }

  /** What follows the quoted title: nothing, or the handle. */
  ghost predicate TailParts(s: string, c: nat, pat: LinkPattern, e: nat) {
    if pat.handleAfter then c + 2 <= |s| && HandleAfter(s, c + 2) == Some(e) else e == c + 2
  }

  lemma TitleCloseSound(s: string, a: nat, pat: LinkPattern, c: nat)
    requires a <= |s| && TitleClose(s, a, pat) == Some(c)
    ensures exists b :: TitleParts(s, a, pat, b, c)
  {
    var b := TitleOpen(s, a, pat, c);
  }

  /** The opening quote behind a closing quote that `TitleClose` finds. */
  lemma TitleOpen(s: string, a: nat, pat: LinkPattern, c: nat) returns (b: nat)
    requires a <= |s| && TitleClose(s, a, pat) == Some(c)
    ensures TitleParts(s, a, pat, b, c)
  {
    var w := a + |pat.marker|;
    b := RunEnd(s, w, Space);
    var t := b + 1 + |pat.titlePrefix|;
    RunIsAllIn(s, w, b, Space);
    RunIsAllIn(s, t, c, AllBut('"'));
  }

  lemma TitleCloseComplete(s: string, a: nat, pat: LinkPattern, b: nat, c: nat)
    requires a <= |s| && TitleParts(s, a, pat, b, c)
    ensures TitleClose(s, a, pat) == Some(c)
  {
    var w, t := a + |pat.marker|, b + 1 + |pat.titlePrefix|;
    var open, close := "\"" + pat.titlePrefix, "\")";
    StartsAtHead(s, b, open);
    StartsAtHead(s, c, close);
    assert open[0] == '"' && close[0] == '"';
    AllInIsRun(s, w, b, Space);
    AllInIsRun(s, t, c, AllBut('"'));
    RunEndUnique(s, w, b, Space);
    RunEndUnique(s, t, c, AllBut('"'));
  }

  /** A match found by the backtracking search is the match of the rest at one of the stops it
      tries. */
  lemma {:induction false} TargetFromFound(s: string, r: nat, a: nat, pat: LinkPattern, e: nat)
    returns (a': nat)
    requires r <= a <= |s| && TargetFrom(s, r, a, pat) == Some(e)
    ensures r < a' <= a && TitleAt(s, a', pat) == Some(e)
    decreases a
  {
    if TitleAt(s, a, pat).None? {
      a' := TargetFromFound(s, r, a - 1, pat, e);
    } else {
      a' := a;
    }
  }

  /** The backtracking search misses no stop at which the rest matches. */
  lemma {:induction false} TargetFromComplete(s: string, r: nat, a: nat, pat: LinkPattern, a': nat)
    requires r < a' <= a <= |s| && TitleAt(s, a', pat).Some?
    ensures TargetFrom(s, r, a, pat).Some?
    decreases a
  {
    if a' < a && TitleAt(s, a, pat).None? {
      TargetFromComplete(s, r, a - 1, pat, a');
    }
  }

  lemma TitleAtSound(s: string, a: nat, pat: LinkPattern, e: nat)
    requires a <= |s| && TitleAt(s, a, pat) == Some(e)
    ensures exists b, c :: TitleParts(s, a, pat, b, c) && TailParts(s, c, pat, e)
  {
    var c := TitleClose(s, a, pat).value;
    TitleCloseSound(s, a, pat, c);
    var b :| TitleParts(s, a, pat, b, c);
    assert TailParts(s, c, pat, e);
  }

  /** Once the label is closed at `q`, the match is the backtracking search over the target. */
  lemma LinkAtOfLabel(s: string, p: nat, pat: LinkPattern, q: nat)
    requires LabelEnd(s, p, pat.labelPrefix) == Some(q)
    ensures LinkAt(s, p, pat) == TargetFrom(s, q + 2, RunEnd(s, q + 2, AllBut(')')), pat)
  {
  }

  /** The label end and the target stop behind a titled-link match. */
  lemma LinkAtStop(s: string, p: nat, pat: LinkPattern, e: nat) returns (q: nat, a: nat)
    requires LinkAt(s, p, pat) == Some(e)
    ensures LabelEnd(s, p, pat.labelPrefix) == Some(q)
    ensures q + 2 < a <= RunEnd(s, q + 2, AllBut(')')) && TitleAt(s, a, pat) == Some(e)
  {
    q := LabelEnd(s, p, pat.labelPrefix).value;
    LinkAtOfLabel(s, p, pat, q);
    a := TargetStop(s, q, pat, e);
  }

  /** The stop at which the backtracking search over a target found its match. */
  lemma TargetStop(s: string, q: nat, pat: LinkPattern, e: nat) returns (a: nat)
    requires q + 2 <= |s| && TargetFrom(s, q + 2, RunEnd(s, q + 2, AllBut(')')), pat) == Some(e)
    ensures q + 2 < a <= RunEnd(s, q + 2, AllBut(')')) && TitleAt(s, a, pat) == Some(e)
  {
    a := TargetFromFound(s, q + 2, RunEnd(s, q + 2, AllBut(')')), pat, e);
  }

  /** A titled-link match found at `p` has all the parts of the pattern; the label is closed by
      the `]` that `LabelEnd` finds. */
  lemma LinkAtSound(s: string, p: nat, pat: LinkPattern, e: nat) returns (q: nat, a: nat, b: nat, c: nat)
    requires LinkAt(s, p, pat) == Some(e)
    ensures LabelEnd(s, p, pat.labelPrefix) == Some(q)
    ensures LinkParts(s, p, pat, q, a, b, c, e)
  {
    q, a := LinkAtStop(s, p, pat, e);
    assert LabelParts(s, p, pat, q) by {
      RunIsAllIn(s, p + 1 + |pat.labelPrefix|, q, AllBut(']'));
    }
    assert AllIn(AllBut(')'), s[q + 2..a]) by {
      RunIsAllIn(s, q + 2, a, AllBut(')'));
    }
    TitleAtSound(s, a, pat, e);
    b, c :| TitleParts(s, a, pat, b, c) && TailParts(s, c, pat, e);
  }

  /** Whenever the pattern's parts are present at `p`, the matcher finds a match there. */
  lemma LinkAtComplete(s: string, p: nat, pat: LinkPattern, q: nat, a: nat, b: nat, c: nat, e: nat)
    requires LinkParts(s, p, pat, q, a, b, c, e)
    ensures LinkAt(s, p, pat).Some?
  {
    LabelEndOf(s, p, pat, q);
    RunEndAtLeast(s, q + 2, a, AllBut(')'));
    TitleAtOf(s, a, pat, b, c, e);
    LinkAtFromStop(s, p, pat, q, a);
  }

  /** The title read literally, and what follows it, make the rest of the pattern match at `a`. */
  lemma TitleAtOf(s: string, a: nat, pat: LinkPattern, b: nat, c: nat, e: nat)
    requires a <= |s| && TitleParts(s, a, pat, b, c) && TailParts(s, c, pat, e)
    ensures TitleAt(s, a, pat) == Some(e)
  {
    TitleCloseComplete(s, a, pat, b, c);
    if pat.handleAfter {
      assert HandleAfter(s, c + 2) == Some(e);
    } else {
      assert e == c + 2;
    }
  }

  /** A stop of the target at which the rest matches gives a match of the whole link. */
  lemma LinkAtFromStop(s: string, p: nat, pat: LinkPattern, q: nat, a: nat)
    requires LabelEnd(s, p, pat.labelPrefix) == Some(q)
    requires q + 2 < a <= RunEnd(s, q + 2, AllBut(')')) && TitleAt(s, a, pat).Some?
    ensures LinkAt(s, p, pat).Some?
  {
    TargetFromComplete(s, q + 2, RunEnd(s, q + 2, AllBut(')')), pat, a);
    LinkAtOfLabel(s, p, pat, q);
  }

  /** The label read literally is closed where `LabelEnd` finds its end. */
  lemma LabelEndOf(s: string, p: nat, pat: LinkPattern, q: nat)
    requires LabelParts(s, p, pat, q)
    ensures LabelEnd(s, p, pat.labelPrefix) == Some(q)
  {
    var t := p + 1 + |pat.labelPrefix|;
    assert s[q] == "]("[0];
    AllInIsRun(s, t, q, AllBut(']'));
    RunEndUnique(s, t, q, AllBut(']'));
  }

  // ---------------------------------------------------------------------------------------
  // `\n\d+` repeated `n` times, then `\s*$`: trailing numeric lines. Python's `$` without
  // MULTILINE also matches before a final newline, but `\s*` has already consumed it, so a match
  // always runs to the end of the string.

  predicate NumberLinesAt(s: string, i: nat, n: nat)
    requires i <= |s|
    decreases n
  {
    if n == 0 then RunEnd(s, i, Space) == |s|
    else
      StartsAt(s, i, "\n") &&
      var d := RunEnd(s, i + 1, Digit);
      d > i + 1 && NumberLinesAt(s, d, n - 1)
  }
}
