/** `parse_nitter_content`: a scraped profile page, as link-annotated text, read into a
    `Profile` holding the handle, the display name, the bio and the recent posts in page order. */
module NitterParser {
  import opened Text
  import opened Patterns
  import opened Cleaning
  import opened Dates
  import opened Engagement

  datatype Tweet = Tweet(text: string, time: string, likes: Option<int>, retweets: Option<int>,
                         quotes: Option<int>, replies: Option<int>)

  datatype Profile = Profile(username: string, displayName: string, bio: Option<string>,
                             tweets: seq<Tweet>)

  // ---------------------------------------------------------------------------------------
  // The searches: `re.search` finds the leftmost position where its pattern matches

  /** The patterns `parse_nitter_content` searches for. */
  datatype Needle =
    | Handle       // `@(\w+)`
    | DisplayName  // `\[([^\]]+)\]\([^)]+\s+"([^"]+)"\)\s+\[@\w+\]`
    | BioLine      // `Bio:\s+([^\n]+)`
    | MonthBracket // `\[(Apr|May|...|Mar)`
    | DateToken    // `\[((?:Apr|May|...|Mar)\s+\d{1,2})\]`

  /** A match: where it starts and the text of its first group. */
  datatype Found = Found(start: nat, group: string)

  predicate IsMonthName(x: string) {
    x in MonthNames
  }

  /** `\[((?:Apr|...|Mar)\s+\d{1,2})\]` at `i`: the end of the day's digits. `\s+` and `\d{1,2}`
      cannot give anything back, since neither a space nor a digit can stand where the other
      or the `]` must come. */
  function DateTokenAt(s: string, i: nat): (g: Option<nat>)
    ensures g.Some? ==> i + 5 < g.value < |s|
  {
    if !(StartsAt(s, i, "[") && i + 4 <= |s| && IsMonthName(s[i + 1..i + 4])) then None
    else
      var b := RunEnd(s, i + 4, Space);
      if b == i + 4 then None
      else
        var g := RunEnd(s, b, Digit);
        if g == b || g > b + 2 || !StartsAt(s, g, "]") then None else Some(g)
  }

  /** `Bio:\s+([^\n]+)` at `i`. When `\s+` runs to the end of the text it gives characters back
      until `[^\n]+` can start on one that is not a line break. */
  function BioAt(s: string, i: nat): (r: Option<string>) {
    if !StartsAt(s, i, "Bio:") then None
    else
      var w := i + 4;
      var d := RunEnd(s, w, Space);
      if d == w then None
      else if d < |s| then Some(s[d..RunEnd(s, d, AllBut('\n'))])
      else BioBacktrack(s, w, d - 1)
  }

  /** `[^\n]+` tried at `k`, then at every earlier start after `w`. */
  function BioBacktrack(s: string, w: nat, k: nat): (r: Option<string>)
    requires k < |s|
    decreases k
  {
    if k <= w then None
    else if s[k] != '\n' then Some(s[k..RunEnd(s, k, AllBut('\n'))])
    else BioBacktrack(s, w, k - 1)
  }

  /** `@` followed by a word character: where `@(\w+)` matches. */
  predicate HandleStart(s: string, j: int) {
    0 <= j && j + 1 < |s| && s[j] == '@' && IsWordChar(s[j + 1])
  }

  /** The first group of the match of `n` that starts at `i`, if one does. */
  function GroupAt(n: Needle, s: string, i: nat): (r: Option<string>) {
    match n
    case Handle =>
      if HandleStart(s, i) then Some(s[i + 1..RunEnd(s, i + 1, Word)]) else None
    case DisplayName =>
      if LinkAt(s, i, DisplayNameLink).Some? then Some(s[i + 1..LabelEnd(s, i, "").value]) else None
    case BioLine => BioAt(s, i)
    case MonthBracket =>
      if StartsAt(s, i, "[") && i + 4 <= |s| && IsMonthName(s[i + 1..i + 4]) then Some(s[i + 1..i + 4])
      else None
    case DateToken =>
      match DateTokenAt(s, i)
      case Some(g) => Some(s[i + 1..g])
      case None => None
  }

  /** `re.search` from `i`: the leftmost match. None of the patterns matches the empty text, so
      nothing starts at the very end. */
  function SearchFrom(n: Needle, s: string, i: nat): (r: Option<Found>)
    requires i <= |s|
    ensures r.Some? ==> i <= r.value.start < |s| && GroupAt(n, s, r.value.start) == Some(r.value.group)
    ensures r.Some? ==> forall j :: i <= j < r.value.start ==> GroupAt(n, s, j).None?
    ensures r.None? ==> forall j :: i <= j < |s| ==> GroupAt(n, s, j).None?
    decreases |s| - i
  {
    if i == |s| then None
    else
      match GroupAt(n, s, i)
      case Some(g) => Some(Found(i, g))
      case None =>
        var r := SearchFrom(n, s, i + 1);
        SearchSkip(n, s, i, r);
        r
  }

  /** No match at `i`: the search from `i` is the search from `i + 1`. */
  lemma SearchSkip(n: Needle, s: string, i: nat, r: Option<Found>)
    requires i < |s| && GroupAt(n, s, i).None?
    requires r.Some? ==> i + 1 <= r.value.start < |s| && GroupAt(n, s, r.value.start) == Some(r.value.group)
    requires r.Some? ==> forall j :: i + 1 <= j < r.value.start ==> GroupAt(n, s, j).None?
    requires r.None? ==> forall j :: i + 1 <= j < |s| ==> GroupAt(n, s, j).None?
    ensures r.Some? ==> i <= r.value.start < |s| && GroupAt(n, s, r.value.start) == Some(r.value.group)
    ensures r.Some? ==> forall j :: i <= j < r.value.start ==> GroupAt(n, s, j).None?
    ensures r.None? ==> forall j :: i <= j < |s| ==> GroupAt(n, s, j).None?
  {
  }

  function Search(n: Needle, s: string): (r: Option<Found>) {
    SearchFrom(n, s, 0)
  }

  // ---------------------------------------------------------------------------------------
  // The header

  /** The first handle written `@name`: the name without its `@`, all of its word characters. */
  function FirstHandle(content: string): (r: Option<string>)
    ensures r.None? <==> forall j :: 0 <= j < |content| ==> !HandleStart(content, j)
    ensures r.Some? ==> exists p :: (HandleStart(content, p)
      && r.value == content[p + 1..RunEnd(content, p + 1, Word)]
      && forall j :: 0 <= j < p ==> !HandleStart(content, j))
    ensures r.Some? ==> |r.value| > 0 && AllIn(Word, r.value)
  {
    match Search(Handle, content)
    case None =>
      forall j | 0 <= j < |content| ensures !HandleStart(content, j) {
        assert GroupAt(Handle, content, j).None?;
      }
      None
    case Some(f) =>
      var p := f.start;
      assert HandleStart(content, p) by {
        assert GroupAt(Handle, content, p).Some?;
      }
      forall j | 0 <= j < p ensures !HandleStart(content, j) {
        assert GroupAt(Handle, content, j).None?;
      }
      RunIsAllIn(content, p + 1, RunEnd(content, p + 1, Word), Word);
      Some(f.group)
  }

  /** The label of the leftmost link that carries a quoted title and is followed by an `@handle`
      link. */
  function DisplayNameLabel(content: string): (r: Option<string>)
    ensures r.Some? ==> exists p :: (0 <= p < |content| && LinkAt(content, p, DisplayNameLink).Some?
      && LabelEnd(content, p, "").Some? && r.value == content[p + 1..LabelEnd(content, p, "").value]
      && forall j :: 0 <= j < p ==> LinkAt(content, j, DisplayNameLink).None?)
    ensures r.None? <==> forall p :: 0 <= p < |content| ==> LinkAt(content, p, DisplayNameLink).None?
  {
    match Search(DisplayName, content)
    case None =>
      forall p | 0 <= p < |content| ensures LinkAt(content, p, DisplayNameLink).None? {
        assert GroupAt(DisplayName, content, p).None?;
      }
      None
    case Some(f) =>
      var p := f.start;
      assert LinkAt(content, p, DisplayNameLink).Some? by {
        assert GroupAt(DisplayName, content, p).Some?;
      }
      forall j | 0 <= j < p ensures LinkAt(content, j, DisplayNameLink).None? {
        assert GroupAt(DisplayName, content, j).None?;
      }
      Some(f.group)
  }

  /** The label found for the display name is a link label: non-empty, without `]`, and followed
      by `](`, a target, a quoted title and a `[@handle]` link, as the pattern reads. */
  lemma DisplayNameLabelSound(content: string) returns (p: nat, q: nat, a: nat, b: nat, c: nat, e: nat)
    requires DisplayNameLabel(content).Some?
    ensures LinkParts(content, p, DisplayNameLink, q, a, b, c, e)
    ensures var l := DisplayNameLabel(content).value;
      l == content[p + 1..q] && |l| > 0 && AllIn(AllBut(']'), l)
  {
    var f := Search(DisplayName, content).value;
    p := f.start;
    assert GroupAt(DisplayName, content, p) == Some(f.group);
    e := LinkAt(content, p, DisplayNameLink).value;
    q, a, b, c := LinkAtSound(content, p, DisplayNameLink, e);
    RunIsAllIn(content, p + 1, q, AllBut(']'));
  }

  /** The bio line, before `strip()`: what the pattern captures at the leftmost position where
      it matches; none only when it matches nowhere. */
  function BioText(content: string): (r: Option<string>)
    ensures r.None? <==> forall j :: 0 <= j < |content| ==> BioAt(content, j).None?
    ensures r.Some? ==> exists p :: (0 <= p < |content| && BioAt(content, p) == r
      && forall j :: 0 <= j < p ==> BioAt(content, j).None?)
  {
    match Search(BioLine, content)
    case None =>
      forall j | 0 <= j < |content| ensures BioAt(content, j).None? {
        assert GroupAt(BioLine, content, j).None?;
      }
      None
    case Some(f) =>
      var p := f.start;
      assert BioAt(content, p) == Some(f.group) by {
        assert GroupAt(BioLine, content, p) == Some(f.group);
      }
      forall j | 0 <= j < p ensures BioAt(content, j).None? {
        assert GroupAt(BioLine, content, j).None?;
      }
      Some(f.group)
  }

  /** Where `Bio:\s+([^\n]+)` can match at `i` with its group starting at `k`: `Bio:`, at least
      one whitespace character up to `k`, and a character at `k` that is not a line break. */
  predicate BioStartAt(s: string, i: nat, k: nat) {
    StartsAt(s, i, "Bio:") && i + 4 < k < |s| && AllIn(Space, s[i + 4..k]) && s[k] != '\n'
  }

  /** The matcher misses no match: wherever the pattern can match, `BioAt` finds one. */
  lemma BioAtComplete(s: string, i: nat, k: nat)
    requires BioStartAt(s, i, k)
    ensures BioAt(s, i).Some?
  {
    var w := i + 4;
    AllInIsRun(s, w, k, Space);
    var d := RunEnd(s, w, Space);
    if d == |s| {
      BioBacktrackFinds(s, w, d - 1, k);
    }
  }

  /** The backtracking search finds a start whenever one lies after `w`. */
  lemma {:induction false} BioBacktrackFinds(s: string, w: nat, k: nat, j: nat)
    requires w < j <= k < |s| && s[j] != '\n'
    ensures BioBacktrack(s, w, k).Some?
    decreases k
  {
    if s[k] == '\n' {
      BioBacktrackFinds(s, w, k - 1, j);
    }
  }

  /** What `Bio:\s+([^\n]+)` captures at `i` is one line, non-empty and without a line break,
      found at `k` after `Bio:` and at least one whitespace character. */
  lemma BioAtSound(s: string, i: nat) returns (k: nat)
    requires BioAt(s, i).Some?
    ensures var g := BioAt(s, i).value;
      && |g| > 0 && AllIn(AllBut('\n'), g)
      && StartsAt(s, i, "Bio:") && i + 4 < k && k + |g| <= |s|
      && AllIn(Space, s[i + 4..k]) && s[k..k + |g|] == g
      && (k + |g| == |s| || s[k + |g|] == '\n')
  {
    var w := i + 4;
    var d := RunEnd(s, w, Space);
    k := d;
    if d == |s| {
      k := BioBacktrackStart(s, w, d - 1);
    }
    var e := RunEnd(s, k, AllBut('\n'));
    RunIsAllIn(s, k, e, AllBut('\n'));
    RunIsAllIn(s, w, k, Space);
  }

  /** Where the backtracking search lets the bio start. */
  lemma {:induction false} BioBacktrackStart(s: string, w: nat, k: nat) returns (j: nat)
    requires k < |s| && BioBacktrack(s, w, k).Some?
    requires forall m :: w <= m <= k ==> IsSpace(s[m])
    ensures w < j <= k && s[j] != '\n'
    ensures BioBacktrack(s, w, k) == Some(s[j..RunEnd(s, j, AllBut('\n'))])
    decreases k
  {
    if s[k] != '\n' {
      j := k;
    } else {
      j := BioBacktrackStart(s, w, k - 1);
    }
  }

  // ---------------------------------------------------------------------------------------
  // Splitting the page into posts

  /** A line break followed by a date token: `\n(?=\[(?:Apr|...|Mar)\s+\d{1,2}\])`. */
  predicate IsSplitPoint(s: string, i: nat) {
    i < |s| && s[i] == '\n' && DateTokenAt(s, i + 1).Some?
  }

  /** `re.split` from `i`, the current piece having started at `a`. */
  function BlocksFrom(s: string, a: nat, i: nat): (r: seq<string>)
    requires a <= i <= |s|
    ensures |r| > 0
    decreases |s| - i
  {
    if i == |s| then [s[a..]]
    else if IsSplitPoint(s, i) then [s[a..i]] + BlocksFrom(s, i + 1, i + 1)
    else BlocksFrom(s, a, i + 1)
  }

  /** No line break in `p` is followed by a date token. */
  predicate NoSplitIn(p: string) {
    forall j: nat :: j < |p| ==> !IsSplitPoint(p, j)
  }

  /** `re.split(r'\n(?=\[(?:Apr|...|Mar)\s+\d{1,2}\])', content)`: the page is cut at every line
      break that a date token follows, and nowhere else. The pieces joined with line breaks give
      the page back, every piece after the first starts with its date token, and no piece still
      holds a line break followed by one. */
  function SplitBlocks(content: string): (r: seq<string>)
    ensures |r| > 0
    ensures JoinLines(r) == content
    ensures forall k :: 0 < k < |r| ==> DateTokenAt(r[k], 0).Some?
    ensures forall k :: 0 <= k < |r| ==> NoSplitIn(r[k])
  {
    JoinBlocksFrom(content, 0, 0);
    assert content[0..] == content;
    BlocksFromStartWithToken(content, 0, 0);
    BlocksFromNoSplit(content, 0, 0);
    BlocksFrom(content, 0, 0)
  }

  /** The pieces joined with line breaks. */
  function JoinLines(blocks: seq<string>): (r: string)
    requires |blocks| > 0
  {
    if |blocks| == 1 then blocks[0] else blocks[0] + "\n" + JoinLines(blocks[1..])
  }

  lemma {:induction false} JoinBlocksFrom(s: string, a: nat, i: nat)
    requires a <= i <= |s|
    ensures JoinLines(BlocksFrom(s, a, i)) == s[a..]
    decreases |s| - i
  {
    if i == |s| {
      assert BlocksFrom(s, a, i) == [s[a..]];
    } else if IsSplitPoint(s, i) {
      JoinBlocksFrom(s, i + 1, i + 1);
      JoinAtSplit(s, a, i, BlocksFrom(s, i + 1, i + 1));
    } else {
      JoinBlocksFrom(s, a, i + 1);
      assert BlocksFrom(s, a, i) == BlocksFrom(s, a, i + 1);
    }
  }

  lemma JoinAtSplit(s: string, a: nat, i: nat, rest: seq<string>)
    requires a <= i < |s| && IsSplitPoint(s, i) && rest == BlocksFrom(s, i + 1, i + 1)
    requires JoinLines(rest) == s[i + 1..]
    ensures JoinLines(BlocksFrom(s, a, i)) == s[a..]
  {
    assert BlocksFrom(s, a, i) == [s[a..i]] + rest;
    JoinCons(s[a..i], rest);
    SliceAtBreak(s, a, i);
  }

  lemma JoinCons(p: string, rest: seq<string>)
    requires |rest| > 0
    ensures JoinLines([p] + rest) == p + "\n" + JoinLines(rest)
  {
    assert ([p] + rest)[1..] == rest;
  }

  lemma SliceAtBreak(s: string, a: nat, i: nat)
    requires a <= i < |s| && s[i] == '\n'
    ensures s[a..] == s[a..i] + "\n" + s[i + 1..]
  {
  }

  /** The parts of a date token at `i`: a month name, whitespace up to `b`, one or two digits up
      to `g`, and the closing `]`. */
  lemma DateTokenParts(s: string, i: nat) returns (b: nat)
    requires DateTokenAt(s, i).Some?
    ensures var g := DateTokenAt(s, i).value;
      && s[i] == '[' && IsMonthName(s[i + 1..i + 4])
      && i + 4 < b < g <= b + 2 && s[g] == ']'
      && b == RunEnd(s, i + 4, Space)
      && (forall m :: i + 4 <= m < b ==> IsSpace(s[m]))
      && (forall m :: b <= m < g ==> IsDigit(s[m]))
  {
    b := RunEnd(s, i + 4, Space);
    StartsAtHead(s, i, "[");
    StartsAtHead(s, DateTokenAt(s, i).value, "]");
  }

  /** A month name is three letters. */
  lemma MonthNameLetters(x: string)
    requires IsMonthName(x)
    ensures |x| == 3 && forall m :: 0 <= m < 3 ==> ('A' <= x[m] <= 'Z') || ('a' <= x[m] <= 'z')
  {
  }

  /** The `Mon d` inside a date token always has the shape `parse_date` expects, so whether it
      parses depends only on whether that day exists in that month of the year the rule picks. */
  lemma DateTokenParses(s: string, i: nat, now: DateTime)
    requires DateTokenAt(s, i).Some? && Valid(now)
    ensures s[i + 1..i + 4] in Months
    ensures var g := DateTokenAt(s, i).value;
      var m := Months[s[i + 1..i + 4]];
      var d := NumeralValue(s[RunEnd(s, i + 4, Space)..g]);
      var y := ResolvedYear(m, now);
      && 1 <= m <= 12
      && ParseDate(s[i + 1..g], now) == if ValidDate(y, m, d) then Some(DateTime(y, m, d, 0)) else None
  {
    var g := DateTokenAt(s, i).value;
    var b := DateTokenParts(s, i);
    MonthsTable();
    var y := TokenFields(s, i, b);
    PyIntOfDigits(y);
  }

  /** The text of a date token splits into its month name and its day's digits. */
  lemma TokenFields(s: string, i: nat, b: nat) returns (y: string)
    requires DateTokenAt(s, i).Some?
    requires var g := DateTokenAt(s, i).value;
      && s[i] == '[' && IsMonthName(s[i + 1..i + 4])
      && i + 4 < b < g <= b + 2 && s[g] == ']'
      && (forall m :: i + 4 <= m < b ==> IsSpace(s[m]))
      && (forall m :: b <= m < g ==> IsDigit(s[m]))
    ensures y == s[b..DateTokenAt(s, i).value]
    ensures Fields(s[i + 1..DateTokenAt(s, i).value]) == [s[i + 1..i + 4], y]
    ensures |y| > 0 && forall m :: 0 <= m < |y| ==> IsDigit(y[m])
  {
    var g := DateTokenAt(s, i).value;
    var x, w := s[i + 1..i + 4], s[i + 4..b];
    y := s[b..g];
    MonthNameLetters(x);
    assert AllIn(NonSpace, x);
    assert AllIn(Space, w) by {
      forall m | 0 <= m < |w| ensures IsSpace(w[m]) {
        assert w[m] == s[i + 4 + m];
      }
    }
    assert forall m :: 0 <= m < |y| ==> IsDigit(y[m]) by {
      forall m | 0 <= m < |y| ensures IsDigit(y[m]) {
        assert y[m] == s[b + m];
      }
    }
    assert AllIn(NonSpace, y);
    assert s[i + 1..g] == x + w + y;
    FieldsOfTwo(x, w, y);
  }

  /** No line break inside a date token starts another one, so a split never cuts a token. */
  lemma NoSplitInsideToken(s: string, a: nat)
    requires DateTokenAt(s, a).Some?
    ensures forall j :: a <= j <= DateTokenAt(s, a).value ==> !IsSplitPoint(s, j)
  {
    var g := DateTokenAt(s, a).value;
    var b := DateTokenParts(s, a);
    MonthNameLetters(s[a + 1..a + 4]);
    var x := s[a + 1..a + 4];
    forall j | a <= j <= g ensures !IsSplitPoint(s, j) {
      StartsAtHead(s, j + 1, "[");
      if j < a + 4 {
        assert s[j] != '\n' by {
          if j > a {
            assert s[j] == x[j - a - 1];
          }
        }
      } else if j + 1 < b {
        assert IsSpace(s[j + 1]);
      } else if j + 1 < g {
        assert IsDigit(s[j + 1]);
      } else if j + 1 == g {
        assert s[j + 1] == ']';
      } else {
        assert s[j] == ']';
      }
    }
  }

  /** A date token at `a` is still one at the head of any piece that runs past it. */
  lemma DateTokenInPiece(s: string, a: nat, j: nat)
    requires DateTokenAt(s, a).Some? && DateTokenAt(s, a).value < j <= |s|
    ensures DateTokenAt(s[a..j], 0) == Some(DateTokenAt(s, a).value - a)
  {
    var g := DateTokenAt(s, a).value;
    var b := DateTokenParts(s, a);
    var t := s[a..j];
    assert t[1..4] == s[a + 1..a + 4] by {
      forall m | 0 <= m < 3 ensures t[1..4][m] == s[a + 1..a + 4][m] {
        assert t[1..4][m] == t[1 + m] == s[a + 1 + m];
      }
    }
    assert forall m :: 4 <= m < b - a ==> IsSpace(t[m]) by {
      forall m | 4 <= m < b - a ensures IsSpace(t[m]) {
        assert t[m] == s[a + m];
      }
    }
    assert forall m :: b - a <= m < g - a ==> IsDigit(t[m]) by {
      forall m | b - a <= m < g - a ensures IsDigit(t[m]) {
        assert t[m] == s[a + m];
      }
    }
    assert t[b - a] == s[b] && t[g - a] == s[g] && t[0] == s[a];
    DateTokenOfParts(t, 0, b - a, g - a);
  }

  /** The converse of `DateTokenParts`: the parts make a date token ending at `g`. */
  lemma DateTokenOfParts(s: string, i: nat, b: nat, g: nat)
    requires i + 4 < b < g <= b + 2 && g < |s|
    requires s[i] == '[' && IsMonthName(s[i + 1..i + 4]) && s[g] == ']'
    requires forall m :: i + 4 <= m < b ==> IsSpace(s[m])
    requires !IsSpace(s[b])
    requires forall m :: b <= m < g ==> IsDigit(s[m])
    ensures DateTokenAt(s, i) == Some(g)
  {
    assert StartsAt(s, i, "[") by { assert s[i..i + 1] == [s[i]]; }
    assert StartsAt(s, g, "]") by { assert s[g..g + 1] == [s[g]]; }
    RunEndUnique(s, i + 4, b, Space);
    RunEndUnique(s, b, g, Digit);
  }

  /** A piece that starts with a date token keeps it: no split falls inside the token. */
  lemma {:induction false} FirstBlockKeepsToken(s: string, a: nat, i: nat)
    requires a <= i <= |s| && DateTokenAt(s, a).Some?
    ensures DateTokenAt(BlocksFrom(s, a, i)[0], 0).Some?
    decreases |s| - i
  {
    if i == |s| {
      assert BlocksFrom(s, a, i)[0] == s[a..] == s[a..|s|];
      DateTokenInPiece(s, a, |s|);
    } else if IsSplitPoint(s, i) {
      assert BlocksFrom(s, a, i)[0] == s[a..i];
      NoSplitInsideToken(s, a);
      DateTokenInPiece(s, a, i);
    } else {
      FirstBlockKeepsToken(s, a, i + 1);
      assert BlocksFrom(s, a, i) == BlocksFrom(s, a, i + 1);
    }
  }

  lemma {:induction false} BlocksFromStartWithToken(s: string, a: nat, i: nat)
    requires a <= i <= |s|
    ensures forall k :: 0 < k < |BlocksFrom(s, a, i)| ==> DateTokenAt(BlocksFrom(s, a, i)[k], 0).Some?
    decreases |s| - i
  {
    if i == |s| {
      assert |BlocksFrom(s, a, i)| == 1;
    } else if IsSplitPoint(s, i) {
      FirstBlockKeepsToken(s, i + 1, i + 1);
      BlocksFromStartWithToken(s, i + 1, i + 1);
      TailsAfterSplit(s, a, i, BlocksFrom(s, i + 1, i + 1));
    } else {
      BlocksFromStartWithToken(s, a, i + 1);
      assert BlocksFrom(s, a, i) == BlocksFrom(s, a, i + 1);
    }
  }

  /** At a split, the pieces after the first are the piece that starts there and those after it. */
  lemma TailsAfterSplit(s: string, a: nat, i: nat, rest: seq<string>)
    requires a <= i < |s| && IsSplitPoint(s, i) && rest == BlocksFrom(s, i + 1, i + 1)
    requires DateTokenAt(rest[0], 0).Some?
    requires forall k :: 0 < k < |rest| ==> DateTokenAt(rest[k], 0).Some?
    ensures forall k :: 0 < k < |BlocksFrom(s, a, i)| ==> DateTokenAt(BlocksFrom(s, a, i)[k], 0).Some?
  {
    assert BlocksFrom(s, a, i) == [s[a..i]] + rest;
  }

  /** A date token inside a piece is one in the page, at the same place. */
  lemma TokenOfPiece(s: string, a: nat, e: nat, p: nat)
    requires a <= e <= |s|
    ensures DateTokenAt(s[a..e], p).Some? ==> DateTokenAt(s, a + p) == Some(DateTokenAt(s[a..e], p).value + a)
  {
    var t := s[a..e];
    if DateTokenAt(t, p).Some? {
      var g := DateTokenAt(t, p).value;
      var b := DateTokenParts(t, p);
      SameMonth(s, a, e, p);
      forall m | a + p + 4 <= m < a + b ensures IsSpace(s[m]) {
        assert s[m] == t[m - a];
      }
      forall m | a + b <= m < a + g ensures IsDigit(s[m]) {
        assert s[m] == t[m - a];
      }
      assert s[a + p] == t[p] && s[a + b] == t[b] && s[a + g] == t[g];
      DateTokenOfParts(s, a + p, a + b, a + g);
    }
  }

  lemma SameMonth(s: string, a: nat, e: nat, p: nat)
    requires a <= e <= |s| && p + 4 <= e - a
    ensures s[a + p + 1..a + p + 4] == s[a..e][p + 1..p + 4]
  {
    var t := s[a..e];
    var x, y := s[a + p + 1..a + p + 4], t[p + 1..p + 4];
    forall m | 0 <= m < 3 ensures x[m] == y[m] {
      assert y[m] == t[p + 1 + m];
    }
  }

  /** A stretch of the page with no split point in it gives a piece with none. */
  lemma PieceNoSplit(s: string, a: nat, e: nat)
    requires a <= e <= |s|
    requires forall j :: a <= j < e ==> !IsSplitPoint(s, j)
    ensures NoSplitIn(s[a..e])
  {
    forall j: nat | j < e - a ensures !IsSplitPoint(s[a..e], j) {
      PieceNoSplitAt(s, a, e, j);
    }
  }

  lemma PieceNoSplitAt(s: string, a: nat, e: nat, j: nat)
    requires a + j < e <= |s| && !IsSplitPoint(s, a + j)
    ensures !IsSplitPoint(s[a..e], j)
  {
    assert s[a..e][j] == s[a + j];
    TokenOfPiece(s, a, e, j + 1);
  }

  /** No piece `re.split` returns holds a split point, when none lies between `a` and `i`. */
  lemma {:induction false} BlocksFromNoSplit(s: string, a: nat, i: nat)
    requires a <= i <= |s|
    requires forall j :: a <= j < i ==> !IsSplitPoint(s, j)
    ensures forall k :: 0 <= k < |BlocksFrom(s, a, i)| ==> NoSplitIn(BlocksFrom(s, a, i)[k])
    decreases |s| - i
  {
    if i == |s| {
      PieceNoSplit(s, a, |s|);
      assert s[a..] == s[a..|s|];
      assert BlocksFrom(s, a, i) == [s[a..|s|]];
    } else if IsSplitPoint(s, i) {
      PieceNoSplit(s, a, i);
      BlocksFromNoSplit(s, i + 1, i + 1);
      PiecesAfterSplit(s, a, i, BlocksFrom(s, i + 1, i + 1));
    } else {
      BlocksFromNoSplit(s, a, i + 1);
      assert BlocksFrom(s, a, i) == BlocksFrom(s, a, i + 1);
    }
  }

  lemma PiecesAfterSplit(s: string, a: nat, i: nat, rest: seq<string>)
    requires a <= i < |s| && IsSplitPoint(s, i) && rest == BlocksFrom(s, i + 1, i + 1)
    requires NoSplitIn(s[a..i])
    requires forall k :: 0 <= k < |rest| ==> NoSplitIn(rest[k])
    ensures forall k :: 0 <= k < |BlocksFrom(s, a, i)| ==> NoSplitIn(BlocksFrom(s, a, i)[k])
  {
    assert BlocksFrom(s, a, i) == [s[a..i]] + rest;
  }

  // ---------------------------------------------------------------------------------------
  // One post

  /** `re.search(r'\[(Apr|...|Mar)', block)` found something. */
  predicate HasMonthBracket(block: string) {
    Search(MonthBracket, block).Some?
  }

  /** The first `Mon d` token of the block, brackets removed. */
  function FirstDateToken(block: string): (r: Option<string>)
    ensures r.Some? <==> exists p :: 0 <= p < |block| && DateTokenAt(block, p).Some?
    ensures r.Some? ==> exists p :: (0 <= p < |block| && DateTokenAt(block, p).Some?
      && r.value == block[p + 1..DateTokenAt(block, p).value]
      && forall j :: 0 <= j < p ==> DateTokenAt(block, j).None?)
  {
    match Search(DateToken, block)
    case None =>
      forall p | 0 <= p < |block| ensures DateTokenAt(block, p).None? {
        assert GroupAt(DateToken, block, p).None?;
      }
      None
    case Some(f) =>
      var p := f.start;
      assert DateTokenAt(block, p).Some? by {
        assert GroupAt(DateToken, block, p).Some?;
      }
      forall j | 0 <= j < p ensures DateTokenAt(block, j).None? {
        assert GroupAt(DateToken, block, j).None?;
      }
      Some(f.group)
  }

  /** A piece that opens with a date token takes its time from that token. */
  lemma FirstDateTokenAtHead(block: string)
    requires DateTokenAt(block, 0).Some?
    ensures FirstDateToken(block) == Some(block[1..DateTokenAt(block, 0).value])
  {
    var p :| 0 <= p < |block| && DateTokenAt(block, p).Some?
      && FirstDateToken(block).value == block[p + 1..DateTokenAt(block, p).value]
      && forall j :: 0 <= j < p ==> DateTokenAt(block, j).None?;
  }

  /** The test for a `[Mon` bracket never rejects a block in which the search for a date token
      would succeed: the token starts with such a bracket. */
  lemma DateTokenHasMonthBracket(block: string)
    ensures FirstDateToken(block).Some? ==> HasMonthBracket(block)
  {
    if FirstDateToken(block).Some? {
      var p :| 0 <= p < |block| && DateTokenAt(block, p).Some?;
      assert GroupAt(MonthBracket, block, p).Some?;
    }
  }

  /** The body of the loop over blocks, for one block: the post it keeps, if any. */
  function BlockTweet(block: string, maxDays: int, now: DateTime): (r: Option<Tweet>)
    requires Valid(now)
    ensures r.Some? ==> var t := r.value;
      && t.text != [] && t.text == CleanTweetText(block)
      && FirstDateToken(block) == Some(t.time) && IsWithinDays(t.time, maxDays, now)
      && t.retweets == ExtractEngagementMetrics(block).retweets
      && t.quotes == ExtractEngagementMetrics(block).quotes
      && t.replies == ExtractEngagementMetrics(block).replies
      && t.likes == ExtractEngagementMetrics(block).likes
    ensures r.None? <==>
      || Strip(block) == []
      || FirstDateToken(block).None?
      || !IsWithinDays(FirstDateToken(block).value, maxDays, now)
      || CleanTweetText(block) == []
  {
    if Strip(block) == [] || !HasMonthBracket(block) then
      DateTokenHasMonthBracket(block);
      None
    else
      match FirstDateToken(block)
      case None => None
      case Some(time) =>
        if !IsWithinDays(time, maxDays, now) then None
        else
          var m := ExtractEngagementMetrics(block);
          var text := CleanTweetText(block);
          if text == [] then None
          else Some(Tweet(text, time, m.likes, m.retweets, m.quotes, m.replies))
  }

  /** The values present in a list of options, in order. */
  function Kept<T>(opts: seq<Option<T>>): (r: seq<T>) {
    if opts == [] then []
    else Kept(opts[..|opts| - 1]) + match opts[|opts| - 1] case Some(t) => [t] case None => []
  }

  /** One more option adds its value, if any, at the end. */
  lemma KeptStep<T>(opts: seq<Option<T>>, i: nat)
    requires i < |opts|
    ensures Kept(opts[..i + 1]) == Kept(opts[..i]) + match opts[i] case Some(t) => [t] case None => []
  {
    assert opts[..i + 1][..i] == opts[..i];
  }

  /** `Kept` loses no value and keeps their order: `idx` says where each one comes from. */
  lemma {:induction false} KeptOrder<T>(opts: seq<Option<T>>) returns (idx: seq<nat>)
    ensures |idx| == |Kept(opts)|
    ensures forall k :: 0 <= k < |idx| ==> idx[k] < |opts| && opts[idx[k]] == Some(Kept(opts)[k])
    ensures forall k, l :: 0 <= k < l < |idx| ==> idx[k] < idx[l]
    ensures forall b :: 0 <= b < |opts| && opts[b].Some? ==> b in idx
    decreases |opts|
  {
    if opts == [] {
      idx := [];
    } else {
      var n := |opts| - 1;
      var front := opts[..n];
      var pre := KeptOrder(front);
      if opts[n].Some? {
        idx := KeptOrderSome(opts, pre);
      } else {
        idx := pre;
        forall b | 0 <= b < |opts| && opts[b].Some? ensures b in idx {
          assert opts[b] == front[b];
        }
      }
    }
  }

  /** The step of `KeptOrder` where the last option holds a value. */
  lemma KeptOrderSome<T>(opts: seq<Option<T>>, pre: seq<nat>) returns (idx: seq<nat>)
    requires |opts| > 0 && opts[|opts| - 1].Some?
    requires var front := opts[..|opts| - 1];
      && |pre| == |Kept(front)|
      && (forall k :: 0 <= k < |pre| ==> pre[k] < |front| && front[pre[k]] == Some(Kept(front)[k]))
      && (forall k, l :: 0 <= k < l < |pre| ==> pre[k] < pre[l])
      && (forall b :: 0 <= b < |front| && front[b].Some? ==> b in pre)
    ensures |idx| == |Kept(opts)|
    ensures forall k :: 0 <= k < |idx| ==> idx[k] < |opts| && opts[idx[k]] == Some(Kept(opts)[k])
    ensures forall k, l :: 0 <= k < l < |idx| ==> idx[k] < idx[l]
    ensures forall b :: 0 <= b < |opts| && opts[b].Some? ==> b in idx
  {
    var n := |opts| - 1;
    var front := opts[..n];
    idx := pre + [n];
    assert Kept(opts) == Kept(front) + [opts[n].value];
    forall k | 0 <= k < |idx| ensures idx[k] < |opts| && opts[idx[k]] == Some(Kept(opts)[k]) {
      if k < |pre| {
        assert opts[pre[k]] == front[pre[k]];
      }
    }
    forall b | 0 <= b < |opts| && opts[b].Some? ensures b in idx {
      if b < n {
        assert opts[b] == front[b];
      }
    }
  }

  /** What the loop body makes of each block. */
  function Outcomes(blocks: seq<string>, maxDays: int, now: DateTime): (r: seq<Option<Tweet>>)
    requires Valid(now)
    ensures |r| == |blocks|
    ensures forall k :: 0 <= k < |blocks| ==> r[k] == BlockTweet(blocks[k], maxDays, now)
  {
    seq(|blocks|, k requires 0 <= k < |blocks| => BlockTweet(blocks[k], maxDays, now))
  }

  /** The posts kept from a list of blocks, in block order. */
  function TweetsOf(blocks: seq<string>, maxDays: int, now: DateTime): (r: seq<Tweet>)
    requires Valid(now)
  {
    Kept(Outcomes(blocks, maxDays, now))
  }

  /** The posts kept are exactly those of the blocks that yield one, in the blocks' order:
      `idx` says which block each post comes from. */
  lemma TweetsOfOrder(blocks: seq<string>, maxDays: int, now: DateTime) returns (idx: seq<nat>)
    requires Valid(now)
    ensures var ts := TweetsOf(blocks, maxDays, now);
      && |idx| == |ts|
      && (forall k :: 0 <= k < |idx| ==> idx[k] < |blocks| && BlockTweet(blocks[idx[k]], maxDays, now) == Some(ts[k]))
      && (forall k, l :: 0 <= k < l < |idx| ==> idx[k] < idx[l])
      && (forall b :: 0 <= b < |blocks| && BlockTweet(blocks[b], maxDays, now).Some? ==> b in idx)
  {
    idx := KeptOrder(Outcomes(blocks, maxDays, now));
  }

  // ---------------------------------------------------------------------------------------
  // The parser

  /** `dict.get(key, default)`. */
  function Get(fields: map<string, string>, key: string, default: string): (v: string) {
    if key in fields then fields[key] else default
  }

  /** The loop over the blocks, skipping blank blocks, blocks without a date
      token, old posts and posts whose cleaned text is empty. */
  method CollectTweets(blocks: seq<string>, maxDays: int, now: DateTime) returns (tweets: seq<Tweet>)
    requires Valid(now)
    ensures tweets == TweetsOf(blocks, maxDays, now)
    ensures forall t :: t in tweets ==>
      && t.text != [] && IsWithinDays(t.time, maxDays, now)
      && t.likes.None? && t.retweets.None? && t.quotes.None? && t.replies.None?
  {
    tweets := [];
    ghost var outcomes := Outcomes(blocks, maxDays, now);
    for i := 0 to |blocks|
      invariant tweets == Kept(outcomes[..i])
      invariant forall t :: t in tweets ==>
        && t.text != [] && IsWithinDays(t.time, maxDays, now)
        && t.likes.None? && t.retweets.None? && t.quotes.None? && t.replies.None?
    {
      var block := blocks[i];
      KeptStep(outcomes, i);
      if Strip(block) == [] || !HasMonthBracket(block) {
        assert outcomes[i] == None;
        continue;
      }
      var timeMatch := FirstDateToken(block);
      if timeMatch.None? {
        assert outcomes[i] == None;
        continue;
      }
      var time := timeMatch.value;
      if !IsWithinDays(time, maxDays, now) {
        assert outcomes[i] == None;
        continue;
      }
      var metrics := ExtractEngagementMetrics(block);
      MetricsAlwaysNone(block);
      var text := CleanTweetText(block);
      if text != [] {
        var tweet := Tweet(text, time, metrics.likes, metrics.retweets, metrics.quotes,
                           metrics.replies);
        assert outcomes[i] == Some(tweet);
        tweets := tweets + [tweet];
      } else {
        assert outcomes[i] == None;
      }
    }
    assert outcomes[..|blocks|] == outcomes;
  }

  /** The `profile` dictionary of header fields. `username` and `display_name`
      are set only when some `@handle` occurs; `bio` only when a bio line is found. */
  method ProfileHeader(content: string) returns (fields: map<string, string>)
    ensures Get(fields, "username", "") == match FirstHandle(content) case Some(h) => "@" + h case None => ""
    ensures Get(fields, "display_name", "") ==
      match FirstHandle(content)
      case None => ""
      case Some(h) => (match DisplayNameLabel(content) case Some(l) => l case None => h)
    ensures ("bio" in fields) == BioText(content).Some?
    ensures "bio" in fields ==> fields["bio"] == Strip(BioText(content).value)
  {
    fields := HeaderFields(FirstHandle(content), DisplayNameLabel(content), BioText(content));
  }

  /** The dictionary filled from what the three searches found. */
  method HeaderFields(handle: Option<string>, nameLink: Option<string>, bio: Option<string>)
    returns (fields: map<string, string>)
    ensures Get(fields, "username", "") == match handle case Some(h) => "@" + h case None => ""
    ensures Get(fields, "display_name", "") ==
      match handle
      case None => ""
      case Some(h) => (match nameLink case Some(l) => l case None => h)
    ensures ("bio" in fields) == bio.Some?
    ensures "bio" in fields ==> fields["bio"] == Strip(bio.value)
  {
    fields := map[];
    if handle.Some? {
      fields := fields["username" := "@" + handle.value];
      if nameLink.Some? {
        fields := fields["display_name" := nameLink.value];
      } else {
        fields := fields["display_name" := handle.value];
      }
    }
    if bio.Some? {
      fields := fields["bio" := Strip(bio.value)];
    }
  }

  /** `parse_nitter_content(content, max_days)`, with the current moment given as `now`. */
  method ParseNitterContent(content: string, maxDays: int, now: DateTime) returns (profile: Profile)
    requires Valid(now)
    ensures profile.username == match FirstHandle(content) case Some(h) => "@" + h case None => ""
    ensures profile.displayName ==
      match FirstHandle(content)
      case None => ""
      case Some(h) => (match DisplayNameLabel(content) case Some(l) => l case None => h)
    ensures profile.bio == match BioText(content) case Some(b) => Some(Strip(b)) case None => None
    ensures profile.tweets == TweetsOf(SplitBlocks(content), maxDays, now)
    ensures forall t :: t in profile.tweets ==>
      && t.text != [] && IsWithinDays(t.time, maxDays, now)
      && t.likes.None? && t.retweets.None? && t.quotes.None? && t.replies.None?
  {
    var fields := ProfileHeader(content);
    var bio := if "bio" in fields then Some(fields["bio"]) else None;
    var tweets := CollectTweets(SplitBlocks(content), maxDays, now);
    profile := Profile(Get(fields, "username", ""), Get(fields, "display_name", ""), bio, tweets);
  }
}
