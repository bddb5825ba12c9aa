/** The scope boundary resolver (findScopeStart / findScopeEnd): two lexical
    scans from the cursor offset, one backward to the innermost unmatched
    opening bracket and one forward to the innermost unmatched closing
    bracket, each overridden by an odd count of one of the three quote
    characters. Brackets of the three kinds are counted independently, quotes
    by parity; there is no escape handling. */
module Scope {
  import opened Text

  // ---------------------------------------------------------------------
  // Counting characters

  /** Number of occurrences of c in s. */
  function Count(s: seq<char>, c: char): nat {
    if s == [] then 0 else Hit(s[0], c) + Count(s[1..], c)
  }

  function Hit(x: char, c: char): nat {
    if x == c then 1 else 0
  }

  /** Only a character that occurs is counted. */
  lemma {:induction false} CountOccurs(s: seq<char>, c: char)
    ensures Count(s, c) > 0 <==> c in s
  {
    if s != [] {
      CountOccurs(s[1..], c);
      assert s == [s[0]] + s[1..];
    }
  }

  lemma {:induction false} CountAppend(a: seq<char>, b: seq<char>, c: char)
    ensures Count(a + b, c) == Count(a, c) + Count(b, c)
  {
    if a == [] {
      assert a + b == b;
    } else {
      assert (a + b)[1..] == a[1..] + b;
      CountAppend(a[1..], b, c);
    }
  }

  /** Openers minus closers of one kind: the net value of a counter that
      goes up on `up` and down on `down`. */
  function Net(s: seq<char>, up: char, down: char): int {
    Count(s, up) - Count(s, down)
  }

  predicate IsBracket(c: char) {
    c == '(' || c == ')' || c == '[' || c == ']' || c == '{' || c == '}'
  }

  predicate IsQuote(c: char) {
    c == '"' || c == '\'' || c == '`'
  }

  /** Some kind of bracket has more openers than closers in s. */
  predicate HasUnmatchedOpener(s: seq<char>) {
    Net(s, '(', ')') > 0 || Net(s, '[', ']') > 0 || Net(s, '{', '}') > 0
  }

  /** Some kind of bracket has more closers than openers in s. */
  predicate HasUnmatchedCloser(s: seq<char>) {
    Net(s, ')', '(') > 0 || Net(s, ']', '[') > 0 || Net(s, '}', '{') > 0
  }

  /** Index of the last c in s, or -1. */
  function LastIndexOf(s: seq<char>, c: char): (r: int)
    ensures -1 <= r < |s|
    ensures r == -1 <==> c !in s
    ensures r >= 0 ==> s[r] == c && forall k :: r < k < |s| ==> s[k] != c
  {
    if s == [] then -1
    else if s[|s| - 1] == c then |s| - 1
    else LastIndexOf(s[..|s| - 1], c)
  }

  /** Index of the first c in s, or -1. */
  function FirstIndexOf(s: seq<char>, c: char): (r: int)
    ensures -1 <= r < |s|
    ensures r == -1 <==> c !in s
    ensures r >= 0 ==> s[r] == c && forall k :: 0 <= k < r ==> s[k] != c
  {
    if s == [] then -1
    else if s[0] == c then 0
    else var t := FirstIndexOf(s[1..], c); if t < 0 then -1 else t + 1
  }

  /** The backward scan's record of quote c after reading text[lo..e]: one
      past the nearest c at or before the cursor, -1 while none was read. */
  function BackQuotePosition(text: seq<char>, lo: nat, e: nat, c: char): int
    requires lo <= e <= |text|
  {
    var k := LastIndexOf(text[lo..e], c);
    if k < 0 then -1 else lo + k + 1
  }

  /** The forward scan's record of quote c after reading text[b..h]: the
      offset of the first c at or after the cursor, -1 while none was read. */
  function ForwardQuotePosition(text: seq<char>, b: nat, h: nat, c: char): int
    requires b <= h <= |text|
  {
    var k := FirstIndexOf(text[b..h], c);
    if k < 0 then -1 else b + k
  }

  // ---------------------------------------------------------------------
  // The scan state and one step of each scan

  /** The variables findScopeStart and findScopeEnd update while they scan:
      three bracket counters, and per quote style an occurrence count and the
      position recorded at its first occurrence (-1 until then). */
  datatype Tally = Tally(
    parentheses: int, brackets: int, braces: int,
    q1: int, q1Position: int, q2: int, q2Position: int, q3: int, q3Position: int)

  const Fresh := Tally(0, 0, 0, 0, -1, 0, -1, 0, -1)

  function Delta(x: char, up: char, down: char): int {
    if x == up then 1 else if x == down then -1 else 0
  }

  function FirstSeen(recorded: int, x: char, c: char, at: int): int {
    if x == c && recorded == -1 then at else recorded
  }

  /** One step of the backward scan reading x at index: an opener raises
      and a closer lowers only its own counter; a quote is counted and, the
      first time, index + 1 recorded. */
  function BackStep(t: Tally, x: char, index: int): (r: Tally)
    ensures !IsBracket(x) && !IsQuote(x) ==> r == t
    ensures Halted(r) && !Halted(t) ==> x in "([{"
  {
    Tally(
      t.parentheses + Delta(x, '(', ')'), t.brackets + Delta(x, '[', ']'), t.braces + Delta(x, '{', '}'),
      t.q1 + Hit(x, '"'), FirstSeen(t.q1Position, x, '"', index + 1),
      t.q2 + Hit(x, '\''), FirstSeen(t.q2Position, x, '\'', index + 1),
      t.q3 + Hit(x, '`'), FirstSeen(t.q3Position, x, '`', index + 1))
  }

  /** One step of the forward scan reading x at index: closers raise and
      openers lower; a quote is counted and, the first time, index recorded. */
  function ForwardStep(t: Tally, x: char, index: int): (r: Tally)
    ensures !IsBracket(x) && !IsQuote(x) ==> r == t
    ensures Halted(r) && !Halted(t) ==> x in ")]}"
  {
    Tally(
      t.parentheses + Delta(x, ')', '('), t.brackets + Delta(x, ']', '['), t.braces + Delta(x, '}', '{'),
      t.q1 + Hit(x, '"'), FirstSeen(t.q1Position, x, '"', index),
      t.q2 + Hit(x, '\''), FirstSeen(t.q2Position, x, '\'', index),
      t.q3 + Hit(x, '`'), FirstSeen(t.q3Position, x, '`', index))
  }

  /** The backward scan's variables once it has read text[lo..e], from index
      e - 1 down to lo. */
  function BackTally(text: seq<char>, lo: nat, e: nat): Tally
    requires lo <= e <= |text|
    decreases e - lo
  {
    if lo == e then Fresh else BackStep(BackTally(text, lo + 1, e), text[lo], lo)
  }

  /** The forward scan's variables once it has read text[b..h]. */
  function ForwardTally(text: seq<char>, b: nat, h: nat): Tally
    requires b <= h <= |text|
    decreases h - b
  {
    if h == b then Fresh else ForwardStep(ForwardTally(text, b, h - 1), text[h - 1], h - 1)
  }

  /** The halting condition of both loops: some bracket counter is positive. */
  predicate Halted(t: Tally) {
    t.parentheses > 0 || t.brackets > 0 || t.braces > 0
  }

  /** The backward scan halts once it has read text[q..e]. */
  predicate HaltsBackAt(text: seq<char>, q: nat, e: nat)
    requires q <= e <= |text|
  {
    Halted(BackTally(text, q, e))
  }

  /** The forward scan from b halts once it has read text[b..k]. */
  predicate HaltsForwardAt(text: seq<char>, b: nat, k: nat)
    requires b <= k <= |text|
  {
    Halted(ForwardTally(text, b, k))
  }

  // ---------------------------------------------------------------------
  // What the scan state means

  lemma CountStepBack(text: seq<char>, lo: nat, e: nat, c: char)
    requires lo < e <= |text|
    ensures Count(text[lo..e], c) == Hit(text[lo], c) + Count(text[lo + 1..e], c)
  {
    assert text[lo..e][1..] == text[lo + 1..e];
  }

  lemma CountStepForward(text: seq<char>, b: nat, h: nat, c: char)
    requires b < h <= |text|
    ensures Count(text[b..h], c) == Count(text[b..h - 1], c) + Hit(text[h - 1], c)
  {
    assert text[b..h] == text[b..h - 1] + [text[h - 1]];
    CountAppend(text[b..h - 1], [text[h - 1]], c);
  }

  lemma BackQuotePositionStep(text: seq<char>, lo: nat, e: nat, c: char)
    requires lo < e <= |text|
    ensures BackQuotePosition(text, lo, e, c) == FirstSeen(BackQuotePosition(text, lo + 1, e, c), text[lo], c, lo + 1)
  {
    var s, t := text[lo + 1..e], text[lo..e];
    assert forall m :: 0 < m < |t| ==> t[m] == s[m - 1];
    var k := LastIndexOf(s, c);
    if k >= 0 {
      assert t[k + 1] == c;
    }
  }

  lemma ForwardQuotePositionStep(text: seq<char>, b: nat, h: nat, c: char)
    requires b < h <= |text|
    ensures ForwardQuotePosition(text, b, h, c) == FirstSeen(ForwardQuotePosition(text, b, h - 1, c), text[h - 1], c, h - 1)
  {
    var s, t := text[b..h - 1], text[b..h];
    assert forall m :: 0 <= m < |s| ==> t[m] == s[m];
    assert t[|s|] == text[h - 1];
  }

  lemma NetStepBack(text: seq<char>, lo: nat, e: nat, up: char, down: char)
    requires lo < e <= |text| && up != down
    ensures Net(text[lo..e], up, down) == Delta(text[lo], up, down) + Net(text[lo + 1..e], up, down)
  {
    CountStepBack(text, lo, e, up);
    CountStepBack(text, lo, e, down);
  }

  lemma NetStepForward(text: seq<char>, b: nat, h: nat, up: char, down: char)
    requires b < h <= |text| && up != down
    ensures Net(text[b..h], up, down) == Net(text[b..h - 1], up, down) + Delta(text[h - 1], up, down)
  {
    CountStepForward(text, b, h, up);
    CountStepForward(text, b, h, down);
  }

  /** What the backward scan's variables mean after reading text[lo..e]:
      each bracket counter is the number of its own openers minus its own
      closers among the characters read (other kinds never interfere), each
      quote count the number of that quote read, each position one past the
      nearest such quote at or before the cursor. */
  function BackMeaning(text: seq<char>, lo: nat, e: nat): Tally
    requires lo <= e <= |text|
  {
    var s := text[lo..e];
    Tally(
      Net(s, '(', ')'), Net(s, '[', ']'), Net(s, '{', '}'),
      Count(s, '"'), BackQuotePosition(text, lo, e, '"'),
      Count(s, '\''), BackQuotePosition(text, lo, e, '\''),
      Count(s, '`'), BackQuotePosition(text, lo, e, '`'))
  }

  /** The same for the forward scan after reading text[b..h]; closers count
      up, and the positions are those of the first such quote at or after
      the cursor. */
  function ForwardMeaning(text: seq<char>, b: nat, h: nat): Tally
    requires b <= h <= |text|
  {
    var s := text[b..h];
    Tally(
      Net(s, ')', '('), Net(s, ']', '['), Net(s, '}', '{'),
      Count(s, '"'), ForwardQuotePosition(text, b, h, '"'),
      Count(s, '\''), ForwardQuotePosition(text, b, h, '\''),
      Count(s, '`'), ForwardQuotePosition(text, b, h, '`'))
  }

  lemma BackMeaningStep(text: seq<char>, lo: nat, e: nat)
    requires lo < e <= |text|
    ensures BackMeaning(text, lo, e) == BackStep(BackMeaning(text, lo + 1, e), text[lo], lo)
  {
    NetStepBack(text, lo, e, '(', ')');
    NetStepBack(text, lo, e, '[', ']');
    NetStepBack(text, lo, e, '{', '}');
    CountStepBack(text, lo, e, '"');
    CountStepBack(text, lo, e, '\'');
    CountStepBack(text, lo, e, '`');
    BackQuotePositionStep(text, lo, e, '"');
    BackQuotePositionStep(text, lo, e, '\'');
    BackQuotePositionStep(text, lo, e, '`');
  }

  lemma ForwardMeaningStep(text: seq<char>, b: nat, h: nat)
    requires b < h <= |text|
    ensures ForwardMeaning(text, b, h) == ForwardStep(ForwardMeaning(text, b, h - 1), text[h - 1], h - 1)
  {
    NetStepForward(text, b, h, ')', '(');
    NetStepForward(text, b, h, ']', '[');
    NetStepForward(text, b, h, '}', '{');
    CountStepForward(text, b, h, '"');
    CountStepForward(text, b, h, '\'');
    CountStepForward(text, b, h, '`');
    ForwardQuotePositionStep(text, b, h, '"');
    ForwardQuotePositionStep(text, b, h, '\'');
    ForwardQuotePositionStep(text, b, h, '`');
  }

  /** The backward scan's variables are their meaning. */
  lemma {:induction false} BackTallyMeaning(text: seq<char>, lo: nat, e: nat)
    requires lo <= e <= |text|
    ensures BackTally(text, lo, e) == BackMeaning(text, lo, e)
    decreases e - lo
  {
    if lo < e {
      calc {
        BackTally(text, lo, e);
        BackStep(BackTally(text, lo + 1, e), text[lo], lo);
        { BackTallyMeaning(text, lo + 1, e); }
        BackStep(BackMeaning(text, lo + 1, e), text[lo], lo);
        { BackMeaningStep(text, lo, e); }
        BackMeaning(text, lo, e);
      }
    }
  }

  /** The forward scan's variables are their meaning. */
  lemma {:induction false} ForwardTallyMeaning(text: seq<char>, b: nat, h: nat)
    requires b <= h <= |text|
    ensures ForwardTally(text, b, h) == ForwardMeaning(text, b, h)
    decreases h - b
  {
    if b < h {
      calc {
        ForwardTally(text, b, h);
        ForwardStep(ForwardTally(text, b, h - 1), text[h - 1], h - 1);
        { ForwardTallyMeaning(text, b, h - 1); }
        ForwardStep(ForwardMeaning(text, b, h - 1), text[h - 1], h - 1);
        { ForwardMeaningStep(text, b, h); }
        ForwardMeaning(text, b, h);
      }
    }
  }

  /** The backward scan halts exactly where some kind of bracket has more
      openers than closers among the characters read. */
  lemma HaltsBackAtMeaning(text: seq<char>, q: nat, e: nat)
    requires q <= e <= |text|
    ensures HaltsBackAt(text, q, e) <==> HasUnmatchedOpener(text[q..e])
  {
    BackTallyMeaning(text, q, e);
  }

  /** The forward scan halts exactly where some kind of bracket has more
      closers than openers among the characters read. */
  lemma HaltsForwardAtMeaning(text: seq<char>, b: nat, k: nat)
    requires b <= k <= |text|
    ensures HaltsForwardAt(text, b, k) <==> HasUnmatchedCloser(text[b..k])
  {
    ForwardTallyMeaning(text, b, k);
  }

  // ---------------------------------------------------------------------
  // Where each scan halts

  /** The backward scan over text[..e], when it has come down to j without
      halting: the first (largest) index p < j at which it halts. */
  function LastOpener(text: seq<char>, e: nat, j: nat): (r: Option<nat>)
    requires j <= e <= |text|
    ensures r.Some? ==> r.value < j && HaltsBackAt(text, r.value, e)
    ensures r.Some? ==> forall q :: r.value < q < j ==> !HaltsBackAt(text, q, e)
    ensures r.None? ==> forall q :: 0 <= q < j ==> !HaltsBackAt(text, q, e)
    decreases j
  {
    if j == 0 then None
    else if HaltsBackAt(text, j - 1, e) then Some(j - 1)
    else LastOpener(text, e, j - 1)
  }

  /** The forward scan from b, when it has read text[b..h] without halting:
      the first (smallest) k >= h such that it halts once it has read
      text[b..k], that is, the index just past the unmatched closer. */
  function FirstCloser(text: seq<char>, b: nat, h: nat): (r: Option<nat>)
    requires b <= h <= |text|
    ensures r.Some? ==> h <= r.value <= |text| && HaltsForwardAt(text, b, r.value)
    ensures r.Some? ==> forall k :: h <= k < r.value ==> !HaltsForwardAt(text, b, k)
    ensures r.None? ==> forall k :: h <= k <= |text| ==> !HaltsForwardAt(text, b, k)
    decreases |text| - h
  {
    if HaltsForwardAt(text, b, h) then Some(h)
    else if h == |text| then None
    else FirstCloser(text, b, h + 1)
  }

  /** One past the last index the backward scan reads (the cursor's index,
      unless the cursor is at the very end). */
  function BackScanTop(text: seq<char>, offset: nat): nat
    requires offset <= |text|
  {
    Min(offset + 1, |text|)
  }

  /** The lowest index the backward scan reads: where it halted, or 0. */
  function BackScanBottom(text: seq<char>, offset: nat): (lo: nat)
    requires offset <= |text|
    ensures lo <= BackScanTop(text, offset)
  {
    var e := BackScanTop(text, offset);
    match LastOpener(text, e, e)
    case Some(p) => p
    case None => 0
  }

  /** Where the forward scan stops reading: just past the unmatched closer,
      or the end of the text. */
  function ForwardScanTop(text: seq<char>, offset: nat): (hi: nat)
    requires offset <= |text|
    ensures offset <= hi <= |text|
  {
    match FirstCloser(text, offset, offset)
    case Some(k) => k
    case None => |text|
  }

  /** The quote override applied after either scan: an odd count of `"`,
      then of `'`, then of the backquote, selects the position recorded for
      that quote; otherwise the bracket boundary stands. */
  function QuoteOverride(t: Tally, bracket: int): (r: int)
    ensures t.q1 % 2 == 0 && t.q2 % 2 == 0 && t.q3 % 2 == 0 ==> r == bracket
    ensures r != bracket ==>
      (t.q1 % 2 == 1 && r == t.q1Position) || (t.q2 % 2 == 1 && r == t.q2Position)
      || (t.q3 % 2 == 1 && r == t.q3Position)
  {
    if t.q1 % 2 == 1 then t.q1Position
    else if t.q2 % 2 == 1 then t.q2Position
    else if t.q3 % 2 == 1 then t.q3Position
    else bracket
  }

  /** A quote override after the backward scan over text[lo..e] lands just
      past a quote the scan read. */
  lemma BackOverrideBounds(text: seq<char>, lo: nat, e: nat, bracket: int)
    requires lo <= e <= |text|
    ensures var r := QuoteOverride(BackTally(text, lo, e), bracket);
      r == bracket || (lo < r <= e && IsQuote(text[r - 1]))
  {
    BackTallyMeaning(text, lo, e);
    var t := BackTally(text, lo, e);
    if t.q1 % 2 == 1 {
      BackQuoteAt(text, lo, e, '"');
    } else if t.q2 % 2 == 1 {
      BackQuoteAt(text, lo, e, '\'');
    } else if t.q3 % 2 == 1 {
      BackQuoteAt(text, lo, e, '`');
    }
  }

  /** A quote counted by the backward scan is recorded just past itself. */
  lemma BackQuoteAt(text: seq<char>, lo: nat, e: nat, c: char)
    requires lo <= e <= |text| && Count(text[lo..e], c) > 0
    ensures var r := BackQuotePosition(text, lo, e, c); lo < r <= e && text[r - 1] == c
  {
    CountOccurs(text[lo..e], c);
    var k := LastIndexOf(text[lo..e], c);
    assert text[lo + k] == text[lo..e][k];
  }

  /** A quote override after the forward scan over text[b..h] lands on a
      quote the scan read. */
  lemma ForwardOverrideBounds(text: seq<char>, b: nat, h: nat, bracket: int)
    requires b <= h <= |text|
    ensures var r := QuoteOverride(ForwardTally(text, b, h), bracket);
      r == bracket || (b <= r < h && IsQuote(text[r]))
  {
    ForwardTallyMeaning(text, b, h);
    var t := ForwardTally(text, b, h);
    if t.q1 % 2 == 1 {
      ForwardQuoteAt(text, b, h, '"');
    } else if t.q2 % 2 == 1 {
      ForwardQuoteAt(text, b, h, '\'');
    } else if t.q3 % 2 == 1 {
      ForwardQuoteAt(text, b, h, '`');
    }
  }

  /** A quote counted by the forward scan is recorded at itself. */
  lemma ForwardQuoteAt(text: seq<char>, b: nat, h: nat, c: char)
    requires b <= h <= |text| && Count(text[b..h], c) > 0
    ensures var r := ForwardQuotePosition(text, b, h, c); b <= r < h && text[r] == c
  {
    CountOccurs(text[b..h], c);
    var k := FirstIndexOf(text[b..h], c);
    assert text[b + k] == text[b..h][k];
  }

  /** The halt the backward scan met first, seen from above, is the one
      LastOpener finds. */
  lemma {:induction false} LastOpenerFinds(text: seq<char>, e: nat, j: nat, p: nat)
    requires p < j <= e <= |text| && HaltsBackAt(text, p, e)
    requires forall q :: p < q < j ==> !HaltsBackAt(text, q, e)
    ensures LastOpener(text, e, j) == Some(p)
    decreases j
  {
    if p < j - 1 {
      LastOpenerFinds(text, e, j - 1, p);
    }
  }

  /** The same for the forward scan and FirstCloser. */
  lemma {:induction false} FirstCloserFinds(text: seq<char>, b: nat, h: nat, k: nat)
    requires b <= h <= k <= |text| && HaltsForwardAt(text, b, k)
    requires forall m :: h <= m < k ==> !HaltsForwardAt(text, b, m)
    ensures FirstCloser(text, b, h) == Some(k)
    decreases k - h
  {
    if h < k {
      FirstCloserFinds(text, b, h + 1, k);
    }
  }

  // ---------------------------------------------------------------------
  // The two boundaries

  /** findScopeStart's boundary before the quote override: one past the
      opener where the backward scan halted, except that an opener at index
      0 and a scan that ran past the start both give 0. */
  function StartBracket(text: seq<char>, offset: nat): (r: int)
    requires offset <= |text|
    ensures r == 0 || (2 <= r <= offset + 1 && r <= |text| && text[r - 1] in "([{")
  {
    var e := BackScanTop(text, offset);
    match LastOpener(text, e, e)
    case Some(p) =>
      assert !HaltsBackAt(text, p + 1, e) by {
        if p + 1 == e { assert BackTally(text, e, e) == Fresh; }
      }
      assert BackTally(text, p, e) == BackStep(BackTally(text, p + 1, e), text[p], p);
      assert text[p] in "([{";
      if p == 0 then 0 else p + 1
    case None => 0
  }

  /** findScopeEnd's boundary before the quote override: the index the
      forward scan stopped at, one past the unmatched closer, clamped to
      |text| - 1 when the scan reached the end of the text. */
  function EndBracket(text: seq<char>, offset: nat): (r: int)
    requires offset <= |text|
    ensures r == |text| - 1 || (offset < r < |text| && text[r - 1] in ")]}")
  {
    var hi := ForwardScanTop(text, offset);
    if hi < |text| then
      assert FirstCloser(text, offset, offset) == Some(hi);
      assert !HaltsForwardAt(text, offset, hi - 1);
      hi
    else |text| - 1
  }

  /** findScopeStart's result: one past the opener where the backward scan
      halted, 0 when it halted at index 0 or ran past the start of the text,
      then the quote override over the characters read. */
  function ScopeStart(text: seq<char>, offset: nat): (r: int)
    requires offset <= |text|
    ensures 0 <= r <= offset + 1 && r <= |text|
  {
    var e := BackScanTop(text, offset);
    var bracket := StartBracket(text, offset);
    BackOverrideBounds(text, BackScanBottom(text, offset), e, bracket);
    QuoteOverride(BackTally(text, BackScanBottom(text, offset), e), bracket)
  }

  /** findScopeEnd's result: the index the forward scan stopped at (one past
      the unmatched closer), clamped to |text| - 1, then the quote override. */
  function ScopeEnd(text: seq<char>, offset: nat): (r: int)
    requires offset <= |text|
    ensures offset < |text| ==> offset <= r <= |text| - 1
    ensures offset == |text| ==> r == |text| - 1
  {
    var hi := ForwardScanTop(text, offset);
    var bracket := EndBracket(text, offset);
    ForwardOverrideBounds(text, offset, hi, bracket);
    QuoteOverride(ForwardTally(text, offset, hi), bracket)
  }

  /** The start boundary as evidently intended: one past the opener where
      the backward scan halted, including an opener at index 0. */
  function IntendedScopeStart(text: seq<char>, offset: nat): (r: int)
    requires offset <= |text|
    ensures 0 <= r <= offset + 1 && r <= |text|
  {
    var e := BackScanTop(text, offset);
    var bracket := match LastOpener(text, e, e)
      case Some(p) => p + 1
      case None => 0;
    BackOverrideBounds(text, BackScanBottom(text, offset), e, bracket);
    QuoteOverride(BackTally(text, BackScanBottom(text, offset), e), bracket)
  }

  /** The end boundary as evidently intended: the offset of the unmatched
      closer itself, so that the selection ends just inside it, as it ends
      just inside a closing quote. */
  function IntendedScopeEnd(text: seq<char>, offset: nat): (r: int)
    requires offset <= |text|
    ensures offset < |text| ==> offset <= r <= |text| - 1
    ensures offset == |text| ==> r == |text| - 1
  {
    var hi := ForwardScanTop(text, offset);
    var bracket := match FirstCloser(text, offset, offset)
      case Some(k) => k - 1
      case None => |text| - 1;
    ForwardOverrideBounds(text, offset, hi, bracket);
    QuoteOverride(ForwardTally(text, offset, hi), bracket)
  }

  // ---------------------------------------------------------------------
  // The loops

  /** findScopeStart: walk the index down from the cursor, one counter per
      bracket kind and a count and first-seen position per quote style,
      halting as soon as a bracket counter is positive. */
  method FindScopeStart(text: seq<char>, offset: nat) returns (start: int)
    requires offset <= |text|
    ensures start == ScopeStart(text, offset)
  {
    ghost var e := BackScanTop(text, offset);
    var index: int := offset;
    var brackets, braces, parentheses := 0, 0, 0;
    var q1, q2, q3 := 0, 0, 0;
    var q1Position, q2Position, q3Position := -1, -1, -1;
    // text[lo..e] is what the scan has read so far
    ghost var lo: nat := e;
    while index >= 0 && brackets <= 0 && braces <= 0 && parentheses <= 0
      invariant -1 <= index <= offset
      invariant lo == Min(index + 1, e)
      invariant Tally(parentheses, brackets, braces, q1, q1Position, q2, q2Position, q3, q3Position)
        == BackTally(text, lo, e)
      invariant forall q :: lo < q < e ==> !HaltsBackAt(text, q, e)
      decreases index + 1
    {
      // only the first step of a scan from the very end reads past the text
      if index < |text| {
        assert BackTally(text, index, e) == BackStep(BackTally(text, index + 1, e), text[index], index);
        match text[index] {
          case '}' => braces := braces - 1;
          case ']' => brackets := brackets - 1;
          case ')' => parentheses := parentheses - 1;
          case '{' => braces := braces + 1;
          case '[' => brackets := brackets + 1;
          case '(' => parentheses := parentheses + 1;
          case '"' =>
            q1 := q1 + 1;
            if q1Position == -1 { q1Position := index + 1; }
          case '\'' =>
            q2 := q2 + 1;
            if q2Position == -1 { q2Position := index + 1; }
          case '`' =>
            q3 := q3 + 1;
            if q3Position == -1 { q3Position := index + 1; }
          case _ =>
        }
      }
      index := index - 1;
      lo := Min(index + 1, e);
    }
    if index >= 0 {
      LastOpenerFinds(text, e, e, lo);
    }
    assert lo == BackScanBottom(text, offset);
    if index < 0 {
      index := 0;
    } else {
      index := index + 2;
    }
    if q1 % 2 == 1 {
      index := q1Position;
    } else if q2 % 2 == 1 {
      index := q2Position;
    } else if q3 % 2 == 1 {
      index := q3Position;
    }
    start := index;
  }

  /** findScopeEnd: the mirror image, walking the index up from the cursor;
      closers count up, openers down. */
  method FindScopeEnd(text: seq<char>, offset: nat) returns (end: int)
    requires offset <= |text|
    ensures end == ScopeEnd(text, offset)
  {
    var index: nat := offset;
    var brackets, braces, parentheses := 0, 0, 0;
    var q1, q2, q3 := 0, 0, 0;
    var q1Position, q2Position, q3Position := -1, -1, -1;
    while index < |text| && brackets <= 0 && braces <= 0 && parentheses <= 0
      invariant offset <= index <= |text|
      invariant Tally(parentheses, brackets, braces, q1, q1Position, q2, q2Position, q3, q3Position)
        == ForwardTally(text, offset, index)
      invariant forall k :: offset <= k < index ==> !HaltsForwardAt(text, offset, k)
      decreases |text| - index
    {
      assert ForwardTally(text, offset, index + 1)
        == ForwardStep(ForwardTally(text, offset, index), text[index], index);
      match text[index] {
        case '}' => braces := braces + 1;
        case ']' => brackets := brackets + 1;
        case ')' => parentheses := parentheses + 1;
        case '{' => braces := braces - 1;
        case '[' => brackets := brackets - 1;
        case '(' => parentheses := parentheses - 1;
        case '"' =>
          q1 := q1 + 1;
          if q1Position == -1 { q1Position := index; }
        case '\'' =>
          q2 := q2 + 1;
          if q2Position == -1 { q2Position := index; }
        case '`' =>
          q3 := q3 + 1;
          if q3Position == -1 { q3Position := index; }
        case _ =>
      }
      index := index + 1;
    }
    if index < |text| {
      FirstCloserFinds(text, offset, offset, index);
    }
    assert index == ForwardScanTop(text, offset);
    var boundary: int := index;
    if index >= |text| {
      boundary := |text| - 1;
    }
    if q1 % 2 == 1 {
      boundary := q1Position;
    } else if q2 % 2 == 1 {
      boundary := q2Position;
    } else if q3 % 2 == 1 {
      boundary := q3Position;
    }
    end := boundary;
  }

  /** expandSelectionToScope: the selection from the start boundary to the
      end boundary, both resolved from the cursor's offset. */
  method ExpandSelectionToScope(text: seq<char>, offset: nat) returns (anchor: int, active: int)
    requires offset <= |text|
    ensures anchor == ScopeStart(text, offset) && active == ScopeEnd(text, offset)
    ensures 0 <= anchor <= offset + 1 && (offset < |text| ==> offset <= active < |text|)
  {
    anchor := FindScopeStart(text, offset);
    active := FindScopeEnd(text, offset);
  }
}
