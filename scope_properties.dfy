/** What the two scope boundaries select on the inputs the resolver is meant
    for: the inside of a pair of brackets, the inside of a string literal,
    the whole text when there is nothing to match, and the two places where
    the code as written departs from that. */
module ScopeProperties {
  import opened Text
  import opened Scope

  /** text[i..j] holds no bracket and no quote. */
  predicate Plain(text: seq<char>, i: nat, j: nat)
    requires i <= j <= |text|
  {
    forall k :: i <= k < j ==> !IsBracket(text[k]) && !IsQuote(text[k])
  }

  /** Plain characters leave the backward scan's variables as they are. */
  lemma {:induction false} PlainBackSkip(text: seq<char>, lo: nat, m: nat, e: nat)
    requires lo <= m <= e <= |text| && Plain(text, lo, m)
    ensures BackTally(text, lo, e) == BackTally(text, m, e)
    decreases m - lo
  {
    if lo < m {
      PlainBackSkip(text, lo + 1, m, e);
    }
  }

  /** Plain characters leave the forward scan's variables as they are. */
  lemma {:induction false} PlainForwardSkip(text: seq<char>, b: nat, m: nat, h: nat)
    requires b <= m <= h <= |text| && Plain(text, m, h)
    ensures ForwardTally(text, b, h) == ForwardTally(text, b, m)
    decreases h - m
  {
    if m < h {
      PlainForwardSkip(text, b, m, h - 1);
    }
  }

  /** The backward scan from a cursor inside text[p+1..e] over plain text
      halts exactly at p when text[p] is an opener, having read no quote. */
  lemma BackScanHaltsAtOpener(text: seq<char>, p: nat, e: nat, opener: char)
    requires p < e <= |text| && opener in "([{" && text[p] == opener
    requires Plain(text, p + 1, e)
    ensures LastOpener(text, e, e) == Some(p)
    ensures var t := BackTally(text, p, e); t.q1 == 0 && t.q2 == 0 && t.q3 == 0
  {
    forall q | p < q < e
      ensures !HaltsBackAt(text, q, e)
    {
      PlainBackSkip(text, q, e, e);
    }
    PlainBackSkip(text, p + 1, e, e);
    LastOpenerFinds(text, e, e, p);
  }

  /** The forward scan from a cursor over plain text halts just past the
      first closer, having read no quote. */
  lemma ForwardScanHaltsAtCloser(text: seq<char>, offset: nat, q: nat, closer: char)
    requires offset <= q < |text| && closer in ")]}" && text[q] == closer
    requires Plain(text, offset, q)
    ensures FirstCloser(text, offset, offset) == Some(q + 1)
    ensures var t := ForwardTally(text, offset, q + 1); t.q1 == 0 && t.q2 == 0 && t.q3 == 0
  {
    forall m | offset <= m < q + 1
      ensures !HaltsForwardAt(text, offset, m)
    {
      PlainForwardSkip(text, offset, offset, m);
    }
    PlainForwardSkip(text, offset, offset, q);
    FirstCloserFinds(text, offset, offset, q + 1);
  }

  /** A cursor strictly inside a bracket pair with plain text between: the
      code as written starts one past the opener (or at 0 when the opener is
      at index 0) and ends one past the closer (or on the closer, when it is
      the last character); the intended boundaries are the inside of the
      pair in every case. */
  lemma BracketPairScope(text: seq<char>, p: nat, offset: nat, q: nat, opener: char, closer: char)
    requires p < offset < q < |text|
    requires opener in "([{" && text[p] == opener && closer in ")]}" && text[q] == closer
    requires Plain(text, p + 1, q)
    ensures ScopeStart(text, offset) == if p == 0 then 0 else p + 1
    ensures IntendedScopeStart(text, offset) == p + 1
    ensures ScopeEnd(text, offset) == if q + 1 < |text| then q + 1 else q
    ensures IntendedScopeEnd(text, offset) == q
  {
    var e := BackScanTop(text, offset);
    assert e == offset + 1;
    BackScanHaltsAtOpener(text, p, e, opener);
    ForwardScanHaltsAtCloser(text, offset, q, closer);
  }

  /** With no bracket and no quote anywhere, the scope is the whole text. */
  lemma PlainTextScope(text: seq<char>, offset: nat)
    requires offset <= |text| && Plain(text, 0, |text|)
    ensures ScopeStart(text, offset) == 0
    ensures ScopeEnd(text, offset) == |text| - 1
  {
    var e := BackScanTop(text, offset);
    forall q | 0 <= q < e
      ensures !HaltsBackAt(text, q, e)
    {
      PlainBackSkip(text, q, e, e);
    }
    PlainBackSkip(text, 0, e, e);
    forall m | offset <= m <= |text|
      ensures !HaltsForwardAt(text, offset, m)
    {
      PlainForwardSkip(text, offset, offset, m);
    }
    PlainForwardSkip(text, offset, offset, |text|);
  }

  /** Before the cursor, a lone quote at p is all the backward scan meets:
      it runs to the start of the text with one step that counts. */
  lemma StringLiteralBackScan(text: seq<char>, p: nat, offset: nat, quote: char)
    requires p < offset < |text| && IsQuote(quote) && text[p] == quote
    requires Plain(text, 0, p) && Plain(text, p + 1, offset + 1)
    ensures BackScanTop(text, offset) == offset + 1 && BackScanBottom(text, offset) == 0
    ensures BackTally(text, 0, offset + 1) == BackStep(Fresh, quote, p)
  {
    var e := offset + 1;
    PlainBackSkip(text, p + 1, e, e);
    forall j | 0 <= j < e
      ensures !HaltsBackAt(text, j, e)
    {
      if j > p {
        PlainBackSkip(text, j, e, e);
      } else {
        PlainBackSkip(text, j, p, e);
      }
    }
    PlainBackSkip(text, 0, p, e);
  }

  /** A lone quote read by the backward scan overrides any bracket
      boundary with the position just past itself. */
  lemma LoneQuoteOverride(quote: char, p: nat, bracket: int)
    requires IsQuote(quote)
    ensures QuoteOverride(BackStep(Fresh, quote, p), bracket) == p + 1
  {
  }

  /** Inside a string literal opened at p, in a text with no bracket or
      quote before the cursor other than that one: the start is just past
      the opening quote. */
  lemma StringLiteralStart(text: seq<char>, p: nat, offset: nat, quote: char)
    requires p < offset < |text| && IsQuote(quote) && text[p] == quote
    requires Plain(text, 0, p) && Plain(text, p + 1, offset + 1)
    ensures ScopeStart(text, offset) == p + 1
  {
    StringLiteralBackScan(text, p, offset, quote);
    assert ScopeStart(text, offset) == QuoteOverride(BackStep(Fresh, quote, p), StartBracket(text, offset));
    LoneQuoteOverride(quote, p, StartBracket(text, offset));
  }

  /** Inside a string literal closed at q, in a text with no bracket or
      quote from the cursor on other than that one: the end is on the
      closing quote. */
  lemma StringLiteralEnd(text: seq<char>, offset: nat, q: nat, quote: char)
    requires offset < q < |text| && IsQuote(quote) && text[q] == quote
    requires Plain(text, offset, q) && Plain(text, q + 1, |text|)
    ensures ScopeEnd(text, offset) == q
  {
    PlainForwardSkip(text, offset, offset, q);
    forall m | offset <= m <= |text|
      ensures !HaltsForwardAt(text, offset, m)
    {
      if m <= q {
        PlainForwardSkip(text, offset, offset, m);
      } else {
        PlainForwardSkip(text, offset, q + 1, m);
      }
    }
    PlainForwardSkip(text, offset, q + 1, |text|);
  }

  /** A cursor strictly inside the only string literal of a bracket-free
      text, the literal opened at p and closed at q by the same quote: the
      scope is the literal's contents. */
  lemma StringLiteralScope(text: seq<char>, p: nat, offset: nat, q: nat, quote: char)
    requires p < offset < q < |text| && IsQuote(quote) && text[p] == quote && text[q] == quote
    requires Plain(text, 0, p) && Plain(text, p + 1, q) && Plain(text, q + 1, |text|)
    ensures ScopeStart(text, offset) == p + 1
    ensures ScopeEnd(text, offset) == q
  {
    StringLiteralStart(text, p, offset, quote);
    StringLiteralEnd(text, offset, q, quote);
  }

  /** Which quote the start boundary lands just past, over the characters
      the backward scan read: the nearest double quote when their count is
      odd, else the nearest single quote when theirs is, else the nearest
      backquote when theirs is; with every count even the bracket boundary
      stands. */
  lemma StartQuotePriority(text: seq<char>, offset: nat)
    requires offset <= |text|
    ensures var lo := BackScanBottom(text, offset);
      var s, r := text[lo..BackScanTop(text, offset)], ScopeStart(text, offset);
      (Count(s, '"') % 2 == 1 ==> r == lo + LastIndexOf(s, '"') + 1)
      && (Count(s, '"') % 2 == 0 && Count(s, '\'') % 2 == 1 ==> r == lo + LastIndexOf(s, '\'') + 1)
      && (Count(s, '"') % 2 == 0 && Count(s, '\'') % 2 == 0 && Count(s, '`') % 2 == 1 ==>
            r == lo + LastIndexOf(s, '`') + 1)
      && (Count(s, '"') % 2 == 0 && Count(s, '\'') % 2 == 0 && Count(s, '`') % 2 == 0 ==>
            r == StartBracket(text, offset))
  {
    var lo, e := BackScanBottom(text, offset), BackScanTop(text, offset);
    BackTallyMeaning(text, lo, e);
    CountOccurs(text[lo..e], '"');
    CountOccurs(text[lo..e], '\'');
    CountOccurs(text[lo..e], '`');
  }

  /** Which quote the end boundary lands on, over the characters the
      forward scan read: the first double quote when their count is odd,
      else the first single quote, else the first backquote; with every
      count even the bracket boundary stands. */
  lemma EndQuotePriority(text: seq<char>, offset: nat)
    requires offset <= |text|
    ensures var s, r := text[offset..ForwardScanTop(text, offset)], ScopeEnd(text, offset);
      (Count(s, '"') % 2 == 1 ==> r == offset + FirstIndexOf(s, '"'))
      && (Count(s, '"') % 2 == 0 && Count(s, '\'') % 2 == 1 ==> r == offset + FirstIndexOf(s, '\''))
      && (Count(s, '"') % 2 == 0 && Count(s, '\'') % 2 == 0 && Count(s, '`') % 2 == 1 ==>
            r == offset + FirstIndexOf(s, '`'))
      && (Count(s, '"') % 2 == 0 && Count(s, '\'') % 2 == 0 && Count(s, '`') % 2 == 0 ==>
            r == EndBracket(text, offset))
  {
    var hi := ForwardScanTop(text, offset);
    ForwardTallyMeaning(text, offset, hi);
    CountOccurs(text[offset..hi], '"');
    CountOccurs(text[offset..hi], '\'');
    CountOccurs(text[offset..hi], '`');
  }

  /** The end boundary as written: in "x(a)b" with the cursor on the a, the
      selection runs from 2 to 4, past the closing parenthesis, and takes it
      in. */
  lemma ScopeEndTakesCloser()
    ensures ScopeStart("x(a)b", 2) == 2
    ensures ScopeEnd("x(a)b", 2) == 4
    ensures IntendedScopeEnd("x(a)b", 2) == 3
  {
    BracketPairScope("x(a)b", 1, 2, 3, '(', ')');
  }

  /** The start boundary as written: in "(a)" with the cursor on the a, an
      opener at index 0 is taken for the start of the text and the selection
      starts before it. */
  lemma ScopeStartTakesOpenerAtZero()
    ensures ScopeStart("(a)", 1) == 0
    ensures IntendedScopeStart("(a)", 1) == 1
  {
    BracketPairScope("(a)", 0, 1, 2, '(', ')');
  }

  /** Both scans read the character at the cursor itself: with the cursor
      on an opener the backward scan halts at once, and with the cursor on a
      closer so does the forward scan. */
  lemma CursorOnBracket(text: seq<char>, offset: nat)
    requires offset < |text|
    ensures text[offset] in "([{" ==> ScopeStart(text, offset) == if offset == 0 then 0 else offset + 1
    ensures text[offset] in ")]}" ==> ScopeEnd(text, offset) == if offset + 1 < |text| then offset + 1 else offset
  {
    if text[offset] in "([{" {
      assert BackScanTop(text, offset) == offset + 1;
      BackScanHaltsAtOpener(text, offset, offset + 1, text[offset]);
    }
    if text[offset] in ")]}" {
      ForwardScanHaltsAtCloser(text, offset, offset, text[offset]);
    }
  }
}
