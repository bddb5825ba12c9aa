/** The marked-word locator (selectBySurroundingCharacters): find the nearest
    word enclosed by a pair of marker characters, forward from the cursor or
    backward from it, by a leftmost search for the pattern
    (^|\W) open \w+ close ($|\W), then hand a position inside the match to
    the word oracle. The document is its flat text; offsets are positions
    in it. */
module Locator {
  import opened Text

  /** A character with a meaning of its own in a regular expression. */
  predicate IsRegexMetachar(c: char) {
    c in "\\^$.|?*+()[]{}"
  }

  /** The markers are single ASCII characters that the interpolated pattern
      reads literally and that have no other case: neither word characters
      nor metacharacters. */
  type Marker = c: char | (c as int) < 128 && !IsWordChar(c) && !IsRegexMetachar(c) witness ' '

  /** s[j] is open, followed by a run of word characters, followed by close,
      followed by the end of s or a non-word character. */
  predicate MarkerThenWord(s: seq<char>, j: nat, open: char, close: char) {
    j + 1 < |s| && s[j] == open && IsWordChar(s[j + 1])
    && var k := RunEnd(s, j + 1);
       k < |s| && s[k] == close && (k + 1 == |s| || !IsWordChar(s[k + 1]))
  }

  /** The pattern matches starting at i: either its (^|\W) group takes the
      empty start of s, or it takes the non-word character s[i]. */
  predicate MatchesAt(s: seq<char>, i: nat, open: char, close: char) {
    i < |s| && ((i == 0 && MarkerThenWord(s, 0, open, close))
                || (!IsWordChar(s[i]) && MarkerThenWord(s, i + 1, open, close)))
  }

  /** Where the opening marker of a match starting at i stands; the regular
      expression tries the empty alternative first. */
  function MarkerIndex(s: seq<char>, i: nat, open: char, close: char): (m: nat)
    requires MatchesAt(s, i, open, close)
    ensures m == i || m == i + 1
    ensures MarkerThenWord(s, m, open, close)
  {
    if i == 0 && MarkerThenWord(s, 0, open, close) then 0 else i + 1
  }

  /** The enclosed word of a match starting at i. */
  function MarkedWord(s: seq<char>, i: nat, open: Marker, close: Marker): (w: Span)
    requires MatchesAt(s, i, open, close)
    ensures MaximalRun(s, w.start, w.end)
    ensures 0 < w.start && s[w.start - 1] == open && w.end < |s| && s[w.end] == close
    ensures w.start <= i + 2 <= w.end
  {
    var m := MarkerIndex(s, i, open, close);
    Span(m + 1, RunEnd(s, m + 1))
  }

  /** The pattern written out as the regular expression reads it: a group
      of width g (0 only at the start of s, 1 for a non-word character), the
      opening marker, a non-empty run of word characters ending at k, the
      closing marker at k, then the end of s or a non-word character. */
  predicate Shaped(s: seq<char>, i: nat, g: nat, k: nat, open: char, close: char) {
    ((g == 0 && i == 0) || (g == 1 && i < |s| && !IsWordChar(s[i])))
    && i + g + 1 < k < |s|
    && s[i + g] == open
    && (forall t :: i + g < t < k ==> IsWordChar(s[t]))
    && s[k] == close
    && (k + 1 == |s| || !IsWordChar(s[k + 1]))
  }

  ghost predicate RegexMatchAt(s: seq<char>, i: nat, open: char, close: char) {
    exists g, k :: Shaped(s, i, g, k, open, close)
  }

  /** The search by RunEnd is the regular expression: because the closing
      marker is not a word character, the run can only end where the word
      characters do. */
  lemma MatchesAtIsRegex(s: seq<char>, i: nat, open: char, close: Marker)
    ensures MatchesAt(s, i, open, close) <==> RegexMatchAt(s, i, open, close)
  {
    if MatchesAt(s, i, open, close) {
      var m := MarkerIndex(s, i, open, close);
      assert Shaped(s, i, m - i, RunEnd(s, m + 1), open, close);
    }
    if RegexMatchAt(s, i, open, close) {
      var g, k :| Shaped(s, i, g, k, open, close);
      ShapedMatches(s, i, g, k, open, close);
    }
  }

  lemma ShapedMatches(s: seq<char>, i: nat, g: nat, k: nat, open: char, close: Marker)
    requires Shaped(s, i, g, k, open, close)
    ensures MatchesAt(s, i, open, close)
  {
    RunEndOfRun(s, i + g + 1, k);
    assert MarkerThenWord(s, i + g, open, close);
  }

  /** A run of word characters that a non-word character ends is what
      RunEnd finds. */
  lemma {:induction false} RunEndOfRun(s: seq<char>, j: nat, k: nat)
    requires j <= k < |s| && !IsWordChar(s[k])
    requires forall t :: j <= t < k ==> IsWordChar(s[t])
    ensures RunEnd(s, j) == k
    decreases k - j
  {
    if j < k {
      RunEndOfRun(s, j + 1, k);
    }
  }

  /** The leftmost match starting at or after from, as String.match finds
      it. */
  function FirstMatch(s: seq<char>, open: char, close: char, from: nat): (r: Option<nat>)
    ensures r.Some? ==> from <= r.value && MatchesAt(s, r.value, open, close)
    ensures r.Some? ==> forall j :: from <= j < r.value ==> !MatchesAt(s, j, open, close)
    ensures r.None? ==> forall j :: from <= j ==> !MatchesAt(s, j, open, close)
    decreases |s| - from
  {
    if from >= |s| then None
    else if MatchesAt(s, from, open, close) then Some(from)
    else FirstMatch(s, open, close, from + 1)
  }

  function Reverse(s: seq<char>): (r: seq<char>)
    ensures |r| == |s|
    ensures forall j :: 0 <= j < |s| ==> r[j] == s[|s| - 1 - j]
  {
    seq(|s|, j requires 0 <= j < |s| => s[|s| - 1 - j])
  }

  /** w is a word of text enclosed by the markers: first just before it,
      last just after it. */
  predicate EnclosedWord(text: seq<char>, w: Span, first: char, last: char) {
    0 < w.start <= w.end < |text| && text[w.start - 1] == first && text[w.end] == last
    && MaximalRun(text, w.start, w.end)
  }

  /** A maximal run of a suffix of text that has a character before it is
      a maximal run of text. */
  lemma MaximalRunOfSuffix(text: seq<char>, cursor: nat, a: nat, b: nat)
    requires cursor <= |text| && 0 < a && MaximalRun(text[cursor..], a, b)
    ensures MaximalRun(text, cursor + a, cursor + b)
  {
    var s := text[cursor..];
    assert text[cursor + a - 1] == s[a - 1];
    assert b < |s| ==> text[cursor + b] == s[b];
    assert forall k :: cursor + a <= k < cursor + b ==> text[k] == s[k - cursor];
  }

  /** A maximal run of the reversed prefix text[..cursor] with a character
      on each side is, read forwards, a maximal run of text. */
  lemma MaximalRunOfReversedPrefix(text: seq<char>, cursor: nat, a: nat, b: nat)
    requires cursor <= |text| && 0 < a && b < cursor && MaximalRun(Reverse(text[..cursor]), a, b)
    ensures MaximalRun(text, cursor - b, cursor - a)
  {
    var r := Reverse(text[..cursor]);
    assert text[cursor - b - 1] == r[b];
    assert text[cursor - a] == r[a - 1];
    assert forall k :: cursor - b <= k < cursor - a ==> text[k] == r[cursor - 1 - k];
  }

  /** Forward mode's query, cursor + index + 2, lands in the matched word,
      and the oracle returns exactly that word, in document offsets. */
  lemma ForwardQueryFindsWord(text: seq<char>, cursor: nat, i: nat, first: Marker, last: Marker)
    requires cursor <= |text| && MatchesAt(text[cursor..], i, first, last)
    ensures cursor + i + 2 <= |text|
    ensures var w := MarkedWord(text[cursor..], i, first, last);
      WordAround(text, cursor + i + 2) == Some(Span(cursor + w.start, cursor + w.end))
      && EnclosedWord(text, Span(cursor + w.start, cursor + w.end), first, last)
  {
    var s := text[cursor..];
    var w := MarkedWord(s, i, first, last);
    MaximalRunOfSuffix(text, cursor, w.start, w.end);
    assert text[cursor + w.start - 1] == s[w.start - 1];
    assert text[cursor + w.end] == s[w.end];
    WordAroundFindsRun(text, cursor + w.start, cursor + w.end, cursor + i + 2);
  }

  /** The word a match in the reversed prefix encloses, in document offsets:
      the reversal turns the run [m + 1, k) into [cursor - k, cursor - m - 1). */
  function Unreversed(cursor: nat, w: Span): Span
    requires w.start <= w.end <= cursor
  {
    Span(cursor - w.end, cursor - w.start)
  }

  /** Backward mode's query, the prefix length minus index minus 2, lands in
      the matched word, and the oracle returns exactly that word; the
      markers read in document order are first, then last. */
  lemma BackwardQueryFindsWord(text: seq<char>, cursor: nat, i: nat, first: Marker, last: Marker)
    requires cursor <= |text| && MatchesAt(Reverse(text[..cursor]), i, last, first)
    ensures i + 2 <= cursor
    ensures var w := MarkedWord(Reverse(text[..cursor]), i, last, first);
      w.end <= cursor
      && WordAround(text, cursor - i - 2) == Some(Unreversed(cursor, w))
      && EnclosedWord(text, Unreversed(cursor, w), first, last)
  {
    var r := Reverse(text[..cursor]);
    var w := MarkedWord(r, i, last, first);
    var u := Unreversed(cursor, w);
    MaximalRunOfReversedPrefix(text, cursor, w.start, w.end);
    assert text[u.start - 1] == r[w.end];
    assert text[u.end] == r[w.start - 1];
    WordAroundFindsRun(text, u.start, u.end, cursor - i - 2);
  }

  /** Forward mode: the leftmost match in the text from the cursor to the
      end of the document; no match leaves the selection as it is (the
      code reads the index of a null match). */
  function SelectForward(text: seq<char>, cursor: nat, first: Marker, last: Marker): (r: Option<Span>)
    requires cursor <= |text|
    ensures r.Some? <==> FirstMatch(text[cursor..], first, last, 0).Some?
    ensures r.Some? ==> EnclosedWord(text, r.value, first, last) && cursor < r.value.start
    ensures r.Some? ==> exists i: nat ::
      (MatchesAt(text[cursor..], i, first, last)
       && (forall j :: 0 <= j < i ==> !MatchesAt(text[cursor..], j, first, last))
       && r.value == Span(cursor + MarkedWord(text[cursor..], i, first, last).start,
                          cursor + MarkedWord(text[cursor..], i, first, last).end))
  {
    match FirstMatch(text[cursor..], first, last, 0)
    case None => None
    case Some(i) =>
      ForwardQueryFindsWord(text, cursor, i, first, last);
      WordAround(text, cursor + i + 2)
  }

  /** Backward mode: the leftmost match in the reversed text from the start
      of the document to the cursor, with the markers' roles exchanged. */
  function SelectBackward(text: seq<char>, cursor: nat, first: Marker, last: Marker): (r: Option<Span>)
    requires cursor <= |text|
    ensures r.Some? <==> FirstMatch(Reverse(text[..cursor]), last, first, 0).Some?
    ensures r.Some? ==> EnclosedWord(text, r.value, first, last) && r.value.end < cursor
    ensures r.Some? ==> exists i: nat ::
      (MatchesAt(Reverse(text[..cursor]), i, last, first)
       && (forall j :: 0 <= j < i ==> !MatchesAt(Reverse(text[..cursor]), j, last, first))
       && r.value == Unreversed(cursor, MarkedWord(Reverse(text[..cursor]), i, last, first)))
  {
    match FirstMatch(Reverse(text[..cursor]), last, first, 0)
    case None => None
    case Some(i) =>
      BackwardQueryFindsWord(text, cursor, i, first, last);
      WordAround(text, cursor - i - 2)
  }

  /** The command: nothing unless both markers are given; forward when
      nextWord is set, backward otherwise. */
  function SelectBySurroundingCharacters(text: seq<char>, cursor: nat, first: Option<Marker>, last: Option<Marker>,
                                         nextWord: bool): (r: Option<Span>)
    requires cursor <= |text|
    ensures r.Some? <==> (first.Some? && last.Some? &&
      if nextWord then FirstMatch(text[cursor..], first.value, last.value, 0).Some?
      else FirstMatch(Reverse(text[..cursor]), last.value, first.value, 0).Some?)
    ensures r.Some? ==> EnclosedWord(text, r.value, first.value, last.value)
    ensures r.Some? ==> if nextWord then cursor < r.value.start else r.value.end < cursor
    ensures first.Some? && last.Some? ==>
      r == if nextWord then SelectForward(text, cursor, first.value, last.value)
           else SelectBackward(text, cursor, first.value, last.value)
  {
    if first.None? || last.None? then None
    else if nextWord then SelectForward(text, cursor, first.value, last.value)
    else SelectBackward(text, cursor, first.value, last.value)
  }

  /** Forward from the start of "x <ab> y" the word between the angle
      brackets is selected; the match begins at the space before the opener. */
  lemma ForwardExample()
    ensures SelectBySurroundingCharacters("x <ab> y", 0, Some('<'), Some('>'), true) == Some(Span(3, 5))
  {
    var text := "x <ab> y";
    assert text[0..] == text;
    assert !MatchesAt(text, 0, '<', '>');
    assert RunEnd(text, 3) == 5;
    assert MatchesAt(text, 1, '<', '>');
    assert FirstMatch(text, '<', '>', 0) == Some(1);
  }

  /** Backward from the end of "<ab>" the same word is selected; in the
      reversed prefix ">ba<" the pattern's group takes the empty start, and
      the query falls inside the word rather than on its edge. */
  lemma BackwardExample()
    ensures SelectBySurroundingCharacters("<ab>", 4, Some('<'), Some('>'), false) == Some(Span(1, 3))
  {
    var text := "<ab>";
    var r := Reverse(text[..4]);
    assert r == ">ba<";
    assert RunEnd(r, 3) == 3;
    assert RunEnd(r, 1) == 3;
    assert MatchesAt(r, 0, '>', '<');
    assert FirstMatch(r, '>', '<', 0) == Some(0);
  }
}
