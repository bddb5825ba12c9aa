/** What the word navigator's walk amounts to: each step reaches the
    neighbouring position in document order, so the walk selects the first
    word ahead of the start and never the word it starts on. */
module NavigatorProperties {
  import opened Text
  import opened Navigator

  /** Every line is short enough for FarColumn to reach its end. */
  predicate ShortLines(doc: Document) {
    forall l :: 0 <= l < |doc| ==> |doc[l]| <= FarColumn
  }

  /** The oracle finds no word strictly between p and q. */
  ghost predicate NoWordBetween(doc: Document, p: Position, q: Position, backwards: bool) {
    forall m :: IsValid(doc, m) && Ahead(p, m, backwards) && Ahead(m, q, backwards) ==> WordAt(doc, m).None?
  }

  /** Validation clamps: it gives the last valid position not after p. */
  lemma ValidateIsClamp(doc: Document, p: Position)
    ensures !Before(p, Validate(doc, p))
    ensures forall q :: IsValid(doc, q) && !Before(p, q) ==> !Before(Validate(doc, p), q)
  {
  }

  /** A step reaches the neighbouring valid position in the walk's
      direction, and fails exactly when there is none. Stepping back over a
      line start relies on FarColumn reaching the end of the previous line. */
  lemma AdvanceIsNext(doc: Document, p: Position, backwards: bool)
    requires IsValid(doc, p) && (!backwards || ShortLines(doc))
    ensures Advance(doc, p, backwards).None? <==> forall q :: IsValid(doc, q) ==> !Ahead(p, q, backwards)
    ensures Advance(doc, p, backwards).Some? ==>
      forall q :: IsValid(doc, q) && Ahead(p, q, backwards) ==>
        q == Advance(doc, p, backwards).value || Ahead(Advance(doc, p, backwards).value, q, backwards)
  {
    if backwards && p.character == 0 && p.line > 0 {
      assert |doc[p.line - 1]| <= FarColumn;
    } else if !backwards && p.character == |doc[p.line]| && p.line + 1 == |doc| {
      assert forall q :: IsValid(doc, q) ==> !Before(p, q);
    }
  }

  /** The two line-edge cases of a step: forward from the end of a line to
      column 0 of the next line, or nothing after the last line; backward
      from column 0 to the previous line at FarColumn, clamped to its end,
      or nothing before the first line. */
  lemma AdvanceAtLineEdges(doc: Document, p: Position)
    requires IsValid(doc, p)
    ensures p.character == |doc[p.line]| ==>
      Advance(doc, p, false) == if p.line + 1 < |doc| then Some(Position(p.line + 1, 0)) else None
    ensures p.character == 0 ==>
      Advance(doc, p, true) == if p.line == 0 then None
        else Some(Position(p.line - 1, Min(|doc[p.line - 1]|, FarColumn)))
  {
  }

  /** The walk finds a word ahead of p whenever it finds one at all. */
  lemma {:induction false} NextWordFound(doc: Document, p: Position, backwards: bool)
    requires IsValid(doc, p)
    ensures NextWordFrom(doc, p, backwards).Some? ==>
      exists q :: IsValid(doc, q) && Ahead(p, q, backwards) && WordAt(doc, q) == NextWordFrom(doc, p, backwards)
    decreases if backwards then p.line else |doc| - p.line,
              if backwards then p.character else |doc[p.line]| - p.character
  {
    match Advance(doc, p, backwards)
    case None =>
    case Some(q) =>
      if WordAt(doc, q).None? {
        NextWordFound(doc, q, backwards);
      }
  }

  /** The walk from p selects the word at the first position ahead of p
      where the oracle finds one, and nothing exactly when there is no such
      position. */
  lemma {:induction false} NextWordIsFirstAhead(doc: Document, p: Position, backwards: bool)
    requires IsValid(doc, p) && (!backwards || ShortLines(doc))
    ensures NextWordFrom(doc, p, backwards).None? <==>
      forall q :: IsValid(doc, q) && Ahead(p, q, backwards) ==> WordAt(doc, q).None?
    ensures NextWordFrom(doc, p, backwards).Some? ==>
      exists q :: IsValid(doc, q) && Ahead(p, q, backwards)
        && WordAt(doc, q) == NextWordFrom(doc, p, backwards) && NoWordBetween(doc, p, q, backwards)
    decreases if backwards then p.line else |doc| - p.line,
              if backwards then p.character else |doc[p.line]| - p.character
  {
    AdvanceIsNext(doc, p, backwards);
    match Advance(doc, p, backwards)
    case None =>
    case Some(q) =>
      if WordAt(doc, q).Some? {
        assert NoWordBetween(doc, p, q, backwards);
      } else {
        NextWordIsFirstAhead(doc, q, backwards);
        if NextWordFrom(doc, q, backwards).Some? {
          var k :| IsValid(doc, k) && Ahead(q, k, backwards)
            && WordAt(doc, k) == NextWordFrom(doc, q, backwards) && NoWordBetween(doc, q, k, backwards);
          assert NoWordBetween(doc, p, k, backwards);
        }
      }
  }

  /** Starting on the edge of a word that faces the walk's direction, or off
      any word, the walk selects a word lying wholly ahead of the start. */
  lemma NextWordLiesAhead(doc: Document, p: Position, backwards: bool)
    requires IsValid(doc, p)
    requires WordAt(doc, p).None? || p == (if backwards then WordAt(doc, p).value.start else WordAt(doc, p).value.end)
    ensures NextWordFrom(doc, p, backwards).Some? ==>
      var w := NextWordFrom(doc, p, backwards).value;
      if backwards then Before(w.end, p) else Before(p, w.start)
  {
    NextWordFound(doc, p, backwards);
    if NextWordFrom(doc, p, backwards).Some? {
      var w := NextWordFrom(doc, p, backwards).value;
      var q :| IsValid(doc, q) && Ahead(p, q, backwards) && WordAt(doc, q) == Some(w);
      if q.line == p.line {
        var s := doc[p.line];
        if backwards && w.end.character >= p.character {
          WordAroundFindsRun(s, w.start.character, w.end.character, p.character);
        } else if !backwards && w.start.character <= p.character {
          WordAroundFindsRun(s, w.start.character, w.end.character, p.character);
        }
      }
    }
  }

  /** selectNextWord never selects the word under the cursor: what it
      selects lies wholly past that word's edge (or past the cursor, off a
      word) in the walk's direction. */
  lemma SelectsAnotherWord(doc: Document, cursor: Position, backwards: bool)
    requires IsValid(doc, cursor)
    ensures var s := StartPosition(doc, cursor, backwards);
      var r := NextWordFrom(doc, s, backwards);
      r.Some? ==> r != WordAt(doc, cursor) && if backwards then Before(r.value.end, s) else Before(s, r.value.start)
  {
    NextWordLiesAhead(doc, StartPosition(doc, cursor, backwards), backwards);
  }

  /** From inside the last word of a line the walk crosses to the next
      line and selects its first word. */
  lemma CrossesToNextLine()
    ensures NextWordFrom(["abc", "def"], StartPosition(["abc", "def"], Position(0, 1), false), false)
      == Some(Range(Position(1, 0), Position(1, 3)))
  {
    var doc: Document := ["abc", "def"];
    assert WordAt(doc, Position(0, 1)) == Some(Range(Position(0, 0), Position(0, 3)));
    assert Advance(doc, Position(0, 3), false) == Some(Position(1, 0));
    assert WordAt(doc, Position(1, 0)) == Some(Range(Position(1, 0), Position(1, 3)));
  }

  /** After the last word of the document the walk gives up: with no word
      character from p's column to the end of its line, nor on any later
      line, the oracle finds nothing ahead and nothing is selected. */
  lemma NothingAfterLastWord(doc: Document, p: Position)
    requires IsValid(doc, p)
    requires forall k :: p.character <= k < |doc[p.line]| ==> !IsWordChar(doc[p.line][k])
    requires forall l, k :: p.line < l < |doc| && 0 <= k < |doc[l]| ==> !IsWordChar(doc[l][k])
    ensures NextWordFrom(doc, p, false).None?
  {
    NextWordIsFirstAhead(doc, p, false);
    forall q | IsValid(doc, q) && Ahead(p, q, false)
      ensures WordAt(doc, q).None?
    {
      if q.line == p.line {
        assert q.character - 1 >= p.character;
      }
    }
  }

  /** With the cursor off any word the code as written fails before the
      walk begins, where the evidently intended walk from the cursor finds
      the word just ahead. */
  lemma CursorOffWord()
    ensures StartPositionAsWritten([" a"], Position(0, 0), false).None?
    ensures NextWordFrom([" a"], StartPosition([" a"], Position(0, 0), false), false)
      == Some(Range(Position(0, 1), Position(0, 2)))
  {
    var doc: Document := [" a"];
    assert WordAt(doc, Position(0, 0)).None?;
    assert Advance(doc, Position(0, 0), false) == Some(Position(0, 1));
    assert WordAt(doc, Position(0, 1)) == Some(Range(Position(0, 1), Position(0, 2)));
  }
}
