/** The word navigator (selectNextWord): from the cursor, step one column at
    a time, wrapping across line ends, until the editor's word oracle finds
    a word at the position reached; that word becomes the selection. The
    document is a non-empty sequence of lines; the editor's position
    validation is modelled as the clamp it is, and the word oracle as
    WordAround on the position's line. */
module Navigator {
  import opened Text

  /** A zero-based line and column. Columns range over 0..|line|, the last
      one being the position just after the line's last character. */
  datatype Position = Position(line: nat, character: nat)

  datatype Range = Range(start: Position, end: Position)

  /** An editor document always has at least one (possibly empty) line. */
  type Document = d: seq<seq<char>> | |d| > 0 witness [[]]

  predicate IsValid(doc: Document, p: Position) {
    p.line < |doc| && p.character <= |doc[p.line]|
  }

  /** Document order. */
  predicate Before(p: Position, q: Position) {
    p.line < q.line || (p.line == q.line && p.character < q.character)
  }

  /** q lies ahead of p in the walk's direction. */
  predicate Ahead(p: Position, q: Position, backwards: bool) {
    if backwards then Before(q, p) else Before(p, q)
  }

  /** The editor's position validation: a line past the end becomes the end
      of the document, a column past the end of its line the end of that
      line; a valid position comes back unchanged. */
  function Validate(doc: Document, p: Position): (r: Position)
    ensures IsValid(doc, r)
    ensures r == p <==> IsValid(doc, p)
  {
    if p.line >= |doc| then Position(|doc| - 1, |doc[|doc| - 1]|)
    else if p.character > |doc[p.line]| then Position(p.line, |doc[p.line]|)
    else p
  }

  /** The column the walk jumps to when it steps back over a line start. */
  const FarColumn := 9999

  /** Phase one of a step: move one column; stepping back from column 0
      moves to the previous line at FarColumn, validated, and from the very
      first position fails (the editor refuses a negative line). */
  function StepColumn(doc: Document, p: Position, backwards: bool): (r: Option<Position>)
    ensures r.None? <==> backwards && p.line == 0 && p.character == 0
    ensures r.Some? ==> Ahead(p, r.value, backwards)
  {
    if !backwards then Some(Position(p.line, p.character + 1))
    else if p.character > 0 then Some(Position(p.line, p.character - 1))
    else if p.line == 0 then None
    else Some(Validate(doc, Position(p.line - 1, FarColumn)))
  }

  /** Phase two of a step, taken when phase one left the document: column 0
      of the next line in the walk's direction, or nothing when there is
      none. */
  function CrossLine(doc: Document, q: Position, backwards: bool): (r: Option<Position>)
    ensures r.None? <==> if backwards then q.line == 0 || q.line > |doc| else q.line + 1 >= |doc|
    ensures r.Some? ==> IsValid(doc, r.value) && r.value.character == 0
  {
    if backwards && q.line == 0 then None
    else
      var r := Position(if backwards then q.line - 1 else q.line + 1, 0);
      if Validate(doc, r) != r then None else Some(r)
  }

  /** One step of the walk, both phases. */
  function Advance(doc: Document, p: Position, backwards: bool): (r: Option<Position>)
    ensures r.Some? ==> IsValid(doc, r.value) && Ahead(p, r.value, backwards)
  {
    match StepColumn(doc, p, backwards)
    case None => None
    case Some(q) => if Validate(doc, q) != q then CrossLine(doc, q, backwards) else Some(q)
  }

  /** The word oracle at a valid position, as a range on its line. */
  function WordAt(doc: Document, p: Position): (r: Option<Range>)
    requires IsValid(doc, p)
    ensures r.Some? ==> r.value.start.line == p.line && r.value.end.line == p.line
    ensures r.Some? ==> MaximalRun(doc[p.line], r.value.start.character, r.value.end.character)
    ensures r.Some? ==> r.value.start.character <= p.character <= r.value.end.character
  {
    match WordAround(doc[p.line], p.character)
    case None => None
    case Some(w) => Some(Range(Position(p.line, w.start), Position(p.line, w.end)))
  }

  /** Where the walk begins: the edge of the word under the cursor that
      faces the walk's direction, or the cursor itself off a word. */
  function StartPosition(doc: Document, cursor: Position, backwards: bool): (r: Position)
    requires IsValid(doc, cursor)
    ensures IsValid(doc, r)
    ensures WordAt(doc, r) == WordAt(doc, cursor)
    ensures WordAt(doc, cursor).None? ==> r == cursor
    ensures WordAt(doc, cursor).Some? ==>
      r == if backwards then WordAt(doc, cursor).value.start else WordAt(doc, cursor).value.end
  {
    match WordAt(doc, cursor)
    case None => cursor
    case Some(w) =>
      var r := if backwards then w.start else w.end;
      WordAroundFindsRun(doc[cursor.line], w.start.character, w.end.character, r.character);
      r
  }

  /** The start position as the code is written: the word's edge is read
      before the code asks whether there is a word, so a cursor off any word
      fails there. */
  function StartPositionAsWritten(doc: Document, cursor: Position, backwards: bool): (r: Option<Position>)
    requires IsValid(doc, cursor)
    ensures r.None? <==> WordAt(doc, cursor).None?
    ensures r.Some? ==> r.value == StartPosition(doc, cursor, backwards)
  {
    match WordAt(doc, cursor)
    case None => None
    case Some(w) => Some(if backwards then w.start else w.end)
  }

  /** The walk from p: the first word the oracle finds at a position the
      steps reach, or nothing when the steps leave the document first. */
  function NextWordFrom(doc: Document, p: Position, backwards: bool): (r: Option<Range>)
    requires IsValid(doc, p)
    ensures r.Some? ==> (r.value.start.line == r.value.end.line < |doc|
      && MaximalRun(doc[r.value.start.line], r.value.start.character, r.value.end.character))
    ensures r.Some? ==> if backwards then Before(r.value.start, p) else Before(p, r.value.end)
    decreases if backwards then p.line else |doc| - p.line,
              if backwards then p.character else |doc[p.line]| - p.character
  {
    match Advance(doc, p, backwards)
    case None => None
    case Some(q) =>
      match WordAt(doc, q)
      case Some(w) => Some(w)
      case None => NextWordFrom(doc, q, backwards)
  }

  /** selectNextWord: the loop that steps the position until the oracle
      finds a word, giving up when a step leaves the document. */
  method SelectNextWord(doc: Document, cursor: Position, backwards: bool) returns (selection: Option<Range>)
    requires IsValid(doc, cursor)
    ensures selection == NextWordFrom(doc, StartPosition(doc, cursor, backwards), backwards)
  {
    var start := StartPosition(doc, cursor, backwards);
    var position := start;
    var range: Option<Range> := None;
    while range.None?
      invariant IsValid(doc, position)
      invariant NextWordFrom(doc, start, backwards)
        == if range.None? then NextWordFrom(doc, position, backwards) else range
      decreases range.None?,
                if backwards then position.line else |doc| - position.line,
                if backwards then position.character else |doc[position.line]| - position.character
    {
      ghost var next := Advance(doc, position, backwards);
      // phase one: one column over, or back to the previous line's FarColumn
      if !backwards {
        position := Position(position.line, position.character + 1);
      } else if position.character > 0 {
        position := Position(position.line, position.character - 1);
      } else if position.line == 0 {
        return None;
      } else {
        position := Validate(doc, Position(position.line - 1, FarColumn));
      }
      // phase two: off the document, so column 0 of the next line
      if Validate(doc, position) != position {
        if backwards && position.line == 0 {
          return None;
        }
        position := Position(if backwards then position.line - 1 else position.line + 1, 0);
        if Validate(doc, position) != position {
          return None;
        }
      }
      assert next == Some(position);
      range := WordAt(doc, position);
    }
    selection := range;
  }
}
