/** Shared vocabulary of the three navigation algorithms: optional results,
    half-open spans of a character sequence, word characters, and the
    editor's word oracle ("the word at this position"). */
module Text {

  datatype Option<T> = None | Some(value: T)

  /** A half-open stretch [start, end) of a character sequence. */
  datatype Span = Span(start: nat, end: nat)

  function Min(a: int, b: int): int {
    if a <= b then a else b
  }

  /** A character of the regular-expression class \w. */
  predicate IsWordChar(c: char) {
    ('a' <= c <= 'z') || ('A' <= c <= 'Z') || ('0' <= c <= '9') || c == '_'
  }

  /** s[i..j] is a non-empty run of word characters that cannot be extended
      on either side. */
  predicate MaximalRun(s: seq<char>, i: nat, j: nat) {
    i < j <= |s|
    && (forall k :: i <= k < j ==> IsWordChar(s[k]))
    && (i == 0 || !IsWordChar(s[i - 1]))
    && (j == |s| || !IsWordChar(s[j]))
  }

  /** Where the run of word characters ending just before k begins. */
  function RunStart(s: seq<char>, k: nat): (r: nat)
    requires k <= |s|
    ensures r <= k
    ensures forall i :: r <= i < k ==> IsWordChar(s[i])
    ensures r == 0 || !IsWordChar(s[r - 1])
    decreases k
  {
    if k > 0 && IsWordChar(s[k - 1]) then RunStart(s, k - 1) else k
  }

  /** Where the run of word characters starting at k ends (exclusive). */
  function RunEnd(s: seq<char>, k: nat): (r: nat)
    requires k <= |s|
    ensures k <= r <= |s|
    ensures forall i :: k <= i < r ==> IsWordChar(s[i])
    ensures r == |s| || !IsWordChar(s[r])
    decreases |s| - k
  {
    if k < |s| && IsWordChar(s[k]) then RunEnd(s, k + 1) else k
  }

  /** The word oracle: the maximal run of word characters that contains
      column c, where a run [i, j) contains every c with i <= c <= j (both
      ends inclusive, so the position just after a word still finds it);
      None when neither neighbour of c is a word character. */
  function WordAround(s: seq<char>, c: nat): (r: Option<Span>)
    requires c <= |s|
    ensures r.Some? <==> (c < |s| && IsWordChar(s[c])) || (0 < c && IsWordChar(s[c - 1]))
    ensures r.Some? ==> MaximalRun(s, r.value.start, r.value.end)
    ensures r.Some? ==> r.value.start <= c <= r.value.end
  {
    if c < |s| && IsWordChar(s[c]) then Some(Span(RunStart(s, c), RunEnd(s, c)))
    else if 0 < c && IsWordChar(s[c - 1]) then Some(Span(RunStart(s, c - 1), RunEnd(s, c - 1)))
    else None
  }

  /** Maximal runs do not overlap: any column a run contains finds exactly
      that run. */
  lemma WordAroundFindsRun(s: seq<char>, i: nat, j: nat, c: nat)
    requires MaximalRun(s, i, j) && i <= c <= j
    ensures WordAround(s, c) == Some(Span(i, j))
  {
  }
}
