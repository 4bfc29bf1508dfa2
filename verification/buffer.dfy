/** The text-position service the engine consumes, reduced to what the
    engine reads from it: the document as a list of lines (without their
    terminators), (line, column) positions, the text between two positions,
    and the character cells a presentation tag covers. */
module Buffer {

  /** A buffer position; marks and iterators both report one. */
  datatype Pos = Pos(line: int, col: int)

  /** Document order on positions. */
  predicate Le(a: Pos, b: Pos) {
    a.line < b.line || (a.line == b.line && a.col <= b.col)
  }

  predicate Lt(a: Pos, b: Pos) {
    a.line < b.line || (a.line == b.line && a.col < b.col)
  }

  /** `iter.in_range(start, end)`: `start <= p < end`. */
  predicate InRange(p: Pos, start: Pos, end: Pos) {
    Le(start, p) && Lt(p, end)
  }

  /** The document: one string per line, terminators removed. */
  type Doc = seq<string>

  /** `line_at_offset(i)`: the text of line `i`; a line outside the buffer
      reads as empty. */
  function LineText(doc: Doc, i: int): string {
    if 0 <= i < |doc| then doc[i] else ""
  }

  /** A column clamped into line `l`. */
  function ClampCol(doc: Doc, l: int, c: int): (r: nat)
    ensures r <= |LineText(doc, l)|
  {
    if c < 0 then 0 else if c > |LineText(doc, l)| then |LineText(doc, l)| else c
  }

  /** `start.get_slice(end)`: the text from `a` up to `b`, with a newline
      between consecutive lines; empty when `b` is not after `a`. */
  function Slice(doc: Doc, a: Pos, b: Pos): string
    decreases if a.line < b.line then b.line - a.line else 0
  {
    if a.line == b.line then
      var lo := ClampCol(doc, a.line, a.col);
      var hi := ClampCol(doc, b.line, b.col);
      if lo <= hi then LineText(doc, a.line)[lo..hi] else ""
    else if a.line < b.line then
      LineText(doc, a.line)[ClampCol(doc, a.line, a.col)..] + "\n" + Slice(doc, Pos(a.line + 1, 0), b)
    else ""
  }

  /** A slice within one line is the substring between the two columns. */
  lemma SliceOneLine(doc: Doc, l: int, lo: nat, hi: nat)
    requires lo <= hi <= |LineText(doc, l)|
    ensures Slice(doc, Pos(l, lo), Pos(l, hi)) == LineText(doc, l)[lo..hi]
  {
  }

  /** Position `p` names a character of the document (a line's terminator
      counts, except after the last line). */
  predicate IsCell(doc: Doc, p: Pos) {
    0 <= p.line < |doc| && 0 <= p.col &&
    (p.col < |doc[p.line]| || (p.col == |doc[p.line]| && p.line + 1 < |doc|))
  }

  /** The character cells in `[a, b)`: what a tag applied from `a` to `b` covers. */
  function Cells(doc: Doc, a: Pos, b: Pos): (r: set<Pos>)
    ensures forall p :: p in r <==> IsCell(doc, p) && Le(a, p) && Lt(p, b)
  {
    set l, c | 0 <= l < |doc| && 0 <= c <= |doc[l]| && IsCell(doc, Pos(l, c)) &&
               Le(a, Pos(l, c)) && Lt(Pos(l, c), b) :: Pos(l, c)
  }

  /** Where a mark at `p` ends up after text is inserted at `at`, the
      inserted text ending at `loc`.  A mark exactly at the insertion point
      stays put with left gravity and moves to the end with right gravity;
      a tagged character there always moves. */
  function MoveOnInsert(p: Pos, at: Pos, loc: Pos, rightGravity: bool): Pos {
    if Lt(p, at) || (p == at && !rightGravity) then p
    else if p == at then loc
    else if p.line == at.line then Pos(loc.line, loc.col + p.col - at.col)
    else Pos(p.line + loc.line - at.line, p.col)
  }

  /** Where a mark at `p` ends up after the text in `[a, b)` is deleted:
      marks inside collapse onto `a`, marks after `b` move back. */
  function MoveOnDelete(p: Pos, a: Pos, b: Pos): Pos {
    if Le(p, a) then p
    else if Le(p, b) then a
    else if p.line == b.line then Pos(a.line, a.col + p.col - b.col)
    else Pos(p.line - (b.line - a.line), p.col)
  }

  /** Insertion keeps the order of two marks (so a region's start stays at
      or before its end), provided the start has left and the end right
      gravity, as for the marks of a region. */
  lemma MoveOnInsertKeepsOrder(p: Pos, q: Pos, at: Pos, loc: Pos)
    requires Le(p, q) && Le(at, loc)
    ensures Le(MoveOnInsert(p, at, loc, false), MoveOnInsert(q, at, loc, true))
  {
  }

  /** Deletion keeps the order of two marks. */
  lemma MoveOnDeleteKeepsOrder(p: Pos, q: Pos, a: Pos, b: Pos)
    requires Le(p, q) && Le(a, b)
    ensures Le(MoveOnDelete(p, a, b), MoveOnDelete(q, a, b))
  {
  }

  /** The tagged cells after an insertion: every cell at or after the
      insertion point moves with its character; inserted text is untagged. */
  function CellsOnInsert(cells: set<Pos>, at: Pos, loc: Pos): (r: set<Pos>)
    ensures forall p :: p in cells && Lt(p, at) ==> p in r
    ensures Lt(at, loc) ==> forall p :: p in r ==> !InRange(p, at, loc)
  {
    set p | p in cells :: MoveOnInsert(p, at, loc, true)
  }

  /** The tagged cells after deleting `[a, b)`: cells inside go away with
      their characters, the rest move with them. */
  function CellsOnDelete(cells: set<Pos>, a: Pos, b: Pos): (r: set<Pos>)
    ensures forall p :: p in cells && Lt(p, a) ==> p in r
    ensures forall p :: p in cells && Le(b, p) ==> MoveOnDelete(p, a, b) in r
  {
    set p | p in cells && !InRange(p, a, b) :: MoveOnDelete(p, a, b)
  }
}
