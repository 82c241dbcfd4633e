/** The character grid behind both WPF front ends: a `Terminal` of rows of
    `Cell`s, a caret, and the shared render properties every text write
    stamps onto the written cell. A `List<List<Cell>>` holds row objects by
    reference, and one of the two front ends makes two slots hold the same
    row object, so the grid is modelled as a list of row references (`rows`)
    into a store of row objects (`heap`). */
module Terminals {
  import opened Wrappers
  import opened Values

  datatype Color = Color(r: byte, g: byte, b: byte)

  /** A typeface as far as the model cares: style, weight and stretch. */
  datatype Face = Face(italic: bool, bold: bool, condensed: bool)

  /** Normal style, normal weight, condensed stretch. */
  const DefaultFace: Face := Face(false, false, true)

  /** A cell's text and attributes; an unset brush is `None`. */
  datatype Cell = Cell(text: string, background: Option<Color>, foreground: Option<Color>, face: Face)

  /** The render properties shared by every cell of a terminal. `enabled`
      exists in one front end only; the other behaves as if it were always true. */
  datatype RenderProps = RenderProps(background: Color, foreground: Color, face: Face, enabled: bool)

  const DefaultProps: RenderProps := RenderProps(Color(50, 50, 50), Color(255, 255, 255), DefaultFace, true)

  /** The caret's position and the text of the cell it was last moved onto. */
  datatype Caret = Caret(row: int, col: int, text: string)

  datatype Terminal = Terminal(rows: seq<nat>, heap: seq<seq<Cell>>, caret: Caret, props: RenderProps)

  /** A newly constructed cell: text `" "`, no brushes, the default typeface. */
  const Fresh: Cell := Cell(" ", None, None, DefaultFace)

  /** The `Text` setter: the text is stored and, when the properties are
      enabled, their brushes and typeface are copied onto the cell. */
  function Stamp(c: Cell, text: string, p: RenderProps): (r: Cell)
    ensures r.text == text
    ensures p.enabled ==> r == Cell(text, Some(p.background), Some(p.foreground), p.face)
    ensures !p.enabled ==> r.background == c.background && r.foreground == c.foreground && r.face == c.face
  {
    if p.enabled then Cell(text, Some(p.background), Some(p.foreground), p.face)
    else c.(text := text)
  }

  // ---------------------------------------------------------------------
  // Row references
  // ---------------------------------------------------------------------

  predicate ValidRefs(heap: seq<seq<Cell>>, rows: seq<nat>) {
    forall i | 0 <= i < |rows| :: rows[i] < |heap|
  }

  predicate Distinct(rows: seq<nat>) {
    forall i, j | 0 <= i < j < |rows| :: rows[i] != rows[j]
  }

  predicate Valid(t: Terminal) {
    ValidRefs(t.heap, t.rows)
  }

  /** No two slots of the grid hold the same row object. */
  predicate Unaliased(t: Terminal) {
    Distinct(t.rows)
  }

  function View(heap: seq<seq<Cell>>, rows: seq<nat>): (r: seq<seq<Cell>>)
    requires ValidRefs(heap, rows)
    ensures |r| == |rows| && forall i | 0 <= i < |rows| :: r[i] == heap[rows[i]]
  {
    seq(|rows|, i requires 0 <= i < |rows| => heap[rows[i]])
  }

  /** What `Cells` shows: row i is the row object in slot i. */
  function Grid(t: Terminal): (r: seq<seq<Cell>>)
    requires Valid(t)
    ensures |r| == |t.rows| && forall i | 0 <= i < |t.rows| :: r[i] == t.heap[t.rows[i]]
  {
    View(t.heap, t.rows)
  }

  /** An unaliased grid of `h` rows of `w` cells each. */
  predicate Rect(t: Terminal, h: nat, w: nat) {
    && Valid(t) && Unaliased(t) && |t.rows| == h
    && forall i | 0 <= i < h :: |t.heap[t.rows[i]]| == w
  }

  /** `Cells[row][col]`: both indexers throw when out of range. */
  function CellAt(t: Terminal, row: int, col: int): (r: Result<Cell, Fault>)
    requires Valid(t)
    ensures r.Success? <==> 0 <= row < |t.rows| && 0 <= col < |Grid(t)[row]|
    ensures r.Success? ==> r.value == Grid(t)[row][col]
    ensures r.Failure? ==> r.error == IndexOutOfRange
  {
    if 0 <= row < |t.rows| && 0 <= col < |t.heap[t.rows[row]]| then Success(t.heap[t.rows[row]][col])
    else Failure(IndexOutOfRange)
  }

  /** `Cells[row][col] = x` through the row object in slot `row`: every slot
      holding the same row object sees the change. */
  function SetCell(t: Terminal, row: nat, col: nat, x: Cell): (r: Terminal)
    requires Valid(t) && row < |t.rows| && col < |Grid(t)[row]|
    ensures Valid(r) && r.rows == t.rows && r.caret == t.caret && r.props == t.props
    ensures forall i | 0 <= i < |t.rows| ::
              Grid(r)[i] == if t.rows[i] == t.rows[row] then Grid(t)[i][col := x] else Grid(t)[i]
  {
    var k := t.rows[row];
    t.(heap := t.heap[k := t.heap[k][col := x]])
  }

  /** In an unaliased grid a write changes exactly one cell. */
  lemma SetCellUnaliased(t: Terminal, row: nat, col: nat, x: Cell)
    requires Valid(t) && Unaliased(t) && row < |t.rows| && col < |Grid(t)[row]|
    ensures forall i | 0 <= i < |t.rows| ::
              Grid(SetCell(t, row, col, x))[i] == if i == row then Grid(t)[i][col := x] else Grid(t)[i]
  {
  }

  // ---------------------------------------------------------------------
  // The caret
  // ---------------------------------------------------------------------

  /** `Cells[0].Count`, the width the caret wraps at; throws on an empty grid. */
  function Width(t: Terminal): (r: Result<int, Fault>)
    requires Valid(t)
    ensures r.Success? <==> |t.rows| > 0
    ensures r.Success? ==> r.value == |Grid(t)[0]|
  {
    if |t.rows| == 0 then Failure(IndexOutOfRange) else Success(|t.heap[t.rows[0]]|)
  }

  /** `Caret.MoveCaret`: the caret takes the position and the text of the
      cell there; a position outside the grid throws. */
  function MoveCaret(t: Terminal, row: int, col: int): (r: Result<Terminal, Fault>)
    requires Valid(t)
    ensures r.Success? <==> 0 <= row < |t.rows| && 0 <= col < |Grid(t)[row]|
    ensures r.Success? ==> r.value == t.(caret := Caret(row, col, Grid(t)[row][col].text))
  {
    var cell :- CellAt(t, row, col);
    Success(t.(caret := Caret(row, col, cell.text)))
  }

  /** The position after one right move in a grid `w` wide. */
  function Advance(w: int, row: int, col: int): (int, int) {
    if col == w - 1 then (row + 1, 0) else (row, col + 1)
  }

  /** `MoveCaretRight`: one column right, or the start of the next row from
      the last column of row 0's width. */
  function MoveCaretRight(t: Terminal): (r: Result<Terminal, Fault>)
    requires Valid(t)
    ensures r.Success? ==> |t.rows| > 0
    ensures r.Success? ==>
              var w := |Grid(t)[0]|;
              var next := Advance(w, t.caret.row, t.caret.col);
              r == MoveCaret(t, next.0, next.1)
    ensures |t.rows| > 0 ==>
              var next := Advance(|Grid(t)[0]|, t.caret.row, t.caret.col);
              r == MoveCaret(t, next.0, next.1)
  {
    var w :- Width(t);
    if t.caret.col == w - 1 then MoveCaret(t, t.caret.row + 1, 0)
    else MoveCaret(t, t.caret.row, t.caret.col + 1)
  }

  /** `MoveCaretLeft`: one column left, or the last column of the previous
      row from column 0. */
  function MoveCaretLeft(t: Terminal): (r: Result<Terminal, Fault>)
    requires Valid(t)
    ensures t.caret.col != 0 ==> r == MoveCaret(t, t.caret.row, t.caret.col - 1)
    ensures t.caret.col == 0 && |t.rows| == 0 ==> r.Failure?
    ensures t.caret.col == 0 && |t.rows| > 0 ==> r == MoveCaret(t, t.caret.row - 1, |Grid(t)[0]| - 1)
  {
    if t.caret.col == 0 then
      var w :- Width(t);
      MoveCaret(t, t.caret.row - 1, w - 1)
    else MoveCaret(t, t.caret.row, t.caret.col - 1)
  }

  /** Between in-bounds positions of a rectangular grid a left move undoes a
      right move: the caret returns to its position, now showing that cell. */
  lemma MoveCaretLeftUndoesRight(t: Terminal, h: nat, w: nat)
    requires Rect(t, h, w)
    requires 0 <= t.caret.row < h && 0 <= t.caret.col < w
    requires MoveCaretRight(t).Success?
    ensures MoveCaretLeft(MoveCaretRight(t).value)
            == Success(t.(caret := Caret(t.caret.row, t.caret.col, Grid(t)[t.caret.row][t.caret.col].text)))
  {
  }

  // ---------------------------------------------------------------------
  // Construction
  // ---------------------------------------------------------------------

  /** The constructor: 24 rows of 80 new cells, each written `"X"` under the
      given properties, and the caret moved to (0, 0). */
  function NewTerminal(props: RenderProps): (r: Terminal)
    ensures Rect(r, 24, 80)
    ensures forall i, j | 0 <= i < 24 && 0 <= j < 80 :: Grid(r)[i][j] == Stamp(Fresh, "X", props)
    ensures r.caret == Caret(0, 0, "X") && r.props == props
  {
    var cells := seq(80, _ => Stamp(Fresh, "X", props));
    var heap := seq(24, _ => cells);
    var rows := seq(24, i => i);
    var unplaced := Terminal(rows, heap, Caret(0, 0, Fresh.text), props);
    MoveCaret(unplaced, 0, 0).value
  }

  // ---------------------------------------------------------------------
  // Writing text
  // ---------------------------------------------------------------------

  /** `Cells[caret.Row][caret.Column].Text = text`. */
  function WriteAtCaret(t: Terminal, text: string): (r: Result<Terminal, Fault>)
    requires Valid(t)
    ensures r.Success? <==> 0 <= t.caret.row < |t.rows| && 0 <= t.caret.col < |Grid(t)[t.caret.row]|
    ensures r.Success? ==>
              r.value == SetCell(t, t.caret.row, t.caret.col,
                                 Stamp(Grid(t)[t.caret.row][t.caret.col], text, t.props))
  {
    var cell :- CellAt(t, t.caret.row, t.caret.col);
    Success(SetCell(t, t.caret.row, t.caret.col, Stamp(cell, text, t.props)))
  }

  /** `PutText`: each character is written at the caret, which then moves
      right; the first write or move that leaves the grid throws. */
  function PutText(t: Terminal, s: string): (r: Result<Terminal, Fault>)
    requires Valid(t)
    ensures r.Success? ==> Valid(r.value) && r.value.rows == t.rows && r.value.props == t.props
    decreases |s|
  {
    if |s| == 0 then Success(t)
    else
      var written :- WriteAtCaret(t, [s[0]]);
      var moved :- MoveCaretRight(written);
      PutText(moved, s[1..])
  }

  /** Text written in two pieces is the text written at once. */
  lemma {:induction false} PutTextAppend(t: Terminal, a: string, b: string)
    requires Valid(t)
    ensures PutText(t, a + b) ==
            match PutText(t, a)
            case Failure(e) => Failure(e)
            case Success(u) => PutText(u, b)
    decreases |a|
  {
    if |a| == 0 {
      assert a + b == b;
    } else {
      assert (a + b)[0] == a[0];
      assert (a + b)[1..] == a[1..] + b;
      match WriteAtCaret(t, [a[0]])
      case Failure(_) =>
      case Success(written) =>
        match MoveCaretRight(written)
        case Failure(_) =>
        case Success(moved) =>
          PutTextAppend(moved, a[1..], b);
    }
  }

  /** The row-major index of a position in a grid `w` wide. */
  function Lin(w: nat, row: int, col: int): int {
    row * w + col
  }

  lemma {:induction false} MulMonotone(a: int, b: int, w: nat)
    requires a <= b
    ensures a * w <= b * w
    decreases b - a
  {
    if a < b {
      MulMonotone(a, b - 1, w);
      assert b * w == (b - 1) * w + w;
    }
  }

  lemma AdvanceLin(w: nat, row: int, col: int)
    requires 0 <= col < w
    ensures var next := Advance(w, row, col);
            && Lin(w, next.0, next.1) == Lin(w, row, col) + 1
            && 0 <= next.1 < w && next.0 >= row
  {
    if col == w - 1 {
      assert (row + 1) * w == row * w + w;
    }
  }

  /** For a column inside the width, a row is inside the height exactly
      when the row-major index is below `h * w`. */
  lemma LinInside(h: nat, w: nat, row: int, col: int)
    requires 0 <= row && 0 <= col < w
    ensures row < h <==> Lin(w, row, col) < h * w
  {
    if row < h {
      MulMonotone(row + 1, h, w);
      assert (row + 1) * w == row * w + w;
    } else {
      MulMonotone(h, row, w);
    }
  }

  /** Within the width, distinct positions have distinct indices. */
  lemma LinInjective(w: nat, r1: int, c1: int, r2: int, c2: int)
    requires 0 <= c1 < w && 0 <= c2 < w
    requires Lin(w, r1, c1) == Lin(w, r2, c2)
    ensures r1 == r2 && c1 == c2
  {
    if r1 < r2 {
      MulMonotone(r1 + 1, r2, w);
    } else if r2 < r1 {
      MulMonotone(r2 + 1, r1, w);
    }
  }

  /** The caret sits on a cell of an `h` by `w` grid. */
  predicate CaretInside(t: Terminal, h: nat, w: nat) {
    0 <= t.caret.row < h && 0 <= t.caret.col < w
  }

  /** One pass of the `PutText` loop from a caret inside a rectangular
      grid: the caret's cell gets the character and the caret advances one
      place in row-major order. */
  lemma PutTextStep(t: Terminal, c: char, h: nat, w: nat)
    requires Rect(t, h, w) && CaretInside(t, h, w)
    ensures WriteAtCaret(t, [c]).Success?
    ensures var written := WriteAtCaret(t, [c]).value;
            var start := Lin(w, t.caret.row, t.caret.col);
            var next := Advance(w, t.caret.row, t.caret.col);
            && Rect(written, h, w) && written.caret == t.caret && written.props == t.props
            && MoveCaretRight(written) == MoveCaret(written, next.0, next.1)
            && next.0 >= 0 && 0 <= next.1 < w && Lin(w, next.0, next.1) == start + 1
            && (next.0 < h <==> start + 1 < h * w)
            && Written(Grid(t), Grid(written), h, w, start, [c], t.props)
  {
    var start := Lin(w, t.caret.row, t.caret.col);
    var written := WriteAtCaret(t, [c]).value;
    SetCellUnaliased(t, t.caret.row, t.caret.col, Stamp(Grid(t)[t.caret.row][t.caret.col], [c], t.props));
    var next := Advance(w, t.caret.row, t.caret.col);
    AdvanceLin(w, t.caret.row, t.caret.col);
    LinInside(h, w, next.0, next.1);
    forall i, j | 0 <= i < h && 0 <= j < w
      ensures Grid(written)[i][j] ==
                if start <= Lin(w, i, j) < start + 1
                then Stamp(Grid(t)[i][j], [[c][Lin(w, i, j) - start]], t.props)
                else Grid(t)[i][j]
    {
      if Lin(w, i, j) == start {
        LinInjective(w, i, j, t.caret.row, t.caret.col);
      }
    }
  }

  /** Writing the first character of `s` and then the rest after it is
      writing `s`. */
  lemma WrittenCompose(g0: seq<seq<Cell>>, g1: seq<seq<Cell>>, g2: seq<seq<Cell>>, h: nat, w: nat,
                       start: int, next: int, s: string, rest: string, p: RenderProps, q: RenderProps)
    requires |g0| == h && |g1| == h && |g2| == h
    requires forall i | 0 <= i < h :: |g0[i]| == w && |g1[i]| == w && |g2[i]| == w
    requires |s| > 0 && rest == s[1..] && next == start + 1 && q == p
    requires Written(g0, g1, h, w, start, [s[0]], p)
    requires Written(g1, g2, h, w, next, rest, q)
    ensures Written(g0, g2, h, w, start, s, p)
  {
    forall i, j | 0 <= i < h && 0 <= j < w
      ensures g2[i][j] ==
                if start <= Lin(w, i, j) < start + |s|
                then Stamp(g0[i][j], [s[Lin(w, i, j) - start]], p)
                else g0[i][j]
    {
      var q := Lin(w, i, j);
      if start < q < start + |s| {
        assert s[q - start] == s[1..][q - (start + 1)];
      }
    }
  }

  /** The cells `PutText` leaves behind: `s[k]` in the cell `k` places after
      index `start`, every other cell as it was. */
  ghost predicate Written(before: seq<seq<Cell>>, after: seq<seq<Cell>>, h: nat, w: nat,
                          start: int, s: string, p: RenderProps)
    requires |before| == h && |after| == h
    requires forall i | 0 <= i < h :: |before[i]| == w && |after[i]| == w
  {
    forall i, j {:trigger after[i][j]} | 0 <= i < h && 0 <= j < w ::
      after[i][j] ==
        if start <= Lin(w, i, j) < start + |s|
        then Stamp(before[i][j], [s[Lin(w, i, j) - start]], p)
        else before[i][j]
  }

  /** When `PutText` succeeds on a rectangular grid: exactly when every cell
      it passes, including the one the caret ends on, lies in the grid (the
      last write moves the caret once more, and that move reads the cell). */
  lemma {:induction false} PutTextSucceeds(t: Terminal, s: string, h: nat, w: nat)
    requires Rect(t, h, w) && |s| > 0
    ensures PutText(t, s).Success? <==>
              CaretInside(t, h, w) && Lin(w, t.caret.row, t.caret.col) + |s| < h * w
    decreases |s|
  {
    if !CaretInside(t, h, w) {
      assert WriteAtCaret(t, [s[0]]).Failure?;
      return;
    }
    LinInside(h, w, t.caret.row, t.caret.col);
    PutTextStep(t, s[0], h, w);
    var written := WriteAtCaret(t, [s[0]]).value;
    var next := Advance(w, t.caret.row, t.caret.col);
    if !(next.0 < h) {
      assert PutText(t, s).Failure?;
      return;
    }
    var moved := MoveCaretRight(written).value;
    assert PutText(t, s) == PutText(moved, s[1..]);
    assert Rect(moved, h, w) && CaretInside(moved, h, w);
    if |s| > 1 {
      PutTextSucceeds(moved, s[1..], h, w);
    }
  }

  /** Where a successful `PutText` leaves the caret in a rectangular grid:
      `|s|` places further on in row-major order, showing that cell's text;
      the shape of the grid is kept. */
  lemma {:induction false} PutTextMovesCaret(t: Terminal, s: string, h: nat, w: nat)
    requires Rect(t, h, w) && |s| > 0 && PutText(t, s).Success?
    ensures var r := PutText(t, s).value;
            && Rect(r, h, w) && r.rows == t.rows && r.props == t.props
            && CaretInside(r, h, w)
            && Lin(w, r.caret.row, r.caret.col) == Lin(w, t.caret.row, t.caret.col) + |s|
            && r.caret.text == Grid(r)[r.caret.row][r.caret.col].text
    decreases |s|
  {
    var moved := FirstPass(t, s, h, w);
    if |s| == 1 {
      assert PutText(moved, s[1..]) == Success(moved);
    } else {
      PutTextMovesCaret(moved, s[1..], h, w);
    }
  }

  /** What a successful `PutText` leaves in a rectangular grid: `s[k]` in the
      cell `k` places after the caret in row-major order, every other cell
      alone. */
  lemma {:induction false} PutTextWrites(t: Terminal, s: string, h: nat, w: nat, r: Terminal)
    requires Rect(t, h, w) && |s| > 0 && PutText(t, s) == Success(r)
    ensures Rect(r, h, w)
    ensures Written(Grid(t), Grid(r), h, w, Lin(w, t.caret.row, t.caret.col), s, t.props)
    decreases |s|
  {
    var moved := FirstPass(t, s, h, w);
    if |s| == 1 {
      assert PutText(moved, s[1..]) == Success(moved);
      assert s == [s[0]];
    } else {
      PutTextWrites(moved, s[1..], h, w, r);
      WrittenCompose(Grid(t), Grid(moved), Grid(r), h, w, Lin(w, t.caret.row, t.caret.col),
                     Lin(w, moved.caret.row, moved.caret.col), s, s[1..], t.props, moved.props);
    }
  }

  /** The first pass of a successful `PutText` on a rectangular grid: the
      caret's cell gets `s[0]`, the caret lands on the next cell, and the
      rest of `s` is written from there. */
  lemma FirstPass(t: Terminal, s: string, h: nat, w: nat) returns (moved: Terminal)
    requires Rect(t, h, w) && |s| > 0 && PutText(t, s).Success?
    ensures Rect(moved, h, w) && CaretInside(moved, h, w)
    ensures PutText(t, s) == PutText(moved, s[1..])
    ensures moved.rows == t.rows && moved.props == t.props
    ensures Lin(w, moved.caret.row, moved.caret.col) == Lin(w, t.caret.row, t.caret.col) + 1
    ensures moved.caret.text == Grid(moved)[moved.caret.row][moved.caret.col].text
    ensures Written(Grid(t), Grid(moved), h, w, Lin(w, t.caret.row, t.caret.col), [s[0]], t.props)
  {
    PutTextSucceeds(t, s, h, w);
    WriteAndMove(t, s[0], h, w);
    moved := MoveCaretRight(WriteAtCaret(t, [s[0]]).value).value;
  }

  /** One full pass of the `PutText` loop that stays inside the grid: the
      caret's cell gets `c` and the caret lands on the next cell. */
  lemma WriteAndMove(t: Terminal, c: char, h: nat, w: nat)
    requires Rect(t, h, w) && CaretInside(t, h, w)
    requires Lin(w, t.caret.row, t.caret.col) + 1 < h * w
    ensures WriteAtCaret(t, [c]).Success?
    ensures MoveCaretRight(WriteAtCaret(t, [c]).value).Success?
    ensures var moved := MoveCaretRight(WriteAtCaret(t, [c]).value).value;
            var start := Lin(w, t.caret.row, t.caret.col);
            && Rect(moved, h, w) && CaretInside(moved, h, w)
            && moved.rows == t.rows && moved.props == t.props
            && Lin(w, moved.caret.row, moved.caret.col) == start + 1
            && Written(Grid(t), Grid(moved), h, w, start, [c], t.props)
  {
    PutTextStep(t, c, h, w);
    var written := WriteAtCaret(t, [c]).value;
    var moved := MoveCaretRight(written).value;
    assert Grid(moved) == Grid(written);
  }

  // ---------------------------------------------------------------------
  // Clearing and attributes
  // ---------------------------------------------------------------------

  /** Every cell of a row written with `text`. */
  function StampRow(row: seq<Cell>, text: string, p: RenderProps): (r: seq<Cell>)
    ensures |r| == |row| && forall j | 0 <= j < |row| :: r[j] == Stamp(row[j], text, p)
  {
    seq(|row|, j requires 0 <= j < |row| => Stamp(row[j], text, p))
  }

  /** `Clear`: every cell of every row gets the text `""`. A row object
      reachable from two slots is written twice, to the same effect. */
  function Clear(t: Terminal): (r: Terminal)
    requires Valid(t)
    ensures Valid(r) && r.rows == t.rows && r.caret == t.caret && r.props == t.props
    ensures forall i | 0 <= i < |t.rows| ::
              && |Grid(r)[i]| == |Grid(t)[i]|
              && forall j | 0 <= j < |Grid(t)[i]| :: Grid(r)[i][j] == Stamp(Grid(t)[i][j], "", t.props)
  {
    t.(heap := seq(|t.heap|, k requires 0 <= k < |t.heap| =>
                     if k in t.rows then StampRow(t.heap[k], "", t.props) else t.heap[k]))
  }

  /** After `Clear` no cell shows any text, and clearing again changes nothing. */
  lemma ClearBlanksAndIsIdempotent(t: Terminal)
    requires Valid(t)
    ensures forall i, j | 0 <= i < |t.rows| && 0 <= j < |Grid(Clear(t))[i]| :: Grid(Clear(t))[i][j].text == ""
    ensures Clear(Clear(t)) == Clear(t)
  {
    var once := Clear(t);
    var twice := Clear(once);
    forall k | 0 <= k < |t.heap|
      ensures twice.heap[k] == once.heap[k]
    {
      if k in t.rows {
        assert StampRow(once.heap[k], "", t.props) == once.heap[k];
      }
    }
  }

  /** `ClearToEnd`: columns `caret.col` up to row 0's width of the caret's
      row get the text `""`. Nothing happens when the caret is at or past
      that width; a caret row outside the grid, a negative column or a row
      shorter than that width throws. */
  function ClearToEnd(t: Terminal): (r: Result<Terminal, Fault>)
    requires Valid(t)
    ensures r.Success? <==>
              && |t.rows| > 0
              && (|| t.caret.col >= |Grid(t)[0]|
                  || (0 <= t.caret.row < |t.rows| && 0 <= t.caret.col && |Grid(t)[t.caret.row]| >= |Grid(t)[0]|))
    ensures r.Success? ==>
              && Valid(r.value) && r.value.rows == t.rows && r.value.caret == t.caret && r.value.props == t.props
    ensures r.Success? && t.caret.col >= |Grid(t)[0]| ==> r.value == t
    ensures r.Success? && t.caret.col < |Grid(t)[0]| ==>
              forall i | 0 <= i < |t.rows| ::
                && |Grid(r.value)[i]| == |Grid(t)[i]|
                && forall j | 0 <= j < |Grid(t)[i]| ::
                     Grid(r.value)[i][j] ==
                       if t.rows[i] == t.rows[t.caret.row] && t.caret.col <= j < |Grid(t)[0]|
                       then Stamp(Grid(t)[i][j], "", t.props)
                       else Grid(t)[i][j]
  {
    var w :- Width(t);
    var row := t.caret.row;
    var col := t.caret.col;
    if col >= w then Success(t)
    else if !(0 <= row < |t.rows|) || col < 0 || |t.heap[t.rows[row]]| < w then Failure(IndexOutOfRange)
    else
      var k := t.rows[row];
      var cleared := seq(|t.heap[k]|, j requires 0 <= j < |t.heap[k]| =>
                           if col <= j < w then Stamp(t.heap[k][j], "", t.props) else t.heap[k][j]);
      Success(t.(heap := t.heap[k := cleared]))
  }

  /** On an unaliased grid `ClearToEnd` touches only the caret's row. */
  lemma ClearToEndOnlyCaretRow(t: Terminal, h: nat, w: nat)
    requires Rect(t, h, w) && CaretInside(t, h, w)
    ensures ClearToEnd(t).Success?
    ensures forall i, j | 0 <= i < h && 0 <= j < w ::
              Grid(ClearToEnd(t).value)[i][j] ==
                if i == t.caret.row && t.caret.col <= j then Stamp(Grid(t)[i][j], "", t.props)
                else Grid(t)[i][j]
  {
  }

  /** `Highlight`: later writes use the given foreground and a normal-stretch
      typeface of the given weight and style; the background is kept. The
      caret's cell is then invalidated, which throws when the caret is
      outside the grid. No cell changes. */
  function Highlight(t: Terminal, foreground: Color, bold: bool, italic: bool): (r: Result<Terminal, Fault>)
    requires Valid(t)
    ensures r.Success? <==> CellAt(t, t.caret.row, t.caret.col).Success?
    ensures r.Success? ==>
              && r.value.rows == t.rows && r.value.heap == t.heap && r.value.caret == t.caret
              && r.value.props == t.props.(foreground := foreground, face := Face(italic, bold, false))
  {
    var props := t.props.(foreground := foreground, face := Face(italic, bold, false));
    var _ :- CellAt(t, t.caret.row, t.caret.col);
    Success(t.(props := props))
  }

  /** A write after `Highlight` carries the highlighted attributes. */
  lemma HighlightThenWrite(t: Terminal, foreground: Color, bold: bool, italic: bool, text: string)
    requires Valid(t) && t.props.enabled
    requires Highlight(t, foreground, bold, italic).Success?
    ensures var u := Highlight(t, foreground, bold, italic).value;
            && WriteAtCaret(u, text).Success?
            && Grid(WriteAtCaret(u, text).value)[t.caret.row][t.caret.col]
               == Cell(text, Some(t.props.background), Some(foreground), Face(italic, bold, false))
  {
  }

  // ---------------------------------------------------------------------
  // Scrolling by copying cell attributes (the `sbyte` variant)
  // ---------------------------------------------------------------------

  /** `n` new cells given the background brush explicitly, as the scroll does. */
  function Backdrop(n: nat, background: Color): (r: seq<Cell>)
    ensures |r| == n && forall j | 0 <= j < n :: r[j] == Cell(" ", Some(background), None, DefaultFace)
  {
    seq(n, _ => Cell(" ", Some(background), None, DefaultFace))
  }

  /** Cell `j` of `dst` takes background, foreground, typeface and then text
      of cell `j` of `src`; the text write stamps only when enabled. */
  function CopyRow(dst: seq<Cell>, src: seq<Cell>, p: RenderProps): (r: seq<Cell>)
    requires |src| >= |dst|
    ensures |r| == |dst|
  {
    seq(|dst|, j requires 0 <= j < |dst| => Stamp(src[j], src[j].text, p))
  }

  /** With stamping disabled a copy is exact. */
  lemma CopyRowExact(dst: seq<Cell>, src: seq<Cell>, p: RenderProps)
    requires |src| == |dst| && !p.enabled
    ensures CopyRow(dst, src, p) == src
  {
  }

  /** Rows `i+1` into `i` for `i` ascending from `from` to the next-to-last slot;
      reading past the end of a shorter source row throws. */
  function CopyUp(heap: seq<seq<Cell>>, rows: seq<nat>, from: nat, p: RenderProps): (r: Result<seq<seq<Cell>>, Fault>)
    requires ValidRefs(heap, rows)
    ensures r.Success? ==> |r.value| == |heap| && ValidRefs(r.value, rows)
    decreases |rows| - from
  {
    if from + 1 >= |rows| then Success(heap)
    else
      var dst := heap[rows[from]];
      var src := heap[rows[from + 1]];
      if |src| < |dst| then Failure(IndexOutOfRange)
      else CopyUp(heap[rows[from] := CopyRow(dst, src, p)], rows, from + 1, p)
  }

  /** Rows `i-1` into `i` for `i` descending from `from` to 1. */
  function CopyDown(heap: seq<seq<Cell>>, rows: seq<nat>, from: int, p: RenderProps): (r: Result<seq<seq<Cell>>, Fault>)
    requires ValidRefs(heap, rows) && from < |rows|
    ensures r.Success? ==> |r.value| == |heap| && ValidRefs(r.value, rows)
    decreases from
  {
    if from <= 0 then Success(heap)
    else
      var dst := heap[rows[from]];
      var src := heap[rows[from - 1]];
      if |src| < |dst| then Failure(IndexOutOfRange)
      else CopyDown(heap[rows[from] := CopyRow(dst, src, p)], rows, from - 1, p)
  }

  /** Equal-length rows over distinct slots: the upward copy shifts slots
      `from+1 ..` up by one and keeps the last. */
  lemma {:induction false} CopyUpShifts(heap: seq<seq<Cell>>, rows: seq<nat>, from: nat, p: RenderProps, w: nat, k: nat)
    requires ValidRefs(heap, rows) && Distinct(rows) && !p.enabled && k < |rows|
    requires forall m | 0 <= m < |rows| :: |heap[rows[m]]| == w
    ensures CopyUp(heap, rows, from, p).Success?
    ensures CopyUp(heap, rows, from, p).value[rows[k]]
            == if from <= k < |rows| - 1 then heap[rows[k + 1]] else heap[rows[k]]
    decreases |rows| - from
  {
    if from + 1 < |rows| {
      CopyRowExact(heap[rows[from]], heap[rows[from + 1]], p);
      var next := heap[rows[from] := heap[rows[from + 1]]];
      CopyUpShifts(next, rows, from + 1, p, w, k);
      assert CopyUp(heap, rows, from, p) == CopyUp(next, rows, from + 1, p);
      if k != from {
        assert rows[k] != rows[from];
        if from <= k < |rows| - 1 {
          assert rows[k + 1] != rows[from];
        }
      }
    }
  }

  /** Equal-length rows over distinct slots: the downward copy shifts slots
      `.. from-1` down by one and keeps slot 0. */
  lemma {:induction false} CopyDownShifts(heap: seq<seq<Cell>>, rows: seq<nat>, from: int, p: RenderProps, w: nat, k: nat)
    requires ValidRefs(heap, rows) && Distinct(rows) && !p.enabled && from < |rows| && k < |rows|
    requires forall m | 0 <= m < |rows| :: |heap[rows[m]]| == w
    ensures CopyDown(heap, rows, from, p).Success?
    ensures CopyDown(heap, rows, from, p).value[rows[k]]
            == if 1 <= k <= from then heap[rows[k - 1]] else heap[rows[k]]
    decreases from
  {
    if from > 0 {
      CopyRowExact(heap[rows[from]], heap[rows[from - 1]], p);
      var next := heap[rows[from] := heap[rows[from - 1]]];
      CopyDownShifts(next, rows, from - 1, p, w, k);
      assert CopyDown(heap, rows, from, p) == CopyDown(next, rows, from - 1, p);
      if k != from {
        assert rows[k] != rows[from];
        if 1 <= k <= from {
          assert rows[k - 1] != rows[from];
        }
      }
    }
  }

  /** `Scroll(sbyte)`: with stamping disabled, 1 gives the last row new cells
      and then copies every row from the one below, top to bottom; -1
      copies every row from the one above, bottom to top, and then gives
      row 0 new cells; any other value changes nothing. Stamping is enabled
      again at the end. */
  function ScrollByCopy(t: Terminal, direction: int): (r: Result<Terminal, Fault>)
    requires Valid(t)
    ensures (direction == 1 || direction == -1) && |t.rows| == 0 ==> r.Failure?
    ensures direction != 1 && direction != -1 ==> r == Success(t.(props := t.props.(enabled := true)))
    ensures r.Success? ==>
              && Valid(r.value) && r.value.rows == t.rows && r.value.caret == t.caret
              && r.value.props == t.props.(enabled := true)
              && forall i | 0 <= i < |t.rows| :: |Grid(r.value)[i]| == |Grid(t)[i]|
  {
    var p := t.props.(enabled := false);
    var n := |t.rows|;
    if direction == 1 then
      if n == 0 then Failure(IndexOutOfRange)
      else
        var last := t.rows[n - 1];
        var blanked := t.heap[last := Backdrop(|t.heap[last]|, p.background)];
        var shifted :- CopyUp(blanked, t.rows, 0, p);
        var r := t.(heap := shifted, props := p.(enabled := true));
        assert forall i | 0 <= i < n :: |Grid(r)[i]| == |Grid(t)[i]| by {
          CopyUpKeepsLengths(blanked, t.rows, 0, p);
        }
        Success(r)
    else if direction == -1 then
      var shifted :- CopyDown(t.heap, t.rows, n - 1, p);
      if n == 0 then Failure(IndexOutOfRange)
      else
        var first := t.rows[0];
        var r := t.(heap := shifted[first := Backdrop(|shifted[first]|, p.background)], props := p.(enabled := true));
        assert forall i | 0 <= i < n :: |Grid(r)[i]| == |Grid(t)[i]| by {
          CopyDownKeepsLengths(t.heap, t.rows, n - 1, p);
        }
        Success(r)
    else Success(t.(props := p.(enabled := true)))
  }

  lemma {:induction false} CopyUpKeepsLengths(heap: seq<seq<Cell>>, rows: seq<nat>, from: nat, p: RenderProps)
    requires ValidRefs(heap, rows) && CopyUp(heap, rows, from, p).Success?
    ensures forall k | 0 <= k < |heap| :: |CopyUp(heap, rows, from, p).value[k]| == |heap[k]|
    decreases |rows| - from
  {
    if from + 1 < |rows| {
      var dst := heap[rows[from]];
      CopyUpKeepsLengths(heap[rows[from] := CopyRow(dst, heap[rows[from + 1]], p)], rows, from + 1, p);
    }
  }

  lemma {:induction false} CopyDownKeepsLengths(heap: seq<seq<Cell>>, rows: seq<nat>, from: int, p: RenderProps)
    requires ValidRefs(heap, rows) && from < |rows| && CopyDown(heap, rows, from, p).Success?
    ensures forall k | 0 <= k < |heap| :: |CopyDown(heap, rows, from, p).value[k]| == |heap[k]|
    decreases from
  {
    if from > 0 {
      var dst := heap[rows[from]];
      CopyDownKeepsLengths(heap[rows[from] := CopyRow(dst, heap[rows[from - 1]], p)], rows, from - 1, p);
    }
  }

  /** Scrolling up a rectangular grid: rows `0 .. h-3` hold the old rows
      `1 .. h-2`, and the last two rows both hold new cells with the
      background brush, so the old last row is lost. */
  lemma ScrollUpByCopy(t: Terminal, h: nat, w: nat)
    requires Rect(t, h, w) && h > 0
    ensures ScrollByCopy(t, 1).Success?
    ensures var r := ScrollByCopy(t, 1).value;
            && Rect(r, h, w)
            && (forall i | 0 <= i < h - 2 :: Grid(r)[i] == Grid(t)[i + 1])
            && (forall i | h - 2 <= i < h && 0 <= i :: Grid(r)[i] == Backdrop(w, t.props.background))
  {
    ScrollUpRow(t, h, w, 0);
    var r := ScrollByCopy(t, 1).value;
    forall i | 0 <= i < h
      ensures Grid(r)[i] == if i < h - 2 then Grid(t)[i + 1] else Backdrop(w, t.props.background)
      ensures |r.heap[r.rows[i]]| == w
    {
      ScrollUpRow(t, h, w, i);
    }
  }

  /** Row `i` after scrolling a rectangular grid up by copying. */
  lemma ScrollUpRow(t: Terminal, h: nat, w: nat, i: nat)
    requires Rect(t, h, w) && i < h
    ensures ScrollByCopy(t, 1).Success?
    ensures ScrollByCopy(t, 1).value.heap[t.rows[i]]
            == if i < h - 2 then t.heap[t.rows[i + 1]] else Backdrop(w, t.props.background)
  {
    var p := t.props.(enabled := false);
    var last := t.rows[h - 1];
    var blanked := t.heap[last := Backdrop(w, p.background)];
    assert forall m | 0 <= m < h :: |blanked[t.rows[m]]| == w;
    CopyUpShifts(blanked, t.rows, 0, p, w, i);
    var shifted := CopyUp(blanked, t.rows, 0, p).value;
    assert ScrollByCopy(t, 1) == Success(t.(heap := shifted, props := p.(enabled := true)));
    if i < h - 1 {
      assert shifted[t.rows[i]] == blanked[t.rows[i + 1]];
      if i < h - 2 {
        assert t.rows[i + 1] != last;
      }
    }
  }

  /** Scrolling down a rectangular grid: rows `1 .. h-1` hold the old rows
      `0 .. h-2`, and row 0 holds new cells with the background brush. */
  lemma ScrollDownByCopy(t: Terminal, h: nat, w: nat)
    requires Rect(t, h, w) && h > 0
    ensures ScrollByCopy(t, -1).Success?
    ensures var r := ScrollByCopy(t, -1).value;
            && Rect(r, h, w)
            && (forall i | 1 <= i < h :: Grid(r)[i] == Grid(t)[i - 1])
            && Grid(r)[0] == Backdrop(w, t.props.background)
  {
    var p := t.props.(enabled := false);
    var first := t.rows[0];
    CopyDownShifts(t.heap, t.rows, h - 1, p, w, 0);
    var shifted := CopyDown(t.heap, t.rows, h - 1, p).value;
    assert shifted[first] == t.heap[first];
    var heap := shifted[first := Backdrop(w, p.background)];
    var r := t.(heap := heap, props := p.(enabled := true));
    assert ScrollByCopy(t, -1) == Success(r);
    forall i | 1 <= i < h
      ensures heap[t.rows[i]] == t.heap[t.rows[i - 1]]
    {
      CopyDownShifts(t.heap, t.rows, h - 1, p, w, i);
      assert t.rows[i] != first;
    }
    assert forall i | 0 <= i < h :: Grid(r)[i] == heap[t.rows[i]];
    assert forall i | 0 <= i < h :: |heap[t.rows[i]]| == w;
  }

  // ---------------------------------------------------------------------
  // Scrolling by moving row objects (the `byte` variant)
  // ---------------------------------------------------------------------

  /** `Scroll(byte)`: on 1 every slot takes the row object of the slot below
      and the last row object gets new cells; any other value changes
      nothing (a byte is never -1). The last two slots then hold the same
      row object. */
  function ScrollByRef(t: Terminal, direction: int): (r: Result<Terminal, Fault>)
    requires Valid(t)
    ensures direction != 1 ==> r == Success(t)
    ensures direction == 1 ==> (r.Success? <==> |t.rows| > 0)
    ensures r.Success? ==>
              && Valid(r.value) && |r.value.rows| == |t.rows| && |r.value.heap| == |t.heap|
              && r.value.caret == t.caret && r.value.props == t.props
  {
    if direction != 1 then Success(t)
    else if |t.rows| == 0 then Failure(IndexOutOfRange)
    else
      var last := t.rows[|t.rows| - 1];
      Success(t.(rows := t.rows[1..] + [last], heap := t.heap[last := seq(|t.heap[last]|, _ => Fresh)]))
  }

  /** Scrolling up a rectangular unaliased grid by row objects: rows
      `0 .. h-3` hold the old rows `1 .. h-2`; the last two slots hold one
      and the same row object, the old last row, now all new cells. */
  lemma ScrollUpByRef(t: Terminal, h: nat, w: nat)
    requires Rect(t, h, w) && h >= 2
    ensures ScrollByRef(t, 1).Success?
    ensures var r := ScrollByRef(t, 1).value;
            && (forall i | 0 <= i < h - 2 :: Grid(r)[i] == Grid(t)[i + 1])
            && r.rows[h - 2] == r.rows[h - 1] && !Unaliased(r)
            && Grid(r)[h - 2] == seq(w, _ => Fresh) && Grid(r)[h - 1] == seq(w, _ => Fresh)
  {
    var r := ScrollByRef(t, 1).value;
    assert r.rows[h - 2] == t.rows[h - 1];
    forall i | 0 <= i < h - 2
      ensures Grid(r)[i] == Grid(t)[i + 1]
    {
      assert r.rows[i] == t.rows[i + 1];
    }
  }

  /** After such a scroll, a write into row `h-2` shows in row `h-1` too. */
  lemma AliasedRowsShareWrites(t: Terminal, h: nat, w: nat, col: nat, x: Cell)
    requires Rect(t, h, w) && h >= 2 && col < w
    ensures var r := ScrollByRef(t, 1).value;
            && Valid(r) && col < |Grid(r)[h - 2]|
            && Grid(SetCell(r, h - 2, col, x))[h - 1][col] == x
  {
    ScrollUpByRef(t, h, w);
  }

  // ---------------------------------------------------------------------
  // Resizing
  // ---------------------------------------------------------------------

  /** `k` new cells written `" "` under the properties. */
  function Pad(k: nat, p: RenderProps): (r: seq<Cell>)
    ensures |r| == k && forall j | 0 <= j < k :: r[j] == Stamp(Fresh, " ", p)
  {
    seq(k, _ => Stamp(Fresh, " ", p))
  }

  /** Appends `k` new row objects, each created with a capacity but no cells. */
  function AddRows(t: Terminal, k: nat): (r: Terminal)
    requires Valid(t)
    ensures Valid(r) && |r.rows| == |t.rows| + k && r.caret == t.caret && r.props == t.props
    ensures forall i | 0 <= i < |r.rows| :: Grid(r)[i] == if i < |t.rows| then Grid(t)[i] else []
    ensures Unaliased(t) ==> Unaliased(r)
  {
    t.(rows := t.rows + seq(k, i => |t.heap| + i), heap := t.heap + seq(k, _ => []))
  }

  /** Cuts the row in every slot from `from` on, in order, to its first
      `cols` cells; a negative `cols` or a row shorter than `cols` throws. */
  function ShrinkRows(heap: seq<seq<Cell>>, rows: seq<nat>, from: nat, cols: int): (r: Result<seq<seq<Cell>>, Fault>)
    requires ValidRefs(heap, rows)
    ensures r.Success? ==> |r.value| == |heap| && ValidRefs(r.value, rows)
    decreases |rows| - from
  {
    if from >= |rows| then Success(heap)
    else
      var row := heap[rows[from]];
      if cols < 0 || |row| < cols then Failure(ArgumentOutOfRange)
      else ShrinkRows(heap[rows[from] := row[..cols]], rows, from + 1, cols)
  }

  /** `pad` appended to the row object of every slot from `from` on, in order. */
  function GrowRows(heap: seq<seq<Cell>>, rows: seq<nat>, from: nat, pad: seq<Cell>): (r: seq<seq<Cell>>)
    requires ValidRefs(heap, rows)
    ensures |r| == |heap| && ValidRefs(r, rows)
    decreases |rows| - from
  {
    if from >= |rows| then heap
    else GrowRows(heap[rows[from] := heap[rows[from]] + pad], rows, from + 1, pad)
  }

  /** The column half of `Resize`, driven by row 0's width. */
  function ResizeColumns(t: Terminal, cols: int): (r: Result<Terminal, Fault>)
    requires Valid(t)
    ensures r.Success? ==> Valid(r.value) && r.value.rows == t.rows && r.value.caret == t.caret && r.value.props == t.props
  {
    var w :- Width(t);
    if w > cols then
      var heap :- ShrinkRows(t.heap, t.rows, 0, cols);
      Success(t.(heap := heap))
    else if w < cols then Success(t.(heap := GrowRows(t.heap, t.rows, 0, Pad(cols - w, t.props))))
    else Success(t)
  }

  /** `Resize(rows, columns)`: nothing when both dimensions already match;
      otherwise trailing rows are removed or new empty rows appended, and
      then, judged by row 0's width, every row is cut to `cols` cells or
      given `cols - width` new `" "` cells. Reading row 0 of an empty grid,
      a negative count and cutting a row shorter than `cols` throw. */
  function Resize(t: Terminal, rows: int, cols: int): (r: Result<Terminal, Fault>)
    requires Valid(t)
    ensures r.Success? ==>
              && Valid(r.value) && |r.value.rows| == rows
              && r.value.caret == t.caret && r.value.props == t.props
    ensures r.Success? && Unaliased(t) ==> Unaliased(r.value)
    ensures rows < 0 || |t.rows| == 0 ==> r.Failure?
  {
    var n := |t.rows|;
    if n == rows then
      if n == 0 then Failure(IndexOutOfRange)
      else if |t.heap[t.rows[0]]| == cols then Success(t)
      else ResizeColumns(t, cols)
    else if n > rows then
      if rows < 0 then Failure(ArgumentOutOfRange)
      else ResizeColumns(t.(rows := t.rows[..rows]), cols)
    else if n == 0 then Failure(IndexOutOfRange)
    else ResizeColumns(AddRows(t, rows - n), cols)
  }

  lemma {:induction false} ShrinkRowsCuts(heap: seq<seq<Cell>>, rows: seq<nat>, from: nat, cols: nat, k: nat)
    requires ValidRefs(heap, rows) && Distinct(rows) && k < |rows|
    requires forall m | from <= m < |rows| :: |heap[rows[m]]| >= cols
    ensures ShrinkRows(heap, rows, from, cols).Success?
    ensures ShrinkRows(heap, rows, from, cols).value[rows[k]]
            == if from <= k then heap[rows[k]][..cols] else heap[rows[k]]
    decreases |rows| - from
  {
    if from < |rows| {
      var next := heap[rows[from] := heap[rows[from]][..cols]];
      ShrinkRowsCuts(next, rows, from + 1, cols, k);
      assert ShrinkRows(heap, rows, from, cols) == ShrinkRows(next, rows, from + 1, cols);
      if k != from {
        assert rows[k] != rows[from];
      }
    }
  }

  lemma {:induction false} ShrinkRowsFails(heap: seq<seq<Cell>>, rows: seq<nat>, from: nat, cols: int, k: nat)
    requires ValidRefs(heap, rows) && Distinct(rows)
    requires from <= k < |rows| && |heap[rows[k]]| < cols
    ensures ShrinkRows(heap, rows, from, cols).Failure?
    decreases |rows| - from
  {
    if from < k && cols >= 0 && |heap[rows[from]]| >= cols {
      assert rows[k] != rows[from];
      ShrinkRowsFails(heap[rows[from] := heap[rows[from]][..cols]], rows, from + 1, cols, k);
    }
  }

  lemma {:induction false} GrowRowsAppends(heap: seq<seq<Cell>>, rows: seq<nat>, from: nat, pad: seq<Cell>, k: nat)
    requires ValidRefs(heap, rows) && Distinct(rows) && k < |rows|
    ensures GrowRows(heap, rows, from, pad)[rows[k]]
            == if from <= k then heap[rows[k]] + pad else heap[rows[k]]
    decreases |rows| - from
  {
    if from < |rows| {
      var next := heap[rows[from] := heap[rows[from]] + pad];
      GrowRowsAppends(next, rows, from + 1, pad, k);
      if k != from {
        assert rows[k] != rows[from];
      }
    }
  }

  /** Resizing a rectangular grid to its own dimensions changes nothing. */
  lemma ResizeSameSize(t: Terminal, h: nat, w: nat)
    requires Rect(t, h, w) && h > 0
    ensures Resize(t, h, w) == Success(t)
  {
  }

  /** Shrinking a rectangular grid keeps the top-left `rows` by `cols`
      region cell for cell. */
  lemma ResizeShrinks(t: Terminal, h: nat, w: nat, rows: nat, cols: nat)
    requires Rect(t, h, w) && 1 <= rows <= h && cols <= w && (rows != h || cols != w)
    ensures Resize(t, rows, cols).Success?
    ensures var r := Resize(t, rows, cols).value;
            && Rect(r, rows, cols)
            && forall i | 0 <= i < rows :: Grid(r)[i] == Grid(t)[i][..cols]
  {
    var u := if rows == h then t else t.(rows := t.rows[..rows]);
    assert Rect(u, rows, w);
    if cols < w {
      ShrinkRowsCuts(u.heap, u.rows, 0, cols, 0);
      var heap := ShrinkRows(u.heap, u.rows, 0, cols).value;
      assert Resize(t, rows, cols) == Success(u.(heap := heap));
      forall k | 0 <= k < rows
        ensures heap[u.rows[k]] == u.heap[u.rows[k]][..cols]
      {
        ShrinkRowsCuts(u.heap, u.rows, 0, cols, k);
      }
    } else {
      forall i | 0 <= i < rows
        ensures Grid(t)[i][..cols] == Grid(t)[i]
      {
      }
    }
  }

  /** Growing a rectangular grid: slots beyond the old height get new row
      objects that start empty, and when the width grows every row, old or
      new, is given `cols - w` new `" "` cells, so the new rows end up only
      `cols - w` wide. */
  lemma ResizeGrows(t: Terminal, h: nat, w: nat, rows: nat, cols: nat)
    requires Rect(t, h, w) && h > 0 && 1 <= rows && cols >= w && (rows > h || cols > w)
    ensures Resize(t, rows, cols).Success?
    ensures var r := Resize(t, rows, cols).value;
            && Unaliased(r) && |r.rows| == rows
            && forall i | 0 <= i < rows ::
                 Grid(r)[i] == (if i < h then Grid(t)[i] else [])
                               + Pad(cols - w, t.props)
  {
    var u := if rows == h then t else if rows < h then t.(rows := t.rows[..rows]) else AddRows(t, rows - h);
    assert Valid(u) && Unaliased(u) && |u.rows| == rows;
    assert forall i | 0 <= i < rows :: Grid(u)[i] == if i < h then Grid(t)[i] else [];
    assert Resize(t, rows, cols) == ResizeColumns(u, cols);
    if cols > w {
      forall k | 0 <= k < rows
        ensures GrowRows(u.heap, u.rows, 0, Pad(cols - w, t.props))[u.rows[k]] == u.heap[u.rows[k]] + Pad(cols - w, t.props)
      {
        GrowRowsAppends(u.heap, u.rows, 0, Pad(cols - w, t.props), k);
      }
    } else {
      assert Pad(0, t.props) == [];
    }
  }

  /** Adding rows without adding columns gives the new rows no cells at all,
      since the column phase pads by the difference in width only; the caret
      then cannot be put on a new row. */
  lemma AddedRowsAreEmpty(t: Terminal, h: nat, w: nat, rows: nat)
    requires Rect(t, h, w) && h > 0 && rows > h
    ensures Resize(t, rows, w).Success?
    ensures var r := Resize(t, rows, w).value;
            && Valid(r)
            && (forall i | h <= i < rows :: |Grid(r)[i]| == 0)
            && forall col :: MoveCaret(r, h, col).Failure?
  {
    ResizeGrows(t, h, w, rows, w);
    assert Pad(0, t.props) == [];
  }

  /** The cases that throw on a non-empty rectangular grid: a negative row
      count, a negative column count, and new empty rows that the column
      cut cannot shorten. */
  lemma ResizeFails(t: Terminal, h: nat, w: nat, rows: int, cols: int)
    requires Rect(t, h, w) && h > 0
    requires || rows < 0
             || (1 <= rows <= h && cols < 0)
             || (rows > h && 0 < cols < w)
    ensures Resize(t, rows, cols).Failure?
  {
    if rows > h && 0 < cols < w {
      var u := AddRows(t, rows - h);
      assert |u.heap[u.rows[h]]| == 0;
      ShrinkRowsFails(u.heap, u.rows, 0, cols, h);
    }
  }
}