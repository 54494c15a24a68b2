/** What a text console means: an ever-growing tape of rows with a cursor. The screen is its last 25 rows;
    one more row, the one just above the screen, is kept because the code writes there. */
module Terminal {
  import opened Words

  const WIDTH := 80
  const HEIGHT := 25
  const DEFAULT_COLOR: Byte := 0x07

  const BACKSPACE: Byte := 0x08
  const TAB: Byte := 0x09
  const NEWLINE: Byte := 0x0A
  const RETURN: Byte := 0x0D
  const BLANK: Byte := 0x20

  datatype Cell = Cell(ch: Byte, color: Byte)

  const EMPTY_CELL := Cell(0, DEFAULT_COLOR)

  function EmptyRow(): (row: seq<Cell>)
    ensures |row| == WIDTH && forall i | 0 <= i < WIDTH :: row[i] == EMPTY_CELL
  {
    seq(WIDTH, _ => EMPTY_CELL)
  }

  // Row `top` of the tape is the one just above the screen; `x`, `y` is the cursor.
  datatype Tape = Tape(cells: seq<Cell>, top: nat, x: nat, y: nat) {
    predicate Valid() {
      && |cells| == WIDTH * (top + HEIGHT + 1)
      && x < WIDTH
      && top < y <= top + HEIGHT
    }

    /** The number of the cell under the cursor. */
    function At(): nat {
      WIDTH * y + x
    }

    function Write(ch: Byte): Tape
      requires Valid()
    {
      this.(cells := cells[At() := cells[At()].(ch := ch)])
    }

    /** The beginning of the next row, which is added if the cursor is on the last one. */
    function NextRow(): (t: Tape)
      requires Valid()
      ensures t.Valid()
    {
      if y == top + HEIGHT then Tape(cells + EmptyRow(), top + 1, 0, y + 1) else this.(x := 0, y := y + 1)
    }

    /** The part that is in memory: the screen and the row above it. */
    function View(): (t: Tape)
      requires Valid()
      ensures t.Valid() && t.top == 0
    {
      Tape(cells[WIDTH * top..], 0, x, y - top)
    }
  }

  // ----- what a character does

  function Glyph(t: Tape, ch: Byte): (t': Tape)
    requires t.Valid()
    ensures t'.Valid()
  {
    var u := t.Write(ch);
    if t.x + 1 < WIDTH then u.(x := t.x + 1) else u.NextRow()
  }

  function Blanks(t: Tape, count: nat): (t': Tape)
    requires t.Valid()
    ensures t'.Valid()
  {
    if count == 0 then t else Glyph(Blanks(t, count - 1), BLANK)
  }

  /** The number of blanks a tab prints; the loop of the code looks at the cursor again in every round. */
  function TabBlanks(x: nat): nat {
    [2, 2, 1, 3][x % 4]
  }

  /** Where the cursor goes on a row that is reached backwards. */
  function LineEnd(row: seq<Cell>, x: nat): (end: nat)
    requires x < |row|
    ensures end <= x
  {
    if x <= 1 then 0 else if row[x - 1].ch != 0 then x else LineEnd(row, x - 1)
  }

  /** Behind the last character, where neither the first nor the last cell of the row is looked at. */
  lemma {:induction false} LineEndIsLast(row: seq<Cell>, x: nat)
    requires x < |row|
    ensures forall i | LineEnd(row, x) <= i < x && 1 <= i :: row[i].ch == 0
    ensures LineEnd(row, x) == 0 || (LineEnd(row, x) >= 2 && row[LineEnd(row, x) - 1].ch != 0)
  {
    if x > 1 && row[x - 1].ch == 0 {
      LineEndIsLast(row, x - 1);
    }
  }

  /** The cells with the one before the cursor cleared. */
  function Cleared(t: Tape): (cells: seq<Cell>)
    requires t.Valid()
    ensures |cells| == |t.cells|
  {
    t.cells[t.At() - 1 := t.cells[t.At() - 1].(ch := 0)]
  }

  function Erase(t: Tape): (t': Tape)
    requires t.Valid()
    ensures t'.Valid()
  {
    var cells := Cleared(t);
    if t.x > 0 then Tape(cells, t.top, t.x - 1, t.y)
    else
      var y := if t.y > t.top + 1 then t.y - 1 else t.y;
      Tape(cells, t.top, LineEnd(cells[WIDTH * y..WIDTH * (y + 1)], WIDTH - 1), y)
  }

  /** One character. The kernel's console erases on a backspace, the loader's prints it like a letter. */
  function Put(t: Tape, ch: Byte, erases: bool): (t': Tape)
    requires t.Valid()
    ensures t'.Valid()
  {
    if ch == NEWLINE then t.NextRow()
    else if ch == RETURN then t.(x := 0)
    else if ch == BACKSPACE && erases then Erase(t)
    else if ch == TAB then Blanks(t, TabBlanks(t.x))
    else Glyph(t, ch)
  }

  function PutAll(t: Tape, s: seq<Byte>, erases: bool): (t': Tape)
    requires t.Valid()
    ensures t'.Valid()
  {
    if s == [] then t else Put(PutAll(t, s[..|s| - 1], erases), s[|s| - 1], erases)
  }

  // ----- the screen is a view of the tape

  lemma GlyphView(t: Tape, ch: Byte)
    requires t.Valid()
    ensures Glyph(t, ch).View() == Glyph(t.View(), ch).View()
  {
    hide Tape.View, Tape.NextRow, Tape.Write;
    WriteView(t, ch);
    var u := t.Write(ch);
    if t.x + 1 < WIDTH {
      MovedView(u, t.x + 1);
    } else {
      NextRowView(u);
    }
  }

  lemma WriteView(t: Tape, ch: Byte)
    requires t.Valid()
    ensures t.Write(ch).Valid() && t.Write(ch).x == t.x && t.View().x == t.x
    ensures t.Write(ch).View() == t.View().Write(ch)
  {
    var off, at := WIDTH * t.top, t.At();
    UpdateSeen(t.cells, off, at, t.cells[at].(ch := ch));
    assert t.View().At() == at - off && t.View().cells[at - off] == t.cells[at];
  }

  lemma MovedView(t: Tape, x: nat)
    requires t.Valid() && x < WIDTH
    ensures t.(x := x).View() == t.View().(x := x).View()
  {
    ViewOfView(t.View().(x := x));
  }

  lemma ViewOfView(t: Tape)
    requires t.Valid() && t.top == 0
    ensures t.View() == t
  {
  }

  lemma {:induction false} BlanksView(t: Tape, count: nat)
    requires t.Valid()
    ensures Blanks(t, count).View() == Blanks(t.View(), count).View()
  {
    hide Glyph, Tape.View;
    if count > 0 {
      BlanksView(t, count - 1);
      GlyphView(Blanks(t, count - 1), BLANK);
      GlyphView(Blanks(t.View(), count - 1), BLANK);
    } else {
      ViewOfView(t.View());
    }
  }

  lemma NextRowView(t: Tape)
    requires t.Valid()
    ensures t.NextRow().View() == t.View().NextRow().View()
  {
    var off := WIDTH * t.top;
    assert (t.cells + EmptyRow())[off + WIDTH..] == (t.cells[off..] + EmptyRow())[WIDTH..];
    if t.y < t.top + HEIGHT {
      ViewOfView(t.View().NextRow());
    }
  }

  lemma EraseView(t: Tape)
    requires t.Valid()
    ensures Erase(t).View() == Erase(t.View())
  {
    hide LineEnd, Cleared;
    ClearedView(t);
    if t.x == 0 {
      EraseViewAtMargin(t);
    }
  }

  lemma EraseViewAtMargin(t: Tape)
    requires t.Valid() && t.x == 0
    ensures Erase(t).View() == Erase(t.View())
  {
    hide LineEnd, Cleared, Erase;
    ClearedView(t);
    EraseAtMargin(t, ErasedRow(t));
    EraseAtMargin(t.View(), ErasedRow(t) - t.top);
    RowSeen(Cleared(t), t.top, ErasedRow(t));
  }

  /** The row that a backspace leads to from the left margin. */
  function ErasedRow(t: Tape): nat {
    if t.y > t.top + 1 then t.y - 1 else t.y
  }

  lemma EraseWithin(t: Tape)
    requires t.Valid() && t.x > 0
    ensures Erase(t) == Tape(Cleared(t), t.top, t.x - 1, t.y)
  {
    hide LineEnd;
  }

  lemma EraseAtMargin(t: Tape, y: nat)
    requires t.Valid() && t.x == 0 && y == ErasedRow(t)
    ensures WIDTH * (y + 1) <= |Cleared(t)|
    ensures Erase(t) == Tape(Cleared(t), t.top, LineEnd(Cleared(t)[WIDTH * y..WIDTH * (y + 1)], WIDTH - 1), y)
  {
  }

  lemma ClearedView(t: Tape)
    requires t.Valid()
    ensures Cleared(t)[WIDTH * t.top..] == Cleared(t.View())
  {
    var off, i := WIDTH * t.top, t.At() - 1;
    UpdateSeen(t.cells, off, i, t.cells[i].(ch := 0));
    assert t.View().At() - 1 == i - off && t.View().cells[i - off] == t.cells[i];
  }

  lemma UpdateSeen(cells: seq<Cell>, off: nat, i: nat, cell: Cell)
    requires off <= i < |cells|
    ensures cells[i := cell][off..] == cells[off..][i - off := cell]
  {
  }

  lemma RowSeen(cells: seq<Cell>, top: nat, y: nat)
    requires top <= y && WIDTH * (y + 1) <= |cells|
    ensures cells[WIDTH * y..WIDTH * (y + 1)] == cells[WIDTH * top..][WIDTH * (y - top)..WIDTH * (y - top + 1)]
  {
  }

  /** What a character does to the screen depends on nothing that has left it. */
  lemma PutView(t: Tape, ch: Byte, erases: bool)
    requires t.Valid()
    ensures Put(t, ch, erases).View() == Put(t.View(), ch, erases).View()
  {
    hide Erase, Glyph, Blanks, Tape.NextRow, TabBlanks;
    if ch == NEWLINE {
      NextRowView(t);
    } else if ch == RETURN {
      ViewOfView(t.View().(x := 0));
    } else if ch == BACKSPACE && erases {
      EraseView(t);
      ViewOfView(Erase(t).View());
    } else if ch == TAB {
      BlanksView(t, TabBlanks(t.x));
    } else {
      GlyphView(t, ch);
    }
  }

  // ----- properties of the tape

  predicate IsGlyph(ch: Byte, erases: bool) {
    ch != NEWLINE && ch != RETURN && ch != TAB && (erases ==> ch != BACKSPACE)
  }

  /** The tape has the text `s` between the numbers `from` and `from + |s|`. */
  ghost predicate HasText(cells: seq<Cell>, from: nat, s: seq<Byte>) {
    from + |s| <= |cells| && forall i | 0 <= i < |s| :: cells[from + i].ch == s[i]
  }

  /** Text without control characters lies on the tape as it is, wrapping at the right margin, and the cursor
      stands behind it. */
  lemma {:induction false} TextOnTape(t: Tape, s: seq<Byte>, erases: bool)
    requires t.Valid() && forall ch | ch in s :: IsGlyph(ch, erases)
    ensures var u := PutAll(t, s, erases);
            && u.At() == t.At() + |s|
            && HasText(u.cells, t.At(), s)
            && u.cells[..t.At()] == t.cells[..t.At()]
  {
    hide Glyph, HasText;
    if s == [] {
      NoText(t.cells, t.At());
    } else {
      var front, last := s[..|s| - 1], s[|s| - 1];
      assert s == front + [last];
      TextOnTape(t, front, erases);
      var v := PutAll(t, front, erases);
      assert PutAll(t, s, erases) == Glyph(v, last) by { assert IsGlyph(last, erases); }
      GlyphOnTape(v, last);
      TextGrows(v.cells, Glyph(v, last).cells, t.At(), front, last);
    }
  }

  lemma NoText(cells: seq<Cell>, from: nat)
    requires from <= |cells|
    ensures HasText(cells, from, [])
  {
  }

  lemma TextGrows(a: seq<Cell>, b: seq<Cell>, from: nat, s: seq<Byte>, ch: Byte)
    requires HasText(a, from, s) && from + |s| < |b| && b[..from + |s|] == a[..from + |s|] && b[from + |s|].ch == ch
    ensures HasText(b, from, s + [ch]) && b[..from] == a[..from]
  {
    forall i | 0 <= i < |s|
      ensures b[from + i].ch == s[i]
    {
      assert b[from + i] == b[..from + |s|][from + i];
    }
    SamePrefix(a, b, from, from + |s|);
  }

  lemma GlyphOnTape(t: Tape, ch: Byte)
    requires t.Valid()
    ensures var u := Glyph(t, ch);
            && u.At() == t.At() + 1
            && u.At() < |u.cells|
            && u.cells[t.At()] == t.cells[t.At()].(ch := ch)
            && u.cells[..t.At()] == t.cells[..t.At()]
            && |t.cells| <= |u.cells|
            && (forall i | t.At() < i < |t.cells| :: u.cells[i] == t.cells[i])
  {
  }

  /** A newline goes to the beginning of the row below. All cells are kept, and a row that has to be added is
      empty. */
  lemma NewlineLaw(t: Tape, erases: bool)
    requires t.Valid()
    ensures var u := Put(t, 0x0A, erases);
            && u.At() == 80 * (t.y + 1)
            && u.top == (if t.y == t.top + 25 then t.top + 1 else t.top)
            && |t.cells| <= |u.cells| && u.cells[..|t.cells|] == t.cells
            && forall i | |t.cells| <= i < |u.cells| :: u.cells[i] == Cell(0, 0x07)
  {
  }

  /** A return goes to the beginning of the row, and changes nothing else. */
  lemma ReturnLaw(t: Tape, erases: bool)
    requires t.Valid()
    ensures Put(t, 0x0D, erases) == t.(x := 0) && Put(t, 0x0D, erases).At() == 80 * t.y
  {
  }

  /** Where erasing is asked for, a backspace clears the cell before the cursor and goes there, or from the left
      margin to the end of the row above; elsewhere it is printed like a letter. */
  lemma BackspaceLaw(t: Tape)
    requires t.Valid()
    ensures var u := Put(t, 0x08, true);
            && u.top == t.top && |u.cells| == |t.cells|
            && (forall i | 0 <= i < |t.cells| ::
                  u.cells[i] == if i == t.At() - 1 then t.cells[i].(ch := 0) else t.cells[i])
            && (t.x > 0 ==> u.At() == t.At() - 1)
            && (t.x == 0 ==>
                  && u.y == (if t.y == t.top + 1 then t.y else t.y - 1)
                  && u.x == LineEnd(u.cells[80 * u.y..80 * (u.y + 1)], 79))
    ensures Put(t, 0x08, false) == Glyph(t, 0x08)
  {
    hide LineEnd;
  }

  /** A tab prints two, two, one or three spaces. */
  lemma TabLaw(t: Tape, erases: bool)
    requires t.Valid()
    ensures var u, n := Put(t, 0x09, erases), if t.x % 4 < 2 then 2 else if t.x % 4 == 2 then 1 else 3;
            && u.At() == t.At() + n
            && HasText(u.cells, t.At(), seq(n, _ => 0x20))
            && u.cells[..t.At()] == t.cells[..t.At()]
  {
    hide Blanks, HasText;
    BlanksOnTape(t, TabBlanks(t.x));
  }

  lemma {:induction false} BlanksOnTape(t: Tape, count: nat)
    requires t.Valid()
    ensures var u := Blanks(t, count);
            && u.At() == t.At() + count
            && HasText(u.cells, t.At(), seq(count, _ => 0x20))
            && u.cells[..t.At()] == t.cells[..t.At()]
  {
    hide Glyph, HasText;
    var text := seq(count, _ => 0x20);
    if count == 0 {
      NoText(t.cells, t.At());
      assert text == [];
    } else {
      BlanksOnTape(t, count - 1);
      var v := Blanks(t, count - 1);
      GlyphOnTape(v, 0x20);
      TextGrows(v.cells, Glyph(v, 0x20).cells, t.At(), seq(count - 1, _ => 0x20), 0x20);
      assert text == seq(count - 1, _ => 0x20) + [0x20];
    }
  }

  lemma {:induction false} PutAllAppends(t: Tape, a: seq<Byte>, b: seq<Byte>, erases: bool)
    requires t.Valid()
    ensures PutAll(t, a + b, erases) == PutAll(PutAll(t, a, erases), b, erases)
  {
    hide Put;
    if b == [] {
      assert a + b == a;
    } else {
      assert (a + b)[..|a + b| - 1] == a + b[..|b| - 1];
      PutAllAppends(t, a, b[..|b| - 1], erases);
    }
  }

  lemma PutOne(t: Tape, ch: Byte, erases: bool)
    requires t.Valid()
    ensures PutAll(t, [ch], erases) == Put(t, ch, erases)
  {
    hide Put;
    assert [ch][..0] == [];
    assert PutAll(t, [], erases) == t;
  }

  /** Behind a newline, text stands from the beginning of the row below the end of what came before, which is left
      as it was. */
  lemma LinesOnTape(t: Tape, a: seq<Byte>, b: seq<Byte>, erases: bool)
    requires t.Valid() && forall ch | ch in b :: IsGlyph(ch, erases)
    ensures var u, v := PutAll(t, a, erases), PutAll(t, a + [0x0A] + b, erases);
            && v.At() == 80 * (u.y + 1) + |b|
            && HasText(v.cells, 80 * (u.y + 1), b)
            && 80 * (u.y + 1) <= |u.cells| && v.cells[..80 * (u.y + 1)] == u.cells[..80 * (u.y + 1)]
  {
    hide Put, PutAll, HasText;
    var u := PutAll(t, a, erases);
    var n := Put(u, 0x0A, erases);
    PutAllAppends(t, a, [0x0A], erases);
    PutAllAppends(t, a + [0x0A], b, erases);
    PutOne(u, 0x0A, erases);
    NewlineLaw(u, erases);
    TextOnTape(n, b, erases);
    SamePrefix(u.cells, n.cells, 80 * (u.y + 1), |u.cells|);
  }

  /** The tapes agree on the rows above row `y`. */
  ghost predicate SameAbove(a: Tape, b: Tape, y: nat) {
    WIDTH * y <= |a.cells| && WIDTH * y <= |b.cells| && a.cells[..WIDTH * y] == b.cells[..WIDTH * y]
  }

  lemma SameAboveTwice(a: Tape, b: Tape, c: Tape, y: nat, z: nat)
    requires SameAbove(a, b, y) && SameAbove(b, c, z) && y <= z
    ensures SameAbove(a, c, y)
  {
    SamePrefix(b.cells, c.cells, WIDTH * y, WIDTH * z);
  }

  /** Nothing but a backspace ever changes a row above the cursor: what has scrolled off stays as it was. */
  lemma {:induction false} HistoryKept(t: Tape, s: seq<Byte>, erases: bool)
    requires t.Valid() && (erases ==> BACKSPACE !in s)
    ensures var u := PutAll(t, s, erases);
            t.y <= u.y && SameAbove(t, u, t.y)
  {
    if s != [] {
      hide Put, SameAbove;
      var front, last := s[..|s| - 1], s[|s| - 1];
      assert s == front + [last];
      HistoryKept(t, front, erases);
      var u := PutAll(t, front, erases);
      PutKeepsRowsAbove(u, last, erases);
      SameAboveTwice(t, u, Put(u, last, erases), t.y, u.y);
    }
  }

  lemma SamePrefix<T>(a: seq<T>, b: seq<T>, lo: nat, hi: nat)
    requires lo <= hi <= |a| && hi <= |b| && a[..hi] == b[..hi]
    ensures a[..lo] == b[..lo]
  {
    assert a[..lo] == a[..hi][..lo];
  }

  lemma PutKeepsRowsAbove(t: Tape, ch: Byte, erases: bool)
    requires t.Valid() && (erases ==> ch != BACKSPACE)
    ensures var u := Put(t, ch, erases);
            t.y <= u.y && SameAbove(t, u, t.y)
  {
    hide Glyph, Blanks, TabBlanks;
    BlanksKeepRowsAbove(t, TabBlanks(t.x));
    GlyphOnTape(t, ch);
    SamePrefix(t.cells, Glyph(t, ch).cells, WIDTH * t.y, t.At());
  }

  lemma {:induction false} BlanksKeepRowsAbove(t: Tape, count: nat)
    requires t.Valid()
    ensures var u := Blanks(t, count);
            t.y <= u.y && t.At() + count == u.At() && SameAbove(t, u, t.y)
  {
    hide Glyph, Tape.NextRow;
    if count > 0 {
      var u := Blanks(t, count - 1);
      BlanksKeepRowsAbove(t, count - 1);
      GlyphOnTape(u, BLANK);
      SamePrefix(u.cells, Glyph(u, BLANK).cells, WIDTH * t.y, u.At());
    }
  }

  /** Rows are a multiple of four cells long. */
  lemma SameColumn(x: nat, y: nat, x': nat, y': nat, count: nat)
    requires WIDTH * y + x + count == WIDTH * y' + x'
    ensures x' % 4 == (x + count) % 4
  {
    assert x' == x + count + 4 * (20 * (y - y'));
  }

  /** A tab never stops at a multiple of four. */
  lemma TabNeverAligned(t: Tape, erases: bool)
    requires t.Valid()
    ensures Put(t, TAB, erases).x % 4 != 0
    ensures Put(t, TAB, erases).At() == t.At() + TabBlanks(t.x)
  {
    hide Blanks, Tape.Valid;
    var n, u := TabBlanks(t.x), Put(t, TAB, erases);
    BlanksKeepRowsAbove(t, n);
    SameColumn(t.x, t.y, u.x, u.y, n);
    TabMisses(t.x);
  }

  lemma TabMisses(x: nat)
    ensures (x + TabBlanks(x)) % 4 != 0
  {
  }

  /** A backspace takes back a letter printed on a clear cell: always the cell, with the one row of scrolling
      that the letter may have caused remaining; and the cursor too, except across the right margin, where the
      cell before the letter has to be in use. */
  lemma BackspaceUndoes(t: Tape, ch: Byte)
    requires t.Valid() && t.cells[t.At()].ch == 0 && ch != 0 && IsGlyph(ch, true)
    ensures var u := Put(Put(t, ch, true), BACKSPACE, true);
            && u.cells == t.cells + (if t.x + 1 == WIDTH && t.y == t.top + HEIGHT then EmptyRow() else [])
            && u.y == t.y
            && (u == t <==> t.x + 1 < WIDTH || (t.y < t.top + HEIGHT && t.cells[t.At() - 1].ch != 0))
            && (u.x == t.x <==> t.x + 1 < WIDTH || t.cells[t.At() - 1].ch != 0)
  {
    hide Glyph, Erase, Cleared, LineEnd;
    var v := Put(t, ch, true);
    LetterCleared(t, ch);
    if t.x + 1 < WIDTH {
      EraseWithin(v);
    } else {
      EraseAtMargin(v, t.y);
      var row := Cleared(v)[WIDTH * t.y..WIDTH * (t.y + 1)];
      assert row[WIDTH - 2] == Cleared(v)[t.At() - 1] == t.cells[t.At() - 1];
      FullLine(row);
    }
  }

  /** A cursor in the last column stands behind a used cell. */
  predicate EdgeUsed(t: Tape)
    requires t.Valid()
  {
    t.x == WIDTH - 1 ==> t.cells[t.At() - 1].ch != 0
  }

  lemma GlyphKeepsEdge(t: Tape, ch: Byte)
    requires t.Valid() && ch != 0
    ensures EdgeUsed(Glyph(t, ch))
  {
    GlyphOnTape(t, ch);
  }

  /** A backspace gets to the last column only over the left margin, and then behind a used cell. */
  lemma EraseKeepsEdge(t: Tape)
    requires t.Valid()
    ensures EdgeUsed(Erase(t))
  {
    hide Erase, Cleared, LineEnd;
    if t.x > 0 {
      EraseWithin(t);
    } else {
      var y := ErasedRow(t);
      EraseAtMargin(t, y);
      var row := Cleared(t)[WIDTH * y..WIDTH * (y + 1)];
      assert row[WIDTH - 2] == Cleared(t)[WIDTH * y + (WIDTH - 2)];
      FullLine(row);
    }
  }

  lemma {:induction false} BlanksKeepEdge(t: Tape, count: nat)
    requires t.Valid() && EdgeUsed(t)
    ensures EdgeUsed(Blanks(t, count))
  {
    hide Glyph, EdgeUsed;
    if count > 0 {
      BlanksKeepEdge(t, count - 1);
      GlyphKeepsEdge(Blanks(t, count - 1), BLANK);
    }
  }

  lemma PutKeepsEdge(t: Tape, ch: Byte, erases: bool)
    requires t.Valid() && EdgeUsed(t) && ch != 0
    ensures EdgeUsed(Put(t, ch, erases))
  {
    hide Glyph, Erase, Blanks, TabBlanks;
    if ch == BACKSPACE && erases {
      EraseKeepsEdge(t);
    } else if ch == TAB {
      BlanksKeepEdge(t, TabBlanks(t.x));
    } else if ch != NEWLINE && ch != RETURN {
      GlyphKeepsEdge(t, ch);
    }
  }

  /** Text without NUL, whatever its control characters, never leaves the cursor in the last column behind a cell
      that is not in use. */
  lemma {:induction false} TextKeepsEdge(t: Tape, s: seq<Byte>, erases: bool)
    requires t.Valid() && EdgeUsed(t) && 0 !in s
    ensures EdgeUsed(PutAll(t, s, erases))
  {
    hide Put, EdgeUsed;
    if s != [] {
      assert s[|s| - 1] in s && forall ch | ch in s[..|s| - 1] :: ch in s;
      TextKeepsEdge(t, s[..|s| - 1], erases);
      PutKeepsEdge(PutAll(t, s[..|s| - 1], erases), s[|s| - 1], erases);
    }
  }

  /** So behind such text a backspace takes back a letter printed on a clear cell altogether, across the right
      margin too, but for the one row of scrolling. */
  lemma BackspaceUndoesTyped(t: Tape, s: seq<Byte>, ch: Byte)
    requires t.Valid() && EdgeUsed(t) && 0 !in s && ch != 0 && IsGlyph(ch, true)
    requires var u := PutAll(t, s, true); u.cells[u.At()].ch == 0
    ensures var u := PutAll(t, s, true);
            var v := Put(Put(u, ch, true), BACKSPACE, true);
            if u.x + 1 == WIDTH && u.y == u.top + HEIGHT
            then v == Tape(u.cells + EmptyRow(), u.top + 1, u.x, u.y)
            else v == u
  {
    hide Put, PutAll;
    TextKeepsEdge(t, s, true);
    BackspaceUndoes(PutAll(t, s, true), ch);
    ScrolledByLetter(PutAll(t, s, true), ch);
  }

  lemma ScrolledByLetter(t: Tape, ch: Byte)
    requires t.Valid() && t.cells[t.At()].ch == 0 && ch != 0 && IsGlyph(ch, true)
    ensures var v := Put(Put(t, ch, true), BACKSPACE, true);
            v.top == if t.x + 1 == WIDTH && t.y == t.top + HEIGHT then t.top + 1 else t.top
  {
    hide Glyph, Erase, Cleared, LineEnd;
    var v := Put(t, ch, true);
    LetterCleared(t, ch);
    if v.x > 0 {
      EraseWithin(v);
    } else {
      EraseAtMargin(v, ErasedRow(v));
    }
  }

  /** A screen that has just been cleared. */
  function Home(): (t: Tape)
    ensures t.Valid() && EdgeUsed(t)
  {
    Tape(seq(WIDTH * (HEIGHT + 1), _ => EMPTY_CELL), 0, 0, 1)
  }

  predicate AllClear(t: Tape) {
    forall i | 0 <= i < |t.cells| :: t.cells[i].ch == 0
  }

  /** NULs move the cursor and leave the cells unused. */
  lemma {:induction false} NulsMove(t: Tape, count: nat)
    requires t.Valid() && AllClear(t)
    ensures var u := PutAll(t, seq(count, _ => 0), true);
            AllClear(u) && u.At() == t.At() + count
  {
    hide Glyph;
    var s := seq(count, _ => 0);
    if count > 0 {
      NulsMove(t, count - 1);
      assert s[..count - 1] == seq(count - 1, _ => 0);
      var u := PutAll(t, s[..count - 1], true);
      GlyphOnTape(u, 0);
      NulKeepsClear(u);
    }
  }

  lemma NulKeepsClear(t: Tape)
    requires t.Valid() && AllClear(t)
    ensures AllClear(Glyph(t, 0))
  {
  }

  /** Behind 79 NULs at the top of a cleared screen, a letter and a backspace lead to the beginning of the row. */
  lemma NulsLoseColumn()
    ensures var t := PutAll(Home(), seq(79, _ => 0), true);
            && t.x == 79 && t.cells[t.At()].ch == 0
            && Put(Put(t, 0x41, true), BACKSPACE, true).x == 0
  {
    hide Put, PutAll;
    NulsMove(Home(), 79);
    BackToMargin(PutAll(Home(), seq(79, _ => 0), true));
  }

  lemma BackToMargin(t: Tape)
    requires t.Valid() && t.x == WIDTH - 1 && AllClear(t)
    ensures Put(Put(t, 0x41, true), BACKSPACE, true).x == 0
  {
    hide Glyph, Erase, Cleared, LineEnd;
    var v := Put(t, 0x41, true);
    LetterCleared(t, 0x41);
    EraseAtMargin(v, t.y);
    var row := Cleared(v)[WIDTH * t.y..WIDTH * (t.y + 1)];
    assert forall i | 0 <= i < WIDTH :: row[i] == Cleared(v)[WIDTH * t.y + i];
    LineEndIsLast(row, WIDTH - 1);
  }

  lemma LetterCleared(t: Tape, ch: Byte)
    requires t.Valid() && t.cells[t.At()].ch == 0
    ensures var v := Glyph(t, ch);
            && Cleared(v) == t.cells + (if t.x + 1 == WIDTH && t.y == t.top + HEIGHT then EmptyRow() else [])
            && (if t.x + 1 < WIDTH then v.x == t.x + 1 && v.y == t.y && v.top == t.top
                else v.x == 0 && ErasedRow(v) == t.y && v.top == if t.y == t.top + HEIGHT then t.top + 1 else t.top)
  {
    var v := Glyph(t, ch);
    assert v.At() - 1 == t.At();
    var back := t.cells[t.At()].(ch := ch).(ch := 0);
    assert back == t.cells[t.At()];
    assert v.cells[t.At()] == t.cells[t.At()].(ch := ch);
  }

  lemma FullLine(row: seq<Cell>)
    requires |row| == WIDTH
    ensures LineEnd(row, WIDTH - 1) == WIDTH - 1 <==> row[WIDTH - 2].ch != 0
  {
  }
}
