/** The 80x25 text screen, changed in place. The kernel and the loader run the same code, except that only the
    kernel erases on a backspace. */
module Consoles {
  import opened Words
  import opened Terminal

  /** The tape after a cursor has been moved past the right margin or below the last row. */
  ghost function Settled(cells: seq<Cell>, x: nat, y: nat): (t: Tape)
    requires |cells| == WIDTH * (HEIGHT + 1) && x <= WIDTH && y <= HEIGHT
    requires (x == WIDTH ==> y < HEIGHT) && (y == HEIGHT ==> x == 0)
    ensures t.Valid()
  {
    if x == WIDTH then Tape(cells, 0, WIDTH - 1, y + 1).NextRow()
    else if y == HEIGHT then Tape(cells, 0, 0, HEIGHT).NextRow()
    else Tape(cells, 0, x, y + 1)
  }

  lemma NewlineSettles(t: Tape)
    requires t.Valid() && t.top == 0
    ensures Settled(t.cells, 0, t.y) == t.NextRow()
    ensures Settled(t.cells, t.x, t.y - 1) == t && Settled(t.cells, 0, t.y - 1) == t.(x := 0)
  {
  }

  lemma GlyphSettles(t: Tape, ch: Byte)
    requires t.Valid() && t.top == 0
    ensures Settled(t.Write(ch).cells, t.x + 1, t.y - 1) == Glyph(t, ch)
  {
  }

  /** The first unfolding of `Blanks`, and the column it leads to. */
  lemma BlanksColumn(t: Tape, count: nat)
    requires t.Valid()
    ensures Blanks(t, count).View().x % 4 == (t.x + count) % 4
    ensures Blanks(t, 0) == t && (count > 0 ==> Blanks(t, count) == Glyph(Blanks(t, count - 1), BLANK))
  {
    hide Blanks, Glyph, SameAbove, Tape.Valid;
    var u := Blanks(t, count);
    BlanksUnfold(t, count);
    BlanksKeepRowsAbove(t, count);
    SameColumn(t.x, t.y, u.x, u.y, count);
  }

  lemma BlanksUnfold(t: Tape, count: nat)
    requires t.Valid()
    ensures Blanks(t, 0) == t && (count > 0 ==> Blanks(t, count) == Glyph(Blanks(t, count - 1), BLANK))
  {
  }

  /** When the loop of a tab, which looks at the cursor in every round, goes on. */
  lemma TabGoesOn(x: nat, i: nat, now: nat)
    requires i <= TabBlanks(x) && now % 4 == (x + i) % 4
    ensures i < 4 - now % 4 <==> i < TabBlanks(x)
  {
  }

  lemma CellCleared(t: Tape)
    requires t.Valid()
    ensures Cleared(t) == t.cells[t.At() - 1 := t.cells[t.At() - 1].(ch := 0)]
  {
  }

  /** One step of the overlapping copy: what lies behind the copied part is still as it was. */
  lemma CellCopied(before: seq<Cell>, now: seq<Cell>, to: nat)
    requires |now| == |before| && to + WIDTH < |now|
    requires now[..to] == before[WIDTH..to + WIDTH] && now[to..] == before[to..]
    ensures now[to + WIDTH] == before[to + WIDTH]
    ensures var after := now[to := now[to + WIDTH]];
            after[..to + 1] == before[WIDTH..to + WIDTH + 1] && after[to + 1..] == before[to + 1..]
  {
    assert now[to + WIDTH] == now[to..][WIDTH] == before[to..][WIDTH] == before[to + WIDTH];
    var after := now[to := now[to + WIDTH]];
    assert after[..to + 1] == now[..to] + [before[to + WIDTH]];
    assert before[WIDTH..to + WIDTH + 1] == before[WIDTH..to + WIDTH] + [before[to + WIDTH]];
    assert after[to + 1..] == now[to..][1..] == before[to..][1..] == before[to + 1..];
  }

  class Console {
    // Video memory from one row above the screen on: `scroll_up` and a backspace at the top write there.
    const memory: array<Cell>
    const erases: bool
    var posX: int
    var posY: int

    ghost predicate Valid()
      reads this
    {
      memory.Length == WIDTH * (HEIGHT + 1) && 0 <= posX < WIDTH && 0 <= posY < HEIGHT
    }

    /** The whole state, as a tape of 26 rows. */
    ghost function Screen(): (t: Tape)
      requires Valid()
      reads this, memory
      ensures t.Valid() && t.top == 0
    {
      Tape(memory[..], 0, posX, posY + 1)
    }

    constructor (memory: array<Cell>, erases: bool)
      requires memory.Length == WIDTH * (HEIGHT + 1)
      ensures this.memory == memory && this.erases == erases && Valid() && posX == 0 && posY == 0
    {
      this.memory := memory;
      this.erases := erases;
      posX, posY := 0, 0;
    }

    method SetChr(x: int, y: int, ch: Byte)
      requires memory.Length == WIDTH * (HEIGHT + 1) && 0 <= WIDTH * (y + 1) + x < memory.Length
      modifies memory
      ensures var i := WIDTH * (y + 1) + x; memory[..] == old(memory[..])[i := old(memory[..])[i].(ch := ch)]
    {
      memory[WIDTH * (y + 1) + x] := memory[WIDTH * (y + 1) + x].(ch := ch);
    }

    function GetChr(x: int, y: int): Byte
      requires memory.Length == WIDTH * (HEIGHT + 1) && 0 <= WIDTH * (y + 1) + x < memory.Length
      reads memory
    {
      memory[WIDTH * (y + 1) + x].ch
    }

    method Clear()
      requires Valid()
      modifies this, memory
      ensures Valid() && posX == 0 && posY == 0
      ensures memory[..WIDTH] == old(memory[..WIDTH])
      ensures forall i | WIDTH <= i < memory.Length :: memory[i] == EMPTY_CELL
    {
      for y := 0 to HEIGHT
        invariant memory[..WIDTH] == old(memory[..WIDTH])
        invariant forall i | WIDTH <= i < WIDTH * (y + 1) :: memory[i] == EMPTY_CELL
      {
        for x := 0 to WIDTH
          invariant memory[..WIDTH] == old(memory[..WIDTH])
          invariant forall i | WIDTH <= i < WIDTH * (y + 1) + x :: memory[i] == EMPTY_CELL
        {
          memory[WIDTH * (y + 1) + x] := EMPTY_CELL;
        }
      }
      posX, posY := 0, 0;
    }

    /** `scroll_up(1)`: every row is copied, in place and in ascending order, over the one above it, the first
        one over the row above the screen; the last row is cleared. */
    method ScrollUp()
      requires memory.Length == WIDTH * (HEIGHT + 1)
      modifies this`posY, memory
      ensures memory[..] == old(memory[..])[WIDTH..] + EmptyRow()
      ensures posY == old(posY) - 1
    {
      ghost var before := memory[..];
      for y := 0 to HEIGHT
        invariant memory[..WIDTH * y] == before[WIDTH..WIDTH * (y + 1)]
        invariant memory[WIDTH * y..] == before[WIDTH * y..]
        modifies memory
      {
        for x := 0 to WIDTH
          invariant memory[..WIDTH * y + x] == before[WIDTH..WIDTH * (y + 1) + x]
          invariant memory[WIDTH * y + x..] == before[WIDTH * y + x..]
          modifies memory
        {
          CopyCell(WIDTH * (y + 1) + x, WIDTH * y + x, before);
        }
      }
      for x := 0 to WIDTH
        invariant memory[..WIDTH * HEIGHT] == before[WIDTH..]
        invariant memory[WIDTH * HEIGHT..WIDTH * HEIGHT + x] == EmptyRow()[..x]
        modifies memory
      {
        memory[WIDTH * HEIGHT + x] := EMPTY_CELL;
        assert EmptyRow()[..x + 1] == EmptyRow()[..x] + [EMPTY_CELL];
      }
      assert memory[..] == memory[..WIDTH * HEIGHT] + memory[WIDTH * HEIGHT..WIDTH * HEIGHT + WIDTH];
      posY := posY - 1;
    }

    method CopyCell(from: nat, to: nat, ghost before: seq<Cell>)
      requires memory.Length == |before| == WIDTH * (HEIGHT + 1) && from == to + WIDTH < memory.Length
      requires memory[..to] == before[WIDTH..from] && memory[to..] == before[to..]
      modifies memory
      ensures memory[..to + 1] == before[WIDTH..from + 1] && memory[to + 1..] == before[to + 1..]
    {
      ghost var now := memory[..];
      CellCopied(before, now, to);
      memory[to] := memory[from];
      assert memory[..] == now[to := now[from]];
    }

    /** The end of `putc`: a cursor beyond the margin goes to the next row, one below the screen scrolls it. */
    method Settle(ghost goal: Tape)
      requires memory.Length == WIDTH * (HEIGHT + 1) && 0 <= posX <= WIDTH && 0 <= posY <= HEIGHT
      requires (posX == WIDTH ==> posY < HEIGHT) && (posY == HEIGHT ==> posX == 0)
      requires Settled(memory[..], posX, posY).View() == goal
      modifies this`posX, this`posY, memory
      ensures Valid() && Screen() == goal
    {
      ghost var t := Settled(memory[..], posX, posY);
      if posX >= WIDTH {
        posX := 0;
        posY := posY + 1;
      }
      if posY >= HEIGHT {
        ScrollUp();
      }
      assert Screen().cells == t.View().cells;
    }

    ghost function RowAt(y: int): (row: seq<Cell>)
      requires memory.Length == WIDTH * (HEIGHT + 1) && 0 <= y < HEIGHT
      reads memory
      ensures |row| == WIDTH
    {
      memory[..][WIDTH * (y + 1)..WIDTH * (y + 2)]
    }

    /** One step of the search for the end of a row, from behind column `x`. */
    lemma LineEndStep(x: nat, y: nat)
      requires memory.Length == WIDTH * (HEIGHT + 1) && 0 < x < WIDTH && y < HEIGHT
      ensures LineEnd(RowAt(y), x)
           == if x <= 1 then 0 else if GetChr(x - 1, y) != 0 then x else LineEnd(RowAt(y), x - 1)
    {
    }

    /** The cursor has been moved out on the left: it goes to the end of the row above. */
    method WrapBack()
      requires memory.Length == WIDTH * (HEIGHT + 1) && posX == -1 && 0 <= posY < HEIGHT
      modifies this`posX, this`posY
      ensures Valid() && posY == if old(posY) > 0 then old(posY) - 1 else 0
      ensures posX == LineEnd(RowAt(posY), WIDTH - 1)
    {
      hide LineEnd, RowAt, GetChr;
      if posY > 0 {
        posY := posY - 1;
      } else {
        posX := 0;
      }
      posX := WIDTH - 1;
      ghost var end := LineEnd(RowAt(posY), posX);
      LineEndStep(posX, posY);
      while GetChr(posX - 1, posY) == 0
        invariant 2 <= posX < WIDTH && LineEnd(RowAt(posY), posX) == end
        invariant end == if GetChr(posX - 1, posY) != 0 then posX else LineEnd(RowAt(posY), posX - 1)
        modifies this`posX
        decreases posX
      {
        posX := posX - 1;
        LineEndStep(posX, posY);
        if posX <= 1 {
          posX := 0;
          break;
        }
      }
    }

    /** The backspace case of `putc`, with the part behind the switch that only it can reach. */
    method BackUp()
      requires Valid()
      modifies this`posX, this`posY, memory
      ensures Valid() && Screen() == Erase(old(Screen()))
    {
      hide LineEnd, Tape.View, Erase, Cleared;
      ghost var t := Screen();
      assert ErasedRow(t) == if posY > 0 then posY else 1;
      posX := posX - 1;
      assert t.At() - 1 == WIDTH * (posY + 1) + posX;
      SetChr(posX, posY, 0);
      assert memory[..] == Cleared(t) by {
        CellCleared(t);
      }
      if posX < 0 {
        EraseAtMargin(t, ErasedRow(t));
        WrapBack();
      } else {
        EraseWithin(t);
      }
    }

    /** One character does to memory and cursor what it does to the tape. */
    method PutC(ch: Byte)
      requires Valid()
      modifies this`posX, this`posY, memory
      ensures Valid() && Screen() == Put(old(Screen()), ch, erases).View()
      decreases if ch == TAB then 1 else 0
    {
      hide Tape.View, Erase, Glyph, Blanks, TabBlanks, Settled;
      ghost var t, goal := Screen(), Put(Screen(), ch, erases).View();
      if ch == NEWLINE {
        NewlineSettles(t);
        posX := 0;
        posY := posY + 1;
      } else if ch == RETURN {
        NewlineSettles(t);
        posX := 0;
      } else if ch == BACKSPACE && erases {
        BackUp();
        NewlineSettles(Screen());
      } else if ch == TAB {
        PutTab();
        ViewOfView(Screen());
        NewlineSettles(Screen());
      } else {
        GlyphSettles(t, ch);
        SetChr(posX, posY, ch);
        posX := posX + 1;
        assert memory[..] == t.Write(ch).cells;
      }
      Settle(goal);
    }

    /** The tab case of `putc`, which calls `putc` in turn. */
    method PutTab()
      requires Valid()
      modifies this`posX, this`posY, memory
      ensures Valid() && Screen() == Blanks(old(Screen()), TabBlanks(old(posX))).View()
      decreases 1, 0
    {
      hide Tape.View, Glyph, Blanks, TabBlanks;
      ghost var t := Screen();
      ViewOfView(t);
      BlanksColumn(t, 0);
      TabGoesOn(t.x, 0, t.x);
      var i := 0;
      while i < 4 - posX % 4
        invariant Valid() && 0 <= i <= TabBlanks(t.x) && posX % 4 == (t.x + i) % 4
        invariant Screen() == Blanks(t, i).View()
        invariant i < 4 - posX % 4 <==> i < TabBlanks(t.x)
        decreases 4 - i
      {
        ghost var u := Blanks(t, i);
        PutC(BLANK);
        GlyphView(u, BLANK);
        i := i + 1;
        BlanksColumn(t, i);
        TabGoesOn(t.x, i, posX);
      }
    }

    /** A string, sent character by character, leaves on the screen the view of the tape it writes. */
    method PutS(s: seq<Byte>)
      requires Valid()
      modifies this`posX, this`posY, memory
      ensures Valid() && Screen() == PutAll(old(Screen()), s, erases).View()
    {
      ghost var t := Screen();
      ViewOfView(t);
      for i := 0 to |s|
        invariant Valid() && Screen() == PutAll(t, s[..i], erases).View()
      {
        ghost var u := PutAll(t, s[..i], erases);
        PutC(s[i]);
        PutView(u, s[i], erases);
        assert s[..i + 1][..i] == s[..i];
      }
      assert s[..|s|] == s;
    }
  }
}
