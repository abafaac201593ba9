/** Where the control characters of drivers/vga.c go, counted on the tape of all lines ever shown. */
module DisplayLaws {
  import opened Bytes
  import opened DisplaySpec

  /** The tape is the one before, or has one blank line more; nothing on it has changed. */
  ghost predicate OnlyLonger(t: Term, r: Term) {
    && r.view == 0 && r.attr == t.attr
    && (Tape(r) == Tape(t) || Tape(r) == Tape(t) + [seq(80, _ => Cell(32, t.attr))])
  }

  lemma SettleLonger(t: Term)
    requires |t.screen| == HEIGHT && LinesOk(t.screen) && LinesOk(t.archive) && t.view == 0
    requires t.row <= HEIGHT && t.col <= WIDTH && (t.row < HEIGHT || t.col < WIDTH)
    ensures TermOk(Settle(t)) && At(Settle(t)) == At(t) && OnlyLonger(t, Settle(t))
  {
    ScrolledTape(if t.col >= WIDTH then t.(col := 0, row := t.row + 1) else t);
  }

  /**
   A newline (10) goes to the start of the next line, a carriage return (13) to the start of this one,
   a tab (9) to the next multiple of four, which may be on the next line. A line that leaves the
   screen is kept, and no cell changes.
   */
  lemma ControlsMove(t: Term, c: byte)
    requires TermOk(t) && (c == 10 || c == 13 || c == 9)
    ensures var r := PutC(t, c);
            && TermOk(r) && OnlyLonger(t, r)
            && At(r) == if c == 10 then (At(t) / 80 + 1) * 80 else if c == 13 then At(t) / 80 * 80
                        else (At(t) / 4 + 1) * 4
  {
    hide Settle;
    var live := t.(view := 0);
    StepKeeps(t, Put(c));
    assert Tape(live) == Tape(t);
    PlaceOnLine(t);
    if c == 10 {
      SettleLonger(live.(col := 0, row := t.row + 1));
    } else if c == 9 {
      TabStop(t.col);
      SettleLonger(live.(col := (t.col + 4) / 4 * 4));
      NextStop((|t.archive| + t.row), t.col);
    }
  }

  lemma PlaceOnLine(t: Term)
    requires TermOk(t)
    ensures At(t) / 80 == |t.archive| + t.row && At(t) / 80 * 80 == At(t) - t.col
  {
  }

  lemma NextStop(line: nat, col: nat)
    ensures line * 80 + (col + 4) / 4 * 4 == ((line * 80 + col) / 4 + 1) * 4
  {
    assert (line * 80 + col) / 4 == line * 20 + col / 4;
  }

  /** Clearing leaves 25 blank lines, the cursor at the first of them, and the rows in use archived. */
  lemma ClearBlanks(t: Term)
    requires TermOk(t)
    ensures var r := Clear(t);
            && TermOk(r) && r.attr == t.attr && r.view == 0 && r.row == 0 && r.col == 0
            && (forall i, j | 0 <= i < 25 && 0 <= j < 80 :: r.screen[i][j] == Cell(32, t.attr))
            && exists n :: && 0 <= n <= 25 && r.archive == t.archive + t.screen[..n]
                           && (forall i | n <= i < 25 :: BlankText(t.screen[i]))
                           && (n > 0 ==> !BlankText(t.screen[n - 1]))
  {
    StepKeeps(t, Wipe);
    var n := UsedRows(t.screen);
  }

  /** Every character goes out in the colours set last. */
  lemma ColorsStick(t: Term, attr: byte, c: byte)
    requires TermOk(t) && Printable(c)
    ensures var r := Apply(Apply(t, Color(attr)), Put(c));
            TermOk(r) && At(t) < Length(r) && CellAt(r, At(t)) == Cell(c, attr)
  {
    var u := Apply(t, Color(attr));
    assert u == t.(attr := attr);
    PutPlain(u, c);
  }

  /** The cursor goes where it is sent, or to the nearest place on the screen. */
  lemma CursorMoves(t: Term, row: int, col: int)
    requires TermOk(t)
    ensures var r := Apply(t, MoveTo(row, col));
            && r == t.(row := r.row, col := r.col)
            && r.row == (if row < 0 then 0 else if row > 24 then 24 else row)
            && r.col == (if col < 0 then 0 else if col > 79 then 79 else col)
  {
  }
}
