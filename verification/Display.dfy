/**
 The text display (drivers/vga.c): what the terminal means as one endless tape of lines, and what
 each piece of output does to it.
 */
module DisplaySpec {
  import opened Bytes

  const WIDTH: nat := 80
  const HEIGHT: nat := 25
  const SCROLLBACK: nat := 512
  const SPACE: byte := 32
  const BACKSPACE: byte := 8
  const TAB: byte := 9
  const NEWLINE: byte := 10
  const RETURN: byte := 13
  const LIGHT_GREY: byte := 7

  /** A character and its colours. */
  datatype Cell = Cell(ch: byte, attr: byte)

  type Line = seq<Cell>

  /** `archive` is every line that ever left the screen, also those no longer kept. */
  datatype Term = Term(archive: seq<Line>, screen: seq<Line>, row: nat, col: nat, attr: byte, view: nat)

  function Blank(attr: byte): Line { seq(WIDTH, _ => Cell(SPACE, attr)) }

  /** The lines one can scroll back to: the most recent 512. */
  function Kept(archive: seq<Line>): seq<Line> {
    if |archive| <= SCROLLBACK then archive else archive[|archive| - SCROLLBACK..]
  }

  predicate LinesOk(s: seq<Line>) { forall i | 0 <= i < |s| :: |s[i]| == WIDTH }

  predicate TermOk(t: Term) {
    && |t.screen| == HEIGHT && LinesOk(t.screen) && LinesOk(t.archive)
    && t.row < HEIGHT && t.col < WIDTH && t.view <= |Kept(t.archive)|
  }

  /** The 25 lines on display: `view` lines above the live screen. */
  function Window(t: Term): seq<Line>
    requires TermOk(t)
  {
    Lookback(Kept(t.archive), t.screen, t.view)
  }

  function Lookback(kept: seq<Line>, screen: seq<Line>, view: nat): seq<Line>
    requires view <= |kept| && |screen| == HEIGHT
  { (kept + screen)[|kept| - view..|kept| - view + HEIGHT] }

  /** The flat video memory shows these lines. */
  predicate Shows(vram: seq<Cell>, lines: seq<Line>) {
    && |vram| == WIDTH * HEIGHT && |lines| == HEIGHT && LinesOk(lines)
    && forall k | 0 <= k < |vram| :: vram[k] == lines[k / WIDTH][k % WIDTH]
  }

  // ----- the operations

  /** The top line leaves, a blank one comes in. */
  function Scrolled(t: Term): Term
    requires |t.screen| == HEIGHT
  {
    t.(archive := t.archive + [t.screen[0]], screen := t.screen[1..] + [Blank(t.attr)], row := HEIGHT - 1)
  }

  /** Wraps a cursor that ran off the right edge, scrolls if it ran off the bottom. */
  function Settle(t: Term): Term
    requires |t.screen| == HEIGHT
  {
    var w := if t.col >= WIDTH then t.(col := 0, row := t.row + 1) else t;
    if w.row >= HEIGHT then Scrolled(w) else w
  }

  function SetCell(t: Term, ch: byte): Term
    requires TermOk(t)
  { t.(screen := t.screen[t.row := t.screen[t.row][t.col := Cell(ch, t.attr)]]) }

  function StepBack(t: Term): Term {
    if t.col > 0 then t.(col := t.col - 1)
    else if t.row > 0 then t.(row := t.row - 1, col := WIDTH - 1)
    else t
  }

  /** `vga_putc`. */
  function PutC(t: Term, c: byte): Term
    requires TermOk(t)
  {
    var live := t.(view := 0);
    if c == NEWLINE then Settle(live.(col := 0, row := t.row + 1))
    else if c == RETURN then live.(col := 0)
    else if c == TAB then Settle(live.(col := (t.col + 4) / 4 * 4))
    else if c == BACKSPACE then SetCell(StepBack(live), SPACE)
    else var s := SetCell(live, c); Settle(s.(col := t.col + 1))
  }

  predicate BlankText(l: Line) { forall i | 0 <= i < |l| :: l[i].ch == SPACE || l[i].ch == 0 }

  /** The rows up to the last one with text in it. */
  function UsedRows(s: seq<Line>): (n: nat)
    ensures n <= |s|
    ensures forall i | n <= i < |s| :: BlankText(s[i])
    ensures n > 0 ==> !BlankText(s[n - 1])
  {
    if s == [] then 0
    else if !BlankText(s[|s| - 1]) then |s|
    else UsedRows(s[..|s| - 1])
  }

  /** `vga_clear`. */
  function Clear(t: Term): Term
    requires TermOk(t)
  {
    Term(t.archive + t.screen[..UsedRows(t.screen)], seq(HEIGHT, _ => Blank(t.attr)), 0, 0, t.attr, 0)
  }

  /** `vga_scroll_view`: positive towards older lines. */
  function ScrollView(t: Term, lines: int): Term {
    var target := t.view + lines;
    t.(view := if target < 0 then 0 else if target > |Kept(t.archive)| then |Kept(t.archive)| else target)
  }

  datatype Op =
    | Put(c: byte)
    | Wipe
    | Scroll(lines: int)
    | Bottom
    | Color(attr: byte)
    | MoveTo(row: int, col: int)

  function Clamp(v: int, limit: nat): (r: nat)
    requires limit > 0
    ensures r < limit && (0 <= v < limit ==> r == v)
  { if v < 0 then 0 else if v >= limit then limit - 1 else v }

  function Apply(t: Term, op: Op): (r: Term)
    requires TermOk(t)
    ensures TermOk(r)
  {
    StepKeeps(t, op);
    match op
    case Put(c) => PutC(t, c)
    case Wipe => Clear(t)
    case Scroll(lines) => ScrollView(t, lines)
    case Bottom => t.(view := 0)
    case Color(attr) => t.(attr := attr)
    case MoveTo(row, col) => t.(row := Clamp(row, HEIGHT), col := Clamp(col, WIDTH))
  }

  function Run(t: Term, ops: seq<Op>): (r: Term)
    requires TermOk(t)
    ensures TermOk(r)
    decreases |ops|
  { if ops == [] then t else Run(Apply(t, ops[0]), ops[1..]) }

  /** `vga_write`. */
  function PutAll(t: Term, s: Str): (r: Term)
    requires TermOk(t)
    ensures TermOk(r)
    decreases |s|
  {
    if s == [] then t else
    StepKeeps(t, Put(s[0]));
    PutAll(PutC(t, s[0]), s[1..])
  }

  lemma StepKeeps(t: Term, op: Op)
    requires TermOk(t)
    ensures op.Put? ==> TermOk(PutC(t, op.c))
    ensures op.Wipe? ==> TermOk(Clear(t))
    ensures op.Scroll? ==> TermOk(ScrollView(t, op.lines))
    ensures t.archive <= (if op.Put? then PutC(t, op.c) else if op.Wipe? then Clear(t) else t).archive
  {
    match op
    case Put(c) => PutKeeps(t, c);
    case _ =>
  }

  lemma PutKeeps(t: Term, c: byte)
    requires TermOk(t)
    ensures TermOk(PutC(t, c)) && t.archive <= PutC(t, c).archive
  {
    hide Settle, Kept, LinesOk, SetCell;
    var live := t.(view := 0);
    SetCellKeeps(live, c);
    SetCellKeeps(StepBack(live), SPACE);
    TabStop(t.col);
    if c == NEWLINE {
      SettleKeeps(live.(col := 0, row := t.row + 1));
    } else if c == TAB {
      SettleKeeps(live.(col := (t.col + 4) / 4 * 4));
    } else if c != RETURN && c != BACKSPACE {
      SettleKeeps(SetCell(live, c).(col := t.col + 1));
    }
  }

  lemma TabStop(col: nat)
    requires col < WIDTH
    ensures (col + 4) / 4 * 4 <= WIDTH
  {
  }

  lemma SetCellKeeps(t: Term, ch: byte)
    requires TermOk(t)
    ensures TermOk(SetCell(t, ch)) && SetCell(t, ch) == t.(screen := SetCell(t, ch).screen)
  {
  }

  lemma SettleKeeps(t: Term)
    requires |t.screen| == HEIGHT && LinesOk(t.screen) && LinesOk(t.archive) && t.row <= HEIGHT && t.col <= WIDTH
             && t.view == 0
    requires t.row < HEIGHT || t.col < WIDTH
    ensures TermOk(Settle(t)) && t.archive <= Settle(t).archive
  {
  }

  // ----- the endless tape

  /** Everything ever shown, line by line, the live screen last. */
  function Tape(t: Term): seq<Line> { t.archive + t.screen }

  /** Where the next character goes, counted from the first cell of the tape. */
  function At(t: Term): nat { (|t.archive| + t.row) * WIDTH + t.col }

  function CellAt(t: Term, p: nat): Cell
    requires TermOk(t) && p / WIDTH < |Tape(t)|
  {
    TapeLines(t, p / WIDTH);
    Tape(t)[p / WIDTH][p % WIDTH]
  }

  function Length(t: Term): nat { (|t.archive| + |t.screen|) * WIDTH }

  lemma TapeLines(t: Term, i: nat)
    requires TermOk(t) && i < |Tape(t)|
    ensures |Tape(t)[i]| == WIDTH
  {
  }

  /** `b` has the same cells as `a`, except possibly the one at `p`, and may be longer. */
  predicate SameBut(a: Term, b: Term, p: nat)
    requires TermOk(a) && TermOk(b)
  {
    && a.archive <= b.archive && Length(a) <= Length(b)
    && forall k | 0 <= k < Length(a) && k != p :: CellAt(b, k) == CellAt(a, k)
  }

  /** Scrolling moves lines from the screen to the archive without touching the tape. */
  lemma ScrolledTape(t: Term)
    requires |t.screen| == HEIGHT
    ensures Tape(Scrolled(t)) == Tape(t) + [Blank(t.attr)]
  {
    assert t.screen == [t.screen[0]] + t.screen[1..];
  }

  lemma SameCells(a: Term, b: Term)
    requires TermOk(a) && TermOk(b) && Tape(a) <= Tape(b)
    ensures Length(a) <= Length(b) && forall k | 0 <= k < Length(a) :: CellAt(a, k) == CellAt(b, k)
  {
    assert Length(a) == |Tape(a)| * WIDTH && Length(b) == |Tape(b)| * WIDTH;
    forall k | 0 <= k < Length(a) ensures CellAt(a, k) == CellAt(b, k) {
      assert k / WIDTH < |Tape(a)|;
    }
  }

  lemma SetCellTape(t: Term, ch: byte)
    requires TermOk(t)
    ensures TermOk(SetCell(t, ch)) && At(t) < Length(t)
    ensures CellAt(SetCell(t, ch), At(t)) == Cell(ch, t.attr)
    ensures SameBut(t, SetCell(t, ch), At(t))
  {
    var s := SetCell(t, ch);
    var i := |t.archive| + t.row;
    assert At(t) / WIDTH == i && At(t) % WIDTH == t.col;
    forall k | 0 <= k < Length(t) && k != At(t) ensures CellAt(s, k) == CellAt(t, k) {
      if k / WIDTH == i {
        assert k % WIDTH != t.col;
      }
    }
  }

  lemma SettleTape(t: Term)
    requires |t.screen| == HEIGHT && LinesOk(t.screen) && LinesOk(t.archive) && t.row < HEIGHT && t.col <= WIDTH
             && t.view == 0
    ensures TermOk(Settle(t)) && At(Settle(t)) == At(t) && Settle(t).view == 0 && Settle(t).attr == t.attr
    ensures Tape(t) <= Tape(Settle(t)) && t.archive <= Settle(t).archive
    ensures Settle(t).archive == t.archive || At(t) == (|Settle(t).archive| + HEIGHT - 1) * WIDTH
  {
    if t.col >= WIDTH && t.row == HEIGHT - 1 {
      ScrolledTape(t.(col := 0, row := t.row + 1));
    }
  }

  predicate Printable(c: byte) { 32 <= c <= 126 }

  /**
   A printable character lands in the cell at the cursor and nowhere else, the cursor moves on by
   one cell, and no line that was ever shown changes, whether or not the screen scrolls.
   */
  lemma PutPlain(t: Term, c: byte)
    requires TermOk(t) && Printable(c)
    ensures var r := PutC(t, c);
            && TermOk(r) && At(r) == At(t) + 1 && r.view == 0 && r.attr == t.attr
            && At(t) < Length(t) && CellAt(r, At(t)) == Cell(c, t.attr)
            && SameBut(t, r, At(t))
            && (r.archive == t.archive || At(r) == (|r.archive| + HEIGHT - 1) * WIDTH)
  {
    hide Settle, SetCell, LinesOk, Kept;
    var live := t.(view := 0);
    SetCellTape(live, c);
    var s := SetCell(live, c);
    SetCellKeeps(live, c);
    SettleTape(s.(col := t.col + 1));
    var r := PutC(t, c);
    assert Tape(s) <= Tape(r);
    SameCells(live, t);
    SameCells(s, r);
    forall k | 0 <= k < Length(t) && k != At(t) ensures CellAt(r, k) == CellAt(t, k) {
      assert CellAt(live, k) == CellAt(t, k) && CellAt(s, k) == CellAt(live, k) && CellAt(r, k) == CellAt(s, k);
    }
  }

  /** A backspace undoes that: unless the cursor is at the top left corner it goes back one cell and blanks it. */
  lemma PutBack(t: Term)
    requires TermOk(t)
    ensures var r := PutC(t, BACKSPACE); var p := if t.row == 0 && t.col == 0 then At(t) else At(t) - 1;
            && TermOk(r) && p >= 0 && At(r) == p && r.view == 0 && r.attr == t.attr && r.archive == t.archive
            && p < Length(t) && CellAt(r, p) == Cell(SPACE, t.attr) && SameBut(t, r, p)
  {
    hide SetCell, LinesOk, Kept, CellAt;
    var b := StepBack(t.(view := 0));
    SetCellTape(b, SPACE);
    SetCellKeeps(b, SPACE);
    SameCells(b, t);
    assert Tape(b) == Tape(t);
  }

  // ----- over whole runs

  lemma {:induction false} Monotone(t: Term, ops: seq<Op>)
    requires TermOk(t)
    ensures t.archive <= Run(t, ops).archive
    decreases |ops|
  {
    if ops != [] {
      StepKeeps(t, ops[0]);
      Monotone(Apply(t, ops[0]), ops[1..]);
    }
  }

  /** Clearing loses no text: every row that has some is in the archive afterwards, in order. */
  lemma ClearKeepsText(t: Term, row: nat)
    requires TermOk(t) && row < HEIGHT && !BlankText(t.screen[row])
    ensures |t.archive| + row < |Clear(t).archive| && Clear(t).archive[|t.archive| + row] == t.screen[row]
  {
    assert row < UsedRows(t.screen);
  }

  /** Scrolling about changes what is looked at, never what is there; coming back shows the same screen. */
  lemma ScrollingIsHarmless(t: Term, ops: seq<Op>)
    requires TermOk(t) && forall i | 0 <= i < |ops| :: ops[i].Scroll?
    ensures var r := Run(t, ops);
            && r == t.(view := r.view)
            && Window(Apply(r, Bottom)) == t.screen
    decreases |ops|
  {
    if ops != [] {
      ScrollingIsHarmless(Apply(t, ops[0]), ops[1..]);
    }
  }

  /** A line in view is a line of the tape: row `r` of the window is `view` lines above the live one. */
  lemma WindowIsTape(t: Term, r: nat)
    requires TermOk(t) && r < HEIGHT
    ensures Window(t)[r] == Tape(t)[|t.archive| + r - t.view]
  {
  }

  /** Output always shows: after any character the live screen is in view. */
  lemma OutputIsLive(t: Term, c: byte)
    requires TermOk(t)
    ensures TermOk(PutC(t, c)) && Window(PutC(t, c)) == PutC(t, c).screen
  {
    StepKeeps(t, Put(c));
  }
}

/** The display driver as the kernel runs it: a shadow screen, a ring of lines and video memory. */
module Display {
  import opened Bytes
  import opened DisplaySpec

  /** The ring's slots hold the kept lines, each in the slot its place in the archive picks. */
  ghost predicate RingHolds(ring: seq<Line>, archive: seq<Line>, head: nat, count: nat) {
    && |ring| == SCROLLBACK && head == |archive| % SCROLLBACK && count == |Kept(archive)|
    && forall j | |archive| - count <= j < |archive| :: ring[j % SCROLLBACK] == archive[j]
  }

  lemma RingLookup(ring: seq<Line>, archive: seq<Line>, head: nat, count: nat, index: nat)
    requires RingHolds(ring, archive, head, count) && index < count
    ensures ring[(head - count + index + SCROLLBACK) % SCROLLBACK] == Kept(archive)[index]
  {
    hide RingHolds, Kept;
    RingSlot(ring, archive, head, count, |archive| - count + index);
    SlotOf(|archive|, count, index);
  }

  lemma RingSlot(ring: seq<Line>, archive: seq<Line>, head: nat, count: nat, j: int)
    requires RingHolds(ring, archive, head, count) && |archive| - count <= j < |archive|
    ensures |ring| == SCROLLBACK && head == |archive| % SCROLLBACK && count <= SCROLLBACK && count <= |archive|
            && j >= 0
    ensures ring[j % SCROLLBACK] == archive[j]
    ensures Kept(archive)[j - (|archive| - count)] == archive[j] && |Kept(archive)| == count
  {
  }

  lemma SlotOf(total: nat, count: nat, index: nat)
    requires index < count <= total && count <= SCROLLBACK
    ensures (total % SCROLLBACK - count + index + SCROLLBACK) % SCROLLBACK == (total - count + index) % SCROLLBACK
  {
  }

  lemma SlotsDiffer(total: nat, j: nat)
    requires j < total < j + SCROLLBACK
    ensures j % SCROLLBACK != total % SCROLLBACK
  {
  }

  lemma SlotNext(total: nat)
    ensures (total % SCROLLBACK + 1) % SCROLLBACK == (total + 1) % SCROLLBACK
  {
  }

  /** Overwriting the slot at the head drops the oldest line exactly when the ring was full. */
  lemma RingPush(ring: seq<Line>, archive: seq<Line>, head: nat, count: nat, line: Line)
    requires RingHolds(ring, archive, head, count)
    ensures RingHolds(ring[head := line], archive + [line], (head + 1) % SCROLLBACK, if count < SCROLLBACK
            then count + 1 else count)
  {
    var n := |archive|;
    var grown, next := archive + [line], ring[head := line];
    var c := if count < SCROLLBACK then count + 1 else count;
    forall j | |grown| - c <= j < |grown| ensures next[j % SCROLLBACK] == grown[j] {
      if j < n {
        SlotsDiffer(n, j);
        assert ring[j % SCROLLBACK] == archive[j];
      }
    }
    SlotNext(n);
  }

  /** The first `n` cells of video memory show these lines. */
  ghost predicate Painted(vram: seq<Cell>, lines: seq<Line>, n: nat) {
    && n <= |vram| == WIDTH * HEIGHT && |lines| == HEIGHT && LinesOk(lines)
    && forall k | 0 <= k < n :: vram[k] == lines[k / WIDTH][k % WIDTH]
  }

  lemma PaintedOne(vram: seq<Cell>, lines: seq<Line>, r: nat, c: nat)
    requires r < HEIGHT && c < WIDTH && Painted(vram, lines, r * WIDTH + c)
    ensures |lines[r]| == WIDTH && Painted(vram[r * WIDTH + c := lines[r][c]], lines, r * WIDTH + c + 1)
  {
  }

  lemma PaintedAll(vram: seq<Cell>, lines: seq<Line>)
    ensures Painted(vram, lines, WIDTH * HEIGHT) ==> Shows(vram, lines)
    ensures |vram| == WIDTH * HEIGHT && |lines| == HEIGHT && LinesOk(lines) ==> Painted(vram, lines, 0)
  {
  }

  lemma ScrolledLines(t: Term)
    requires |t.screen| == HEIGHT && LinesOk(t.screen)
    ensures LinesOk(Scrolled(t).screen)
  {
  }

  lemma SettleIdle(t: Term)
    requires |t.screen| == HEIGHT
    ensures t.row < HEIGHT && t.col < WIDTH ==> Settle(t) == t
  {
  }

  lemma Width(s: seq<Line>, i: nat)
    requires LinesOk(s) && i < |s|
    ensures |s[i]| == WIDTH
  {
  }

  lemma WindowLines(t: Term)
    requires TermOk(t)
    ensures |Window(t)| == HEIGHT && LinesOk(Window(t))
    ensures forall r | 0 <= r < HEIGHT ::
              Window(t)[r] == if r < t.view then Kept(t.archive)[|Kept(t.archive)| - t.view + r]
                  else t.screen[r - t.view]
    ensures t.view == 0 ==> Window(t) == t.screen
  {
  }

  /** Changing one cell both on the shadow screen and in video memory keeps the two in step. */
  lemma PlacedCell(vram: seq<Cell>, lines: seq<Line>, r: nat, c: nat, x: Cell)
    requires Shows(vram, lines) && r < HEIGHT && c < WIDTH
    ensures |lines[r]| == WIDTH && Shows(vram[r * WIDTH + c := x], lines[r := lines[r][c := x]])
  {
    var next := lines[r := lines[r][c := x]];
    forall k | 0 <= k < |vram| ensures vram[r * WIDTH + c := x][k] == next[k / WIDTH][k % WIDTH] {
      if k != r * WIDTH + c {
        assert vram[k] == lines[k / WIDTH][k % WIDTH];
      }
    }
  }

  class Vga {
    const vram: array<Cell>
    const screen: array<Line>
    const scrollback: array<Line>
    var head: nat
    var count: nat
    var view: nat
    var row: nat
    var col: nat
    var attribute: byte
    var hardware: nat                  // the position in the CRTC cursor registers
    ghost var archive: seq<Line>

    ghost function State(): Term
      reads this, screen
    { Term(archive, screen[..], row, col, attribute, view) }

    /** Ring and shadow screen are sound; the cursor may be off the screen. */
    ghost predicate Core()
      reads this, screen, scrollback
    {
      && vram.Length == WIDTH * HEIGHT && screen.Length == HEIGHT && scrollback.Length == SCROLLBACK
      && LinesOk(screen[..]) && LinesOk(archive)
      && RingHolds(scrollback[..], archive, head, count)
    }

    ghost predicate Mirrored()
      requires TermOk(State())
      reads this, screen, vram
    {
      && Shows(vram[..], Window(State()))
      && hardware == if view > 0 then WIDTH * HEIGHT else row * WIDTH + col
    }

    ghost predicate Valid()
      reads this, screen, scrollback, vram
    { Core() && TermOk(State()) && Mirrored() }

    /** `vga_init`, with the shadow screen zeroed and video memory as the firmware left it. */
    constructor ()
      ensures Valid() && State() == Term([], seq(HEIGHT, _ => Blank(LIGHT_GREY)), 0, 0, LIGHT_GREY, 0)
      ensures fresh(vram) && fresh(screen) && fresh(scrollback)
    {
      vram := new Cell[WIDTH * HEIGHT];
      screen := new Line[HEIGHT](_ => seq(WIDTH, _ => Cell(0, 0)));
      scrollback := new Line[SCROLLBACK](_ => []);
      head, count, view, row, col, attribute, archive := 0, 0, 0, 0, 0, LIGHT_GREY, [];
      new;
      assert forall i | 0 <= i < HEIGHT :: BlankText(screen[..][i]);
      ClearScreen();
    }

    /** `move_hardware_cursor`. */
    method MoveHardwareCursor()
      modifies this`hardware
      ensures hardware == if view > 0 then WIDTH * HEIGHT else row * WIDTH + col
    {
      if view > 0 {
        hardware := WIDTH * HEIGHT;
      } else {
        hardware := row * WIDTH + col;
      }
    }

    /** `scrollback_line`: kept line `index`, 0 being the oldest. */
    method ScrollbackLine(index: nat) returns (line: Line)
      requires Core() && index < count
      ensures line == Kept(archive)[index]
    {
      hide Kept, LinesOk;
      RingLookup(scrollback[..], archive, head, count, index);
      var slot := (head - count + index + SCROLLBACK) % SCROLLBACK;
      hide RingHolds;
      line := scrollback[slot];
    }

    method Repaint()
      requires Core() && TermOk(State())
      modifies vram, this`hardware
      ensures Valid() && State() == old(State())
    {
      hide Kept, LinesOk, RingHolds, Lookback, Shows, Painted;
      ghost var w := Window(State());
      WindowLines(State());
      PaintedAll(vram[..], w);
      CountKept();
      var r := 0;
      while r < HEIGHT
        invariant r <= HEIGHT && Core() && State() == old(State())
        invariant Painted(vram[..], w, r * WIDTH)
      {
        var index: int := count - view + r;
        var source: Line;
        if index < count {
          source := ScrollbackLine(index);
        } else {
          source := screen[index - count];
        }
        assert source == w[r];
        var c := 0;
        while c < WIDTH
          invariant c <= WIDTH && Core() && State() == old(State())
          invariant Painted(vram[..], w, r * WIDTH + c)
        {
          PaintedOne(vram[..], w, r, c);
          vram[r * WIDTH + c] := source[c];
          c := c + 1;
        }
        r := r + 1;
      }
      PaintedAll(vram[..], w);
      MoveHardwareCursor();
    }

    lemma CountKept()
      requires Core()
      ensures count == |Kept(archive)|
    {
    }

    method PushScrollback(line: Line)
      requires Core() && |line| == WIDTH
      modifies scrollback, this`head, this`count, this`archive
      ensures Core() && archive == old(archive) + [line]
    {
      hide Kept, RingHolds;
      RingPush(scrollback[..], archive, head, count, line);
      HeadInside();
      ghost var next := scrollback[..][head := line];
      scrollback[head] := line;
      assert scrollback[..] == next;
      head := (head + 1) % SCROLLBACK;
      if count < SCROLLBACK {
        count := count + 1;
      }
      archive := archive + [line];
    }

    lemma HeadInside()
      requires Core()
      ensures head < SCROLLBACK
    {
    }

    /** Fills a row with blanks in the current colours. */
    method FillRow(r: nat)
      requires r < screen.Length && |screen[r]| == WIDTH
      modifies screen
      ensures screen[..] == old(screen[..])[r := Blank(attribute)]
    {
      var c := 0;
      while c < WIDTH
        invariant c <= WIDTH && |screen[r]| == WIDTH
        invariant forall k | 0 <= k < c :: screen[r][k] == Cell(SPACE, attribute)
        invariant forall i | 0 <= i < screen.Length && i != r :: screen[i] == old(screen[i])
      {
        screen[r] := screen[r][c := Cell(SPACE, attribute)];
        c := c + 1;
      }
      assert screen[r] == Blank(attribute);
    }

    /** `scroll_up_one`. */
    method ScrollUpOne()
      requires Core()
      modifies screen, scrollback, this`head, this`count, this`archive, this`row
      ensures Core() && State() == Scrolled(old(State()))
    {
      hide Kept, RingHolds, LinesOk;
      ghost var was := screen[..];
      CoreLines();
      Width(was, 0);
      Width(was, HEIGHT - 1);
      PushScrollback(screen[0]);
      var r := 1;
      while r < HEIGHT
        invariant 1 <= r <= HEIGHT && RingHolds(scrollback[..], archive, head, count)
        invariant archive == old(archive) + [was[0]]
        invariant forall i | 0 <= i < r - 1 :: screen[i] == was[i + 1]
        invariant forall i | r - 1 <= i < HEIGHT :: screen[i] == was[i]
      {
        screen[r - 1] := screen[r];
        r := r + 1;
      }
      FillRow(HEIGHT - 1);
      row := HEIGHT - 1;
      assert screen[..] == was[1..] + [Blank(attribute)];
      ScrolledLines(old(State()));
    }

    /** `vga_putc`. */
    method PutChar(c: byte)
      requires Valid()
      modifies this, vram, screen, scrollback
      ensures Valid() && State() == PutC(old(State()), c)
    {
      hide Kept, LinesOk, RingHolds, Lookback, Shows, Settle;
      ScrollToBottom();
      WindowLines(State());
      if c == NEWLINE {
        col := 0;
        row := row + 1;
      } else if c == RETURN {
        col := 0;
      } else if c == TAB {
        col := (col + 4) / 4 * 4;
      } else if c == BACKSPACE {
        if col > 0 {
          col := col - 1;
        } else if row > 0 {
          row := row - 1;
          col := WIDTH - 1;
        }
        Place(SPACE);
      } else {
        Place(c);
        col := col + 1;
      }
      SettleIdle(State());
      SettleCursor();
    }

    /** The end of `vga_putc`: wrap, scroll, or just move the cursor. */
    method SettleCursor()
      requires Core() && row <= HEIGHT && col <= WIDTH && (row < HEIGHT || col == 0) && view == 0
               && Shows(vram[..], screen[..])
      modifies this, vram, screen, scrollback
      ensures Valid() && State() == Settle(old(State()))
    {
      hide Kept, LinesOk, RingHolds, Lookback, Shows;
      CoreLines();
      if col >= WIDTH {
        col := 0;
        row := row + 1;
      }
      if row >= HEIGHT {
        ScrollUpOne();
        CoreLines();
        Repaint();
      } else {
        MoveHardwareCursor();
        WindowLines(State());
      }
    }

    lemma CoreLines()
      requires Core()
      ensures LinesOk(screen[..]) && LinesOk(archive)
    {
    }

    /** One cell, in the shadow screen and in video memory. */
    method Place(c: byte)
      requires Core() && TermOk(State()) && Shows(vram[..], screen[..])
      modifies screen, vram
      ensures Core() && State() == SetCell(old(State()), c) && TermOk(State())
      ensures Shows(vram[..], screen[..])
    {
      hide Kept, RingHolds, Shows;
      ghost var was, seen := screen[..], vram[..];
      PlacedCell(seen, was, row, col, Cell(c, attribute));
      screen[row] := screen[row][col := Cell(c, attribute)];
      vram[row * WIDTH + col] := screen[row][col];
      assert screen[..] == was[row := was[row][col := Cell(c, attribute)]];
      assert vram[..] == seen[row * WIDTH + col := Cell(c, attribute)];
    }

    /** `vga_write`. */
    method Write(s: Str)
      requires Valid()
      modifies this, vram, screen, scrollback
      ensures Valid() && State() == PutAll(old(State()), s)
    {
      hide Core, Mirrored, TermOk, PutC;
      StateOk();
      var i := 0;
      assert s[0..] == s;
      while i < |s|
        invariant i <= |s| && Valid() && TermOk(State())
        invariant PutAll(old(State()), s) == PutAll(State(), s[i..])
      {
        PutChar(s[i]);
        StateOk();
        assert s[i..][1..] == s[i + 1..];
        i := i + 1;
      }
      assert s[i..] == [];
    }

    lemma StateOk()
      requires Valid()
      ensures Core() && TermOk(State())
    {
    }

    /** One display operation, as the callers of the driver issue them. */
    method Do(op: Op)
      requires Valid()
      modifies this, vram, screen, scrollback
      ensures Valid() && State() == Apply(old(State()), op)
    {
      hide Core, Mirrored, PutC, Clear, ScrollView;
      match op {
        case Put(c) => PutChar(c);
        case Wipe => ClearScreen();
        case Scroll(lines) => ScrollBy(lines);
        case Bottom => ScrollToBottom();
        case Color(attr) => SetColor(attr % 16, attr / 16);
        case MoveTo(r, c) => SetCursor(r, c);
      }
    }

    /** `archive_screen`. */
    method ArchiveScreen()
      requires Core()
      modifies scrollback, this`head, this`count, this`archive
      ensures Core() && archive == old(archive) + screen[..UsedRows(screen[..])] && screen[..] == old(screen[..])
    {
      hide Kept, RingHolds;
      ghost var was := screen[..];
      var last: int := -1;
      var r := 0;
      while r < HEIGHT
        invariant r <= HEIGHT && -1 <= last < r && last + 1 == UsedRows(was[..r])
        decreases HEIGHT - r
      {
        var c := 0;
        var text := false;
        while c < WIDTH && !text
          invariant c <= WIDTH
          invariant forall k | 0 <= k < c :: screen[r][k].ch == SPACE || screen[r][k].ch == 0
          invariant text ==> !BlankText(screen[r])
          decreases WIDTH - c, !text
        {
          var ch := screen[r][c].ch;
          if ch != SPACE && ch != 0 {
            text := true;
          } else {
            c := c + 1;
          }
        }
        assert was[..r + 1][..r] == was[..r];
        if text {
          last := r;
        }
        r := r + 1;
      }
      hide LinesOk;
      assert was[..HEIGHT] == was;
      r := 0;
      while r <= last
        invariant r <= last + 1 && Core() && screen[..] == was
        invariant archive == old(archive) + was[..r]
      {
        Width(was, r);
        PushScrollback(screen[r]);
        assert was[..r + 1] == was[..r] + [was[r]];
        r := r + 1;
      }
    }

    /** `vga_clear`. */
    method ClearScreen()
      requires Core() && TermOk(State())
      modifies this, vram, screen, scrollback
      ensures Valid() && State() == Clear(old(State()))
    {
      hide Kept, RingHolds, Shows, Lookback, UsedRows;
      ArchiveScreen();
      CoreLines();
      var blank := Blank(attribute);
      var r := 0;
      while r < HEIGHT
        invariant r <= HEIGHT && Core() && attribute == old(attribute)
        invariant archive == old(archive) + old(screen[..])[..UsedRows(old(screen[..]))]
        invariant forall i | 0 <= i < r :: screen[i] == blank
      {
        FillRow(r);
        r := r + 1;
      }
      assert screen[..] == seq(HEIGHT, _ => blank);
      row := 0;
      col := 0;
      view := 0;
      Repaint();
      assert State() == Clear(old(State()));
    }

    /** `vga_set_color`, for the colours 0 to 15. */
    method SetColor(fg: nat, bg: nat)
      requires Valid() && fg < 16 && bg < 16
      modifies this`attribute
      ensures Valid() && State() == Apply(old(State()), Color(fg + 16 * bg))
    {
      hide RingHolds, Shows, Lookback, LinesOk;
      attribute := fg + 16 * bg;
    }

    /** `vga_set_cursor`. */
    method SetCursor(r: int, c: int)
      requires Valid()
      modifies this`row, this`col, this`hardware
      ensures Valid() && State() == Apply(old(State()), MoveTo(r, c))
    {
      hide RingHolds, Shows, Lookback, LinesOk;
      row := if r < 0 then 0 else if r >= HEIGHT then HEIGHT - 1 else r;
      col := if c < 0 then 0 else if c >= WIDTH then WIDTH - 1 else c;
      MoveHardwareCursor();
    }

    /** `vga_scroll_view`. */
    method ScrollBy(lines: int)
      requires Valid()
      modifies vram, this`view, this`hardware
      ensures Valid() && State() == Apply(old(State()), Scroll(lines))
    {
      hide RingHolds, Shows, Lookback, LinesOk;
      CountKept();
      var target := view + lines;
      if target < 0 {
        target := 0;
      }
      if target > count {
        target := count;
      }
      if target == view {
        return;
      }
      view := target;
      Repaint();
    }

    /** `vga_scroll_to_bottom`. */
    method ScrollToBottom()
      requires Valid()
      modifies vram, this`view, this`hardware
      ensures Valid() && State() == Apply(old(State()), Bottom)
    {
      if view == 0 {
        return;
      }
      view := 0;
      Repaint();
    }
  }
}
