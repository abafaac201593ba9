/**
 The line editor (kernel/console.c): the keys it understands, the history it recalls from, and that
 at every moment the display spells the line being edited.
 */
module LineSpec {
  import opened Bytes
  import opened DisplaySpec
  import opened KeyCodes

  const LINE_MAX: nat := 256
  const HISTORY_MAX: nat := 16
  const SCROLL_STEP: int := 3
  const PAGE_STEP: int := HEIGHT - 2
  const STAR: byte := 42

  const CTRL_C: int := 3
  const CTRL_L: int := 12
  const CTRL_U: int := 21

  datatype Echo = Plain | Hidden | Stars

  // ----- history

  /** `console_history_push` on the list of all lines ever entered. */
  function Remember(all: seq<Str>, line: Str): seq<Str> {
    if line == [] || (all != [] && all[|all| - 1] == line) then all else all + [Truncate(line, LINE_MAX - 1)]
  }

  /** `console_history_at`: only the last 16 are still there. */
  function Recall(all: seq<Str>, index: int): Option<Str> {
    if 0 <= index < |all| && |all| - HISTORY_MAX <= index then Some(all[index]) else None
  }

  ghost predicate HistoryOk(all: seq<Str>) {
    forall i | 0 <= i < |all| :: NulFree(all[i]) && 0 < |all[i]| < LINE_MAX
  }

  /** No line is kept twice in a row, as far as it was not cut. */
  lemma NoRepeats(all: seq<Str>, line: Str)
    requires forall i | 0 < i < |all| :: all[i] != all[i - 1]
    requires |line| < LINE_MAX
    ensures var r := Remember(all, line); forall i | 0 < i < |r| :: r[i] != r[i - 1]
  {
  }

  lemma RememberKeeps(all: seq<Str>, line: Str)
    requires HistoryOk(all) && NulFree(line)
    ensures HistoryOk(Remember(all, line)) && all <= Remember(all, line)
    ensures line != [] && |line| < LINE_MAX ==> Recall(Remember(all, line), |Remember(all, line)| - 1) == Some(line)
  {
    if |line| < LINE_MAX {
      assert Truncate(line, LINE_MAX - 1) == line;
    }
  }

  // ----- editing

  /** What one call works with. */
  datatype Setup = Setup(limit: nat, echo: Echo, useHistory: bool, all: seq<Str>, prompt: seq<Op>)

  /** The line so far; `start` and `high` bound the cells of the tape it has used. */
  datatype Editor = Editor(line: Str, drawn: int, browse: int, term: Term, start: nat, high: nat)

  function Shown(echo: Echo, line: Str): Str {
    match echo
    case Plain => line
    case Hidden => []
    case Stars => seq(|line|, _ => STAR)
  }

  function Backs(n: int): Str { seq(if n > 0 then n else 0, _ => BACKSPACE) }

  /** Puts out text and moves the high-water mark along. */
  function Typed(e: Editor, s: Str): Editor
    requires TermOk(e.term)
  {
    var t := PutAll(e.term, s);
    e.(term := t, high := if At(t) > e.high then At(t) else e.high)
  }

  /** `redraw`: rubs out what is drawn and draws `line` instead. */
  function Redraw(echo: Echo, line: Str, e: Editor): (r: Editor)
    requires TermOk(e.term)
    ensures TermOk(r.term)
  {
    var wiped := e.(term := PutAll(e.term, Backs(e.drawn)));
    Typed(wiped, Shown(echo, line)).(line := line, drawn := if echo == Hidden then 0 else |line|)
  }

  /** Ctrl-L: the line starts over after the prompt. */
  function Repainted(s: Setup, e: Editor): (r: Editor)
    requires TermOk(e.term)
    ensures TermOk(r.term)
  {
    var t := Run(Apply(e.term, Wipe), s.prompt);
    Redraw(s.echo, e.line, e.(drawn := 0, term := t, start := At(t), high := At(t)))
  }

  function Arrow(s: Setup, e: Editor, key: int): (r: Editor)
    requires TermOk(e.term)
    ensures TermOk(r.term)
  {
    if !s.useHistory then e.(term := Apply(e.term, Scroll(if key == KEY_UP then SCROLL_STEP else -SCROLL_STEP)))
    else
      var target := if key == KEY_UP then e.browse - 1 else e.browse + 1;
      if target < 0 then e
      else if target >= |s.all| then Redraw(s.echo, [], e).(browse := |s.all|)
      else if Recall(s.all, target) == None then e
      else Redraw(s.echo, Truncate(Recall(s.all, target).value, s.limit), e).(browse := target)
  }

  /** One key that does not end the line. */
  function Step(s: Setup, e: Editor, key: int): (r: Editor)
    requires TermOk(e.term)
    ensures TermOk(r.term)
  {
    if key == BACKSPACE then
      if e.line == [] then e
      else if s.echo == Hidden then e.(line := e.line[..|e.line| - 1])
      else e.(line := e.line[..|e.line| - 1], drawn := e.drawn - 1, term := PutAll(e.term, [BACKSPACE]))
    else if key == CTRL_L then Repainted(s, e)
    else if key == CTRL_U then Redraw(s.echo, [], e)
    else if key == KEY_PAGEUP then e.(term := Apply(e.term, Scroll(PAGE_STEP)))
    else if key == KEY_PAGEDOWN then e.(term := Apply(e.term, Scroll(-PAGE_STEP)))
    else if key == KEY_UP || key == KEY_DOWN then Arrow(s, e, key)
    else if key < 32 || key > 126 || |e.line| >= s.limit then e
    else
      var live := e.(term := Apply(e.term, Bottom), line := e.line + [key as byte]);
      Typed(live, Shown(s.echo, [key as byte])).(drawn := if s.echo == Hidden then e.drawn else e.drawn + 1)
  }

  datatype Outcome = Reading(editor: Editor) | Entered(line: Str, term: Term) | Cancelled(term: Term)

  /** The whole loop over the keys that `keyboard_getchar` hands out. */
  function ReadKeys(s: Setup, e: Editor, keys: seq<int>): Outcome
    requires TermOk(e.term)
    decreases |keys|
  {
    if keys == [] then Reading(e)
    else if keys[0] == NEWLINE then Entered(e.line, PutAll(Apply(e.term, Bottom), [NEWLINE]))
    else if keys[0] == CTRL_C then Cancelled(PutAll(Apply(e.term, Bottom), [94, 67, NEWLINE]))    // "^C\n"
    else ReadKeys(s, Step(s, e, keys[0]), keys[1..])
  }

  /** An empty line at the cursor. */
  function Fresh(s: Setup, t: Term): Editor { Editor([], 0, |s.all|, t, At(t), At(t)) }

  // ----- the display agrees with the line

  /** `text` stands in the cells from `start` to the cursor, and the cells after it up to `high` are blank. */
  ghost predicate Spelled(t: Term, start: nat, high: nat, text: Str) {
    && TermOk(t) && |t.archive| * WIDTH <= start && At(t) == start + |text| <= high <= Length(t)
    && (forall p | start <= p < start + |text| :: CellAt(t, p).ch == text[p - start])
    && (forall p | start + |text| <= p < high :: CellAt(t, p).ch == SPACE)
  }

  /** Nothing before cell `start` of the tape differs. */
  ghost predicate SameBefore(a: Term, b: Term, start: nat) {
    && TermOk(a) && TermOk(b) && start <= Length(a) <= Length(b)
    && forall p | 0 <= p < start :: CellAt(b, p) == CellAt(a, p)
  }

  function Highest(a: nat, b: nat): nat { if a > b then a else b }

  ghost predicate PlainText(s: Str) { forall i | 0 <= i < |s| :: Printable(s[i]) }

  lemma AtInside(t: Term)
    requires TermOk(t)
    ensures |t.archive| * WIDTH <= At(t) < Length(t)
  {
  }

  lemma TypeOne(t: Term, start: nat, high: nat, text: Str, c: byte)
    requires Spelled(t, start, high, text) && Printable(c) && |text| < LINE_MAX - 1
    ensures TermOk(PutC(t, c)) && Spelled(PutC(t, c), start, Highest(high, At(PutC(t, c))), text + [c])
    ensures SameBefore(t, PutC(t, c), start)
  {
    hide PutC, CellAt, TermOk, Tape;
    PutPlain(t, c);
    AtInside(PutC(t, c));
  }

  lemma EraseOne(t: Term, start: nat, high: nat, text: Str)
    requires Spelled(t, start, high, text) && text != []
    ensures TermOk(PutC(t, BACKSPACE)) && Spelled(PutC(t, BACKSPACE), start, high, text[..|text| - 1])
    ensures SameBefore(t, PutC(t, BACKSPACE), start)
  {
    hide PutC, CellAt, TermOk, Tape;
    PutBack(t);
  }

  lemma SameBeforeTrans(a: Term, b: Term, c: Term, start: nat)
    requires SameBefore(a, b, start) && SameBefore(b, c, start)
    ensures SameBefore(a, c, start)
  {
    hide CellAt, TermOk;
    forall p | 0 <= p < start ensures CellAt(c, p) == CellAt(a, p) {
      assert CellAt(c, p) == CellAt(b, p);
    }
  }

  lemma PutAllOne(t: Term, c: byte)
    requires TermOk(t)
    ensures PutAll(t, [c]) == PutC(t, c)
  {
    assert [c][1..] == [];
    StepKeeps(t, Put(c));
    assert PutAll(PutC(t, c), []) == PutC(t, c);
  }

  lemma {:induction false} TypeAll(t: Term, start: nat, high: nat, text: Str, s: Str)
    requires Spelled(t, start, high, text) && PlainText(s) && |text| + |s| < LINE_MAX
    ensures Spelled(PutAll(t, s), start, Highest(high, At(PutAll(t, s))), text + s)
    ensures SameBefore(t, PutAll(t, s), start)
    decreases |s|
  {
    hide PutC, CellAt, TermOk, At;
    if s == [] {
      assert text + s == text;
      SpelledAt(t, start, high, text);
    } else {
      TypeOne(t, start, high, text, s[0]);
      var r := PutC(t, s[0]);
      var h := Highest(high, At(r));
      assert text + s == (text + [s[0]]) + s[1..];
      TypeAll(r, start, h, text + [s[0]], s[1..]);
      SameBeforeTrans(t, r, PutAll(t, s), start);
      SpelledAt(r, start, h, text + [s[0]]);
      SpelledAt(PutAll(t, s), start, Highest(h, At(PutAll(t, s))), text + s);
    }
  }

  lemma SpelledAt(t: Term, start: nat, high: nat, text: Str)
    requires Spelled(t, start, high, text)
    ensures At(t) == start + |text| <= high && SameBefore(t, t, start)
  {
    AtInside(t);
  }

  lemma {:induction false} EraseAll(t: Term, start: nat, high: nat, text: Str)
    requires Spelled(t, start, high, text)
    ensures Spelled(PutAll(t, Backs(|text|)), start, high, [])
    ensures SameBefore(t, PutAll(t, Backs(|text|)), start)
    decreases |text|
  {
    hide PutC, CellAt, TermOk, At;
    SpelledAt(t, start, high, text);
    if text != [] {
      EraseOne(t, start, high, text);
      var r := PutC(t, BACKSPACE);
      var rest := text[..|text| - 1];
      assert Backs(|text|)[1..] == Backs(|rest|);
      EraseAll(r, start, high, rest);
      SameBeforeTrans(t, r, PutAll(t, Backs(|text|)), start);
    }
  }

  // ----- every key keeps it that way

  ghost predicate SetupOk(s: Setup) {
    s.limit < LINE_MAX && forall i | 0 <= i < |s.all| :: PlainText(s.all[i])
  }

  /**
   The line fits and is printable, `drawn` counts exactly the characters on display, and the cells
   from the end of the prompt to the cursor spell the line, or as many stars, and nothing after it.
   */
  ghost predicate Agrees(s: Setup, e: Editor) {
    && |e.line| <= s.limit && PlainText(e.line)
    && e.drawn == (if s.echo == Hidden then 0 else |e.line|)
    && Spelled(e.term, e.start, e.high, Shown(s.echo, e.line))
  }

  lemma ShownFacts(echo: Echo, line: Str)
    requires PlainText(line)
    ensures PlainText(Shown(echo, line)) && |Shown(echo, line)| == (if echo == Hidden then 0 else |line|)
    ensures echo != Hidden && line != [] ==> Shown(echo, line)[..|line| - 1] == Shown(echo, line[..|line| - 1])
  {
  }

  lemma ShownSnoc(echo: Echo, line: Str, c: byte)
    ensures Shown(echo, line + [c]) == Shown(echo, line) + Shown(echo, [c])
  {
  }

  lemma FreshAgrees(s: Setup, t: Term)
    requires TermOk(t)
    ensures Agrees(s, Fresh(s, t))
  {
    AtInside(t);
  }

  lemma RedrawAgrees(s: Setup, e: Editor, line: Str)
    requires SetupOk(s) && |line| <= s.limit && PlainText(line) && e.drawn >= 0
    requires exists text :: |text| == e.drawn && Spelled(e.term, e.start, e.high, text)
    ensures var r := Redraw(s.echo, line, e);
            Agrees(s, r) && r.start == e.start && r.line == line && SameBefore(e.term, r.term, e.start)
  {
    hide Spelled, TermOk, At, Shown, PlainText;
    var text :| |text| == e.drawn && Spelled(e.term, e.start, e.high, text);
    EraseAll(e.term, e.start, e.high, text);
    var t := PutAll(e.term, Backs(e.drawn));
    ShownFacts(s.echo, line);
    TypeAll(t, e.start, e.high, [], Shown(s.echo, line));
    assert [] + Shown(s.echo, line) == Shown(s.echo, line);
    SameBeforeTrans(e.term, t, PutAll(t, Shown(s.echo, line)), e.start);
  }

  /** Looking elsewhere changes no cell and does not move the cursor. */
  lemma ViewAgrees(s: Setup, e: Editor, v: nat)
    requires Agrees(s, e) && TermOk(e.term.(view := v))
    ensures Agrees(s, e.(term := e.term.(view := v))) && SameBefore(e.term, e.term.(view := v), e.start)
  {
    var u := e.term.(view := v);
    assert forall p | 0 <= p < Length(u) :: CellAt(u, p) == CellAt(e.term, p);
    AtInside(e.term);
  }

  lemma RepaintedAgrees(s: Setup, e: Editor)
    requires SetupOk(s) && Agrees(s, e)
    ensures Agrees(s, Repainted(s, e)) && Repainted(s, e).line == e.line
  {
    hide TermOk, At, PlainText, Run, Apply;
    var t := Run(Apply(e.term, Wipe), s.prompt);
    var f := e.(drawn := 0, term := t, start := At(t), high := At(t));
    FreshAgrees(s, t);
    assert Spelled(t, f.start, f.high, []) by { EmptySpelled(t); }
    RedrawAgrees(s, f, e.line);
  }

  lemma EmptySpelled(t: Term)
    requires TermOk(t)
    ensures Spelled(t, At(t), At(t), [])
  {
    AtInside(t);
  }

  lemma RecallPlain(s: Setup, index: int)
    requires SetupOk(s) && Recall(s.all, index).Some?
    ensures PlainText(Truncate(Recall(s.all, index).value, s.limit))
            && |Truncate(Recall(s.all, index).value, s.limit)| <= s.limit
  {
  }

  /**
   Whatever the key, line and display still agree afterwards; and unless it was Ctrl-L, which
   starts over on a cleared screen, nothing that stood before the line has changed.
   */
  lemma EditKeeps(s: Setup, e: Editor, key: int)
    requires SetupOk(s) && Agrees(s, e)
    ensures Agrees(s, Step(s, e, key))
    ensures key != CTRL_L ==> Step(s, e, key).start == e.start && SameBefore(e.term, Step(s, e, key).term, e.start)
  {
    hide TermOk, At, PlainText, PutC, Redraw, Repainted, Shown, Apply, SetupOk;
    ShownFacts(s.echo, e.line);
    SpelledAt(e.term, e.start, e.high, Shown(s.echo, e.line));
    if key == BACKSPACE {
      if e.line != [] {
        PlainPart(e.line);
        if s.echo != Hidden {
          EraseOne(e.term, e.start, e.high, Shown(s.echo, e.line));
          PutAllOne(e.term, BACKSPACE);
        } else {
          HiddenShown(e.line, e.line[..|e.line| - 1]);
        }
      }
    } else if key == CTRL_L {
      RepaintedAgrees(s, e);
    } else if key == CTRL_U {
      EmptyPlain(s);
      RedrawAgrees(s, e, []);
    } else if key == KEY_PAGEUP || key == KEY_PAGEDOWN {
      ScrollAgrees(s, e, if key == KEY_PAGEUP then PAGE_STEP else -PAGE_STEP);
    } else if key == KEY_UP || key == KEY_DOWN {
      ArrowAgrees(s, e, key);
    } else if 32 <= key <= 126 && |e.line| < s.limit {
      TypedAgrees(s, e, key as byte);
    }
  }

  lemma PlainPart(line: Str)
    requires PlainText(line) && line != []
    ensures PlainText(line[..|line| - 1])
  {
  }

  lemma HiddenShown(a: Str, b: Str)
    ensures Shown(Hidden, a) == Shown(Hidden, b) == []
  {
  }

  lemma EmptyPlain(s: Setup)
    ensures PlainText([])
  {
  }

  lemma ScrollAgrees(s: Setup, e: Editor, lines: int)
    requires Agrees(s, e)
    ensures var t := Apply(e.term, Scroll(lines)); Agrees(s, e.(term := t)) && SameBefore(e.term, t, e.start)
  {
    var t := Apply(e.term, Scroll(lines));
    assert t == e.term.(view := t.view);
    hide Agrees, TermOk, SameBefore;
    ViewAgrees(s, e, t.view);
  }

  lemma ArrowAgrees(s: Setup, e: Editor, key: int)
    requires SetupOk(s) && Agrees(s, e) && (key == KEY_UP || key == KEY_DOWN)
    ensures Agrees(s, Arrow(s, e, key)) && Arrow(s, e, key).start == e.start
            && SameBefore(e.term, Arrow(s, e, key).term, e.start)
  {
    hide TermOk, At, PlainText, PutC, Redraw, Shown, Apply, SetupOk;
    ShownFacts(s.echo, e.line);
    SpelledAt(e.term, e.start, e.high, Shown(s.echo, e.line));
    EmptyPlain(s);
    if !s.useHistory {
      ScrollAgrees(s, e, if key == KEY_UP then SCROLL_STEP else -SCROLL_STEP);
    } else {
      var target := if key == KEY_UP then e.browse - 1 else e.browse + 1;
      if target >= |s.all| {
        RedrawAgrees(s, e, []);
      } else if Recall(s.all, target).Some? {
        RecallPlain(s, target);
        RedrawAgrees(s, e, Truncate(Recall(s.all, target).value, s.limit));
      }
    }
  }

  lemma TypedAgrees(s: Setup, e: Editor, c: byte)
    requires SetupOk(s) && Agrees(s, e) && Printable(c) && |e.line| < s.limit
    ensures var r := Step(s, e, c); Agrees(s, r) && r.start == e.start && SameBefore(e.term, r.term, e.start)
  {
    hide TermOk, At, Spelled, PutC, Shown, SameBefore;
    AgreesLine(s, e);
    BottomIsView(e.term);
    ViewAgrees(s, e, 0);
    var live := e.term.(view := 0);
    OneShown(s.echo, c);
    ShownFacts(s.echo, e.line);
    ShownSnoc(s.echo, e.line, c);
    TypeAll(live, e.start, e.high, Shown(s.echo, e.line), Shown(s.echo, [c]));
    SameBeforeTrans(e.term, live, PutAll(live, Shown(s.echo, [c])), e.start);
  }

  lemma BottomIsView(t: Term)
    requires TermOk(t)
    ensures TermOk(t.(view := 0)) && Apply(t, Bottom) == t.(view := 0)
  {
  }

  lemma OneShown(echo: Echo, c: byte)
    requires Printable(c)
    ensures PlainText(Shown(echo, [c])) && |Shown(echo, [c])| <= 1
  {
  }

  /**
   Over every sequence of keys, from any display: the line never outgrows the buffer, and what is
   on display is the line, the whole line and nothing but the line.
   */
  lemma {:induction false} AlwaysAgrees(s: Setup, e: Editor, keys: seq<int>)
    requires SetupOk(s) && Agrees(s, e)
    ensures var o := ReadKeys(s, e, keys);
            && (o.Reading? ==> Agrees(s, o.editor))
            && (o.Entered? ==> |o.line| <= s.limit && PlainText(o.line))
    decreases |keys|
  {
    hide Step, Agrees, SetupOk;
    AgreesLine(s, e);
    if keys != [] && keys[0] != NEWLINE && keys[0] != CTRL_C {
      EditKeeps(s, e, keys[0]);
      AlwaysAgrees(s, Step(s, e, keys[0]), keys[1..]);
    }
  }

  lemma AgreesLine(s: Setup, e: Editor)
    requires Agrees(s, e)
    ensures |e.line| <= s.limit && PlainText(e.line) && TermOk(e.term)
  {
  }

  /** As long as Ctrl-L is not pressed, what stood before the line stays, and the line starts where it started. */
  lemma {:induction false} PromptStays(s: Setup, e: Editor, keys: seq<int>)
    requires SetupOk(s) && Agrees(s, e) && CTRL_L !in keys && ReadKeys(s, e, keys).Reading?
    ensures var r := ReadKeys(s, e, keys).editor; r.start == e.start && SameBefore(e.term, r.term, e.start)
    decreases |keys|
  {
    hide Step, SetupOk, TermOk, CellAt;
    SpelledAt(e.term, e.start, e.high, Shown(s.echo, e.line));
    if keys != [] {
      EditKeeps(s, e, keys[0]);
      PromptStays(s, Step(s, e, keys[0]), keys[1..]);
      SameBeforeTrans(e.term, Step(s, e, keys[0]).term, ReadKeys(s, e, keys).editor.term, e.start);
    }
  }

  /** Pressing the up arrow `n` times on a fresh line recalls the `n`th last line entered. */
  lemma {:induction false} UpRecalls(s: Setup, e: Editor, n: nat)
    requires SetupOk(s) && Agrees(s, e) && s.useHistory && 0 < n <= e.browse <= |s.all|
             && |s.all| - HISTORY_MAX <= e.browse - n
    ensures var o := ReadKeys(s, e, seq(n, _ => KEY_UP));
            && o.Reading? && o.editor.browse == e.browse - n
            && o.editor.line == Truncate(s.all[e.browse - n], s.limit)
    decreases n
  {
    hide SetupOk, Agrees;
    var ups := seq(n, _ => KEY_UP);
    assert ups[1..] == seq(n - 1, _ => KEY_UP);
    AgreesLine(s, e);
    EditKeeps(s, e, KEY_UP);
    var r := Step(s, e, KEY_UP);
    if n > 1 {
      UpRecalls(s, r, n - 1);
    } else {
      assert ReadKeys(s, r, []) == Reading(r);
    }
  }
}

/** The line editor as the kernel runs it, over the display driver and a ring of past lines. */
module LineEditor {
  import opened Bytes
  import opened DisplaySpec
  import opened Display
  import opened KeyCodes
  import opened LineSpec

  datatype Ended = Waiting | Line | Interrupt

  /** The ring's slots hold the last lines entered, each in the slot its number picks. */
  ghost predicate RingOfLines(ring: seq<Str>, all: seq<Str>) {
    && |ring| == HISTORY_MAX
    && forall i | 0 <= i < |all| && |all| - HISTORY_MAX <= i :: ring[i % HISTORY_MAX] == all[i]
  }

  lemma LinesRemembered(ring: seq<Str>, all: seq<Str>, line: Str)
    requires RingOfLines(ring, all)
    ensures RingOfLines(ring[|all| % HISTORY_MAX := line], all + [line])
  {
    forall i | 0 <= i < |all| && |all| + 1 - HISTORY_MAX <= i ensures i % HISTORY_MAX != |all| % HISTORY_MAX {
    }
  }

  /** The buffer holds this C string. */
  ghost predicate Holds(out: seq<byte>, s: Str) {
    |s| < |out| && out[..|s|] == s && out[|s|] == 0
  }

  class Console {
    const vga: Vga
    const history: array<Str>
    var total: nat
    ghost var all: seq<Str>

    ghost predicate Valid()
      reads this, history, vga, vga.vram, vga.screen, vga.scrollback
    { vga.Valid() && history.Length == HISTORY_MAX && total == |all| && RingOfLines(history[..], all)
        && HistoryOk(all) }

    constructor (vga: Vga)
      requires vga.Valid()
      ensures Valid() && this.vga == vga && all == []
    {
      this.vga := vga;
      history := new Str[HISTORY_MAX](_ => []);
      total, all := 0, [];
    }

    /** `console_history_push`. */
    method HistoryPush(line: Str)
      requires Valid() && NulFree(line)
      modifies this, history
      ensures Valid() && all == Remember(old(all), line)
    {
      hide Vga.Valid, RingOfLines, HistoryOk, NulFree;
      if all != [] {
        LastLine(history[..], all);
      }
      if line == [] {
        return;
      }
      if total > 0 && history[(total - 1) % HISTORY_MAX] == line {
        return;
      }
      RememberKeeps(all, line);
      LinesRemembered(history[..], all, Truncate(line, LINE_MAX - 1));
      ghost var next := history[..][total % HISTORY_MAX := Truncate(line, LINE_MAX - 1)];
      history[total % HISTORY_MAX] := Truncate(line, LINE_MAX - 1);
      assert history[..] == next;
      total := total + 1;
      all := all + [Truncate(line, LINE_MAX - 1)];
    }

    /** `console_history_at`. */
    method HistoryAt(index: int) returns (line: Option<Str>)
      requires Valid()
      ensures line == Recall(all, index)
    {
      hide Vga.Valid;
      if index < 0 || index >= total {
        return None;
      }
      if total > HISTORY_MAX && index < total - HISTORY_MAX {
        return None;
      }
      return Some(history[index % HISTORY_MAX]);
    }

    /** `echo_char`. */
    method EchoChar(echo: Echo, c: byte)
      requires vga.Valid()
      modifies vga, vga.vram, vga.screen, vga.scrollback
      ensures vga.Valid() && TermOk(vga.State()) && vga.State() == PutAll(old(vga.State()), Shown(echo, [c]))
    {
      hide Vga.Core, Vga.Mirrored, TermOk, PutC;
      vga.StateOk();
      PutAllOne(vga.State(), c);
      PutAllOne(vga.State(), STAR);
      ShownOne(echo, c);
      if echo == Plain {
        vga.PutChar(c);
      } else if echo == Stars {
        vga.PutChar(STAR);
      }
      vga.StateOk();
    }

    /** `echo_string`. */
    method EchoString(echo: Echo, s: Str)
      requires vga.Valid()
      modifies vga, vga.vram, vga.screen, vga.scrollback
      ensures vga.Valid() && TermOk(vga.State()) && vga.State() == PutAll(old(vga.State()), Shown(echo, s))
    {
      hide Vga.Valid, Vga.State, TermOk, PutC, Shown, PutAll;
      vga.StateOk();
      ghost var t := vga.State();
      var i := 0;
      ShownParts(echo, s, 0);
      NothingPut(t);
      while i < |s|
        invariant i <= |s| && vga.Valid() && TermOk(vga.State())
        invariant vga.State() == PutAll(t, Shown(echo, s[..i]))
      {
        ShownParts(echo, s, i);
        PutAllConcat(t, Shown(echo, s[..i]), Shown(echo, [s[i]]));
        EchoChar(echo, s[i]);
        i := i + 1;
      }
      assert s[..i] == s;
    }

    /** `redraw`. */
    method RedrawLine(echo: Echo, line: Str, drawn: int, ghost e: Editor) returns (now: int)
      requires vga.Valid() && e.term == vga.State() && e.drawn == drawn && TermOk(e.term)
      modifies vga, vga.vram, vga.screen, vga.scrollback
      ensures vga.Valid() && TermOk(vga.State()) && vga.State() == Redraw(echo, line, e).term
              && now == Redraw(echo, line, e).drawn
    {
      hide Vga.Valid, Vga.State, TermOk, PutC, Shown, PutAll;
      ghost var t := vga.State();
      var i := 0;
      NothingPut(t);
      assert Backs(0) == [];
      while i < drawn
        invariant 0 <= i && (i <= drawn || i == 0) && vga.Valid() && TermOk(vga.State())
        invariant vga.State() == PutAll(t, Backs(i))
      {
        assert Backs(i + 1) == Backs(i) + [BACKSPACE];
        PutAllConcat(t, Backs(i), [BACKSPACE]);
        PutAllOne(vga.State(), BACKSPACE);
        vga.PutChar(BACKSPACE);
        vga.StateOk();
        i := i + 1;
      }
      assert Backs(i) == Backs(drawn);
      EchoString(echo, line);
      now := if echo == Hidden then 0 else |line|;
    }

    /** The two arrow keys. */
    method ArrowKey(out: array<byte>, limit: nat, echo: Echo, useHistory: bool, key: int, length: nat, drawn: int,
            browse: int,
                    ghost s: Setup, ghost e: Editor) returns (newLength: nat, newDrawn: int, newBrowse: int)
      requires Valid() && Fits(s, limit, echo, useHistory, all) && e.term == vga.State() && TermOk(e.term)
      requires Tracks(e, out[..], length, drawn, browse, limit) && (key == KEY_UP || key == KEY_DOWN)
      modifies out, vga, vga.vram, vga.screen, vga.scrollback
      ensures Valid() && Arrow(s, e, key).term == vga.State()
      ensures Tracks(Arrow(s, e, key), out[..], newLength, newDrawn, newBrowse, limit)
    {
      hide Vga.Valid, Vga.State, TermOk, Redraw, RingOfLines, HistoryOk, Apply, Holds, NulFree;
      newLength, newDrawn, newBrowse := length, drawn, browse;
      if !useHistory {
        vga.ScrollBy(if key == KEY_UP then SCROLL_STEP else -SCROLL_STEP);
        return;
      }
      var target := if key == KEY_UP then browse - 1 else browse + 1;
      if target < 0 {
        return;
      }
      if target >= total {
        newBrowse := total;
        RedrawFields(echo, [], e);
        newDrawn := RedrawLine(echo, [], drawn, e);
        out[0] := 0;
        HoldsEmpty(out[..]);
        newLength := 0;
        return;
      }
      var entry := HistoryAt(target);
      if entry == None {
        return;
      }
      RecallFits(all, target);
      newBrowse := target;
      CopyString(out, entry.value, limit);
      newLength := StringLength(out, Truncate(entry.value, limit));
      HoldsText(out[..], Truncate(entry.value, limit));
      RedrawFields(echo, out[..newLength], e);
      newDrawn := RedrawLine(echo, out[..newLength], drawn, e);
    }

    /** One turn of the loop of `console_read_line`, for a key that does not end the line. */
    method HandleKey(out: array<byte>, limit: nat, echo: Echo, useHistory: bool, prompt: seq<Op>, key: int,
                     length: nat, drawn: int, browse: int, ghost s: Setup, ghost e: Editor)
        returns (newLength: nat, newDrawn: int, newBrowse: int)
      requires Valid() && Fits(s, limit, echo, useHistory, all) && s.prompt == prompt && e.term == vga.State()
               && TermOk(e.term)
      requires Tracks(e, out[..], length, drawn, browse, limit)
      modifies out, vga, vga.vram, vga.screen, vga.scrollback
      ensures Valid() && Step(s, e, key).term == vga.State()
      ensures Tracks(Step(s, e, key), out[..], newLength, newDrawn, newBrowse, limit)
    {
      hide Vga.Valid, Vga.State, TermOk, Redraw, RingOfLines, HistoryOk, Apply, Run, PutC, Arrow, Shown, Holds, NulFree,
           Vga.Core;
      newLength, newDrawn, newBrowse := length, drawn, browse;
      if key == BACKSPACE {
        if length > 0 {
          newLength := length - 1;
          ghost var next := out[..][newLength := 0];
          HoldsShorter(out[..], e.line);
          out[newLength] := 0;
          assert out[..] == next;
          if echo != Hidden {
            PutAllOne(e.term, BACKSPACE);
            vga.PutChar(BACKSPACE);
            newDrawn := drawn - 1;
          }
        }
        return;
      }
      if key == CTRL_L {
        vga.StateOk();
        vga.ClearScreen();
        vga.StateOk();
        ClearIsWipe(e.term);
        RunPrompt(prompt);
        ghost var t := vga.State();
        vga.StateOk();
        HoldsText(out[..], e.line);
        RedrawFields(echo, e.line, e.(drawn := 0, term := t, start := At(t), high := At(t)));
        newDrawn := RedrawLine(echo, out[..length], 0, e.(drawn := 0, term := t, start := At(t), high := At(t)));
        return;
      }
      if key == CTRL_U {
        RedrawFields(echo, [], e);
        newDrawn := RedrawLine(echo, [], drawn, e);
        out[0] := 0;
        HoldsEmpty(out[..]);
        newLength := 0;
        return;
      }
      if key == KEY_PAGEUP {
        vga.ScrollBy(PAGE_STEP);
        return;
      }
      if key == KEY_PAGEDOWN {
        vga.ScrollBy(-PAGE_STEP);
        return;
      }
      if key == KEY_UP || key == KEY_DOWN {
        newLength, newDrawn, newBrowse := ArrowKey(out, limit, echo, useHistory, key, length, drawn, browse, s, e);
        return;
      }
      if key < 32 || key > 126 {
        return;
      }
      if length < limit {
        vga.ScrollToBottom();
        vga.StateOk();
        ghost var next := out[..][length := key as byte][length + 1 := 0];
        HoldsLonger(out[..], e.line, key as byte);
        out[length] := key as byte;
        newLength := length + 1;
        out[newLength] := 0;
        assert out[..] == next;
        EchoChar(echo, key as byte);
        if echo != Hidden {
          newDrawn := drawn + 1;
        }
      }
    }

    /** The prompt callback of Ctrl-L, as the display sees it. */
    method RunPrompt(prompt: seq<Op>)
      requires vga.Valid() && TermOk(vga.State())
      modifies vga, vga.vram, vga.screen, vga.scrollback
      ensures vga.Valid() && TermOk(vga.State()) && vga.State() == Run(old(vga.State()), prompt)
    {
      hide Vga.Valid, Vga.State, TermOk, Apply;
      var i := 0;
      assert prompt[0..] == prompt;
      while i < |prompt|
        invariant i <= |prompt| && vga.Valid() && TermOk(vga.State())
        invariant Run(old(vga.State()), prompt) == Run(vga.State(), prompt[i..])
      {
        vga.Do(prompt[i]);
        vga.StateOk();
        assert prompt[i..][1..] == prompt[i + 1..];
        i := i + 1;
      }
      assert prompt[i..] == [];
    }

    /** The live screen comes back into view and what ends the line goes out. */
    method EndLine(text: Str)
      requires vga.Valid() && TermOk(vga.State())
      modifies vga, vga.vram, vga.screen, vga.scrollback
      ensures vga.Valid() && vga.State() == PutAll(Apply(old(vga.State()), Bottom), text)
    {
      hide Vga.Valid, Vga.State, TermOk, Apply, PutAll;
      vga.ScrollToBottom();
      vga.Write(text);
    }

    /** `console_read_line`, fed with the keys `keyboard_getchar` returns; it is still waiting when they run out. */
    method ReadLine(out: array<byte>, size: nat, echo: Echo, useHistory: bool, prompt: seq<Op>, keys: seq<int>)
            returns (ended: Ended)
      requires Valid() && 1 <= size <= out.Length
      modifies out, vga, vga.vram, vga.screen, vga.scrollback
      ensures Valid() && TermOk(old(vga.State()))
      ensures var s := Setup(Min(size, LINE_MAX) - 1, echo, useHistory, all, prompt);
              match ReadKeys(s, Fresh(s, old(vga.State())), keys)
              case Reading(e) => ended == Waiting && Holds(out[..], e.line) && NulFree(e.line) && |e.line| < size
                  && vga.State() == e.term
              case Entered(line, t) => ended == Line && Holds(out[..], line) && NulFree(line) && |line| < size
                  && vga.State() == t
              case Cancelled(t) => ended == Interrupt && Holds(out[..], []) && vga.State() == t
    {
      hide Vga.Valid, Vga.State, TermOk, RingOfLines, HistoryOk, Apply, Step, PutAll, PutC, Holds, NulFree, ReadKeys;
      vga.StateOk();
      var length: nat, drawn: int, browse: int := 0, 0, total;
      var limit := (if size < LINE_MAX then size else LINE_MAX) - 1;
      out[0] := 0;
      HoldsEmpty(out[..]);
      ghost var s := Setup(limit, echo, useHistory, all, prompt);
      ghost var e := Fresh(s, vga.State());
      ghost var e0 := e;
      var i := 0;
      assert keys[0..] == keys;
      while i < |keys|
        invariant i <= |keys| && Valid() && e.term == vga.State() && TermOk(e.term)
        invariant Tracks(e, out[..], length, drawn, browse, limit)
        invariant ReadKeys(s, e0, keys) == ReadKeys(s, e, keys[i..])
      {
        var key := keys[i];
        NextKey(s, e, keys, i);
        if key == NEWLINE {
          EndLine([NEWLINE]);
          HoldsText(out[..], e.line);
          out[length] := 0;
          return Line;
        }
        if key == CTRL_C {
          EndLine([94, 67, NEWLINE]);
          out[0] := 0;
          HoldsEmpty(out[..]);
          return Interrupt;
        }
        length, drawn, browse := HandleKey(out, limit, echo, useHistory, prompt, key, length, drawn, browse, s, e);
        e := Step(s, e, key);
        i := i + 1;
      }
      NextKey(s, e, keys, i);
      return Waiting;
    }
  }

  ghost predicate Fits(s: Setup, limit: nat, echo: Echo, useHistory: bool, all: seq<Str>) {
    s.limit == limit && s.echo == echo && s.useHistory == useHistory && s.all == all
  }

  /** The locals of the loop are those of the editor, and the buffer holds its line. */
  ghost predicate Tracks(e: Editor, out: seq<byte>, length: nat, drawn: int, browse: int, limit: nat) {
    && Holds(out, e.line) && NulFree(e.line) && length == |e.line| <= limit < |out|
    && e.drawn == drawn && e.browse == browse
  }

  /** What the loop makes of the next key. */
  lemma NextKey(s: Setup, e: Editor, keys: seq<int>, i: nat)
    requires TermOk(e.term) && i <= |keys|
    ensures i == |keys| ==> ReadKeys(s, e, keys[i..]) == Reading(e)
    ensures i < |keys| ==>
              ReadKeys(s, e, keys[i..]) == (
                if keys[i] == NEWLINE then Entered(e.line, PutAll(Apply(e.term, Bottom), [NEWLINE]))
                else if keys[i] == CTRL_C then Cancelled(PutAll(Apply(e.term, Bottom), [94, 67, NEWLINE]))
                else ReadKeys(s, Step(s, e, keys[i]), keys[i + 1..]))
  {
    hide Step, PutAll, Apply, TermOk;
    if i < |keys| {
      assert keys[i..][0] == keys[i] && keys[i..][1..] == keys[i + 1..];
    }
  }

  lemma ClearIsWipe(t: Term)
    requires TermOk(t)
    ensures Apply(t, Wipe) == Clear(t)
  {
  }

  lemma RecallFits(all: seq<Str>, index: int)
    requires HistoryOk(all) && Recall(all, index).Some?
    ensures NulFree(Recall(all, index).value)
  {
  }

  /** `strncpy` followed by the terminator. */
  method CopyString(out: array<byte>, s: Str, limit: nat)
    requires limit < out.Length && NulFree(s)
    modifies out
    ensures Holds(out[..], Truncate(s, limit)) && NulFree(Truncate(s, limit))
  {
    var i := 0;
    while i < limit
      invariant i <= limit
      invariant forall k | 0 <= k < i :: out[k] == if k < |s| then s[k] else 0
    {
      out[i] := if i < |s| then s[i] else 0;
      i := i + 1;
    }
    out[limit] := 0;
    assert out[..Min(|s|, limit)] == s[..Min(|s|, limit)];
  }

  /** `strlen`. */
  method StringLength(out: array<byte>, ghost s: Str) returns (n: nat)
    requires Holds(out[..], s) && NulFree(s)
    ensures n == |s|
  {
    hide Holds, NulFree;
    n := 0;
    EndsThere(out[..], s, 0);
    while out[n] != 0
      invariant n <= |s| < out.Length && (out[n] == 0 <==> n == |s|)
      decreases |s| - n
    {
      n := n + 1;
      EndsThere(out[..], s, n);
    }
  }

  lemma EndsThere(out: seq<byte>, s: Str, n: nat)
    requires Holds(out, s) && NulFree(s) && n <= |s|
    ensures |s| < |out| && (out[n] == 0 <==> n == |s|)
  {
    if n < |s| {
      assert out[..|s|][n] == s[n];
    }
  }

  lemma HoldsEmpty(out: seq<byte>)
    requires out != [] && out[0] == 0
    ensures Holds(out, []) && NulFree([])
  {
  }

  lemma HoldsShorter(out: seq<byte>, s: Str)
    requires Holds(out, s) && NulFree(s) && s != []
    ensures |s| < |out| && Holds(out[|s| - 1 := 0], s[..|s| - 1]) && NulFree(s[..|s| - 1])
  {
    assert out[..|s| - 1] == out[..|s|][..|s| - 1];
  }

  lemma HoldsLonger(out: seq<byte>, s: Str, c: byte)
    requires Holds(out, s) && NulFree(s) && c != 0 && |s| + 1 < |out|
    ensures Holds(out[|s| := c][|s| + 1 := 0], s + [c]) && NulFree(s + [c])
  {
    assert out[..|s| + 1][..|s|] == s;
  }

  lemma HoldsText(out: seq<byte>, s: Str)
    requires Holds(out, s)
    ensures |s| < |out| && out[..|s|] == s && out[|s| := 0] == out
  {
  }

  lemma RedrawFields(echo: Echo, line: Str, e: Editor)
    requires TermOk(e.term)
    ensures Redraw(echo, line, e).line == line && Redraw(echo, line, e).browse == e.browse
  {
  }

  lemma ShownOne(echo: Echo, c: byte)
    ensures Shown(echo, [c]) == match echo case Plain => [c] case Hidden => [] case Stars => [STAR]
  {
  }

  lemma ShownParts(echo: Echo, s: Str, i: nat)
    requires i <= |s|
    ensures Shown(echo, s[..0]) == []
    ensures i < |s| ==> Shown(echo, s[..i + 1]) == Shown(echo, s[..i]) + Shown(echo, [s[i]])
  {
    if i < |s| {
      assert s[..i + 1] == s[..i] + [s[i]];
      ShownSnoc(echo, s[..i], s[i]);
    }
  }

  lemma NothingPut(t: Term)
    requires TermOk(t)
    ensures PutAll(t, []) == t
  {
  }

  lemma {:induction false} PutAllConcat(t: Term, a: Str, b: Str)
    requires TermOk(t)
    ensures PutAll(t, a + b) == PutAll(PutAll(t, a), b)
    decreases |a|
  {
    hide PutC, TermOk;
    if a == [] {
      assert a + b == b;
    } else {
      StepKeeps(t, Put(a[0]));
      assert (a + b)[1..] == a[1..] + b;
      PutAllConcat(PutC(t, a[0]), a[1..], b);
    }
  }

  lemma LastLine(ring: seq<Str>, all: seq<Str>)
    requires RingOfLines(ring, all) && all != []
    ensures ring[(|all| - 1) % HISTORY_MAX] == all[|all| - 1]
  {
  }
}
