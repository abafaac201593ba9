/** What a line entered is, said by the keys alone, and what the arrow and scroll keys do. */
module LineLaws {
  import opened Bytes
  import opened DisplaySpec
  import opened KeyCodes
  import opened LineSpec

  // ----- the line by the keys

  /** Without arrow keys: a printable key goes behind the line while there is room, backspace (8) drops
      the last one, Ctrl-U (21) all; no other key changes the line. */
  function Kept(line: Str, key: int, limit: nat): Str {
    if key == 8 then (if line == [] then [] else line[..|line| - 1])
    else if key == 21 then []
    else if 32 <= key <= 126 && |line| < limit then line + [key as byte]
    else line
  }

  function KeptAll(line: Str, keys: seq<int>, limit: nat): Str
    decreases |keys|
  {
    if keys == [] then line else KeptAll(Kept(line, keys[0], limit), keys[1..], limit)
  }

  /** Keys that neither end the line nor recall another one. */
  predicate Ordinary(s: Setup, keys: seq<int>) {
    forall i | 0 <= i < |keys| ::
      keys[i] != 10 && keys[i] != 3 && (s.useHistory ==> keys[i] != 0x101 && keys[i] != 0x102)
  }

  lemma StepLine(s: Setup, e: Editor, key: int)
    requires TermOk(e.term) && key != 10 && key != 3 && (s.useHistory ==> key != 0x101 && key != 0x102)
    ensures Step(s, e, key).line == Kept(e.line, key, s.limit)
  {
    hide Repainted, PutAll, Apply, Shown;
    if key == CTRL_L {
      RepaintLine(s, e);
    }
  }

  lemma RepaintLine(s: Setup, e: Editor)
    requires TermOk(e.term)
    ensures Repainted(s, e).line == e.line
  {
  }

  lemma {:induction false} LineByKeys(s: Setup, e: Editor, keys: seq<int>, rest: seq<int>) returns (r: Editor)
    requires TermOk(e.term) && Ordinary(s, keys)
    ensures TermOk(r.term) && ReadKeys(s, e, keys + rest) == ReadKeys(s, r, rest)
    ensures r.line == KeptAll(e.line, keys, s.limit)
    decreases |keys|
  {
    hide Step;
    if keys == [] {
      assert keys + rest == rest;
      r := e;
    } else {
      assert (keys + rest)[1..] == keys[1..] + rest;
      StepLine(s, e, keys[0]);
      r := LineByKeys(s, Step(s, e, keys[0]), keys[1..], rest);
    }
  }

  /** What Enter hands over is what the keys before it make of an empty line; Ctrl-C hands over nothing. */
  lemma EnteredByKeys(s: Setup, t: Term, keys: seq<int>)
    requires TermOk(t) && Ordinary(s, keys)
    ensures var o := ReadKeys(s, Fresh(s, t), keys + [10]); o.Entered? && o.line == KeptAll([], keys, s.limit)
    ensures ReadKeys(s, Fresh(s, t), keys + [3]).Cancelled?
    ensures var o := ReadKeys(s, Fresh(s, t), keys); o.Reading? && o.editor.line == KeptAll([], keys, s.limit)
  {
    var a := LineByKeys(s, Fresh(s, t), keys, [10]);
    var b := LineByKeys(s, Fresh(s, t), keys, [3]);
    var c := LineByKeys(s, Fresh(s, t), keys, []);
    assert keys + [] == keys;
  }

  lemma {:induction false} KeptText(line: Str, text: Str, limit: nat)
    requires (forall i | 0 <= i < |text| :: 32 <= text[i] <= 126) && |line| + |text| <= limit
    ensures KeptAll(line, text, limit) == line + text
    decreases |text|
  {
    if text == [] {
      assert line + text == line;
    } else {
      KeptText(line + [text[0]], text[1..], limit);
      assert line + text == (line + [text[0]]) + text[1..];
    }
  }

  /** Text typed and entered comes out as typed, as long as it fits. */
  lemma TypedIsEntered(s: Setup, t: Term, text: Str)
    requires TermOk(t) && (forall i | 0 <= i < |text| :: 32 <= text[i] <= 126) && |text| <= s.limit
    ensures var keys: seq<int> := text;
            var o := ReadKeys(s, Fresh(s, t), keys + [10]); o.Entered? && o.line == text
  {
    EnteredByKeys(s, t, text);
    KeptText([], text, s.limit);
    assert [] + text == text;
  }

  // ----- the line on display

  /**
   At every moment: typed plainly the cells from the end of the prompt to the cursor hold the line
   itself, with stars as many '*' (42), and hidden none at all.
   */
  lemma DisplaySays(s: Setup, t: Term, keys: seq<int>)
    requires TermOk(t) && SetupOk(s) && ReadKeys(s, Fresh(s, t), keys).Reading?
    ensures var e := ReadKeys(s, Fresh(s, t), keys).editor;
            && TermOk(e.term) && At(e.term) == e.start + (if s.echo == Hidden then 0 else |e.line|) <= Length(e.term)
            && (s.echo == Plain ==> forall p | e.start <= p < e.start + |e.line| ::
               CellAt(e.term, p).ch == e.line[p - e.start])
            && (s.echo == Stars ==> forall p | e.start <= p < e.start + |e.line| :: CellAt(e.term, p).ch == 42)
  {
    FreshAgrees(s, t);
    AlwaysAgrees(s, Fresh(s, t), keys);
    var e := ReadKeys(s, Fresh(s, t), keys).editor;
    CellsSay(s, e);
  }

  lemma CellsSay(s: Setup, e: Editor)
    requires Agrees(s, e)
    ensures TermOk(e.term) && At(e.term) == e.start + (if s.echo == Hidden then 0 else |e.line|) <= Length(e.term)
    ensures s.echo == Plain ==> forall p | e.start <= p < e.start + |e.line| ::
            CellAt(e.term, p).ch == e.line[p - e.start]
    ensures s.echo == Stars ==> forall p | e.start <= p < e.start + |e.line| :: CellAt(e.term, p).ch == 42
  {
    hide CellAt, TermOk;
    var shown := Shown(s.echo, e.line);
    ShownFacts(s.echo, e.line);
    if s.echo != Hidden {
      assert forall p | e.start <= p < e.start + |e.line| :: CellAt(e.term, p).ch == shown[p - e.start];
    }
  }

  /** Ctrl-L (12) starts over: the screen is cleared, the prompt put out, and the line drawn behind it. */
  lemma RepaintShows(s: Setup, e: Editor)
    requires SetupOk(s) && Agrees(s, e) && TermOk(e.term)
    ensures TermOk(Clear(e.term))
    ensures var cleared := Run(Clear(e.term), s.prompt);
            var r := Step(s, e, 12);
            && r.line == e.line && r.start == At(cleared) && Agrees(s, r) && SameBefore(cleared, r.term, r.start)
  {
    hide TermOk, At, PlainText, Run, Clear, SetupOk, Redraw, CellAt, Spelled;
    StepKeeps(e.term, Wipe);
    RepaintedAgrees(s, e);
    var t := Run(Clear(e.term), s.prompt);
    var f := e.(drawn := 0, term := t, start := At(t), high := At(t));
    AgreesLine(s, e);
    EmptySpelled(t);
    var nothing: Str := [];
    assert |nothing| == f.drawn && Spelled(f.term, f.start, f.high, nothing);
    RedrawAgrees(s, f, e.line);
  }

  // ----- the history

  /** Pressing the down arrow `m` times comes `m` lines forward, and to an empty new line at the end. */
  lemma {:induction false} DownRecalls(s: Setup, e: Editor, m: nat)
    requires SetupOk(s) && Agrees(s, e) && s.useHistory && 0 < m
    requires 0 <= e.browse <= |s.all| && |s.all| - 16 <= e.browse + 1
    ensures var o := ReadKeys(s, e, seq(m, _ => 0x102));
            && o.Reading?
            && (e.browse + m < |s.all| ==>
                  o.editor.browse == e.browse + m && o.editor.line == Truncate(s.all[e.browse + m], s.limit))
            && (e.browse + m >= |s.all| ==> o.editor.browse == |s.all| && o.editor.line == [])
    decreases m
  {
    hide SetupOk, Agrees;
    var downs := seq(m, _ => 0x102);
    assert downs[1..] == seq(m - 1, _ => 0x102);
    AgreesLine(s, e);
    EditKeeps(s, e, 0x102);
    var r := Step(s, e, 0x102);
    if m > 1 {
      DownRecalls(s, r, m - 1);
    } else {
      assert ReadKeys(s, r, []) == Reading(r);
    }
  }

  /** The up arrow stops at the first line ever entered, and at the 16th last. */
  lemma UpStops(s: Setup, e: Editor)
    requires TermOk(e.term) && s.useHistory && e.browse <= |s.all|
    requires e.browse <= 0 || e.browse - 1 < |s.all| - 16
    ensures Step(s, e, 0x101) == e
  {
  }

  /** Any other key leaves the place in the history alone. */
  lemma PlaceStays(s: Setup, e: Editor, key: int)
    requires TermOk(e.term) && (s.useHistory ==> key != 0x101 && key != 0x102)
    ensures Step(s, e, key).browse == e.browse
  {
    hide PutAll, Apply, Shown, Run;
  }

  // ----- looking back

  function Looked(view: nat, step: int, kept: nat): nat {
    if view + step < 0 then 0 else if view + step > kept then kept else view + step
  }

  /** Page up and page down move the view by 23 lines, the arrows without history by 3, and nothing else changes. */
  lemma ScrollKeys(s: Setup, e: Editor, key: int)
    requires TermOk(e.term)
    requires key == 0x108 || key == 0x109 || (!s.useHistory && (key == 0x101 || key == 0x102))
    ensures var step := if key == 0x108 then 23 else if key == 0x109 then -23 else if key == 0x101 then 3 else -3;
            var view := Looked(e.term.view, step, |DisplaySpec.Kept(e.term.archive)|);
            Step(s, e, key) == e.(term := e.term.(view := view))
  {
  }
}
