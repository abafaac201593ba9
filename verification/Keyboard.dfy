/**
 The keyboard (drivers/keyboard.c): a ring that the interrupt handler fills while the reader is
 anywhere inside `keyboard_poll`, and the decoding of scancodes.
 */
module KeyRingSpec {
  const BUFFER_LEN: nat := 128

  /** How far the reader has come; `seen` counts the keys that were in when it read `head`. */
  datatype Point = Outside | GotHead(head: nat, seen: nat) | Occupied | GotKey(key: int)

  /** The ring with its history: every key it took in and every key it gave out. */
  datatype Ring = Ring(buffer: seq<int>, head: nat, tail: nat, point: Point, accepted: seq<int>, delivered: seq<int>)

  /** One atomic step: an interrupt, or the next access the reader makes. */
  datatype Event = Interrupt(key: int) | ReadHead | Compare | ReadSlot | Advance

  predicate Shape(r: Ring) { |r.buffer| == BUFFER_LEN && r.head < BUFFER_LEN && r.tail < BUFFER_LEN }

  predicate Enabled(r: Ring, e: Event) {
    match e
    case Interrupt(_) => true
    case ReadHead => r.point.Outside?
    case Compare => r.point.GotHead?
    case ReadSlot => r.point.Occupied?
    case Advance => r.point.GotKey?
  }

  function Push(r: Ring, key: int): Ring
    requires Shape(r)
  {
    var next := (r.head + 1) % BUFFER_LEN;
    if next == r.tail then r
    else r.(buffer := r.buffer[r.head := key], head := next, accepted := r.accepted + [key])
  }

  function Step(r: Ring, e: Event): Ring
    requires Shape(r) && Enabled(r, e)
  {
    match e
    case Interrupt(key) => Push(r, key)
    case ReadHead => r.(point := GotHead(r.head, |r.accepted|))
    case Compare => r.(point := if r.point.head == r.tail then Outside else Occupied)
    case ReadSlot => r.(point := GotKey(r.buffer[r.tail]))
    case Advance => r.(tail := (r.tail + 1) % BUFFER_LEN, point := Outside, delivered := r.delivered + [r.point.key])
  }

  function Unread(r: Ring): int { |r.accepted| - |r.delivered| }

  /** Slots between tail and head hold the keys not yet delivered, in order. */
  ghost predicate Sound(r: Ring) {
    && Shape(r) && r.delivered <= r.accepted && Unread(r) < BUFFER_LEN
    && r.head == |r.accepted| % BUFFER_LEN && r.tail == |r.delivered| % BUFFER_LEN
    && (forall j | |r.delivered| <= j < |r.accepted| :: r.buffer[j % BUFFER_LEN] == r.accepted[j])
    && match r.point
       case Outside => true
       case GotHead(h, seen) => |r.delivered| <= seen <= |r.accepted| && h == seen % BUFFER_LEN
       case Occupied => Unread(r) > 0
       case GotKey(key) => Unread(r) > 0 && key == r.accepted[|r.delivered|]
  }

  function Empty(buffer: seq<int>): Ring { Ring(buffer, 0, 0, Outside, [], []) }

  lemma SlotsApart(a: nat, b: nat)
    requires a <= b < a + BUFFER_LEN
    ensures a % BUFFER_LEN == b % BUFFER_LEN ==> a == b
    ensures (a % BUFFER_LEN + 1) % BUFFER_LEN == (a + 1) % BUFFER_LEN
  {
  }

  /** The ring refuses a key exactly when 127 are unread, and else takes it without touching an unread slot. */
  lemma PushExactly(r: Ring, key: int)
    requires Sound(r)
    ensures Push(r, key).accepted == (if Unread(r) == BUFFER_LEN - 1 then r.accepted else r.accepted + [key])
    ensures Sound(Push(r, key))
    ensures forall j | |r.delivered| <= j < |r.accepted| ::
            Push(r, key).buffer[j % BUFFER_LEN] == r.buffer[j % BUFFER_LEN]
  {
    hide Sound;
    SoundFacts(r);
    FullRing(|r.accepted|, |r.delivered|);
    if Unread(r) < BUFFER_LEN - 1 {
      PushSound(r, key);
    }
  }

  lemma SoundFacts(r: Ring)
    requires Sound(r)
    ensures Shape(r) && r.delivered <= r.accepted && Unread(r) < BUFFER_LEN
    ensures r.head == |r.accepted| % BUFFER_LEN && r.tail == |r.delivered| % BUFFER_LEN
  {
  }

  lemma FullRing(accepted: nat, delivered: nat)
    requires delivered <= accepted < delivered + BUFFER_LEN
    ensures (accepted % BUFFER_LEN + 1) % BUFFER_LEN == delivered % BUFFER_LEN <==>
            accepted - delivered == BUFFER_LEN - 1
  {
  }

  lemma PushSound(r: Ring, key: int)
    requires Sound(r) && Unread(r) < BUFFER_LEN - 1
    ensures var p := r.(buffer := r.buffer[r.head := key], head := (r.head + 1) % BUFFER_LEN,
            accepted := r.accepted + [key]);
            && Sound(p)
            && forall j | |r.delivered| <= j < |r.accepted| :: p.buffer[j % BUFFER_LEN] == r.buffer[j % BUFFER_LEN]
  {
    var n := |r.accepted|;
    SlotsApart(n, n);
    forall j | |r.delivered| <= j < n ensures j % BUFFER_LEN != n % BUFFER_LEN {
      SlotsApart(j, n);
    }
  }

  lemma StepKeeps(r: Ring, e: Event)
    requires Sound(r) && Enabled(r, e)
    ensures Sound(Step(r, e))
    ensures r.accepted <= Step(r, e).accepted && r.delivered <= Step(r, e).delivered
  {
    match e {
      case Interrupt(key) => PushExactly(r, key);
      case Compare => SlotsApart(|r.delivered|, r.point.seen);
      case Advance => SlotsApart(|r.delivered|, |r.delivered|);
      case _ =>
    }
  }

  /** The reader is told "nothing there" exactly when nothing was unread at the moment it read `head`. */
  lemma ZeroMeansEmpty(r: Ring)
    requires Sound(r) && r.point.GotHead?
    ensures Step(r, Compare).point == Outside <==> r.point.seen == |r.delivered|
  {
    SlotsApart(|r.delivered|, r.point.seen);
  }

  predicate Runnable(r: Ring, es: seq<Event>)
    decreases |es|
  { es == [] || (Shape(r) && Enabled(r, es[0]) && Runnable(Step(r, es[0]), es[1..])) }

  function Run(r: Ring, es: seq<Event>): Ring
    requires Runnable(r, es)
    decreases |es|
  { if es == [] then r else Run(Step(r, es[0]), es[1..]) }

  /**
   However interrupts fall between the reader's steps: what was delivered is a prefix of what was
   accepted, in order, none lost and none twice.
   */
  lemma {:induction false} InOrder(r: Ring, es: seq<Event>)
    requires Sound(r) && Runnable(r, es)
    ensures Sound(Run(r, es)) && Run(r, es).delivered <= Run(r, es).accepted
    ensures r.accepted <= Run(r, es).accepted && r.delivered <= Run(r, es).delivered
    decreases |es|
  {
    hide Sound, Step;
    if es != [] {
      StepKeeps(r, es[0]);
      InOrder(Step(r, es[0]), es[1..]);
    }
    SoundFacts(Run(r, es));
  }

  function Pressed(es: seq<Event>): seq<int>
    decreases |es|
  {
    if es == [] then []
    else (if es[0].Interrupt? then [es[0].key] else []) + Pressed(es[1..])
  }

  /** The reader keeps up: no key arrives while 127 are waiting. */
  ghost predicate KeepsUp(r: Ring, es: seq<Event>)
    requires Runnable(r, es)
    decreases |es|
  {
    es == [] || ((es[0].Interrupt? ==> Unread(r) < BUFFER_LEN - 1) && KeepsUp(Step(r, es[0]), es[1..]))
  }

  /** If the reader keeps up every key pressed is accepted; a key pressed too early is one accepted less. */
  lemma {:induction false} NoneDropped(r: Ring, es: seq<Event>)
    requires Sound(r) && Runnable(r, es)
    ensures |Run(r, es).accepted| <= |r.accepted| + |Pressed(es)|
    ensures Run(r, es).accepted == r.accepted + Pressed(es) <==> KeepsUp(r, es)
    decreases |es|
  {
    hide Sound, Step, Push, Pressed, Unread;
    if es == [] {
      NothingPressed();
      assert r.accepted + [] == r.accepted;
    } else {
      var r1 := Step(r, es[0]);
      StepKeeps(r, es[0]);
      StepAccepts(r, es[0]);
      NoneDropped(r1, es[1..]);
      PressedFirst(es);
      if es[0].Interrupt? && Unread(r) < BUFFER_LEN - 1 {
        assert (r.accepted + [es[0].key]) + Pressed(es[1..]) == r.accepted + ([es[0].key] + Pressed(es[1..]));
      } else if es[0].Interrupt? {
        assert |Run(r, es).accepted| < |r.accepted + Pressed(es)|;
      }
    }
  }

  lemma NothingPressed()
    ensures Pressed([]) == []
  {
  }

  lemma PressedFirst(es: seq<Event>)
    requires es != []
    ensures Pressed(es) == if es[0].Interrupt? then [es[0].key] + Pressed(es[1..]) else Pressed(es[1..])
  {
  }

  /** Only an interrupt adds to what is accepted, and only while fewer than 127 keys are waiting. */
  lemma StepAccepts(r: Ring, e: Event)
    requires Sound(r) && Shape(r) && Enabled(r, e)
    ensures Step(r, e).accepted ==
            if e.Interrupt? && Unread(r) < BUFFER_LEN - 1 then r.accepted + [e.key] else r.accepted
  {
    hide Sound;
    SoundFacts(r);
    if e.Interrupt? {
      PushExactly(r, e.key);
    }
  }

  function Interrupts(keys: seq<int>): seq<Event> { seq(|keys|, i requires 0 <= i < |keys| => Interrupt(keys[i])) }

  lemma {:induction false} InterruptsKeep(r: Ring, keys: seq<int>)
    requires Sound(r)
    ensures Runnable(r, Interrupts(keys))
    ensures var q := Run(r, Interrupts(keys));
            Sound(q) && q.point == r.point && q.delivered == r.delivered && q.tail == r.tail && r.accepted <= q.accepted
    decreases |keys|
  {
    hide Sound;
    if keys != [] {
      SoundFacts(r);
      StepKeeps(r, Interrupt(keys[0]));
      assert Interrupts(keys)[1..] == Interrupts(keys[1..]);
      InterruptsKeep(Push(r, keys[0]), keys[1..]);
    }
  }

  /** Where the ring stands after a poll into whose gaps the keys `a`, `b` and `c` fall. */
  function Polled(r: Ring, a: seq<int>, b: seq<int>, c: seq<int>): (Ring, int)
    requires Sound(r) && r.point.Outside?
  {
    StepKeeps(r, ReadHead);
    InterruptsKeep(Step(r, ReadHead), a);
    var r1 := Run(Step(r, ReadHead), Interrupts(a));
    StepKeeps(r1, Compare);
    var r2 := Step(r1, Compare);
    if r2.point.Outside? then (r2, 0)
    else
      InterruptsKeep(r2, b);
      var r3 := Run(r2, Interrupts(b));
      StepKeeps(r3, ReadSlot);
      InterruptsKeep(Step(r3, ReadSlot), c);
      var r4 := Run(Step(r3, ReadSlot), Interrupts(c));
      (Step(r4, Advance), r4.point.key)
  }

  /**
   Whatever arrives in the gaps, a poll delivers the oldest key that was unread when it began, or
   nothing when there was none, and says 0 in that case only.
   */
  lemma PollDelivers(r: Ring, a: seq<int>, b: seq<int>, c: seq<int>)
    requires Sound(r) && r.point.Outside?
    ensures var (q, key) := Polled(r, a, b, c);
            && Sound(q) && q.point.Outside? && r.accepted <= q.accepted
            && (if Unread(r) == 0 then key == 0 && q.delivered == r.delivered
                else key == r.accepted[|r.delivered|] && q.delivered == r.delivered + [key])
  {
    hide Sound, Run;
    SoundFacts(r);
    StepKeeps(r, ReadHead);
    InterruptsKeep(Step(r, ReadHead), a);
    var r1 := Run(Step(r, ReadHead), Interrupts(a));
    SoundFacts(r1);
    StepKeeps(r1, Compare);
    ZeroMeansEmpty(r1);
    var r2 := Step(r1, Compare);
    if !r2.point.Outside? {
      InterruptsKeep(r2, b);
      var r3 := Run(r2, Interrupts(b));
      SoundFacts(r3);
      StepKeeps(r3, ReadSlot);
      var r4 := Step(r3, ReadSlot);
      InterruptsKeep(r4, c);
      KeyInHand(r4);
      StepKeeps(Run(r4, Interrupts(c)), Advance);
    }
  }

  lemma KeyInHand(r: Ring)
    requires Sound(r) && r.point.GotKey?
    ensures Unread(r) > 0 && r.delivered <= r.accepted && r.point.key == r.accepted[|r.delivered|]
  {
  }
}

/** What the keys that are no characters are reported as (include/keyboard.h). */
module KeyCodes {

  const KEY_UP: int := 0x101
  const KEY_DOWN: int := 0x102
  const KEY_LEFT: int := 0x103
  const KEY_RIGHT: int := 0x104
  const KEY_HOME: int := 0x105
  const KEY_END: int := 0x106
  const KEY_DELETE: int := 0x107
  const KEY_PAGEUP: int := 0x108
  const KEY_PAGEDOWN: int := 0x109
}

/** Scancodes to keys. */
module KeyDecode {
  import opened Bytes
  import opened KeyCodes

  /** Scancode set 1, US layout, row by row: the character without and with shift, 0 where there is none. */
  function DigitRow(code: byte): (byte, byte) {
    match code
    case 1 => (27, 27) case 2 => (49, 33) case 3 => (50, 64) case 4 => (51, 35) case 5 => (52, 36)
    case 6 => (53, 37) case 7 => (54, 94) case 8 => (55, 38) case 9 => (56, 42) case 10 => (57, 40)
    case 11 => (48, 41) case 12 => (45, 95) case 13 => (61, 43) case 14 => (8, 8)
    case _ => (0, 0)
  }

  function TopRow(code: byte): (byte, byte) {
    match code
    case 15 => (9, 9) case 16 => (113, 81) case 17 => (119, 87) case 18 => (101, 69) case 19 => (114, 82)
    case 20 => (116, 84) case 21 => (121, 89) case 22 => (117, 85) case 23 => (105, 73) case 24 => (111, 79)
    case 25 => (112, 80) case 26 => (91, 123) case 27 => (93, 125) case 28 => (10, 10)
    case _ => (0, 0)
  }

  function HomeRow(code: byte): (byte, byte) {
    match code
    case 30 => (97, 65) case 31 => (115, 83) case 32 => (100, 68) case 33 => (102, 70) case 34 => (103, 71)
    case 35 => (104, 72) case 36 => (106, 74) case 37 => (107, 75) case 38 => (108, 76) case 39 => (59, 58)
    case 40 => (39, 34) case 41 => (96, 126)
    case _ => (0, 0)
  }

  function BottomRow(code: byte): (byte, byte) {
    match code
    case 43 => (92, 124) case 44 => (122, 90) case 45 => (120, 88) case 46 => (99, 67) case 47 => (118, 86)
    case 48 => (98, 66) case 49 => (110, 78) case 50 => (109, 77) case 51 => (44, 60) case 52 => (46, 62)
    case 53 => (47, 63) case 55 => (42, 42) case 57 => (32, 32)
    case _ => (0, 0)
  }

  function KeyPair(code: byte): (byte, byte) {
    if code < 15 then DigitRow(code)
    else if code < 29 then TopRow(code)
    else if code < 42 then HomeRow(code)
    else BottomRow(code)
  }

  datatype Keys = Keys(shift: bool, caps: bool, ctrl: bool, extended: bool)

  predicate Lower(c: byte) { 97 <= c <= 122 }

  predicate Upper(c: byte) { 65 <= c <= 90 }

  function Mapped(shift: bool, code: byte): byte { if shift then KeyPair(code).1 else KeyPair(code).0 }

  function Swapped(c: byte): byte { if Lower(c) then c - 32 else if Upper(c) then c + 32 else c }

  function Controlled(c: byte): byte { if Lower(c) then c - 96 else if Upper(c) then c - 64 else c }

  function Extended(code: byte): Option<int> {
    if code == 0x48 then Some(KEY_UP) else if code == 0x50 then Some(KEY_DOWN)
    else if code == 0x4B then Some(KEY_LEFT) else if code == 0x4D then Some(KEY_RIGHT)
    else if code == 0x47 then Some(KEY_HOME) else if code == 0x4F then Some(KEY_END)
    else if code == 0x53 then Some(KEY_DELETE) else if code == 0x49 then Some(KEY_PAGEUP)
    else if code == 0x51 then Some(KEY_PAGEDOWN) else None
  }

  /** `keyboard_callback`: the modifiers afterwards and the key to push, if any. */
  function Decode(k: Keys, code: byte): (Keys, Option<int>) {
    if code == 0xE0 then (k.(extended := true), None)
    else if k.extended then (k.(extended := false), if code < 0x80 then Extended(code) else None)
    else if code >= 0x80 then
      var made := code - 0x80;
      (if made == 0x2A || made == 0x36 then k.(shift := false) else if made == 0x1D then k.(ctrl := false) else k, None)
    else if code == 0x2A || code == 0x36 then (k.(shift := true), None)
    else if code == 0x1D then (k.(ctrl := true), None)
    else if code == 0x3A then (k.(caps := !k.caps), None)
    else
      var c := Mapped(k.shift, code);
      var d := if k.caps then Swapped(c) else c;
      (k, if c == 0 then None else Some(if k.ctrl then Controlled(d) else d))
  }

  /**
   No key is ever pushed as 0, so 0 can stand for "nothing there"; arrows and the like stay clear
   of the characters.
   */
  lemma NeverZero(k: Keys, code: byte)
    ensures var key := Decode(k, code).1;
            key.Some? ==> 0 < key.value && (key.value < 256 <==> !k.extended)
  {
  }

  /** Lower case without shift is the same letter in upper case with it, and never the other way round. */
  predicate Cased(pair: (byte, byte)) {
    && (Lower(pair.0) <==> Upper(pair.1)) && (Lower(pair.0) ==> pair.1 == pair.0 - 32)
    && !Upper(pair.0) && !Lower(pair.1)
  }

  lemma CasedDigits(code: byte)
    ensures Cased(DigitRow(code))
  {
  }

  lemma CasedTop(code: byte)
    ensures Cased(TopRow(code))
  {
  }

  lemma CasedHome(code: byte)
    ensures Cased(HomeRow(code))
  {
  }

  lemma CasedBottom(code: byte)
    ensures Cased(BottomRow(code))
  {
  }

  lemma LetterTables(code: byte)
    ensures Cased((Mapped(false, code), Mapped(true, code)))
  {
    hide DigitRow, TopRow, HomeRow, BottomRow, Cased;
    CasedDigits(code);
    CasedTop(code);
    CasedHome(code);
    CasedBottom(code);
    assert KeyPair(code) == (Mapped(false, code), Mapped(true, code));
  }

  /**
   A letter comes out in capitals exactly when one of shift and caps lock is on; with Ctrl both
   give the same code.
   */
  lemma Letters(k: Keys, code: byte)
    requires code < 0x80 && !k.extended && Lower(Mapped(false, code))
    ensures var small := Mapped(false, code);
            Decode(k, code) == (k, Some(if k.ctrl then small - 96 else if k.shift != k.caps then small - 32 else small))
  {
    hide Mapped;
    LetterTables(code);
    NoLetterModifiers();
  }

  lemma NoLetterModifiers()
    ensures forall s: bool ::
            Mapped(s, 0x2A) == 0 && Mapped(s, 0x36) == 0 && Mapped(s, 0x1D) == 0 && Mapped(s, 0x3A) == 0
  {
  }
}

/** The ring as the kernel runs it. */
module Keyboard {
  import opened Bytes
  import opened KeyRingSpec
  import D = KeyDecode

  ghost predicate NoZero(s: seq<int>) { forall i | 0 <= i < |s| :: s[i] != 0 }

  lemma NoZeroKey(s: seq<int>, key: int)
    requires NoZero(s) && key != 0
    ensures NoZero(s + [key])
  {
  }

  lemma NoZeroSnoc(s: seq<int>, keys: seq<int>, i: nat)
    requires NoZero(s) && NoZero(keys) && i < |keys|
    ensures NoZero(s + [keys[i]])
  {
  }

  lemma OldestNotZero(accepted: seq<int>, delivered: seq<int>)
    requires NoZero(accepted)
    ensures delivered <= accepted && delivered != accepted ==> |delivered| < |accepted| && accepted[|delivered|] != 0
  {
  }

  class KeyboardDriver {
    const buffer: array<int>
    var head: nat
    var tail: nat
    var keys: D.Keys
    ghost var accepted: seq<int>
    ghost var delivered: seq<int>

    ghost function State(): Ring
      reads this, buffer
    { Ring(buffer[..], head, tail, Outside, accepted, delivered) }

    ghost function During(p: Point): Ring
      reads this, buffer
    { State().(point := p) }

    ghost predicate Valid()
      reads this, buffer
    { Sound(State()) && NoZero(accepted) }

    /** `keyboard_init`. */
    constructor ()
      ensures Valid() && accepted == [] && delivered == [] && keys == D.Keys(false, false, false, false)
    {
      buffer := new int[BUFFER_LEN];
      head, tail, keys := 0, 0, D.Keys(false, false, false, false);
      accepted, delivered := [], [];
    }

    /** `push`. */
    method PushKey(key: int)
      requires buffer.Length == BUFFER_LEN && head < BUFFER_LEN && tail < BUFFER_LEN
      modifies buffer, this`head, this`accepted
      ensures State() == Push(old(State()), key)
    {
      var next := (head + 1) % BUFFER_LEN;
      if next == tail {
        return;
      }
      buffer[head] := key;
      head := next;
      accepted := accepted + [key];
    }

    /** `keyboard_callback` for one scancode. */
    method Callback(code: byte)
      requires Valid()
      modifies buffer, this`head, this`accepted, this`keys
      ensures Valid() && keys == D.Decode(old(keys), code).0
      ensures var key := D.Decode(old(keys), code).1;
              State() == if key.Some? then Push(old(State()), key.value) else old(State())
    {
      hide Sound, NoZero;
      ghost var r := State();
      SoundFacts(r);
      D.NeverZero(keys, code);
      var (after, key) := D.Decode(keys, code);
      keys := after;
      if key.Some? {
        PushExactly(r, key.value);
        NoZeroKey(accepted, key.value);
        PushKey(key.value);
      }
    }

    /** Keys arriving between two accesses of the reader, which has come as far as `p`. */
    method Arrive(keys: seq<int>, ghost p: Point)
      requires Sound(During(p)) && NoZero(keys) && NoZero(accepted)
      modifies buffer, this`head, this`accepted
      ensures Runnable(old(During(p)), Interrupts(keys)) && Sound(During(p))
      ensures During(p) == Run(old(During(p)), Interrupts(keys))
      ensures NoZero(accepted)
    {
      hide Sound, NoZero;
      ghost var r := During(p);
      InterruptsKeep(r, keys);
      ghost var es := Interrupts(keys);
      assert es[0..] == es;
      var i := 0;
      while i < |keys|
        invariant i <= |keys| && Sound(During(p)) && Runnable(During(p), es[i..])
        invariant Run(r, es) == Run(During(p), es[i..])
        invariant NoZero(accepted)
      {
        ghost var now := During(p);
        SoundFacts(now);
        StepKeeps(now, Interrupt(keys[i]));
        assert es[i..][0] == Interrupt(keys[i]) && es[i..][1..] == es[i + 1..];
        NoZeroSnoc(accepted, keys, i);
        PushKey(keys[i]);
        assert During(p) == Push(now, keys[i]);
        i := i + 1;
      }
      assert es[i..] == [];
    }

    /** `keyboard_poll`, with the keys that arrive in its three gaps. */
    method Poll(a: seq<int>, b: seq<int>, c: seq<int>) returns (key: int)
      requires Valid() && NoZero(a) && NoZero(b) && NoZero(c)
      modifies buffer, this`head, this`tail, this`accepted, this`delivered
      ensures Valid() && (State(), key) == Polled(old(State()), a, b, c)
      ensures key == 0 <==> old(accepted) == old(delivered)
      ensures delivered == old(delivered) + if key == 0 then [] else [key]
    {
      hide Sound, Run, Runnable, NoZero;
      OldestNotZero(accepted, delivered);
      PollDelivers(State(), a, b, c);
      SoundFacts(State());
      StepKeeps(State(), ReadHead);
      var h := head;
      ghost var p := GotHead(h, |accepted|);
      Arrive(a, p);
      StepKeeps(During(p), Compare);
      SoundFacts(During(p));
      if h == tail {
        return 0;
      }
      Arrive(b, Occupied);
      SoundFacts(During(Occupied));
      StepKeeps(During(Occupied), ReadSlot);
      key := buffer[tail];
      Arrive(c, GotKey(key));
      StepKeeps(During(GotKey(key)), Advance);
      tail := (tail + 1) % BUFFER_LEN;
      delivered := delivered + [key];
    }
  }
}
