/** What sequences of scancodes come to. */
module KeyLaws {
  import opened Bytes
  import opened KeyDecode

  /** The modifiers and the keys pushed after some scancodes. */
  function DecodeAll(k: Keys, codes: seq<byte>): (Keys, seq<int>)
    decreases |codes|
  {
    if codes == [] then (k, [])
    else
      var (k1, key) := Decode(k, codes[0]);
      var (k2, rest) := DecodeAll(k1, codes[1..]);
      (k2, (if key.Some? then [key.value] else []) + rest)
  }

  lemma Two(k: Keys, a: byte, b: byte)
    ensures var (k1, x) := Decode(k, a);
            var (k2, y) := Decode(k1, b);
            DecodeAll(k, [a, b]) == (k2, (if x.Some? then [x.value] else []) + (if y.Some? then [y.value] else []))
  {
    hide Decode;
    assert [a, b][1..] == [b];
    One(Decode(k, a).0, b);
  }

  lemma One(k: Keys, a: byte)
    ensures DecodeAll(k, [a]) == (Decode(k, a).0, if Decode(k, a).1.Some? then [Decode(k, a).1.value] else [])
  {
    hide Decode;
    assert [a][1..] == [];
    assert DecodeAll(Decode(k, a).0, []) == (Decode(k, a).0, []);
    NoMore(if Decode(k, a).1.Some? then [Decode(k, a).1.value] else []);
  }

  lemma NoMore(keys: seq<int>)
    ensures keys + [] == keys && [] + keys == keys
  {
  }

  /** The codes behind the prefix 0xE0, and the keys they stand for: up, down, left, right, home, end,
      delete, page up, page down. */
  const CODES: seq<byte> := [0x48, 0x50, 0x4B, 0x4D, 0x47, 0x4F, 0x53, 0x49, 0x51]

  /** Pressing one of these keys pushes it, numbered from 0x101 on; letting go, or any other code, pushes nothing.
      The modifiers stay. */
  lemma ExtendedKeys(k: Keys, code: byte)
    requires !k.extended && code != 0xE0
    ensures forall i | 0 <= i < 9 && code == CODES[i] :: DecodeAll(k, [0xE0, code]) == (k, [0x101 + i])
    ensures code !in CODES ==> DecodeAll(k, [0xE0, code]) == (k, [])
  {
    Two(k, 0xE0, code);
    assert k.(extended := true).(extended := false) == k;
    var key := Decode(k.(extended := true), code).1;
    NoMore(if key.Some? then [key.value] else []);
    assert code !in CODES ==> forall i | 0 <= i < 9 :: CODES[i] != code;
    assert CODES[0] == 0x48 && CODES[1] == 0x50 && CODES[2] == 0x4B && CODES[3] == 0x4D && CODES[4] == 0x47
           && CODES[5] == 0x4F && CODES[6] == 0x53 && CODES[7] == 0x49 && CODES[8] == 0x51;
  }

  /**
   Without the prefix: either shift key (0x2A, 0x36) holds while down, Ctrl (0x1D) likewise, caps lock
   (0x3A) toggles, and none of them is a key of its own; nor is letting go of anything.
   */
  lemma ModifierKeys(k: Keys, code: byte)
    requires !k.extended && code != 0xE0
    ensures var (r, key) := Decode(k, code);
            && r.shift == (if code in {0x2A, 0x36} then true else if code in {0xAA, 0xB6} then false else k.shift)
            && r.ctrl == (if code == 0x1D then true else if code == 0x9D then false else k.ctrl)
            && r.caps == (if code == 0x3A then !k.caps else k.caps)
            && !r.extended
            && (code >= 0x80 || code in {0x2A, 0x36, 0x1D, 0x3A} ==> key == None)
  {
  }

  /** A character key types a capital from the moment shift goes down until it comes up. */
  lemma ShiftHolds(k: Keys, code: byte)
    requires !k.extended && !k.ctrl && !k.caps && code < 0x80 && Lower(Mapped(false, code))
    ensures DecodeAll(k, [0x2A, code]) == (k.(shift := true), [Mapped(false, code) - 32])
    ensures DecodeAll(k, [0xAA, code]) == (k.(shift := false), [Mapped(false, code)])
  {
    hide Mapped, Decode;
    Two(k, 0x2A, code);
    Two(k, 0xAA, code);
    ShiftCodes(k);
    Letters(k.(shift := true), code);
    Letters(k.(shift := false), code);
    NoMore([Mapped(false, code)]);
    NoMore([Mapped(false, code) - 32]);
  }

  lemma ShiftCodes(k: Keys)
    requires !k.extended
    ensures Decode(k, 0x2A) == (k.(shift := true), None) && Decode(k, 0xAA) == (k.(shift := false), None)
  {
  }

  /** The rows of letters, from their first scancodes on: "qwertyuiop", "asdfghjkl", "zxcvbnm"; and "1234567890". */
  lemma Rows()
    ensures seq(10, i requires 0 <= i < 10 => Mapped(false, 16 + i)) ==
            [113, 119, 101, 114, 116, 121, 117, 105, 111, 112]
    ensures seq(9, i requires 0 <= i < 9 => Mapped(false, 30 + i)) == [97, 115, 100, 102, 103, 104, 106, 107, 108]
    ensures seq(7, i requires 0 <= i < 7 => Mapped(false, 44 + i)) == [122, 120, 99, 118, 98, 110, 109]
    ensures seq(10, i requires 0 <= i < 10 => Mapped(false, 2 + i)) == [49, 50, 51, 52, 53, 54, 55, 56, 57, 48]
    ensures Mapped(false, 28) == 10 && Mapped(false, 14) == 8 && Mapped(false, 57) == 32 && Mapped(false, 15) == 9
  {
  }

  /** Ctrl with a letter gives its place in the alphabet: Ctrl-C 3, Ctrl-L 12, Ctrl-U 21. */
  lemma ControlLetters(k: Keys)
    requires k.ctrl && !k.extended
    ensures Decode(k, 46).1 == Some(3) && Decode(k, 38).1 == Some(12) && Decode(k, 22).1 == Some(21)
  {
  }
}
