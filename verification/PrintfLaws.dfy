/** What the directives of the formatter print, said by the value of the text. */
module PrintfLaws {
  import opened Bytes
  import opened Words
  import opened PrintfSpec

  /** What a digit is worth, in lower or upper case. */
  function Worth(c: byte): Option<nat> {
    if 48 <= c <= 57 then Some(c - 48)
    else if 97 <= c <= 102 then Some(c - 87)
    else if 65 <= c <= 70 then Some(c - 55)
    else None
  }

  /** The text is a number in this base, without a zero in front, and this is its value. */
  predicate Spells(text: Str, base: nat, upper: bool, v: nat)
    requires base > 0
    decreases |text|
  {
    && text != [] && (|text| > 1 ==> text[0] != 48)
    && var last := text[|text| - 1];
       && Worth(last).Some? && Worth(last).value < base && (upper ==> last <= 70) && (!upper ==> !(65 <= last <= 70))
       && if |text| == 1 then v == Worth(last).value
          else v >= base && v % base == Worth(last).value && Spells(text[..|text| - 1], base, upper, v / base)
  }

  lemma {:induction false} DigitsSpell(v: nat, base: nat, upper: bool)
    requires Radix(base)
    ensures Spells(Digits(v, base, upper), base, upper, v)
    decreases v
  {
    NoLeadingZero(v, base, upper);
    if v >= base {
      var front := Digits(Quot(v, base), base, upper);
      DigitsSpell(Quot(v, base), base, upper);
      NoLeadingZero(Quot(v, base), base, upper);
      assert Digits(v, base, upper)[..|front|] == front;
    }
  }

  /** The text in a field: spaces behind it if it goes to the left, else `pad` in front of it. */
  ghost predicate InField(field: Str, text: Str, width: nat, pad: byte, left: bool) {
    && |field| == (if |text| > width then |text| else width)
    && if left then text <= field && forall i | |text| <= i < |field| :: field[i] == 32
       else field[|field| - |text|..] == text && forall i | 0 <= i < |field| - |text| :: field[i] == pad
  }

  lemma PadsIn(text: Str, width: nat, pad: byte, left: bool)
    ensures |Pad(text, width, pad, left)| >= |text| && InField(Pad(text, width, pad, left), text, width, pad, left)
  {
  }

  /** "%u", "%x", "%X": the number in its base and case, in a field of the width asked for. */
  lemma NumberSays(d: Item, v: nat) returns (text: Str)
    requires d.Directive? && d.conv in {117, 120, 88} && v < WORD
    ensures Spells(text, if d.conv == 117 then 10 else 16, d.conv == 88, v)
    ensures InField(RenderOne(d, Word(v)), text, d.width, if d.zero then 48 else 32, d.left)
  {
    hide Spells, InField, Pad, Digits;
    var base := if d.conv == 117 then 10 else 16;
    text := Digits(v, base, d.conv == 88);
    DigitsSpell(v, base, d.conv == 88);
    PadsIn(text, d.width, if d.zero then 48 else 32, d.left);
  }

  /** "%d" and "%i": a minus sign if need be, and the absolute value in its field. */
  lemma SignedSays(d: Item, v: int) returns (text: Str, field: Str)
    requires d.Directive? && d.conv in {100, 105} && -0x8000_0000 < v < 0x8000_0000
    ensures Spells(text, 10, false, if v < 0 then -v else v)
    ensures InField(field, text, d.width, if d.zero then 48 else 32, d.left)
    ensures RenderOne(d, Word(if v < 0 then 0x1_0000_0000 + v else v)) == (if v < 0 then [45] else []) + field
  {
    hide Spells, InField, Pad, Digits;
    text := Digits(if v < 0 then -v else v, 10, false);
    DigitsSpell(if v < 0 then -v else v, 10, false);
    field := Pad(text, d.width, if d.zero then 48 else 32, d.left);
    PadsIn(text, d.width, if d.zero then 48 else 32, d.left);
    assert [] + field == field;
  }

  /** "%p": "0x" and eight digits. */
  lemma PointerSays(d: Item, v: nat) returns (text: Str, field: Str)
    requires d.Directive? && d.conv == 112 && v < WORD
    ensures Spells(text, 16, false, v) && |text| <= 32 && InField(field, text, 8, 48, false)
    ensures RenderOne(d, Word(v)) == [48, 120] + field
  {
    hide Spells, InField, Pad, Digits, Pow2;
    text := Digits(v, 16, false);
    DigitsSpell(v, 16, false);
    WordIsPow2();
    DigitsShort(v, 16, false, 32);
    field := Pad(text, 8, 48, false);
    PadsIn(text, 8, 48, false);
  }

  /** "%s": the string, or "(null)", in its field, padded with spaces even if a zero is asked for; "%c": one byte. */
  lemma TextSays(d: Item, s: Option<Str>, v: nat)
    requires d.Directive? && v < WORD
    ensures d.conv == 115 ==>
              InField(RenderOne(d, Text(s)), if s.Some? then s.value
                  else [40, 110, 117, 108, 108, 41], d.width, 32, d.left)
    ensures d.conv == 99 ==> RenderOne(d, Word(v)) == [v % 256]
  {
    PadsIn(if s.Some? then s.value else [40, 110, 117, 108, 108, 41], d.width, 32, d.left);
  }

  // ----- reading a directive

  function Width(width: nat): Str { if width == 0 then [] else Digits(width, 10, false) }

  /** A directive is read flag by flag: '-' for left, '0' for zeros, the width in decimal, the conversion. */
  lemma DirectiveRead(left: bool, zero: bool, width: nat, conv: byte, rest: Str)
    requires !IsDigit(conv) && (conv == 45 ==> left || zero || width > 0)
    ensures var fmt := [37] + ((if left then [45] else [])
            + ((if zero then [48] else []) + (Width(width) + ([conv] + rest))));
            Items(fmt) == [Directive(left, zero, width, conv)] + Items(rest)
  {
    hide Items, ParseFrom, Digits, DigitRun, Width, FlagsEnd, Zeroed;
    var tail := Width(width) + ([conv] + rest);
    var fmt := [37] + ((if left then [45] else []) + ((if zero then [48] else []) + tail));
    WidthFacts(width, [conv] + rest);
    FlagsRead(left, zero, tail);
    var f := FlagsEnd(fmt);
    Behind(fmt, f, Width(width), conv, rest);
    assert DirectiveEnd(fmt) == f + |Width(width)|;
    ItemsUnfold(fmt);
  }

  lemma Behind(fmt: Str, f: nat, width: Str, conv: byte, rest: Str)
    requires f <= |fmt| && fmt[f..] == width + ([conv] + rest)
    ensures f + |width| < |fmt| && fmt[f + |width|] == conv && fmt[f + |width| + 1..] == rest
  {
    var tail := fmt[f..];
    assert tail[|width|] == conv && tail[|width| + 1..] == rest;
    assert fmt[f + |width| + 1..] == tail[|width| + 1..];
  }

  lemma FlagsRead(left: bool, zero: bool, tail: Str)
    requires tail != [] && tail[0] != 48 && (tail[0] == 45 ==> left || zero)
    ensures var fmt := [37] + ((if left then [45] else []) + ((if zero then [48] else []) + tail));
            && |fmt| > 1 && (fmt[1] == MINUS <==> left) && Zeroed(fmt) == zero
            && FlagsEnd(fmt) < |fmt| && fmt[FlagsEnd(fmt)..] == tail
  {
    var fmt := [37] + ((if left then [45] else []) + ((if zero then [48] else []) + tail));
    var flags := (if left then [45] else []) + (if zero then [48] else []);
    assert fmt == [37] + flags + tail;
  }

  lemma WidthFacts(width: nat, rest: Str)
    requires rest != [] && !IsDigit(rest[0])
    ensures var tail := Width(width) + rest;
            && DigitRun(tail) == |Width(width)| && ParseFrom(0, tail) == width
            && (if width > 0 then IsDigit(tail[0]) && tail[0] != 48 else tail[0] == rest[0])
  {
    if width == 0 {
      assert [] + rest == rest;
    } else {
      NoLeadingZero(width, 10, false);
      ParsePrinted(width, rest);
      RunOfDigits(width, rest);
    }
  }

  lemma {:induction false} RunOf(digits: Str, rest: Str)
    requires (forall i | 0 <= i < |digits| :: IsDigit(digits[i])) && (rest != [] ==> !IsDigit(rest[0]))
    ensures DigitRun(digits + rest) == |digits|
    decreases |digits|
  {
    if digits == [] {
      assert digits + rest == rest;
    } else {
      assert (digits + rest)[1..] == digits[1..] + rest;
      RunOf(digits[1..], rest);
    }
  }

  lemma RunOfDigits(width: nat, rest: Str)
    requires rest != [] && !IsDigit(rest[0])
    ensures DigitRun(Digits(width, 10, false) + rest) == |Digits(width, 10, false)|
  {
    DecimalDigits(width);
    RunOf(Digits(width, 10, false), rest);
  }

  lemma ItemsUnfold(fmt: Str)
    requires |fmt| > 1 && fmt[0] == PERCENT && DirectiveEnd(fmt) < |fmt|
    ensures var e := DirectiveEnd(fmt);
            Items(fmt) == [Directive(fmt[1] == MINUS, Zeroed(fmt), ParseFrom(0, fmt[FlagsEnd(fmt)..]), fmt[e])]
                + Items(fmt[e + 1..])
  {
  }

  /** Any other conversion prints as it stands, and "%%" prints one percent sign; neither takes an argument. */
  lemma OthersPrint(conv: byte, rest: Str, args: seq<Arg>)
    requires !Takes(conv) && !IsDigit(conv) && conv != 45 && Fed(Items(rest), args)
    ensures Fed(Items([37, conv] + rest), args)
    ensures Render(Items([37, conv] + rest), args) ==
            (if conv == 37 then [37] else [37, conv]) + Render(Items(rest), args)
  {
    hide Items;
    DirectiveRead(false, false, 0, conv, rest);
    assert [37] + ([] + ([] + (Width(0) + ([conv] + rest)))) == [37, conv] + rest;
    assert ([Directive(false, false, 0, conv)] + Items(rest))[1..] == Items(rest);
  }
}
