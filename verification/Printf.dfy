/**
 The formatter (lib/printf.c) and the number parser of the shell: a format string is a sequence of
 items, each renders to text, and a bounded buffer gets as much of the text as fits.
 */
module PrintfSpec {
  import opened Bytes
  import opened Words

  const PERCENT: byte := 37
  const SPACE: byte := 32
  const MINUS: byte := 45
  const ZERO: byte := 48
  const SIGN: nat := 0x8000_0000

  /** What a variadic call passes: a 32-bit word or a string, which may be NULL. */
  datatype Arg = Word(v: nat) | Text(s: Option<Str>)

  /** `Cut` is a directive that the end of the string interrupts after its flags. */
  datatype Item = Plain(c: byte) | Directive(left: bool, zero: bool, width: nat, conv: byte) | Cut

  // ----- numbers

  function Digit(d: nat, upper: bool): byte
    requires d < 16
  { if d < 10 then 48 + d else if upper then 55 + d else 87 + d }

  /** The two bases the formatter uses. */
  predicate Radix(base: nat) { base == 10 || base == 16 }

  function Quot(v: nat, base: nat): nat { if base == 10 then v / 10 else v / 16 }

  function Rem(v: nat, base: nat): (r: nat)
    ensures r < 16
  { if base == 10 then v % 10 else v % 16 }

  /** Positional notation, most significant digit first. */
  function Digits(v: nat, base: nat, upper: bool): (s: Str)
    requires Radix(base)
    ensures s != []
    decreases v
  {
    if v < base then [Digit(v, upper)] else Digits(Quot(v, base), base, upper) + [Digit(Rem(v, base), upper)]
  }

  predicate IsDigit(c: byte) { 48 <= c <= 57 }

  /** What digits in front of the string spell, on top of what was read before: `parse_int`. */
  function ParseFrom(value: nat, s: Str): nat
    decreases |s|
  {
    if s == [] || !IsDigit(s[0]) then value else ParseFrom(value * 10 + (s[0] - 48), s[1..])
  }

  /** How many digits the string starts with. */
  function DigitRun(s: Str): (n: nat)
    ensures n <= |s| && (n < |s| ==> !IsDigit(s[n])) && forall i | 0 <= i < n :: IsDigit(s[i])
  { if s == [] || !IsDigit(s[0]) then 0 else 1 + DigitRun(s[1..]) }

  lemma {:induction false} ParseConcat(value: nat, a: Str, b: Str)
    requires forall i | 0 <= i < |a| :: IsDigit(a[i])
    ensures ParseFrom(value, a + b) == ParseFrom(ParseFrom(value, a), b)
    decreases |a|
  {
    if a == [] {
      assert a + b == b;
    } else {
      assert (a + b)[1..] == a[1..] + b;
      ParseConcat(value * 10 + (a[0] - 48), a[1..], b);
    }
  }

  lemma {:induction false} DecimalDigits(v: nat)
    ensures forall i | 0 <= i < |Digits(v, 10, false)| :: IsDigit(Digits(v, 10, false)[i])
    decreases v
  {
    if v >= 10 {
      DecimalDigits(v / 10);
    }
  }

  /** Parsing undoes printing: whatever follows the number, as long as it is no digit. */
  lemma {:induction false} ParsePrinted(v: nat, rest: Str)
    requires rest == [] || !IsDigit(rest[0])
    ensures ParseFrom(0, Digits(v, 10, false) + rest) == v
    decreases v
  {
    DecimalDigits(v);
    var s := Digits(v, 10, false);
    ParseConcat(0, s, rest);
    assert ParseFrom(0, s) == v by {
      if v < 10 {
        assert s[1..] == [];
        assert ParseFrom(0 * 10 + (s[0] - 48), []) == v;
      } else {
        var last: Str := [Digit(v % 10, false)];
        DecimalDigits(v / 10);
        ParsePrinted(v / 10, []);
        assert Digits(v / 10, 10, false) + [] == Digits(v / 10, 10, false);
        ParseConcat(0, Digits(v / 10, 10, false), last);
        assert last[1..] == [];
        assert ParseFrom(v / 10 * 10 + (last[0] - 48), []) == v;
      }
    }
  }

  /** No leading zero, so different numbers never print alike and zero prints as one digit. */
  lemma {:induction false} NoLeadingZero(v: nat, base: nat, upper: bool)
    requires Radix(base)
    ensures Digits(v, base, upper)[0] == ZERO <==> v == 0
    ensures v == 0 ==> Digits(v, base, upper) == [ZERO]
    decreases v
  {
    if v >= base {
      NoLeadingZero(Quot(v, base), base, upper);
    }
  }

  lemma DigitInjective(a: nat, b: nat, upper: bool)
    requires a < 16 && b < 16 && Digit(a, upper) == Digit(b, upper)
    ensures a == b
  {
  }

  lemma {:induction false} DigitsInjective(v: nat, w: nat, base: nat, upper: bool)
    requires Radix(base) && Digits(v, base, upper) == Digits(w, base, upper)
    ensures v == w
    decreases v
  {
    var a, b := Digits(v, base, upper), Digits(w, base, upper);
    assert a[|a| - 1] == Digit(Rem(v, base), upper) && b[|b| - 1] == Digit(Rem(w, base), upper);
    DigitInjective(Rem(v, base), Rem(w, base), upper);
    if v >= base && w >= base {
      assert a[..|a| - 1] == Digits(Quot(v, base), base, upper) && b[..|b| - 1] == Digits(Quot(w, base), base, upper);
      DigitsInjective(Quot(v, base), Quot(w, base), base, upper);
    }
  }

  /** The scratch buffers of 36 bytes are large enough for every 32-bit number. */
  lemma {:induction false} DigitsShort(v: nat, base: nat, upper: bool, bits: nat)
    requires Radix(base) && v < Pow2(bits)
    ensures |Digits(v, base, upper)| <= if bits == 0 then 1 else bits
    decreases v
  {
    if v >= base {
      assert bits > 0;
      DigitsShort(Quot(v, base), base, upper, bits - 1);
    }
  }

  // ----- items

  function Items(fmt: Str): seq<Item>
    decreases |fmt|
  {
    if fmt == [] then []
    else if fmt[0] != PERCENT then [Plain(fmt[0])] + Items(fmt[1..])
    else if |fmt| == 1 then []
    else
      var e := DirectiveEnd(fmt);
      if e == |fmt| then [Cut]
      else [Directive(fmt[1] == MINUS, Zeroed(fmt), ParseFrom(0, fmt[FlagsEnd(fmt)..]), fmt[e])] + Items(fmt[e + 1..])
  }

  /** Whether a '0' follows the percent sign and the optional '-'. */
  predicate Zeroed(fmt: Str)
    requires |fmt| > 1
  {
    var a := if fmt[1] == MINUS then 2 else 1;
    a < |fmt| && fmt[a] == ZERO
  }

  /** Where the width of the directive at the front starts. */
  function FlagsEnd(fmt: Str): (b: nat)
    requires |fmt| > 1
    ensures 1 <= b <= |fmt|
  { (if fmt[1] == MINUS then 2 else 1) + (if Zeroed(fmt) then 1 else 0) }

  /** Where its conversion character stands. */
  function DirectiveEnd(fmt: Str): (e: nat)
    requires |fmt| > 1
    ensures 1 <= e <= |fmt|
  { FlagsEnd(fmt) + DigitRun(fmt[FlagsEnd(fmt)..]) }

  predicate Takes(conv: byte) { conv in {99, 115, 100, 105, 117, 120, 88, 112} }      // c s d i u x X p

  /** The arguments are there, of the kinds the directives ask for, and no directive is cut short. */
  predicate Fed(items: seq<Item>, args: seq<Arg>) {
    items == [] ||
    match items[0]
    case Plain(_) => Fed(items[1..], args)
    case Cut => false
    case Directive(_, _, _, conv) =>
      if Takes(conv) then args != [] && (if conv == 115 then args[0].Text? else args[0].Word? && args[0].v < WORD)
          && Fed(items[1..], args[1..])
      else Fed(items[1..], args)
  }

  function Fill(n: int, c: byte): Str { seq(if n > 0 then n else 0, _ => c) }

  /** `emit_padded`: never cuts, so a field is as wide as asked or as wide as its text. */
  function Pad(text: Str, width: nat, pad: byte, left: bool): (r: Str)
    ensures |r| == if |text| > width then |text| else width
  {
    if left then text + Fill(width - |text|, SPACE) else Fill(width - |text|, pad) + text
  }

  const NULL_TEXT: Str := [40, 110, 117, 108, 108, 41]           // "(null)"

  function RenderOne(d: Item, arg: Arg): Str
    requires d.Directive? && Takes(d.conv) && (if d.conv == 115 then arg.Text? else arg.Word? && arg.v < WORD)
  {
    var pad := if d.zero then ZERO else SPACE;
    if d.conv == 99 then [arg.v % 256]
    else if d.conv == 115 then Pad(if arg.s.Some? then arg.s.value else NULL_TEXT, d.width, SPACE, d.left)
    else if d.conv == 100 || d.conv == 105 then
      if arg.v >= SIGN then [MINUS] + Pad(Digits(WORD - arg.v, 10, false), d.width, pad, d.left)
      else Pad(Digits(arg.v, 10, false), d.width, pad, d.left)
    else if d.conv == 117 then Pad(Digits(arg.v, 10, false), d.width, pad, d.left)
    else if d.conv == 112 then [ZERO, 120] + Pad(Digits(arg.v, 16, false), 8, ZERO, false)
    else Pad(Digits(arg.v, 16, d.conv == 88), d.width, pad, d.left)
  }

  /** The whole text of a format string with its arguments, however long. */
  function Render(items: seq<Item>, args: seq<Arg>): Str
    requires Fed(items, args)
  {
    if items == [] then []
    else
      match items[0]
      case Plain(c) => [c] + Render(items[1..], args)
      case Directive(_, _, _, conv) =>
        if Takes(conv) then RenderOne(items[0], args[0]) + Render(items[1..], args[1..])
        else (if conv == PERCENT then [PERCENT] else [PERCENT, conv]) + Render(items[1..], args)
  }

  /** A string without a percent sign is its own text. */
  lemma {:induction false} PlainIsItself(fmt: Str, args: seq<Arg>)
    requires PERCENT !in fmt
    ensures Fed(Items(fmt), args) && Render(Items(fmt), args) == fmt
    decreases |fmt|
  {
    if fmt != [] {
      PlainIsItself(fmt[1..], args);
      assert Items(fmt)[1..] == Items(fmt[1..]);
    }
  }

  /** Literal text in front of anything renders to itself in front of what that renders to. */
  lemma {:induction false} RenderPlain(plain: Str, rest: Str, args: seq<Arg>)
    requires PERCENT !in plain && Fed(Items(rest), args)
    ensures Fed(Items(plain + rest), args) && Render(Items(plain + rest), args) == plain + Render(Items(rest), args)
    decreases |plain|
  {
    hide Items, Fed, Render;
    if plain == [] {
      assert plain + rest == rest;
    } else {
      assert (plain + rest)[1..] == plain[1..] + rest;
      RenderPlain(plain[1..], rest, args);
      PlainItem(plain + rest);
      PlainFirst(plain[0], Items(plain[1..] + rest), args);
      assert plain == [plain[0]] + plain[1..];
    }
  }

  lemma PlainFirst(c: byte, items: seq<Item>, args: seq<Arg>)
    requires Fed(items, args)
    ensures Fed([Plain(c)] + items, args) && Render([Plain(c)] + items, args) == [c] + Render(items, args)
  {
    assert ([Plain(c)] + items)[1..] == items;
  }

  lemma PlainItem(fmt: Str)
    requires fmt != [] && fmt[0] != PERCENT
    ensures Items(fmt) == [Plain(fmt[0])] + Items(fmt[1..])
  {
  }

  lemma BareDirective(conv: byte, rest: Str)
    requires Takes(conv)
    ensures var fmt := [PERCENT, conv] + rest; Items(fmt) == [Directive(false, false, 0, conv)] + Items(rest)
  {
    var fmt := [PERCENT, conv] + rest;
    assert fmt[1..][0] == conv && fmt[2..] == rest;
  }

  /** "%s" and "%u" without flags put the string, or the number in decimal. */
  lemma RenderField(conv: byte, arg: Arg, rest: Str, args: seq<Arg>)
    requires (conv == 115 && arg.Text? && arg.s.Some?) || (conv == 117 && arg.Word? && arg.v < WORD)
    requires Fed(Items(rest), args)
    ensures Fed(Items([PERCENT, conv] + rest), [arg] + args)
    ensures Render(Items([PERCENT, conv] + rest), [arg] + args) ==
              (if conv == 115 then arg.s.value else Digits(arg.v, 10, false)) + Render(Items(rest), args)
  {
    hide Digits, Items;
    BareDirective(conv, rest);
    var d := Directive(false, false, 0, conv);
    assert ([d] + Items(rest))[1..] == Items(rest) && ([arg] + args)[1..] == args;
    var text := if conv == 115 then arg.s.value else Digits(arg.v, 10, false);
    assert [] + text == text;
    assert RenderOne(d, arg) == text;
  }

  /** "%d" of a signed word is its sign and its absolute value. */
  lemma SignedField(v: int, width: nat)
    requires v < SIGN && -v < SIGN
    ensures var word := if v < 0 then WORD + v else v;
            RenderOne(Directive(false, false, width, 100), Word(word)) ==
              (if v < 0 then [MINUS] else []) + Pad(Digits(if v < 0 then -v else v, 10, false), width, SPACE, false)
  {
    var text := Pad(Digits(if v < 0 then -v else v, 10, false), width, SPACE, false);
    assert [] + text == text;
  }
}

/** The formatter as the kernel runs it, into a bounded buffer. */
module Printf {
  import opened Bytes
  import opened PrintfSpec
  import opened Words

  /** `sink_t` over a buffer; `text` is all it was given, `before` what the buffer held. */
  class Sink {
    const buf: array<byte>
    const size: nat
    var pos: nat
    ghost var text: Str
    ghost const before: seq<byte>

    ghost predicate Valid()
      reads this, buf
    {
      && size <= buf.Length == |before| && pos == |text|
      && (forall i | 0 <= i < buf.Length :: buf[i] == if i < pos && i + 1 < size then text[i] else before[i])
    }

    constructor (buf: array<byte>, size: nat)
      requires size <= buf.Length
      ensures Valid() && text == [] && this.buf == buf && this.size == size && before == buf[..]
    {
      this.buf, this.size, pos, text := buf, size, 0, [];
      before := buf[..];
    }

    /** `sink_putc`. */
    method PutChar(c: byte)
      requires Valid()
      modifies this, buf
      ensures Valid() && text == old(text) + [c]
    {
      if pos + 1 < size {
        buf[pos] := c;
      }
      pos := pos + 1;
      text := text + [c];
    }

    /** `sink_puts`. */
    method PutText(s: Str)
      requires Valid()
      modifies this, buf
      ensures Valid() && text == old(text) + s
    {
      var i := 0;
      while i < |s|
        invariant i <= |s| && Valid() && text == old(text) + s[..i]
      {
        PutChar(s[i]);
        i := i + 1;
      }
    }

    /** The padding loops of `emit_padded`. */
    method PutFill(n: int, c: byte)
      requires Valid()
      modifies this, buf
      ensures Valid() && text == old(text) + Fill(n, c)
    {
      var i := 0;
      while i < n
        invariant 0 <= i && (i <= n || i == 0) && Valid() && text == old(text) + Fill(i, c)
      {
        PutChar(c);
        i := i + 1;
      }
    }

    /** `emit_padded`. */
    method EmitPadded(s: Str, width: nat, pad: byte, left: bool)
      requires Valid()
      modifies this, buf
      ensures Valid() && text == old(text) + Pad(s, width, pad, left)
    {
      hide Valid;
      ghost var was := text;
      if left {
        PutText(s);
        PutFill(width - |s|, SPACE);
      } else {
        PutFill(width - |s|, pad);
        PutText(s);
      }
      assert was + s + Fill(width - |s|, SPACE) == was + (s + Fill(width - |s|, SPACE));
      assert was + Fill(width - |s|, pad) + s == was + (Fill(width - |s|, pad) + s);
    }

    /** A directive that takes an argument. */
    method EmitArgument(d: Item, arg: Arg)
      requires Valid() && d.Directive? && Takes(d.conv)
               && (if d.conv == 115 then arg.Text? else arg.Word? && arg.v < WORD)
      modifies this, buf
      ensures Valid() && text == old(text) + RenderOne(d, arg)
    {
      hide Valid, Pad, Digits;
      ghost var was := text;
      var pad := if d.zero then ZERO else SPACE;
      if d.conv == 99 {
        PutChar(arg.v % 256);
      } else if d.conv == 115 {
        EmitPadded(if arg.s.Some? then arg.s.value else NULL_TEXT, d.width, SPACE, d.left);
      } else if d.conv == 100 || d.conv == 105 {
        if arg.v >= SIGN {
          PutChar(MINUS);
          var digits := FormatUint(WORD - arg.v, 10, false);
          EmitPadded(digits, d.width, pad, d.left);
        } else {
          var digits := FormatUint(arg.v, 10, false);
          EmitPadded(digits, d.width, pad, d.left);
        }
      } else if d.conv == 117 {
        var digits := FormatUint(arg.v, 10, false);
        EmitPadded(digits, d.width, pad, d.left);
      } else if d.conv == 112 {
        PutText([ZERO, 120]);
        var digits := FormatUint(arg.v, 16, false);
        EmitPadded(digits, 8, ZERO, false);
      } else {
        var digits := FormatUint(arg.v, 16, d.conv == 88);
        EmitPadded(digits, d.width, pad, d.left);
      }
    }

    /** `format`: one pass over the format string, taking arguments as it goes. */
    method Format(fmt: Str, args: seq<Arg>)
      requires Valid() && Fed(Items(fmt), args)
      modifies this, buf
      ensures Valid() && text == old(text) + Render(Items(fmt), args)
    {
      hide Valid, RenderOne, ParseFrom, Items, Fed, Render, DigitRun, Takes;
      ghost var was := text;
      var p, a := 0, 0;
      assert fmt[0..] == fmt && args[0..] == args;
      while p < |fmt|
        invariant p <= |fmt| && a <= |args| && Valid() && Fed(Items(fmt[p..]), args[a..])
        invariant was + Render(Items(fmt), args) == text + Render(Items(fmt[p..]), args[a..])
      {
        ghost var rest := fmt[p..];
        if fmt[p] != PERCENT {
          PlainStep(rest, args[a..]);
          Slide(text, [fmt[p]], Render(Items(rest[1..]), args[a..]));
          PutChar(fmt[p]);
          p := p + 1;
          assert rest[1..] == fmt[p..];
        } else {
          p := p + 1;
          if p == |fmt| {
            LastPercent(rest, args[a..]);
            break;
          }
          var left, pad, width := false, SPACE, 0;
          if fmt[p] == MINUS {
            left := true;
            p := p + 1;
          }
          if p < |fmt| && fmt[p] == ZERO {
            pad := ZERO;
            p := p + 1;
          }
          var b := p;
          var n;
          width, n := ReadWidth(fmt[b..]);
          p := p + n;
          ghost var item := Directive(left, pad == ZERO, width, if p < |fmt| then fmt[p] else 0);
          DirectiveStep(fmt, |fmt| - |rest|, left, pad == ZERO, b, p, args[a..]);
          if Takes(fmt[p]) {
            Slide(text, RenderOne(item, args[a]), Render(Items(fmt[p + 1..]), args[a..][1..]));
            EmitArgument(Directive(left, pad == ZERO, width, fmt[p]), args[a]);
            a := a + 1;
            assert args[a - 1..][1..] == args[a..];
          } else {
            Slide(text, if fmt[p] == PERCENT then [PERCENT]
                else [PERCENT, fmt[p]], Render(Items(fmt[p + 1..]), args[a..]));
            PutChar(PERCENT);
            if fmt[p] != PERCENT {
              PutChar(fmt[p]);
            }
          }
          p := p + 1;
        }
      }
      NothingLeft(fmt, args[a..]);
      assert text + [] == text;
    }
  }

  lemma Slide(text: Str, one: Str, rest: Str)
    ensures text + (one + rest) == (text + one) + rest
    ensures |one| == 2 ==> text + one == text + [one[0]] + [one[1]]
  {
  }

  /** A percent sign at the very end renders to nothing. */
  lemma LastPercent(rest: Str, args: seq<Arg>)
    requires rest == [PERCENT]
    ensures Fed(Items(rest), args) && Render(Items(rest), args) == []
  {
  }

  lemma NothingLeft(fmt: Str, args: seq<Arg>)
    ensures fmt[|fmt|..] == [] && Fed(Items([]), args) && Render(Items([]), args) == []
  {
  }

  lemma PlainStep(rest: Str, args: seq<Arg>)
    requires rest != [] && rest[0] != PERCENT && Fed(Items(rest), args)
    ensures Fed(Items(rest[1..]), args) && Render(Items(rest), args) == [rest[0]] + Render(Items(rest[1..]), args)
  {
    assert Items(rest)[1..] == Items(rest[1..]);
  }

  /** The directive between `start` and `end`, whose digits begin at `b`. */
  lemma DirectiveStep(fmt: Str, start: nat, left: bool, zero: bool, b: nat, end: nat, args: seq<Arg>)
    requires start + 1 < |fmt| && fmt[start] == PERCENT && Fed(Items(fmt[start..]), args)
    requires left <==> fmt[start + 1] == MINUS
    requires var a := start + (if left then 2 else 1);
             b == (if zero then a + 1 else a) && (zero <==> a < |fmt| && fmt[a] == ZERO)
    requires b <= |fmt| && end == b + DigitRun(fmt[b..])
    ensures end < |fmt|
    ensures var d := Directive(left, zero, ParseFrom(0, fmt[b..]), fmt[end]);
            if Takes(fmt[end]) then
              && args != [] && (if d.conv == 115 then args[0].Text? else args[0].Word? && args[0].v < WORD)
              && Fed(Items(fmt[end + 1..]), args[1..])
              && Render(Items(fmt[start..]), args) == RenderOne(d, args[0]) + Render(Items(fmt[end + 1..]), args[1..])
            else
              && Fed(Items(fmt[end + 1..]), args)
              && Render(Items(fmt[start..]), args) ==
                 (if fmt[end] == PERCENT then [PERCENT] else [PERCENT, fmt[end]]) + Render(Items(fmt[end + 1..]), args)
  {
    hide RenderOne, ParseFrom, Items, DigitRun, Takes;
    DirectiveItems(fmt, start, left, zero, b, end);
    if end < |fmt| {
      var d := Directive(left, zero, ParseFrom(0, fmt[b..]), fmt[end]);
      assert ([d] + Items(fmt[end + 1..]))[1..] == Items(fmt[end + 1..]);
    }
  }

  lemma DirectiveItems(fmt: Str, start: nat, left: bool, zero: bool, b: nat, end: nat)
    requires start + 1 < |fmt| && fmt[start] == PERCENT
    requires left <==> fmt[start + 1] == MINUS
    requires var a := start + (if left then 2 else 1);
             b == (if zero then a + 1 else a) && (zero <==> a < |fmt| && fmt[a] == ZERO)
    requires b <= |fmt| && end == b + DigitRun(fmt[b..])
    ensures end <= |fmt|
    ensures Items(fmt[start..]) ==
              if end == |fmt| then [Cut]
              else [Directive(left, zero, ParseFrom(0, fmt[b..]), fmt[end])] + Items(fmt[end + 1..])
  {
    hide ParseFrom, DigitRun, Items;
    var rest := fmt[start..];
    assert rest[b - start..] == fmt[b..];
    ItemsHere(rest);
    assert end < |fmt| ==> rest[end - start + 1..] == fmt[end + 1..] && rest[end - start] == fmt[end];
  }

  lemma ItemsHere(rest: Str)
    requires |rest| > 1 && rest[0] == PERCENT
    ensures var e := DirectiveEnd(rest);
            Items(rest) == if e == |rest| then [Cut]
                           else [Directive(rest[1] == MINUS, Zeroed(rest), ParseFrom(0, rest[FlagsEnd(rest)..]),
                                rest[e])] + Items(rest[e + 1..])
  {
    hide ParseFrom, DigitRun, DirectiveEnd, FlagsEnd, Zeroed;
  }

  /** The width loop of `format`. */
  method ReadWidth(s: Str) returns (width: nat, n: nat)
    ensures n == DigitRun(s) && width == ParseFrom(0, s)
  {
    width, n := 0, 0;
    assert s[0..] == s;
    while n < |s| && IsDigit(s[n])
      invariant n <= |s| && DigitRun(s) == n + DigitRun(s[n..])
      invariant ParseFrom(0, s) == ParseFrom(width, s[n..])
    {
      width := width * 10 + (s[n] - 48);
      assert s[n..][1..] == s[n + 1..];
      n := n + 1;
    }
  }

  /** `parse_int`. */
  method ParseInt(s: Str) returns (value: nat)
    ensures value == ParseFrom(0, s)
  {
    var n;
    value, n := ReadWidth(s);
  }

  /** `format_uint`: digits come out backwards and are turned round. */
  method FormatUint(value: nat, base: nat, upper: bool) returns (out: Str)
    requires value < WORD && Radix(base)
    ensures out == Digits(value, base, upper)
  {
    hide Digits, Quot, Rem, Digit;
    var tmp := new byte[36];
    var i, v: nat := 0, value;
    WordDigits(value, base, upper);
    ghost var all := Digits(value, base, upper);
    if v == 0 {
      tmp[0] := ZERO;
      i := 1;
    }
    while v != 0
      invariant v >= 0 && i <= |all| && (v != 0 ==> Digits(v, base, upper) == all[..|all| - i])
                && (v == 0 ==> i == |all|)
      invariant forall k | 0 <= k < i :: tmp[k] == all[|all| - 1 - k]
      decreases v
    {
      Peel(all, i, v, base, upper);
      tmp[i] := Digit(Rem(v, base), upper);
      v := Quot(v, base);
      i := i + 1;
    }
    out := [];
    while i > 0
      invariant i + |out| == |all| && out == all[..|out|]
    {
      i := i - 1;
      out := out + [tmp[i]];
    }
  }

  lemma WordDigits(v: nat, base: nat, upper: bool)
    requires v < WORD && Radix(base)
    ensures |Digits(v, base, upper)| <= 32 && (v == 0 ==> Digits(v, base, upper) == [ZERO])
  {
    hide Digits, Pow2;
    WordIsPow2();
    DigitsShort(v, base, upper, 32);
    NoLeadingZero(v, base, upper);
  }

  /** The last digit not yet taken, and what is left in front of it. */
  lemma Peel(all: Str, i: nat, v: nat, base: nat, upper: bool)
    requires Radix(base) && v != 0 && i <= |all| && Digits(v, base, upper) == all[..|all| - i]
    ensures i < |all| && all[|all| - 1 - i] == Digit(Rem(v, base), upper)
    ensures Quot(v, base) < v
    ensures if Quot(v, base) != 0 then Digits(Quot(v, base), base, upper) == all[..|all| - i - 1] else i + 1 == |all|
  {
    var front := Digits(v, base, upper);
    assert front[|front| - 1] == Digit(Rem(v, base), upper);
    assert v >= base ==> Digits(Quot(v, base), base, upper) == front[..|front| - 1];
    assert front[..|front| - 1] == all[..|all| - i - 1];
  }

  /**
   `kvsnprintf`: the buffer gets the longest beginning of the text that leaves room for the
   terminator, the terminator behind it, and nothing else in it changes.
   */
  method Snprintf(buf: array<byte>, size: nat, fmt: Str, args: seq<Arg>)
    requires size <= buf.Length && Fed(Items(fmt), args)
    modifies buf
    ensures size == 0 ==> buf[..] == old(buf[..])
    ensures var text := Render(Items(fmt), args);
            size > 0 ==>
              var k := Min(|text|, size - 1);
              && buf[..k] == text[..k] && buf[k] == 0
              && forall i | k < i < buf.Length :: buf[i] == old(buf[i])
  {
    hide Render, Items, Fed;
    var sink := new Sink(buf, size);
    sink.Format(fmt, args);
    ghost var text := Render(Items(fmt), args);
    assert [] + text == text;
    if size > 0 {
      buf[if sink.pos < size then sink.pos else size - 1] := 0;
    }
  }
}
