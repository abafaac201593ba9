/** Bytes, C strings without their NUL, and the little-endian integers of the snapshot format. */
module Bytes {

  type byte = x: int | 0 <= x < 256

  type Str = seq<byte>

  const SLASH: byte := 47
  const DOT: byte := 46

  datatype Option<T> = None | Some(value: T)

  function Min(a: nat, b: nat): nat { if a < b then a else b }

  /** A C string of at most `n` characters of `s`. */
  function Truncate(s: Str, n: nat): (r: Str)
    ensures |r| == Min(|s|, n)
  { s[..Min(|s|, n)] }

  /** No NUL inside, so the string is what its buffer holds up to the terminator. */
  predicate NulFree(s: Str) { forall i | 0 <= i < |s| :: s[i] != 0 }

  function Zeros(n: nat): (z: Str)
    ensures |z| == n
    ensures forall i | 0 <= i < n :: z[i] == 0
  { seq(n, _ => 0) }

  function U16(v: nat): (b: Str)
    ensures |b| == 2
  { [v % 256, v / 256 % 256] }

  function U32(v: nat): (b: Str)
    ensures |b| == 4
  { U16(v % 0x1_0000) + U16(v / 0x1_0000) }

  function ReadU16(b: Str): (v: nat)
    requires |b| == 2
    ensures v < 0x1_0000
  { var lo: nat, hi: nat := b[0], b[1]; lo + 256 * hi }

  function ReadU32(b: Str): (v: nat)
    requires |b| == 4
    ensures v < 0x1_0000_0000
  { ReadU16(b[..2]) + 65536 * ReadU16(b[2..]) }

  /** What was stored is read back exactly when it fits the width. */
  lemma IntegersRoundTrip(v: nat)
    ensures ReadU16(U16(v)) == v <==> v < 0x1_0000
    ensures ReadU32(U32(v)) == v <==> v < 0x1_0000_0000
  {
    U16Reads(v);
    U16Reads(v % 0x1_0000);
    U16Reads(v / 0x1_0000);
    assert U32(v)[..2] == U16(v % 0x1_0000) && U32(v)[2..] == U16(v / 0x1_0000);
  }

  lemma U16Reads(v: nat)
    ensures ReadU16(U16(v)) == v % 0x1_0000
  {
    TwoDigits(v, v / 256, v / 256 / 256);
  }

  lemma TwoDigits(v: nat, q: nat, p: nat)
    requires q == v / 256 && p == q / 256
    ensures v % 0x1_0000 == v % 256 + 256 * (q % 256)
  {
    var r := v % 256 + 256 * (q % 256);
    assert v == 256 * q + v % 256 && q == 256 * p + q % 256;
    assert v == 0x1_0000 * p + r && 0 <= r < 0x1_0000;
  }
}

/** The FNV-1a checksum that guards a snapshot (fs/persist.c). */
module Checksum {
  import opened Bytes
  import opened Words

  const OFFSET_BASIS: nat := 2166136261
  const PRIME: nat := 16777619
  const PRIME_INVERSE: nat := 899433627

  /** Bitwise exclusive or. */
  function Xor(a: nat, b: nat): nat
    decreases a + b
  {
    if a == 0 && b == 0 then 0 else 2 * Xor(a / 2, b / 2) + (a % 2 + b % 2) % 2
  }

  function FnvStep(hash: nat, b: byte): (h: nat)
    ensures h < WORD
  { Xor(hash, b) * PRIME % WORD }

  /** The hash after feeding `data` into `hash`. */
  function FnvFrom(hash: nat, data: Str): nat
    decreases |data|
  {
    if data == [] then hash else FnvFrom(FnvStep(hash, data[0]), data[1..])
  }

  function Fnv(data: Str): nat { FnvFrom(OFFSET_BASIS, data) }

  lemma {:induction false} XorBound(a: nat, b: nat, k: nat)
    requires a < Pow2(k) && b < Pow2(k)
    ensures Xor(a, b) < Pow2(k)
    decreases k
  {
    if k > 0 {
      XorBound(a / 2, b / 2, k - 1);
    }
  }

  lemma XorHalves(a: nat, b: nat)
    ensures Xor(a, b) / 2 == Xor(a / 2, b / 2) && Xor(a, b) % 2 == (a % 2 + b % 2) % 2
  {
  }

  lemma {:induction false} XorInjective(a: nat, b: nat, c: nat, d: nat)
    requires Xor(a, b) == Xor(c, d) && (a == c || b == d)
    ensures a == c && b == d
    decreases a + b + c + d
  {
    hide Xor;
    XorHalves(a, b);
    XorHalves(c, d);
    if a != 0 || b != 0 || c != 0 || d != 0 {
      XorInjective(a / 2, b / 2, c / 2, d / 2);
    }
  }

  lemma PrimeInverse(x: nat)
    requires x < WORD
    ensures x * PRIME % WORD * PRIME_INVERSE % WORD == x
  {
    var q := x * PRIME / WORD;
    var k := PRIME * PRIME_INVERSE / WORD;
    assert PRIME * PRIME_INVERSE == k * WORD + 1;
    assert x * PRIME % WORD * PRIME_INVERSE == x + WORD * (k * x - q * PRIME_INVERSE);
    Remainder(x, k * x - q * PRIME_INVERSE);
  }

  lemma Remainder(x: nat, m: int)
    requires x < WORD && x + WORD * m >= 0
    ensures (x + WORD * m) % WORD == x
  {
  }

  /** A step loses nothing: it is injective in the hash, and injective in the byte. */
  lemma StepInjective(g: nat, b: byte, h: nat, c: byte)
    requires g < WORD && h < WORD && (g == h || b == c)
    requires FnvStep(g, b) == FnvStep(h, c)
    ensures g == h && b == c
  {
    WordIsPow2();
    XorBound(g, b, 32);
    XorBound(h, c, 32);
    PrimeInverse(Xor(g, b));
    PrimeInverse(Xor(h, c));
    XorInjective(g, b, h, c);
  }

  lemma {:induction false} FnvConcat(hash: nat, a: Str, b: Str)
    ensures FnvFrom(hash, a + b) == FnvFrom(FnvFrom(hash, a), b)
    decreases |a|
  {
    hide FnvStep;
    if a == [] {
      assert a + b == b;
    } else {
      assert (a + b)[1..] == a[1..] + b;
      FnvConcat(FnvStep(hash, a[0]), a[1..], b);
    }
  }

  lemma {:induction false} FnvBound(hash: nat, data: Str)
    requires hash < WORD
    ensures FnvFrom(hash, data) < WORD
    decreases |data|
  {
    hide FnvStep;
    if data != [] {
      FnvBound(FnvStep(hash, data[0]), data[1..]);
    }
  }

  /** Feeding the same bytes into two hashes keeps them apart. */
  lemma {:induction false} FnvFromInjective(g: nat, h: nat, data: Str)
    requires g < WORD && h < WORD
    ensures FnvFrom(g, data) == FnvFrom(h, data) <==> g == h
    decreases |data|
  {
    hide FnvStep;
    if data != [] {
      FnvFromInjective(FnvStep(g, data[0]), FnvStep(h, data[0]), data[1..]);
      if FnvStep(g, data[0]) == FnvStep(h, data[0]) {
        StepInjective(g, data[0], h, data[0]);
      }
    }
  }

  /** Any single corrupted byte changes the checksum. */
  lemma SingleByteDetected(before: Str, x: byte, y: byte, after: Str)
    ensures Fnv(before + [x] + after) == Fnv(before + [y] + after) <==> x == y
  {
    hide FnvStep;
    var h := FnvFrom(OFFSET_BASIS, before);
    FnvBound(OFFSET_BASIS, before);
    forall b: byte ensures Fnv(before + [b] + after) == FnvFrom(FnvStep(h, b), after) {
      FnvConcat(OFFSET_BASIS, before + [b], after);
      FnvConcat(OFFSET_BASIS, before, [b]);
      assert [b][1..] == [];
      assert FnvFrom(h, [b]) == FnvFrom(FnvStep(h, b), []);
    }
    FnvFromInjective(FnvStep(h, x), FnvStep(h, y), after);
    if FnvStep(h, x) == FnvStep(h, y) {
      StepInjective(h, x, h, y);
    }
  }

  /** Two payloads of one length that differ in exactly one place have different checksums. */
  lemma OneDifferenceDetected(a: Str, b: Str, i: nat)
    requires |a| == |b| && i < |a| && a[i] != b[i]
    requires forall k | 0 <= k < |a| && k != i :: a[k] == b[k]
    ensures Fnv(a) != Fnv(b)
  {
    SingleByteDetected(a[..i], a[i], b[i], a[i + 1..]);
    assert a == a[..i] + [a[i]] + a[i + 1..];
    assert b == a[..i] + [b[i]] + a[i + 1..];
  }

  /** The checksum loop. */
  method Compute(data: Str, length: nat) returns (hash: nat)
    requires length <= |data|
    ensures hash == Fnv(data[..length])
  {
    hide FnvStep;
    hash := OFFSET_BASIS;
    for i := 0 to length
      invariant FnvFrom(hash, data[i..length]) == Fnv(data[..length])
    {
      assert data[i..length][1..] == data[i + 1..length];
      hash := FnvStep(hash, data[i]);
    }
  }

  lemma {:induction false} XorZero(a: nat)
    ensures Xor(a, 0) == a
  {
    if a > 0 {
      XorZero(a / 2);
    }
  }

  lemma XorDoubles(a: nat, b: nat, x: nat)
    requires a + b > 0 && Xor(a / 2, b / 2) == x
    ensures Xor(a, b) == 2 * x + (a % 2 + b % 2) % 2
  {
  }

  lemma XorVector()
    ensures Xor(OFFSET_BASIS, 97) == 0x811c9da4
  {
    hide Xor;
    XorZero(16922939);
    XorDoubles(33845879, 1, 16922939);
    XorDoubles(67691758, 3, 33845878);
    XorDoubles(135383516, 6, 67691757);
    XorDoubles(270767032, 12, 135383514);
    XorDoubles(541534065, 24, 270767028);
    XorDoubles(1083068130, 48, 541534057);
    XorDoubles(2166136261, 97, 1083068114);
  }

  /** Two of the published test vectors: the empty string and "a". */
  lemma Vectors()
    ensures Fnv([]) == 0x811c9dc5 && Fnv([97]) == 0xe40c292c
  {
    hide Xor;
    XorVector();
    assert [97][1..] == [];
    assert FnvFrom(0xe40c292c, []) == 0xe40c292c;
  }
}
