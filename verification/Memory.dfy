/**
 Physical memory, byte by byte, and the block headers of the heap (kernel/mem.c:27-33) laid over
 it. Any address can be read as a header; addresses wrap at 32 bits.
 */
module Memory {
  import opened Bytes
  import opened Words
  import opened HeapSpec

  type Mem = m: seq<byte> | |m| == WORD ghost witness Zeros(WORD)

  const BLOCK_MAGIC: nat := 0x4C4F_5342
  const FREE_AT: nat := 8

  datatype Header = Header(magic: nat, size: nat, free: bool, next: nat, prev: nat)

  /** The fields of a header that are a word; between `Size` and `Next` lies the free flag, a byte. */
  datatype Field = Magic | Size | Next | Prev

  function Offset(f: Field): nat {
    match f
    case Magic => 0
    case Size => 4
    case Next => 12
    case Prev => 16
  }

  function With(h: Header, f: Field, v: nat): Header {
    match f
    case Magic => h.(magic := v)
    case Size => h.(size := v)
    case Next => h.(next := v)
    case Prev => h.(prev := v)
  }

  function Slot(a: nat): (s: nat)
    ensures s < WORD && (a < WORD ==> s == a)
  { a % WORD }

  function ReadWord(m: Mem, a: nat): (v: nat)
    ensures v < WORD
  { ReadU32([m[Slot(a)], m[Slot(a + 1)], m[Slot(a + 2)], m[Slot(a + 3)]]) }

  function WriteWord(m: Mem, a: nat, v: nat): Mem {
    var u := U32(v);
    m[Slot(a) := u[0]][Slot(a + 1) := u[1]][Slot(a + 2) := u[2]][Slot(a + 3) := u[3]]
  }

  function Get(m: Mem, block: nat, f: Field): (v: nat)
    ensures v < WORD
  { ReadWord(m, block + Offset(f)) }

  function Put(m: Mem, block: nat, f: Field, v: nat): Mem { WriteWord(m, block + Offset(f), v) }

  predicate IsFree(m: Mem, block: nat) { m[Slot(block + FREE_AT)] != 0 }

  function PutFree(m: Mem, block: nat, free: bool): Mem { m[Slot(block + FREE_AT) := if free then 1 else 0] }

  // ----- words

  lemma WordWritten(m: Mem, a: nat, v: nat)
    requires a + 4 <= WORD && v < WORD
    ensures ReadWord(WriteWord(m, a, v), a) == v
  {
    var u := U32(v);
    var r := WriteWord(m, a, v);
    assert [r[a], r[a + 1], r[a + 2], r[a + 3]] == u;
    IntegersRoundTrip(v);
  }

  /** Elsewhere a write changes nothing. */
  lemma WordElsewhere(m: Mem, a: nat, v: nat)
    requires a + 4 <= WORD
    ensures forall k | 0 <= k < WORD && !(a <= k < a + 4) :: WriteWord(m, a, v)[k] == m[k]
    ensures forall b: nat | b + 4 <= WORD && (b + 4 <= a || a + 4 <= b) ::
            ReadWord(WriteWord(m, a, v), b) == ReadWord(m, b)
  {
  }

  /** The first byte of a word is its lowest. */
  lemma LowByte(m: Mem, a: nat)
    requires a + 4 <= WORD
    ensures ReadWord(m, a) % 256 == m[a]
  {
    var b0: nat, b1: nat, b2: nat, b3: nat := m[a], m[a + 1], m[a + 2], m[a + 3];
    var s := [m[a], m[a + 1], m[a + 2], m[a + 3]];
    assert s[..2] == [m[a], m[a + 1]] && s[2..] == [m[a + 2], m[a + 3]];
    assert ReadWord(m, a) == b0 + 256 * (b1 + 256 * b2 + 65536 * b3);
  }

  lemma WordSame(m: Mem, r: Mem, a: nat)
    requires a + 4 <= WORD && forall k | a <= k < a + 4 :: r[k] == m[k]
    ensures ReadWord(r, a) == ReadWord(m, a)
  {
  }

  // ----- headers

  /** The bytes from `a` on spell this header. */
  predicate Holds(m: Mem, a: nat, h: Header) {
    && a + HEADER <= WORD
    && Get(m, a, Magic) == h.magic && Get(m, a, Size) == h.size
    && m[a + FREE_AT] == (if h.free then 1 else 0)
    && Get(m, a, Next) == h.next && Get(m, a, Prev) == h.prev
  }

  predicate Far(a: nat, b: nat) { a + HEADER <= b || b + HEADER <= a }

  lemma PutHere(m: Mem, a: nat, h: Header, f: Field, v: nat)
    requires Holds(m, a, h) && v < WORD
    ensures Holds(Put(m, a, f, v), a, With(h, f, v))
  {
    hide ReadWord, WriteWord;
    WordWritten(m, a + Offset(f), v);
    WordElsewhere(m, a + Offset(f), v);
  }

  lemma PutFreeHere(m: Mem, a: nat, h: Header, free: bool)
    requires Holds(m, a, h)
    ensures Holds(PutFree(m, a, free), a, h.(free := free))
  {
    hide ReadWord;
    FlagElsewhere(m, a, free);
  }

  lemma PutOutside(m: Mem, a: nat, f: Field, v: nat)
    requires a + HEADER <= WORD
    ensures forall k | 0 <= k < WORD && !(a <= k < a + HEADER) :: Put(m, a, f, v)[k] == m[k]
  {
    hide ReadWord, WriteWord;
    WordElsewhere(m, a + Offset(f), v);
  }

  lemma HoldsSame(m: Mem, r: Mem, a: nat, h: Header)
    requires Holds(m, a, h) && forall k | a <= k < a + HEADER :: r[k] == m[k]
    ensures Holds(r, a, h)
  {
    hide ReadWord;
    WordSame(m, r, a);
    WordSame(m, r, a + 4);
    WordSame(m, r, a + 12);
    WordSame(m, r, a + 16);
  }

  // ----- many headers

  /** Every header of the map is in memory at its address. */
  ghost predicate Mirrors(m: Mem, hs: map<nat, Header>) {
    forall a | a in hs :: Holds(m, a, hs[a])
  }

  /** No two of them overlap. */
  ghost predicate Spread(hs: map<nat, Header>) {
    forall a, b | a in hs && b in hs && a != b :: Far(a, b)
  }

  /** Memory changes in at most one header. */
  ghost predicate Within(m: Mem, r: Mem, a: nat) {
    forall k | 0 <= k < WORD && !(a <= k < a + HEADER) :: r[k] == m[k]
  }

  /** Replacing one header leaves the others alone. */
  lemma OthersStay(m: Mem, r: Mem, hs: map<nat, Header>, a: nat, h: Header)
    requires Mirrors(m, hs) && (forall b | b in hs && b != a :: Far(a, b))
    requires Within(m, r, a) && Holds(r, a, h)
    ensures Mirrors(r, hs[a := h])
  {
    hide Holds;
    forall b | b in hs && b != a ensures Holds(r, b, hs[b]) {
      assert Far(a, b);
      HoldsFits(m, b, hs[b]);
      HoldsSame(m, r, b, hs[b]);
    }
  }

  lemma HoldsFits(m: Mem, a: nat, h: Header)
    requires Holds(m, a, h)
    ensures a + HEADER <= WORD
  {
  }

  lemma StoreField(m: Mem, hs: map<nat, Header>, a: nat, f: Field, v: nat)
    requires Mirrors(m, hs) && Spread(hs) && a in hs && v < WORD
    ensures Mirrors(Put(m, a, f, v), hs[a := With(hs[a], f, v)]) && Spread(hs[a := With(hs[a], f, v)])
    ensures Within(m, Put(m, a, f, v), a)
  {
    hide Put, Get, With;
    PutHere(m, a, hs[a], f, v);
    PutOutside(m, a, f, v);
    assert forall b | b in hs && b != a :: Far(a, b);
    OthersStay(m, Put(m, a, f, v), hs, a, With(hs[a], f, v));
  }

  lemma StoreFree(m: Mem, hs: map<nat, Header>, a: nat, free: bool)
    requires Mirrors(m, hs) && Spread(hs) && a in hs
    ensures Mirrors(PutFree(m, a, free), hs[a := hs[a].(free := free)]) && Spread(hs[a := hs[a].(free := free)])
    ensures Within(m, PutFree(m, a, free), a)
  {
    hide Holds, PutFree;
    HoldsFits(m, a, hs[a]);
    FlagElsewhere(m, a, free);
    PutFreeHere(m, a, hs[a], free);
    assert forall b | b in hs && b != a :: Far(a, b);
    OthersStay(m, PutFree(m, a, free), hs, a, hs[a].(free := free));
  }

  /** A fresh header, field by field. */
  function Fill(m: Mem, a: nat, size: nat, next: nat, prev: nat): Mem {
    Put(Put(PutFree(Put(Put(m, a, Magic, BLOCK_MAGIC), a, Size, size), a, true), a, Next, next), a, Prev, prev)
  }

  lemma StoreNew(m: Mem, hs: map<nat, Header>, a: nat, size: nat, next: nat, prev: nat)
    requires Mirrors(m, hs) && Spread(hs) && (forall b | b in hs :: Far(a, b))
    requires a + HEADER <= WORD && size < WORD && next < WORD && prev < WORD
    ensures var r, h := Fill(m, a, size, next, prev), Header(BLOCK_MAGIC, size, true, next, prev);
            Mirrors(r, hs[a := h]) && Spread(hs[a := h]) && Within(m, r, a) && Holds(r, a, h)
  {
    hide Fill, Holds;
    FillFields(m, a, size, next, prev);
    OthersStay(m, Fill(m, a, size, next, prev), hs, a, Header(BLOCK_MAGIC, size, true, next, prev));
  }

  lemma FillFields(m: Mem, a: nat, size: nat, next: nat, prev: nat)
    requires a + HEADER <= WORD && size < WORD && next < WORD && prev < WORD
    ensures Holds(Fill(m, a, size, next, prev), a, Header(BLOCK_MAGIC, size, true, next, prev))
    ensures Within(m, Fill(m, a, size, next, prev), a)
  {
    hide ReadWord, WriteWord;
    var m1 := Put(m, a, Magic, BLOCK_MAGIC);
    WordWritten(m, a, BLOCK_MAGIC);
    WordElsewhere(m, a, BLOCK_MAGIC);
    var m2 := Put(m1, a, Size, size);
    WordWritten(m1, a + 4, size);
    WordElsewhere(m1, a + 4, size);
    var m3 := PutFree(m2, a, true);
    FlagElsewhere(m2, a, true);
    var m4 := Put(m3, a, Next, next);
    WordWritten(m3, a + 12, next);
    WordElsewhere(m3, a + 12, next);
    WordWritten(m4, a + 16, prev);
    WordElsewhere(m4, a + 16, prev);
  }

  lemma FlagElsewhere(m: Mem, a: nat, free: bool)
    requires a + HEADER <= WORD
    ensures forall b: nat | b + 4 <= WORD && (b + 4 <= a + FREE_AT || a + FREE_AT < b) ::
              ReadWord(PutFree(m, a, free), b) == ReadWord(m, b)
    ensures Within(m, PutFree(m, a, free), a)
  {
  }
}
