/** The heap in memory: the raw stores of `kmalloc` and `kfree`, and what they do to the list of blocks. */
module HeapMemory {
  import opened B = Bytes
  import opened Words
  import opened HeapSpec
  import opened Memory

  const HEAP_BASE: nat := 0x0020_0000
  const HEAP_MAX_SIZE: nat := 32 * 1024 * 1024

  ghost function NextOf(bs: seq<Block>, i: nat): nat { if i + 1 < |bs| then bs[i + 1].addr else 0 }

  ghost function PrevOf(bs: seq<Block>, i: nat): nat
    requires i <= |bs|
  { if i > 0 then bs[i - 1].addr else 0 }

  ghost function HeaderOf(bs: seq<Block>, i: nat): Header
    requires i < |bs|
  { Header(BLOCK_MAGIC, bs[i].size, bs[i].free, NextOf(bs, i), PrevOf(bs, i)) }

  /** The headers spell the blocks, and `next` and `prev` are inverse to each other. */
  ghost predicate Linked(hdr: map<nat, Header>, bs: seq<Block>) {
    && (forall i | 0 <= i < |bs| :: bs[i].addr in hdr)
    && (forall i {:trigger HeaderOf(bs, i)} {:trigger hdr[bs[i].addr]} | 0 <= i < |bs| ::
       hdr[bs[i].addr] == HeaderOf(bs, i))
  }

  ghost predicate Before(bs: seq<Block>, i: nat, j: nat)
    requires i < |bs| && j < |bs|
  { bs[i].End() <= bs[j].addr }

  ghost predicate Ordered(bs: seq<Block>) {
    && (forall i | 0 <= i < |bs| :: bs[i].addr > 0)
    && (forall i, j {:trigger Before(bs, i, j)} | 0 <= i < j < |bs| :: Before(bs, i, j))
  }

  ghost predicate Meets(bs: seq<Block>, i: nat)
    requires i + 1 < |bs|
  { bs[i].End() == bs[i + 1].addr }

  /** Every block ends where the next one begins. */
  ghost predicate Abutting(bs: seq<Block>) {
    forall i {:trigger Meets(bs, i)} | 0 <= i < |bs| - 1 :: Meets(bs, i)
  }

  /** Setting one block's free flag. */
  lemma LinkedFlag(hdr: map<nat, Header>, bs: seq<Block>, i: nat, free: bool)
    requires Linked(hdr, bs) && Ordered(bs) && i < |bs|
    ensures Linked(hdr[bs[i].addr := HeaderOf(bs, i).(free := free)], bs[i := bs[i].(free := free)])
  {
    Apart(bs, i);
    var after, r := hdr[bs[i].addr := HeaderOf(bs, i).(free := free)], bs[i := bs[i].(free := free)];
    forall k {:trigger HeaderOf(r, k)} | 0 <= k < |r| ensures r[k].addr in after && after[r[k].addr] == HeaderOf(r, k) {
      assert HeaderOf(r, k) == if k == i then HeaderOf(bs, k).(free := free) else HeaderOf(bs, k);
    }
  }

  /** No other block's header lies inside block `i`. */
  lemma Apart(bs: seq<Block>, i: nat)
    requires Ordered(bs) && i < |bs|
    ensures forall k | 0 <= k < |bs| && k != i :: bs[k].addr < bs[i].addr || bs[k].addr >= bs[i].End()
  {
    forall k | 0 <= k < |bs| && k != i ensures bs[k].addr < bs[i].addr || bs[k].addr >= bs[i].End() {
      assert if k < i then Before(bs, k, i) else Before(bs, i, k);
    }
  }

  /** `r` is `bs` with block `i` replaced by `b` and `rest`. */
  ghost predicate Splices(bs: seq<Block>, i: nat, b: Block, rest: Block, r: seq<Block>) {
    && i < |bs| && |r| == |bs| + 1 && r[i] == b && r[i + 1] == rest
    && (forall k | 0 <= k < i :: r[k] == bs[k])
    && (forall k | i + 2 <= k < |r| :: r[k] == bs[k - 1])
  }

  lemma SplicesConcat(bs: seq<Block>, i: nat, b: Block, rest: Block)
    requires i < |bs|
    ensures Splices(bs, i, b, rest, bs[..i] + [b, rest] + bs[i + 1..])
  {
  }

  /** The pointer surgery of `split_block`, header by header. */
  lemma LinkedSplit(hdr: map<nat, Header>, bs: seq<Block>, i: nat, b: Block, rest: Block, r: seq<Block>)
    requires Splices(bs, i, b, rest, r) && b.addr == bs[i].addr
    requires forall k | 0 <= k < |bs| && k != i && k != i + 1 :: bs[k].addr in hdr
    requires forall k {:trigger HeaderOf(bs, k)} | 0 <= k < |bs| && k != i && k != i + 1 ::
             hdr[bs[k].addr] == HeaderOf(bs, k)
    requires b.addr in hdr && hdr[b.addr] == Header(BLOCK_MAGIC, b.size, b.free, rest.addr, PrevOf(bs, i))
    requires rest.addr in hdr && hdr[rest.addr] == Header(BLOCK_MAGIC, rest.size, rest.free, NextOf(bs, i), b.addr)
    requires i + 1 < |bs| ==> bs[i + 1].addr in hdr && hdr[bs[i + 1].addr] == HeaderOf(bs, i + 1).(prev := rest.addr)
    ensures Linked(hdr, r)
  {
    forall k | 0 <= k < |r| ensures r[k].addr in hdr && hdr[r[k].addr] == HeaderOf(r, k) {
      if k < i {
        assert HeaderOf(r, k) == HeaderOf(bs, k);
      } else if k == i + 2 {
        assert HeaderOf(r, k) == HeaderOf(bs, k - 1).(prev := rest.addr);
      } else if k > i + 2 {
        assert HeaderOf(r, k) == HeaderOf(bs, k - 1);
      }
    }
  }

  /** `r` is `bs` with blocks `i` and `i + 1` replaced by `b`. */
  ghost predicate Fuses(bs: seq<Block>, i: nat, b: Block, r: seq<Block>) {
    && i + 1 < |bs| && |r| == |bs| - 1 && r[i] == b
    && (forall k | 0 <= k < i :: r[k] == bs[k])
    && (forall k | i < k < |r| :: r[k] == bs[k + 1])
  }

  lemma FusesConcat(bs: seq<Block>, i: nat, b: Block)
    requires i + 1 < |bs|
    ensures Fuses(bs, i, b, bs[..i] + [b] + bs[i + 2..])
  {
  }

  /** The pointer surgery of `coalesce`, header by header. */
  lemma LinkedFuse(hdr: map<nat, Header>, bs: seq<Block>, i: nat, b: Block, r: seq<Block>)
    requires Fuses(bs, i, b, r) && b.addr == bs[i].addr
    requires forall k | 0 <= k < |bs| && k != i && k != i + 1 && k != i + 2 :: bs[k].addr in hdr
    requires forall k {:trigger HeaderOf(bs, k)} | 0 <= k < |bs| && k != i && k != i + 1 && k != i + 2 ::
             hdr[bs[k].addr] == HeaderOf(bs, k)
    requires b.addr in hdr && hdr[b.addr] == Header(BLOCK_MAGIC, b.size, b.free, NextOf(bs, i + 1), PrevOf(bs, i))
    requires i + 2 < |bs| ==> bs[i + 2].addr in hdr && hdr[bs[i + 2].addr] == HeaderOf(bs, i + 2).(prev := b.addr)
    ensures Linked(hdr, r)
  {
    forall k | 0 <= k < |r| ensures r[k].addr in hdr && hdr[r[k].addr] == HeaderOf(r, k) {
      if k < i {
        assert HeaderOf(r, k) == HeaderOf(bs, k);
      } else if k == i + 1 {
        assert HeaderOf(r, k) == HeaderOf(bs, k + 1).(prev := b.addr);
      } else if k > i + 1 {
        assert HeaderOf(r, k) == HeaderOf(bs, k + 1);
      }
    }
  }

  lemma OrderedFrom(bs: seq<Block>, lo: nat, hi: nat)
    requires WellFormed(bs, lo, hi) && lo > 0
    ensures Ordered(bs) && Abutting(bs) && bs[0].addr == lo
  {
    ChainOrder(bs, lo, hi, false);
    forall i | 0 <= i < |bs| - 1 ensures Meets(bs, i) {
      ChainNext(bs, lo, hi, i);
    }
  }

  /** The blocks after `split_block`. */
  ghost function SplitAt(bs: seq<Block>, i: nat, n: nat): seq<Block>
    requires i < |bs| && bs[i].size >= n
  {
    if bs[i].size < n + HEADER + MIN_LEFTOVER then bs
    else bs[..i] + [bs[i].(size := n), Block(bs[i].addr + HEADER + n, bs[i].size - n - HEADER, true)] + bs[i + 1..]
  }

  /** The headers after `split_block`. */
  ghost function SplitMap(h: map<nat, Header>, bs: seq<Block>, i: nat, n: nat): map<nat, Header>
    requires i < |bs| && bs[i].size >= n + HEADER
  {
    var rest := bs[i].addr + HEADER + n;
    var h1 := h[rest := Header(BLOCK_MAGIC, bs[i].size - n - HEADER, true, NextOf(bs, i), bs[i].addr)];
    var h2 := if i + 1 < |bs| then h1[bs[i + 1].addr := HeaderOf(bs, i + 1).(prev := rest)] else h1;
    h2[bs[i].addr := HeaderOf(bs, i).(next := rest, size := n)]
  }

  lemma SplitPointwise(h: map<nat, Header>, bs: seq<Block>, i: nat, n: nat)
    requires Linked(h, bs) && Ordered(bs) && i < |bs| && bs[i].size >= n + HEADER
    ensures var m := SplitMap(h, bs, i, n);
            && (forall k | 0 <= k < |bs| && k != i && k != i + 1 :: bs[k].addr in m)
            && (forall k {:trigger HeaderOf(bs, k)} | 0 <= k < |bs| && k != i && k != i + 1 ::
               m[bs[k].addr] == HeaderOf(bs, k))
    ensures var m, rest := SplitMap(h, bs, i, n), bs[i].addr + HEADER + n;
            && bs[i].addr in m && m[bs[i].addr] == Header(BLOCK_MAGIC, n, bs[i].free, rest, PrevOf(bs, i))
            && rest in m && m[rest] == Header(BLOCK_MAGIC, bs[i].size - n - HEADER, true, NextOf(bs, i), bs[i].addr)
            && (i + 1 < |bs| ==> bs[i + 1].addr in m && m[bs[i + 1].addr] == HeaderOf(bs, i + 1).(prev := rest))
  {
    Apart(bs, i);
    if i + 1 < |bs| {
      Apart(bs, i + 1);
    }
  }

  lemma SplitHeaders(h: map<nat, Header>, bs: seq<Block>, i: nat, n: nat)
    requires Linked(h, bs) && Ordered(bs) && i < |bs| && bs[i].size >= n + HEADER + MIN_LEFTOVER
    ensures Linked(SplitMap(h, bs, i, n), SplitAt(bs, i, n))
  {
    var b, rest := bs[i].(size := n), Block(bs[i].addr + HEADER + n, bs[i].size - n - HEADER, true);
    SplitPointwise(h, bs, i, n);
    SplicesConcat(bs, i, b, rest);
    assert Splices(bs, i, b, rest, SplitAt(bs, i, n));
    hide SplitAt, SplitMap, Splices, Ordered, Before;
    LinkedSplit(SplitMap(h, bs, i, n), bs, i, b, rest, SplitAt(bs, i, n));
  }

  lemma OrderedSplit(bs: seq<Block>, i: nat, n: nat)
    requires Ordered(bs) && i < |bs| && bs[i].size >= n
    ensures Ordered(SplitAt(bs, i, n)) && i < |SplitAt(bs, i, n)| && SplitAt(bs, i, n)[i].addr == bs[i].addr
  {
    if bs[i].size >= n + HEADER + MIN_LEFTOVER {
      var b, rest := bs[i].(size := n), Block(bs[i].addr + HEADER + n, bs[i].size - n - HEADER, true);
      SplicesConcat(bs, i, b, rest);
      OrderedSplice(bs, i, b, rest, SplitAt(bs, i, n));
    }
  }

  lemma OrderedSplice(bs: seq<Block>, i: nat, b: Block, rest: Block, r: seq<Block>)
    requires Ordered(bs) && Splices(bs, i, b, rest, r)
    requires b.addr == bs[i].addr && b.End() == rest.addr && rest.End() == bs[i].End()
    ensures Ordered(r)
  {
    forall j, k | 0 <= j < k < |r| ensures Before(r, j, k) {
      var p := if j <= i then j else j - 1;
      var q := if k <= i then k else k - 1;
      assert p < q ==> Before(bs, p, q);
    }
  }

  lemma AllocateIsSplit(bs: seq<Block>, n: nat)
    requires FirstFit(bs, n) < |bs|
    ensures var i := FirstFit(bs, n);
            var s := SplitAt(bs, i, n);
            i < |s| && Allocate(bs, n) == s[i := s[i].(free := false)] && s[i].size == Carve(bs[i], n)[0].size
  {
    var i := FirstFit(bs, n);
    hide FirstFit;
    var s := SplitAt(bs, i, n);
    if bs[i].size < n + HEADER + MIN_LEFTOVER {
      Around(bs, i);
      Replaced(bs[..i], bs[i], [], bs[i + 1..], bs[i].(free := false));
    } else {
      var rest := Block(bs[i].addr + HEADER + n, bs[i].size - n - HEADER, true);
      Replaced(bs[..i], bs[i].(size := n), [rest], bs[i + 1..], Block(bs[i].addr, n, false));
    }
  }

  lemma Replaced(a: seq<Block>, x: Block, m: seq<Block>, z: seq<Block>, y: Block)
    ensures (a + ([x] + m) + z)[|a| := y] == a + ([y] + m) + z
  {
  }

  lemma FlagOrdered(bs: seq<Block>, i: nat, free: bool)
    requires Ordered(bs) && Abutting(bs) && i < |bs|
    ensures Ordered(bs[i := bs[i].(free := free)]) && Abutting(bs[i := bs[i].(free := free)])
  {
    var s := bs[i := bs[i].(free := free)];
    forall j, k | 0 <= j < k < |s| ensures Before(s, j, k) {
      assert Before(bs, j, k);
    }
    forall j | 0 <= j < |s| - 1 ensures Meets(s, j) {
      assert Meets(bs, j);
    }
  }

  /** The blocks after block `i` has swallowed block `i + 1`. */
  ghost function FuseAt(bs: seq<Block>, i: nat): seq<Block>
    requires i + 1 < |bs|
  { bs[..i] + [bs[i].(size := bs[i].size + bs[i + 1].size + HEADER)] + bs[i + 2..] }

  /** The headers after block `i` has swallowed block `i + 1`. */
  ghost function FuseMap(h: map<nat, Header>, bs: seq<Block>, i: nat): map<nat, Header>
    requires i + 1 < |bs|
  {
    var size := bs[i].size + bs[i + 1].size + HEADER;
    var h1 := h[bs[i].addr := HeaderOf(bs, i).(size := size, next := NextOf(bs, i + 1))];
    if i + 2 < |bs| then h1[bs[i + 2].addr := HeaderOf(bs, i + 2).(prev := bs[i].addr)] else h1
  }

  lemma FuseHeaders(h: map<nat, Header>, bs: seq<Block>, i: nat)
    requires Linked(h, bs) && Ordered(bs) && i + 1 < |bs|
    ensures Linked(FuseMap(h, bs, i), FuseAt(bs, i))
  {
    var b := bs[i].(size := bs[i].size + bs[i + 1].size + HEADER);
    Apart(bs, i);
    if i + 2 < |bs| {
      Apart(bs, i + 2);
    }
    FusesConcat(bs, i, b);
    assert Fuses(bs, i, b, FuseAt(bs, i));
    hide FuseAt, Fuses, Ordered, Before;
    LinkedFuse(FuseMap(h, bs, i), bs, i, b, FuseAt(bs, i));
  }

  lemma FuseOrdered(bs: seq<Block>, i: nat, b: Block, r: seq<Block>)
    requires Ordered(bs) && Abutting(bs) && Fuses(bs, i, b, r)
    requires b.addr == bs[i].addr && b.size == bs[i].size + bs[i + 1].size + HEADER
    ensures Ordered(r) && Abutting(r)
  {
    assert Meets(bs, i);
    forall j, k | 0 <= j < k < |r| ensures Before(r, j, k) {
      var p := if j < i then j else j + 1;
      var q := if k <= i then k else k + 1;
      assert Before(bs, p, q);
    }
    forall j | 0 <= j < |r| - 1 ensures Meets(r, j) {
      assert Meets(bs, if j < i then j else j + 1);
    }
  }

  // ----- blocks in memory

  /** Blocks in address order, each behind the last, 4-aligned and within the heap's region. */
  ghost predicate Placed(bs: seq<Block>) {
    && Ordered(bs) && Abutting(bs)
    && forall i | 0 <= i < |bs| ::
       bs[i].addr % 4 == 0 && HEAP_BASE <= bs[i].addr && bs[i].End() <= HEAP_BASE + HEAP_MAX_SIZE
  }

  lemma PlacedFrom(bs: seq<Block>, hi: nat)
    requires WellFormed(bs, HEAP_BASE, hi) && hi <= HEAP_BASE + HEAP_MAX_SIZE
    ensures Placed(bs) && bs != [] && bs[0].addr == HEAP_BASE
  {
    OrderedFrom(bs, HEAP_BASE, hi);
    ChainOrder(bs, HEAP_BASE, hi, false);
  }

  /** The header of every block is in memory. */
  ghost predicate Written(m: Mem, bs: seq<Block>) {
    forall i {:trigger HeaderOf(bs, i)} | 0 <= i < |bs| :: Holds(m, bs[i].addr, HeaderOf(bs, i))
  }

  /** No header of these blocks covers address `k`. */
  ghost predicate Outside(bs: seq<Block>, k: nat) {
    forall i | 0 <= i < |bs| :: !InHeader(bs[i].addr, k)
  }

  /** `r` is `m` with the headers of these blocks written over it. */
  ghost predicate Stamped(m: Mem, bs: seq<Block>, r: Mem) {
    Written(r, bs) && forall k | 0 <= k < WORD && Outside(bs, k) :: r[k] == m[k]
  }

  ghost function Addresses(bs: seq<Block>): set<nat> { set b | b in bs :: b.addr }

  ghost function Headers(bs: seq<Block>): map<nat, Header> {
    map a | a in Addresses(bs) :: HeaderOf(bs, IndexOf(bs, a))
  }

  lemma IndexOfBlock(bs: seq<Block>, i: nat)
    requires Ordered(bs) && i < |bs|
    ensures IndexOf(bs, bs[i].addr) == i && bs[i].addr in Addresses(bs)
    ensures bs[i].addr in Headers(bs) && Headers(bs)[bs[i].addr] == HeaderOf(bs, i)
  {
    assert bs[i] in bs;
    var j := IndexOf(bs, bs[i].addr);
    assert j < i ==> Before(bs, j, i);
    assert i < j ==> Before(bs, i, j);
  }

  lemma FarBlocks(bs: seq<Block>, i: nat, j: nat)
    requires Ordered(bs) && i < |bs| && j < |bs| && i != j
    ensures Far(bs[i].addr, bs[j].addr)
  {
    assert if i < j then Before(bs, i, j) else Before(bs, j, i);
  }

  lemma HeadersMirror(m: Mem, bs: seq<Block>)
    requires Written(m, bs) && Ordered(bs)
    ensures Mirrors(m, Headers(bs)) && Spread(Headers(bs)) && Linked(Headers(bs), bs)
    ensures Headers(bs).Keys == Addresses(bs)
  {
    hide Holds, Ordered;
    var hs := Headers(bs);
    forall a, b | a in hs && b in hs && a != b ensures Far(a, b) {
      FarBlocks(bs, IndexOf(bs, a), IndexOf(bs, b));
    }
    forall i {:trigger HeaderOf(bs, i)} | 0 <= i < |bs| ensures bs[i].addr in hs && hs[bs[i].addr] == HeaderOf(bs, i) {
      IndexOfBlock(bs, i);
    }
    forall a | a in hs ensures Holds(m, a, hs[a]) {
      assert Holds(m, bs[IndexOf(bs, a)].addr, HeaderOf(bs, IndexOf(bs, a)));
    }
  }

  lemma MirrorWrites(m: Mem, hs: map<nat, Header>, bs: seq<Block>)
    requires Mirrors(m, hs) && Linked(hs, bs)
    ensures Written(m, bs)
  {
    hide Holds;
    forall i {:trigger HeaderOf(bs, i)} | 0 <= i < |bs| ensures Holds(m, bs[i].addr, HeaderOf(bs, i)) {
      assert hs[bs[i].addr] == HeaderOf(bs, i);
    }
  }

  // ----- the raw stores

  /** `split_block`. */
  function SplitMem(m: Mem, block: nat, size: nat): Mem {
    var whole, next := Get(m, block, Size), Get(m, block, Next);
    if whole < size + HEADER + MIN_LEFTOVER then m
    else
      var rest := block + HEADER + size;
      var m1 := Fill(m, rest, whole - size - HEADER, next, block);
      var m2 := if next != 0 then Put(m1, next, Prev, rest) else m1;
      Put(Put(m2, block, Next, rest), block, Size, size)
  }

  /** What `kmalloc` does to memory, given the block that its walk found. */
  function MallocMem(m: Mem, block: nat, size: nat): Mem { PutFree(SplitMem(m, block, size), block, false) }

  /** The first half of `coalesce`, on whatever memory holds. */
  function AbsorbNextMem(m: Mem, block: nat): Mem {
    var next := Get(m, block, Next);
    if next == 0 || !IsFree(m, next) then m
    else
      var m1 := Put(m, block, Size, Get(m, block, Size) + Get(m, next, Size) + HEADER);
      var m2 := Put(m1, block, Next, Get(m1, Get(m1, block, Next), Next));
      var after := Get(m2, block, Next);
      if after != 0 then Put(m2, after, Prev, block) else m2
  }

  /** The second half of `coalesce`, on whatever memory holds. */
  function AbsorbIntoPrevMem(m: Mem, block: nat): Mem {
    var prev := Get(m, block, Prev);
    if prev == 0 || !IsFree(m, prev) then m
    else
      var m1 := Put(m, prev, Size, Get(m, prev, Size) + Get(m, block, Size) + HEADER);
      var m2 := Put(m1, Get(m1, block, Prev), Next, Get(m1, block, Next));
      var after := Get(m2, block, Next);
      if after != 0 then Put(m2, after, Prev, Get(m2, block, Prev)) else m2
  }

  /** What `kfree` does to memory once it takes the bytes at `block` for the header of a block in use. */
  function FreeMem(m: Mem, block: nat): Mem {
    AbsorbIntoPrevMem(AbsorbNextMem(PutFree(m, block, true), block), block)
  }

  // ----- each of them writes the headers of the new list and nothing else

  lemma Reads(m: Mem, bs: seq<Block>, i: nat)
    requires Written(m, bs) && Placed(bs) && i < |bs|
    ensures var a := bs[i].addr;
            && a + HEADER <= WORD && Get(m, a, Magic) == BLOCK_MAGIC && Get(m, a, Size) == bs[i].size
            && (IsFree(m, a) <==> bs[i].free) && m[a + FREE_AT] <= 1
            && Get(m, a, Next) == NextOf(bs, i) && Get(m, a, Prev) == PrevOf(bs, i)
            && 0 < a < WORD && NextOf(bs, i) < WORD && PrevOf(bs, i) < WORD && bs[i].End() < WORD
  {
    hide ReadWord;
    assert Holds(m, bs[i].addr, HeaderOf(bs, i));
  }

  lemma FlagStamps(m: Mem, bs: seq<Block>, i: nat, free: bool)
    requires Written(m, bs) && Placed(bs) && i < |bs|
    ensures Stamped(m, bs[i := bs[i].(free := free)], PutFree(m, bs[i].addr, free))
    ensures Placed(bs[i := bs[i].(free := free)])
  {
    hide PutFree, Holds, Placed, Ordered, Abutting, Written, Outside, Mirrors, Spread, Headers, Addresses;
    PlacedOrdered(bs);
    Reads(m, bs, i);
    var r := bs[i := bs[i].(free := free)];
    HeadersMirror(m, bs);
    IndexOfBlock(bs, i);
    StoreFree(m, Headers(bs), bs[i].addr, free);
    LinkedFlag(Headers(bs), bs, i, free);
    MirrorWrites(PutFree(m, bs[i].addr, free), Headers(bs)[bs[i].addr := HeaderOf(bs, i).(free := free)], r);
    FlagPlaced(bs, i, free);
    OutsideBlock(r, i);
  }

  lemma FlagPlaced(bs: seq<Block>, i: nat, free: bool)
    requires Placed(bs) && i < |bs|
    ensures Placed(bs[i := bs[i].(free := free)])
  {
    FlagOrdered(bs, i, free);
    var r := bs[i := bs[i].(free := free)];
    assert forall k | 0 <= k < |r| :: r[k].addr == bs[k].addr && r[k].End() == bs[k].End();
  }

  lemma OutsideBlock(bs: seq<Block>, i: nat)
    requires i < |bs|
    ensures forall k: nat | Outside(bs, k) :: !InHeader(bs[i].addr, k)
  {
  }

  lemma SplitPlaced(bs: seq<Block>, i: nat, n: nat)
    requires Placed(bs) && i < |bs| && bs[i].size >= n && n % 4 == 0
    ensures Placed(SplitAt(bs, i, n)) && i < |SplitAt(bs, i, n)| && SplitAt(bs, i, n)[i].addr == bs[i].addr
  {
    hide Ordered;
    assert Ordered(bs);
    OrderedSplit(bs, i, n);
    if bs[i].size >= n + HEADER + MIN_LEFTOVER {
      var b, rest := bs[i].(size := n), Block(bs[i].addr + HEADER + n, bs[i].size - n - HEADER, true);
      SplicesConcat(bs, i, b, rest);
      SplicePlaced(bs, i, b, rest, SplitAt(bs, i, n));
    }
  }

  lemma SplicePlaced(bs: seq<Block>, i: nat, b: Block, rest: Block, r: seq<Block>)
    requires Placed(bs) && Splices(bs, i, b, rest, r) && Ordered(r)
    requires b.addr == bs[i].addr && b.End() == rest.addr && rest.End() == bs[i].End() && rest.addr % 4 == 0
    ensures Placed(r)
  {
    hide Ordered;
    forall j | 0 <= j < |r| - 1 ensures Meets(r, j) {
      assert j < i ==> Meets(bs, j);
      assert j > i ==> Meets(bs, j - 1);
    }
    assert forall k | 0 <= k < |r| && k != i && k != i + 1 :: r[k] == bs[if k < i then k else k - 1];
  }

  lemma RestApart(bs: seq<Block>, i: nat, rest: nat)
    requires Ordered(bs) && i < |bs| && bs[i].addr + HEADER <= rest && rest + HEADER <= bs[i].End()
    ensures forall a | a in Addresses(bs) :: Far(rest, a)
  {
    forall b | b in bs ensures Far(rest, b.addr) {
      var j :| 0 <= j < |bs| && bs[j] == b;
      assert j < i ==> Before(bs, j, i);
      assert i < j ==> Before(bs, i, j);
    }
  }

  lemma SplitMirrors(m: Mem, bs: seq<Block>, i: nat, n: nat)
    requires Written(m, bs) && Placed(bs) && i < |bs| && bs[i].size >= n + HEADER + MIN_LEFTOVER
    ensures Mirrors(SplitMem(m, bs[i].addr, n), SplitMap(Headers(bs), bs, i, n))
  {
    hide Holds, Put, Get, Fill, Mirrors, Spread, Within, Placed, Ordered, Written, Headers, Addresses, Linked, PrevOf;
    PlacedOrdered(bs);
    var block, rest, next := bs[i].addr, bs[i].addr + HEADER + n, NextOf(bs, i);
    var hs := Headers(bs);
    Reads(m, bs, i);
    HeadersMirror(m, bs);
    IndexOfBlock(bs, i);
    RestApart(bs, i, rest);
    StoreNew(m, hs, rest, bs[i].size - n - HEADER, next, block);
    var m1 := Fill(m, rest, bs[i].size - n - HEADER, next, block);
    var h1 := hs[rest := Header(BLOCK_MAGIC, bs[i].size - n - HEADER, true, next, block)];
    var m2, h2 := m1, h1;
    if i + 1 < |bs| {
      IndexOfBlock(bs, i + 1);
      Reads(m, bs, i + 1);
      StoreField(m1, h1, next, Prev, rest);
      m2, h2 := Put(m1, next, Prev, rest), h1[next := HeaderOf(bs, i + 1).(prev := rest)];
    }
    assert block != rest && (i + 1 < |bs| ==> block != next) by { FarBlocksNext(bs, i); }
    assert h2[block] == HeaderOf(bs, i);
    StoreField(m2, h2, block, Next, rest);
    var m3, h3 := Put(m2, block, Next, rest), h2[block := HeaderOf(bs, i).(next := rest)];
    StoreField(m3, h3, block, Size, n);
    assert h3[block := HeaderOf(bs, i).(next := rest, size := n)] == SplitMap(hs, bs, i, n);
  }

  lemma PlacedOrdered(bs: seq<Block>)
    requires Placed(bs)
    ensures Ordered(bs)
  {
  }

  /** And it touches only three headers. */
  lemma SplitOutside(m: Mem, block: nat, size: nat)
    requires var whole := Get(m, block, Size); block + HEADER + size + HEADER <= WORD && size + HEADER <= whole
    requires var next := Get(m, block, Next); next + HEADER <= WORD
    ensures var next := Get(m, block, Next);
            forall k | 0 <= k < WORD && !InHeader(block, k) && !InHeader(block + HEADER + size, k)
                   && !(next != 0 && InHeader(next, k)) ::
              SplitMem(m, block, size)[k] == m[k]
  {
    hide Put, Get, Fill;
    var whole, next := Get(m, block, Size), Get(m, block, Next);
    var rest := block + HEADER + size;
    FillFields(m, rest, whole - size - HEADER, next, block);
    var m1 := Fill(m, rest, whole - size - HEADER, next, block);
    if next != 0 {
      PutOutside(m1, next, Prev, rest);
    }
    var m2 := if next != 0 then Put(m1, next, Prev, rest) else m1;
    PutOutside(m2, block, Next, rest);
    PutOutside(Put(m2, block, Next, rest), block, Size, size);
  }

  predicate InHeader(a: nat, k: nat) { a <= k < a + HEADER }

  lemma FarBlocksNext(bs: seq<Block>, i: nat)
    requires Ordered(bs) && i < |bs|
    ensures i + 1 < |bs| ==> Far(bs[i].addr, bs[i + 1].addr)
  {
    if i + 1 < |bs| {
      FarBlocks(bs, i, i + 1);
    }
  }

  lemma StampedAsIs(m: Mem, bs: seq<Block>)
    requires Written(m, bs)
    ensures Stamped(m, bs, m)
  {
  }

  /** `split_block` writes the headers of the list after the split and nothing else. */
  lemma SplitStamps(m: Mem, bs: seq<Block>, i: nat, n: nat)
    requires Written(m, bs) && Placed(bs) && i < |bs| && bs[i].size >= n && n % 4 == 0
    ensures Stamped(m, SplitAt(bs, i, n), SplitMem(m, bs[i].addr, n))
    ensures Placed(SplitAt(bs, i, n)) && i < |SplitAt(bs, i, n)| && SplitAt(bs, i, n)[i].addr == bs[i].addr
  {
    hide Holds, Get, Put, Fill, Placed, Ordered, Written, Outside, Mirrors, Spread, Headers, Addresses, SplitMap,
         Linked, HeaderOf;
    PlacedOrdered(bs);
    SplitPlaced(bs, i, n);
    Reads(m, bs, i);
    if bs[i].size >= n + HEADER + MIN_LEFTOVER {
      var r := SplitAt(bs, i, n);
      SplitMirrors(m, bs, i, n);
      HeadersMirror(m, bs);
      SplitHeaders(Headers(bs), bs, i, n);
      MirrorWrites(SplitMem(m, bs[i].addr, n), SplitMap(Headers(bs), bs, i, n), r);
      if i + 1 < |bs| {
        Reads(m, bs, i + 1);
        OutsideBlock(r, i + 2);
      }
      SplitOutside(m, bs[i].addr, n);
      OutsideBlock(r, i);
      OutsideBlock(r, i + 1);
    } else {
      StampedAsIs(m, bs);
    }
  }

  /** `kmalloc`, once it has found its block, writes the headers of the new list and nothing else. */
  lemma AllocateStamps(m: Mem, bs: seq<Block>, n: nat)
    requires Written(m, bs) && Placed(bs) && n % 4 == 0 && FirstFit(bs, n) < |bs|
    ensures var i := FirstFit(bs, n);
            Stamped(m, Allocate(bs, n), MallocMem(m, bs[i].addr, n)) && Placed(Allocate(bs, n))
  {
    var i := FirstFit(bs, n);
    var s := SplitAt(bs, i, n);
    var m1 := SplitMem(m, bs[i].addr, n);
    hide FirstFit, SplitMem, SplitAt, Allocate, Ordered, Abutting, PutFree, Written;
    SplitStamps(m, bs, i, n);
    AllocateIsSplit(bs, n);
    FlagStamps(m1, s, i, false);
    var r := s[i := s[i].(free := false)];
    forall k | 0 <= k < WORD && Outside(r, k) ensures Outside(s, k) {
      assert forall j | 0 <= j < |s| :: s[j].addr == r[j].addr;
    }
  }

  /** A block that swallows its right neighbour: the three stores that both halves of `coalesce` make. */
  function FuseMem(m: Mem, block: nat, size: nat, after: nat): Mem {
    var m1 := Put(Put(m, block, Size, size), block, Next, after);
    if after != 0 then Put(m1, after, Prev, block) else m1
  }

  lemma FuseMirrors(m: Mem, bs: seq<Block>, i: nat)
    requires Written(m, bs) && Placed(bs) && i + 1 < |bs|
    ensures var r := FuseMem(m, bs[i].addr, bs[i].size + bs[i + 1].size + HEADER, NextOf(bs, i + 1));
            Mirrors(r, FuseMap(Headers(bs), bs, i))
  {
    hide Holds, Put, Get, Mirrors, Spread, Within, Placed, Ordered, Written, Headers, Addresses, Abutting;
    PlacedOrdered(bs);
    FarNext(bs, i);
    var block, size, after := bs[i].addr, bs[i].size + bs[i + 1].size + HEADER, NextOf(bs, i + 1);
    var hs := Headers(bs);
    Reads(m, bs, i);
    Reads(m, bs, i + 1);
    HeadersMirror(m, bs);
    IndexOfBlock(bs, i);
    StoreField(m, hs, block, Size, size);
    var m1, h1 := Put(m, block, Size, size), hs[block := HeaderOf(bs, i).(size := size)];
    StoreField(m1, h1, block, Next, after);
    var m2, h2 := Put(m1, block, Next, after), hs[block := HeaderOf(bs, i).(size := size, next := after)];
    assert h2 == h1[block := HeaderOf(bs, i).(size := size, next := after)];
    if i + 2 < |bs| {
      IndexOfBlock(bs, i + 2);
      Reads(m, bs, i + 2);
      FarBlocks(bs, i, i + 2);
      assert h2[after] == HeaderOf(bs, i + 2);
      StoreField(m2, h2, after, Prev, block);
    }
  }

  lemma FuseOutside(m: Mem, block: nat, size: nat, after: nat)
    requires block + HEADER <= WORD && after + HEADER <= WORD
    ensures forall k | 0 <= k < WORD && !InHeader(block, k) && !(after != 0 && InHeader(after, k)) ::
              FuseMem(m, block, size, after)[k] == m[k]
  {
    hide Put;
    PutOutside(m, block, Size, size);
    var m1 := Put(m, block, Size, size);
    PutOutside(m1, block, Next, after);
    PutOutside(Put(m1, block, Next, after), after, Prev, block);
  }

  lemma FuseStamps(m: Mem, bs: seq<Block>, i: nat)
    requires Written(m, bs) && Placed(bs) && i + 1 < |bs|
    ensures var r := FuseMem(m, bs[i].addr, bs[i].size + bs[i + 1].size + HEADER, NextOf(bs, i + 1));
            Stamped(m, FuseAt(bs, i), r) && Placed(FuseAt(bs, i))
  {
    hide Holds, Put, Get, FuseMem, Placed, Ordered, Written, Outside, Mirrors, Spread, Headers, Addresses, FuseMap,
         Linked, HeaderOf;
    PlacedOrdered(bs);
    Reads(m, bs, i);
    var s := FuseAt(bs, i);
    var r := FuseMem(m, bs[i].addr, bs[i].size + bs[i + 1].size + HEADER, NextOf(bs, i + 1));
    FuseMirrors(m, bs, i);
    HeadersMirror(m, bs);
    FuseHeaders(Headers(bs), bs, i);
    MirrorWrites(r, FuseMap(Headers(bs), bs, i), s);
    FusePlaced(bs, i);
    OutsideBlock(s, i);
    if i + 2 < |bs| {
      Reads(m, bs, i + 2);
      OutsideBlock(s, i + 1);
    }
    FuseOutside(m, bs[i].addr, bs[i].size + bs[i + 1].size + HEADER, NextOf(bs, i + 1));
  }

  lemma FusePlaced(bs: seq<Block>, i: nat)
    requires Placed(bs) && i + 1 < |bs|
    ensures Placed(FuseAt(bs, i))
  {
    var b := bs[i].(size := bs[i].size + bs[i + 1].size + HEADER);
    FusesConcat(bs, i, b);
    FuseOrdered(bs, i, b, FuseAt(bs, i));
    assert Meets(bs, i);
  }

  lemma AbsorbNextFuses(m: Mem, bs: seq<Block>, i: nat)
    requires Written(m, bs) && Placed(bs) && i < |bs|
    ensures AbsorbNextMem(m, bs[i].addr) ==
            if i + 1 < |bs| && bs[i + 1].free
            then FuseMem(m, bs[i].addr, bs[i].size + bs[i + 1].size + HEADER, NextOf(bs, i + 1)) else m
  {
    hide Placed, Written, Put, Get, IsFree;
    Reads(m, bs, i);
    if i + 1 < |bs| {
      Reads(m, bs, i + 1);
      var block, next := bs[i].addr, bs[i + 1].addr;
      var size := bs[i].size + bs[i + 1].size + HEADER;
      FarNext(bs, i);
      PutReads(m, block, Size, size, block);
      PutReads(m, block, Size, size, next);
      PutReads(Put(m, block, Size, size), block, Next, NextOf(bs, i + 1), block);
    }
  }

  lemma FarNext(bs: seq<Block>, i: nat)
    requires Placed(bs) && i + 1 < |bs|
    ensures Far(bs[i].addr, bs[i + 1].addr)
    ensures bs[i].size + bs[i + 1].size + HEADER < WORD
  {
    FarBlocks(bs, i, i + 1);
    assert Meets(bs, i);
  }

  /** Reading fields after a store to one. */
  lemma PutReads(m: Mem, a: nat, f: Field, v: nat, b: nat)
    requires a + HEADER <= WORD && b + HEADER <= WORD && v < WORD && (a == b || Far(a, b))
    ensures forall g: Field :: Get(Put(m, a, f, v), b, g) == if a == b && g == f then v else Get(m, b, g)
  {
    hide ReadWord, WriteWord;
    WordWritten(m, a + Offset(f), v);
    WordElsewhere(m, a + Offset(f), v);
  }

  /** Memory holds these blocks, and the header at `block` is that of block `i`. */
  ghost predicate Heads(m: Mem, bs: seq<Block>, i: nat, block: nat) {
    Written(m, bs) && Placed(bs) && i < |bs| && bs[i].addr == block
  }

  lemma NextStamps(m: Mem, bs: seq<Block>, i: nat)
    requires Written(m, bs) && Placed(bs) && i < |bs|
    ensures Stamped(m, MergeRight(bs, i), AbsorbNextMem(m, bs[i].addr)) && Placed(MergeRight(bs, i))
    ensures i < |MergeRight(bs, i)| && MergeRight(bs, i)[i].addr == bs[i].addr
  {
    hide AbsorbNextMem, Placed, Written, Outside, FuseMem;
    StampedAsIs(m, bs);
    AbsorbNextFuses(m, bs, i);
    if i + 1 < |bs| && bs[i + 1].free {
      FuseStamps(m, bs, i);
    }
  }

  lemma AbsorbIntoPrevFuses(m: Mem, bs: seq<Block>, i: nat)
    requires Written(m, bs) && Placed(bs) && i < |bs|
    ensures AbsorbIntoPrevMem(m, bs[i].addr) ==
            if 0 < i && bs[i - 1].free
            then FuseMem(m, bs[i - 1].addr, bs[i - 1].size + bs[i].size + HEADER, NextOf(bs, i)) else m
  {
    hide Placed, Written, Put, Get, IsFree;
    Reads(m, bs, i);
    if 0 < i {
      Reads(m, bs, i - 1);
      var prev, block := bs[i - 1].addr, bs[i].addr;
      var size := bs[i - 1].size + bs[i].size + HEADER;
      FarNext(bs, i - 1);
      PutReads(m, prev, Size, size, prev);
      PutReads(m, prev, Size, size, block);
      PutReads(Put(m, prev, Size, size), prev, Next, NextOf(bs, i), block);
    }
  }

  lemma PrevStamps(m: Mem, bs: seq<Block>, i: nat)
    requires Written(m, bs) && Placed(bs) && i < |bs|
    ensures Stamped(m, MergeLeft(bs, i), AbsorbIntoPrevMem(m, bs[i].addr)) && Placed(MergeLeft(bs, i))
  {
    hide AbsorbIntoPrevMem, Placed, Written, Outside, FuseMem;
    StampedAsIs(m, bs);
    AbsorbIntoPrevFuses(m, bs, i);
    if 0 < i && bs[i - 1].free {
      FuseStamps(m, bs, i - 1);
    }
  }
}
