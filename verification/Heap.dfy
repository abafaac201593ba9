/**
 The kernel heap (kernel/mem.c): first fit over an address-ordered, doubly linked list of
 blocks that tile the heap, with splitting on allocation and coalescing on release.

 `HeapSpec` is the value-level account: a heap is the sequence of its blocks.
 */
module HeapSpec {
  import opened Words

  const HEADER: nat := 20              // sizeof(block_t) on i386
  const MIN_LEFTOVER: nat := 16

  datatype Block = Block(addr: nat, size: nat, free: bool) {
    function End(): nat { addr + HEADER + size }
  }

  // ----- the invariant

  /**
   The blocks cover `[lo, hi)` exactly, in address order and 4-aligned, and no two neighbours
   are both free; `afterFree` says whether the block just before `lo` is free.
   */
  ghost predicate Chain(bs: seq<Block>, lo: nat, hi: nat, afterFree: bool) {
    if bs == [] then lo == hi
    else
      && bs[0].addr == lo && lo % 4 == 0
      && !(afterFree && bs[0].free)
      && Chain(bs[1..], bs[0].End(), hi, bs[0].free)
  }

  ghost predicate WellFormed(bs: seq<Block>, lo: nat, hi: nat) {
    bs != [] && Chain(bs, lo, hi, false)
  }

  // ----- the operations

  /** The size rounding of `kmalloc`, in 32-bit arithmetic. */
  function Round(request: nat): (n: nat)
    ensures n % 8 == 0 && n % 4 == 0
  { (request + 7) % WORD / 8 * 8 }

  /** Index of the first free block of at least `n` bytes, or `|bs|`. */
  function FirstFit(bs: seq<Block>, n: nat): (i: nat)
    ensures i <= |bs|
    ensures forall j | 0 <= j < i :: !(bs[j].free && bs[j].size >= n)
    ensures i < |bs| ==> bs[i].free && bs[i].size >= n
  {
    if bs == [] then 0
    else if bs[0].free && bs[0].size >= n then 0
    else 1 + FirstFit(bs[1..], n)
  }

  /** A chosen free block after the allocation: taken whole, or split in two. */
  function Carve(b: Block, n: nat): (r: seq<Block>)
    requires b.size >= n
  {
    if b.size < n + HEADER + MIN_LEFTOVER then [b.(free := false)]
    else [Block(b.addr, n, false), Block(b.addr + HEADER + n, b.size - n - HEADER, true)]
  }

  function Allocate(bs: seq<Block>, n: nat): seq<Block> {
    var i := FirstFit(bs, n);
    if i == |bs| then bs else bs[..i] + Carve(bs[i], n) + bs[i + 1..]
  }

  /** Block `i` absorbs its right neighbour when that one is free. */
  function MergeRight(bs: seq<Block>, i: nat): seq<Block>
    requires i < |bs|
  {
    if i + 1 < |bs| && bs[i + 1].free
    then bs[..i] + [bs[i].(size := bs[i].size + bs[i + 1].size + HEADER)] + bs[i + 2..]
    else bs
  }

  /** Block `i` is absorbed by its left neighbour when that one is free. */
  function MergeLeft(bs: seq<Block>, i: nat): seq<Block>
    requires i < |bs|
  {
    if 0 < i && bs[i - 1].free
    then bs[..i - 1] + [bs[i - 1].(size := bs[i - 1].size + bs[i].size + HEADER)] + bs[i + 1..]
    else bs
  }

  function Release(bs: seq<Block>, i: nat): seq<Block>
    requires i < |bs|
  {
    MergeLeft(MergeRight(bs[i := bs[i].(free := true)], i), i)
  }

  // ----- what the blocks hold

  /** The blocks in use, in address order. */
  function Live(bs: seq<Block>): seq<Block> {
    if bs == [] then []
    else if bs[0].free then Live(bs[1..])
    else [bs[0]] + Live(bs[1..])
  }

  /** Bytes taken by some blocks, headers included. */
  function Bytes(bs: seq<Block>): nat {
    if bs == [] then 0 else HEADER + bs[0].size + Bytes(bs[1..])
  }

  function FreeBytes(bs: seq<Block>): nat {
    if bs == [] then 0
    else (if bs[0].free then HEADER + bs[0].size else 0) + FreeBytes(bs[1..])
  }

  // ----- concatenation

  ghost function LastFree(bs: seq<Block>, afterFree: bool): bool {
    if bs == [] then afterFree else bs[|bs| - 1].free
  }

  lemma {:induction false} ChainConcat(a: seq<Block>, b: seq<Block>, lo: nat, mid: nat, hi: nat, f: bool)
    requires Chain(a, lo, mid, f) && Chain(b, mid, hi, LastFree(a, f))
    ensures Chain(a + b, lo, hi, f)
  {
    if a == [] {
      assert a + b == b;
    } else {
      ChainConcat(a[1..], b, a[0].End(), mid, hi, a[0].free);
      assert (a + b)[1..] == a[1..] + b;
    }
  }

  lemma {:induction false} ChainSplit(a: seq<Block>, b: seq<Block>, lo: nat, hi: nat, f: bool) returns (mid: nat)
    requires Chain(a + b, lo, hi, f)
    ensures Chain(a, lo, mid, f) && Chain(b, mid, hi, LastFree(a, f))
    ensures b != [] ==> mid == b[0].addr
  {
    if a == [] {
      assert a + b == b;
      mid := lo;
    } else {
      assert (a + b)[1..] == a[1..] + b;
      mid := ChainSplit(a[1..], b, a[0].End(), hi, a[0].free);
    }
  }

  /** Tiling puts the blocks in address order, each ending where the next begins. */
  lemma {:induction false} ChainOrder(bs: seq<Block>, lo: nat, hi: nat, f: bool)
    requires Chain(bs, lo, hi, f)
    ensures lo <= hi
    ensures forall i | 0 <= i < |bs| :: lo <= bs[i].addr && bs[i].End() <= hi && bs[i].addr % 4 == 0
    ensures forall i, j | 0 <= i < j < |bs| :: bs[i].End() <= bs[j].addr
  {
    if bs != [] {
      var rest := bs[1..];
      ChainOrder(rest, bs[0].End(), hi, bs[0].free);
      assert forall i | 1 <= i < |bs| :: bs[i] == rest[i - 1];
    }
  }

  /** Neighbours: block `i` ends where block `i + 1` begins, and they are not both free. */
  lemma ChainNext(bs: seq<Block>, lo: nat, hi: nat, i: nat)
    requires Chain(bs, lo, hi, false) && i < |bs|
    ensures if i + 1 < |bs| then bs[i].End() == bs[i + 1].addr && !(bs[i].free && bs[i + 1].free)
            else bs[i].End() == hi
  {
    assert bs == bs[..i] + bs[i..];
    var mid := ChainSplit(bs[..i], bs[i..], lo, hi, false);
    var tail := bs[i..][1..];
    assert Chain(tail, bs[i].End(), hi, bs[i].free);
    if i + 1 < |bs| {
      assert tail[0] == bs[i + 1];
    }
  }

  lemma {:induction false} LiveConcat(a: seq<Block>, b: seq<Block>)
    ensures Live(a + b) == Live(a) + Live(b)
  {
    if a == [] {
      assert a + b == b;
    } else {
      var t := a[1..];
      LiveConcat(t, b);
      Unfold(a, b);
      assert [a[0]] + (Live(t) + Live(b)) == ([a[0]] + Live(t)) + Live(b);
    }
  }

  lemma Unfold(a: seq<Block>, b: seq<Block>)
    requires a != []
    ensures a + b != [] && (a + b)[0] == a[0] && (a + b)[1..] == a[1..] + b
  {
  }

  lemma {:induction false} BytesConcat(a: seq<Block>, b: seq<Block>)
    ensures Bytes(a + b) == Bytes(a) + Bytes(b)
  {
    if a == [] {
      assert a + b == b;
    } else {
      BytesConcat(a[1..], b);
      assert (a + b)[1..] == a[1..] + b;
    }
  }

  lemma Live3(a: seq<Block>, m: seq<Block>, b: seq<Block>)
    ensures Live(a + m + b) == Live(a) + Live(m) + Live(b)
  {
    LiveConcat(a + m, b);
    LiveConcat(a, m);
  }

  lemma LiveOne(b: Block)
    ensures Live([b]) == if b.free then [] else [b]
  {
    assert [b][1..] == [];
  }

  /** Conservation: what is in use and what is free add up to the heap. */
  lemma {:induction false} BytesConserved(bs: seq<Block>, lo: nat, hi: nat, f: bool)
    requires Chain(bs, lo, hi, f)
    ensures Bytes(Live(bs)) + FreeBytes(bs) == hi - lo
  {
    if bs != [] {
      BytesConserved(bs[1..], bs[0].End(), hi, bs[0].free);
      if !bs[0].free {
        assert Live(bs)[1..] == Live(bs[1..]);
      }
    }
  }

  // ----- allocation keeps the invariant

  lemma CarveFacts(b: Block, n: nat)
    requires b.free && b.size >= n && b.addr % 4 == 0 && n % 4 == 0
    ensures Chain(Carve(b, n), b.addr, b.End(), false)
    ensures Live(Carve(b, n)) == [Carve(b, n)[0]]
    ensures Live(Carve(b, n)[1..]) == []
  {
    var c := Carve(b, n);
    if |c| == 1 {
      assert c == [c[0]];
      assert c[1..] == [];
    } else {
      assert c == [c[0]] + [c[1]];
      LiveConcat([c[0]], [c[1]]);
      LiveOne(c[0]);
      LiveOne(c[1]);
      assert c[1..] == [c[1]];
      assert [c[1]][1..] == [];
    }
  }

  /** `kmalloc` keeps the heap well formed. */
  lemma AllocateKeeps(bs: seq<Block>, n: nat, lo: nat, hi: nat)
    requires WellFormed(bs, lo, hi) && n % 4 == 0
    ensures WellFormed(Allocate(bs, n), lo, hi)
  {
    var i := FirstFit(bs, n);
    if i < |bs| {
      var a, c, z := bs[..i], Carve(bs[i], n), bs[i + 1..];
      assert bs == a + bs[i..] && bs[i..][1..] == z;
      var p := ChainSplit(a, bs[i..], lo, hi, false);
      CarveFacts(bs[i], n);
      assert Chain(c, p, bs[i].End(), LastFree(a, false));
      ChainConcat(a, c, lo, p, bs[i].End(), false);
      ChainWeaken(z, bs[i].End(), hi, LastFree(a + c, false));
      ChainConcat(a + c, z, lo, bs[i].End(), hi, false);
    }
  }

  lemma ChainWeaken(bs: seq<Block>, lo: nat, hi: nat, f: bool)
    requires Chain(bs, lo, hi, true)
    ensures Chain(bs, lo, hi, f)
  {
  }

  /** `kmalloc` takes exactly one new block into use, of at least the size asked for. */
  lemma AllocateTakes(bs: seq<Block>, n: nat, lo: nat, hi: nat)
    requires WellFormed(bs, lo, hi) && n % 4 == 0 && FirstFit(bs, n) < |bs|
    ensures var i := FirstFit(bs, n);
            var taken := Carve(bs[i], n)[0];
            && Live(bs) == Live(bs[..i]) + Live(bs[i + 1..])
            && Live(Allocate(bs, n)) == Live(bs[..i]) + [taken] + Live(bs[i + 1..])
            && Bytes(Live(Allocate(bs, n))) == Bytes(Live(bs)) + HEADER + taken.size
            && taken.size >= n && taken.addr == bs[i].addr && !taken.free
  {
    var i := FirstFit(bs, n);
    var a, c, z := bs[..i], Carve(bs[i], n), bs[i + 1..];
    ChainOrder(bs, lo, hi, false);
    hide Chain, Live, Bytes, FirstFit;
    CarveFacts(bs[i], n);
    LiveAround(bs, i);
    LiveOne(bs[i]);
    Live3(a, c, z);
    BytesInsert(Live(a), c[0], Live(z));
  }

  lemma BytesInsert(a: seq<Block>, b: Block, z: seq<Block>)
    ensures Bytes(a + [b] + z) == Bytes(a + z) + HEADER + b.size
  {
    BytesConcat(a + [b], z);
    BytesConcat(a, [b]);
    BytesConcat(a, z);
    assert [b][1..] == [];
  }

  // ----- release keeps the invariant

  /** The run of blocks that a release fuses: block `i` and its free neighbours. */
  ghost function RunStart(bs: seq<Block>, i: nat): (l: nat)
    requires i < |bs|
    ensures l <= i
  { if 0 < i && bs[i - 1].free then i - 1 else i }

  ghost function RunEnd(bs: seq<Block>, i: nat): (h: nat)
    requires i < |bs|
    ensures i < h <= |bs|
  { if i + 1 < |bs| && bs[i + 1].free then i + 2 else i + 1 }

  /** The two merges of `coalesce` replace that run by one free block of the same extent. */
  lemma ReleaseShape(bs: seq<Block>, i: nat, lo: nat, hi: nat)
    requires WellFormed(bs, lo, hi) && i < |bs| && !bs[i].free
    ensures var l, h := RunStart(bs, i), RunEnd(bs, i);
            && bs[l].addr + HEADER <= bs[h - 1].End()
            && Release(bs, i) == bs[..l] + [Block(bs[l].addr, bs[h - 1].End() - bs[l].addr - HEADER, true)] + bs[h..]
  {
    ChainNext(bs, lo, hi, i);
    if i > 0 { ChainNext(bs, lo, hi, i - 1); }
    var fs := bs[i := bs[i].(free := true)];
    var r := MergeRight(fs, i);
    if i + 1 < |bs| && bs[i + 1].free {
      assert r == bs[..i] + [Block(bs[i].addr, bs[i].size + bs[i + 1].size + HEADER, true)] + bs[i + 2..];
      assert r[i + 1..] == bs[i + 2..];
    } else {
      assert r[i + 1..] == bs[i + 1..];
    }
    assert r[..i] == bs[..i];
    if 0 < i && bs[i - 1].free {
      assert r[i - 1] == bs[i - 1];
      assert r[..i - 1] == bs[..i - 1];
    } else {
      assert r == r[..i] + [r[i]] + r[i + 1..];
    }
  }

  lemma {:induction false} EndsFacts(bs: seq<Block>, lo: nat, hi: nat, i: nat)
    requires WellFormed(bs, lo, hi) && i < |bs| && !bs[i].free
    ensures var l, h := RunStart(bs, i), RunEnd(bs, i);
            && !LastFree(bs[..l], false)
            && (h < |bs| ==> !bs[h].free)
            && Live(bs[l..i]) == [] == Live(bs[i + 1..h])
  {
    var l, h := RunStart(bs, i), RunEnd(bs, i);
    if l == i - 1 {
      if l > 0 { ChainNext(bs, lo, hi, l - 1); }
      assert bs[l..i] == [bs[l]];
      LiveOne(bs[l]);
    } else {
      assert bs[l..i] == [];
    }
    if h == i + 2 {
      ChainNext(bs, lo, hi, i + 1);
      assert bs[i + 1..h] == [bs[i + 1]];
      LiveOne(bs[i + 1]);
    } else {
      assert bs[i + 1..h] == [];
    }
  }

  /** Fusing a run of blocks into one free block of the same extent keeps the invariant. */
  lemma FuseKeeps(bs: seq<Block>, l: nat, h: nat, m: Block, lo: nat, hi: nat)
    requires WellFormed(bs, lo, hi) && l < h <= |bs|
    requires m.free && m.addr == bs[l].addr && m.End() == bs[h - 1].End()
    requires !LastFree(bs[..l], false) && (h < |bs| ==> !bs[h].free)
    ensures WellFormed(bs[..l] + [m] + bs[h..], lo, hi)
  {
    var a, z := bs[..l], bs[h..];
    var p := ChainSplit(a, bs[l..], lo, hi, false) by { assert bs == a + bs[l..]; }
    var q := ChainSplit(bs[..h], z, lo, hi, false) by { assert bs == bs[..h] + z; }
    ChainNext(bs, lo, hi, h - 1);
    assert q == m.End();
    assert Chain([m], p, q, LastFree(a, false)) by { assert [m][1..] == []; }
    ChainConcat(a, [m], lo, p, q, false);
    assert Chain(z, q, hi, true);
    ChainConcat(a + [m], z, lo, q, hi, false);
  }

  /** `kfree` keeps the heap well formed. */
  lemma ReleaseKeeps(bs: seq<Block>, i: nat, lo: nat, hi: nat)
    requires WellFormed(bs, lo, hi) && i < |bs| && !bs[i].free
    ensures WellFormed(Release(bs, i), lo, hi)
  {
    var l, h := RunStart(bs, i), RunEnd(bs, i);
    ReleaseShape(bs, i, lo, hi);
    EndsFacts(bs, lo, hi, i);
    FuseKeeps(bs, l, h, Block(bs[l].addr, bs[h - 1].End() - bs[l].addr - HEADER, true), lo, hi);
  }

  lemma Cut(bs: seq<Block>, i: nat, h: nat)
    requires i <= h <= |bs|
    ensures bs[i..] == bs[i..h] + bs[h..]
  {
  }

  /** Fusing a run around live block `i`, otherwise free, drops just that block from the live ones. */
  lemma FuseDrops(bs: seq<Block>, l: nat, i: nat, h: nat, m: Block)
    requires l <= i < h <= |bs| && m.free
    requires Live(bs[l..i]) == [] == Live(bs[i + 1..h])
    ensures Live(bs[..l] + [m] + bs[h..]) == Live(bs[..i]) + Live(bs[i + 1..])
  {
    hide Live;
    Live3(bs[..l], [m], bs[h..]);
    LiveOne(m);
    LiveConcat(bs[..l], bs[l..i]);
    assert bs[..i] == bs[..l] + bs[l..i];
    LiveConcat(bs[i + 1..h], bs[h..]);
    Cut(bs, i + 1, h);
  }

  lemma Around(bs: seq<Block>, i: nat)
    requires i < |bs|
    ensures bs == bs[..i] + [bs[i]] + bs[i + 1..]
  {
  }

  lemma LiveAround(bs: seq<Block>, i: nat)
    requires i < |bs|
    ensures Live(bs) == Live(bs[..i]) + Live([bs[i]]) + Live(bs[i + 1..])
  {
    Around(bs, i);
    Live3(bs[..i], [bs[i]], bs[i + 1..]);
  }

  lemma ReleaseLive(bs: seq<Block>, i: nat, lo: nat, hi: nat)
    requires WellFormed(bs, lo, hi) && i < |bs| && !bs[i].free
    ensures Live(Release(bs, i)) == Live(bs[..i]) + Live(bs[i + 1..])
  {
    var l, h := RunStart(bs, i), RunEnd(bs, i);
    ReleaseShape(bs, i, lo, hi);
    EndsFacts(bs, lo, hi, i);
    FuseDrops(bs, l, i, h, Block(bs[l].addr, bs[h - 1].End() - bs[l].addr - HEADER, true));
  }

  /** `kfree` takes exactly the named block out of use. */
  lemma ReleaseDrops(bs: seq<Block>, i: nat, lo: nat, hi: nat)
    requires WellFormed(bs, lo, hi) && i < |bs| && !bs[i].free
    ensures Live(bs) == Live(bs[..i]) + [bs[i]] + Live(bs[i + 1..])
    ensures Live(Release(bs, i)) == Live(bs[..i]) + Live(bs[i + 1..])
    ensures Bytes(Live(Release(bs, i))) + HEADER + bs[i].size == Bytes(Live(bs))
  {
    LiveAround(bs, i);
    LiveOne(bs[i]);
    ReleaseLive(bs, i, lo, hi);
    BytesInsert(Live(bs[..i]), bs[i], Live(bs[i + 1..]));
  }

  // ----- canonical form

  lemma {:induction false} LiveMembers(bs: seq<Block>)
    ensures forall b :: b in Live(bs) <==> b in bs && !b.free
  {
    if bs != [] {
      LiveMembers(bs[1..]);
      assert bs == [bs[0]] + bs[1..];
    }
  }

  /** Where the first block ends is decided by the live blocks alone. */
  lemma FirstEnd(bs: seq<Block>, lo: nat, hi: nat, f: bool)
    requires bs != [] && Chain(bs, lo, hi, f)
    ensures bs[0].free ==> Live(bs) == Live(bs[1..])
    ensures bs[0].free && Live(bs) == [] ==> bs[0].End() == hi
    ensures bs[0].free && Live(bs) != [] ==> bs[0].End() == Live(bs)[0].addr
    ensures !bs[0].free ==> Live(bs) != [] && Live(bs)[0] == bs[0] && Live(bs)[1..] == Live(bs[1..])
  {
    if bs[0].free && |bs| > 1 {
      var t := bs[1..];
      assert Live(t) == [t[0]] + Live(t[1..]);
    }
  }

  /**
   The live blocks determine the whole heap: there is one coalesced tiling around them. So what
   the heap looks like depends on what is allocated, never on the order of calls that led there.
   */
  lemma {:induction false} Canonical(a: seq<Block>, b: seq<Block>, lo: nat, hi: nat, f: bool)
    requires Chain(a, lo, hi, f) && Chain(b, lo, hi, f)
    requires Live(a) == Live(b)
    ensures a == b
  {
    ChainOrder(a, lo, hi, f);
    ChainOrder(b, lo, hi, f);
    if a != [] && b != [] {
      FirstEnd(a, lo, hi, f);
      FirstEnd(b, lo, hi, f);
      assert a[0] == b[0];
      Canonical(a[1..], b[1..], a[0].End(), hi, a[0].free);
      assert a == [a[0]] + a[1..] && b == [b[0]] + b[1..];
    }
  }

  // ----- allocation laws

  /** Releasing what was just allocated restores the exact block list. */
  lemma AllocateThenRelease(bs: seq<Block>, n: nat, lo: nat, hi: nat)
    requires WellFormed(bs, lo, hi) && n % 4 == 0
    requires FirstFit(bs, n) < |bs|
    ensures FirstFit(bs, n) < |Allocate(bs, n)| && !Allocate(bs, n)[FirstFit(bs, n)].free
    ensures Release(Allocate(bs, n), FirstFit(bs, n)) == bs
  {
    var i := FirstFit(bs, n);
    var after := Allocate(bs, n);
    var c := Carve(bs[i], n);
    AllocateKeeps(bs, n, lo, hi);
    AllocateTakes(bs, n, lo, hi);
    assert after[..i] == bs[..i] && after[i] == c[0];
    assert after[i + 1..] == c[1..] + bs[i + 1..];
    ReleaseKeeps(after, i, lo, hi);
    ReleaseDrops(after, i, lo, hi);
    ChainOrder(bs, lo, hi, false);
    CarveFacts(bs[i], n);
    LiveConcat(c[1..], bs[i + 1..]);
    Canonical(Release(after, i), bs, lo, hi, false);
  }

  /** The block starting at `addr`, or `|bs|`. */
  function IndexOf(bs: seq<Block>, addr: nat): (i: nat)
    ensures i <= |bs|
    ensures i < |bs| ==> bs[i].addr == addr
    ensures i == |bs| ==> forall b | b in bs :: b.addr != addr
  {
    if bs == [] then 0 else if bs[0].addr == addr then 0 else 1 + IndexOf(bs[1..], addr)
  }

  /** `kfree` on a block address: releasing a free block is a no-op. */
  function Free(bs: seq<Block>, addr: nat): seq<Block> {
    var i := IndexOf(bs, addr);
    if i < |bs| && !bs[i].free then Release(bs, i) else bs
  }

  function FreeAll(bs: seq<Block>, addrs: seq<nat>): seq<Block>
    decreases |addrs|
  {
    if addrs == [] then bs else FreeAll(Free(bs, addrs[0]), addrs[1..])
  }

  lemma FreeKeeps(bs: seq<Block>, addr: nat, lo: nat, hi: nat)
    requires WellFormed(bs, lo, hi)
    ensures WellFormed(Free(bs, addr), lo, hi)
    ensures forall b | b in Live(Free(bs, addr)) :: b in Live(bs) && b.addr != addr
  {
    var i := IndexOf(bs, addr);
    LiveMembers(bs);
    ChainOrder(bs, lo, hi, false);
    if i < |bs| && !bs[i].free {
      ReleaseKeeps(bs, i, lo, hi);
      ReleaseDrops(bs, i, lo, hi);
      LiveMembers(bs[..i]);
      LiveMembers(bs[i + 1..]);
    } else if i < |bs| {
      forall b | b in Live(bs) ensures b.addr != addr {
        var k :| 0 <= k < |bs| && bs[k] == b;
        assert k != i;
      }
    }
  }

  lemma NoMember(s: seq<Block>)
    ensures s == [] || exists b :: b in s
  {
    assert s == [] || s[0] in s;
  }

  /** Freeing every live block, in any order, leaves the single free block of a fresh heap. */
  lemma {:induction false} FreeAllRestores(bs: seq<Block>, addrs: seq<nat>, lo: nat, hi: nat)
    requires WellFormed(bs, lo, hi) && hi >= lo + HEADER
    requires forall b | b in Live(bs) :: b.addr in addrs
    ensures FreeAll(bs, addrs) == [Block(lo, hi - lo - HEADER, true)]
    decreases |addrs|
  {
    if addrs == [] {
      var whole := Block(lo, hi - lo - HEADER, true);
      assert [whole][1..] == [];
      LiveOne(whole);
      assert Live(bs) == [] by { NoMember(Live(bs)); }
      Canonical(bs, [whole], lo, hi, false);
    } else {
      FreeKeeps(bs, addrs[0], lo, hi);
      FreeAllRestores(Free(bs, addrs[0]), addrs[1..], lo, hi);
    }
  }

  // ----- first fit against the live blocks alone

  /** `n` bytes and a header fit at `a` without touching a live block. */
  ghost predicate Fits(live: seq<Block>, lo: nat, hi: nat, a: nat, n: nat) {
    && lo <= a && a + HEADER + n <= hi
    && forall b | b in live :: a + HEADER + n <= b.addr || b.End() <= a
  }

  lemma {:induction false} Covering(bs: seq<Block>, lo: nat, hi: nat, f: bool, a: nat) returns (k: nat)
    requires Chain(bs, lo, hi, f) && lo <= a < hi
    ensures k < |bs| && bs[k].addr <= a < bs[k].End()
  {
    if a < bs[0].End() {
      k := 0;
    } else {
      k := Covering(bs[1..], bs[0].End(), hi, bs[0].free, a);
      k := k + 1;
    }
  }

  /** Anything that fits between live blocks lies in one free block, no earlier than first fit. */
  lemma FitsInFreeBlock(bs: seq<Block>, lo: nat, hi: nat, a: nat, n: nat)
    requires WellFormed(bs, lo, hi) && Fits(Live(bs), lo, hi, a, n)
    ensures FirstFit(bs, n) < |bs| && bs[FirstFit(bs, n)].addr <= a
  {
    var k := Covering(bs, lo, hi, false, a);
    LiveMembers(bs);
    ChainNext(bs, lo, hi, k);
    assert bs[k].free by { assert bs[k] in bs; }
    if k + 1 < |bs| {
      assert bs[k + 1] in Live(bs) by { assert bs[k + 1] in bs; }
    }
    assert bs[k].size >= n;
    var i := FirstFit(bs, n);
    assert i <= k;
    ChainOrder(bs, lo, hi, false);
    assert i < k ==> bs[i].End() <= bs[k].addr;
  }

  /** The block first fit chooses is itself a place where the request fits. */
  lemma FirstFitFits(bs: seq<Block>, lo: nat, hi: nat, n: nat)
    requires WellFormed(bs, lo, hi) && FirstFit(bs, n) < |bs|
    ensures Fits(Live(bs), lo, hi, bs[FirstFit(bs, n)].addr, n)
  {
    var i := FirstFit(bs, n);
    LiveMembers(bs);
    ChainOrder(bs, lo, hi, false);
    forall b | b in Live(bs) ensures bs[i].End() <= b.addr || b.End() <= bs[i].addr {
      var k :| 0 <= k < |bs| && bs[k] == b;
      assert k != i;
    }
  }

  /**
   `kmalloc` fails exactly when no stretch between live blocks can hold the request, and
   otherwise serves it at the lowest address where it fits.
   */
  lemma FirstFitIsLowest(bs: seq<Block>, lo: nat, hi: nat, n: nat)
    requires WellFormed(bs, lo, hi)
    ensures FirstFit(bs, n) < |bs| ==> exists a: nat :: Fits(Live(bs), lo, hi, a, n)
    ensures FirstFit(bs, n) == |bs| ==> forall a: nat :: !Fits(Live(bs), lo, hi, a, n)
    ensures FirstFit(bs, n) < |bs| ==>
              && Fits(Live(bs), lo, hi, bs[FirstFit(bs, n)].addr, n)
              && forall a: nat | Fits(Live(bs), lo, hi, a, n) :: bs[FirstFit(bs, n)].addr <= a
  {
    var i := FirstFit(bs, n);
    if i < |bs| {
      FirstFitFits(bs, lo, hi, n);
      var a := bs[i].addr;
      assert Fits(Live(bs), lo, hi, a, n);
    }
    forall a: nat | Fits(Live(bs), lo, hi, a, n) ensures i < |bs| && bs[i].addr <= a {
      FitsInFreeBlock(bs, lo, hi, a, n);
    }
  }

  /** The block handed out holds the request exactly when rounding does not wrap. */
  lemma RoundHoldsRequest(request: nat)
    requires request < WORD
    ensures Round(request) >= request <==> request <= 0xFFFF_FFF8
    ensures request > 0xFFFF_FFF8 ==> Round(request) == 0
    ensures Round(request) % 8 == 0 && (request <= 0xFFFF_FFF8 ==> Round(request) < request + 8)
  {
    if request <= 0xFFFF_FFF8 {
      assert (request + 7) % WORD == request + 7;
    } else {
      assert (request + 7) % WORD == request + 7 - WORD;
    }
  }

  // ----- effect on the bytes in use

  lemma AllocateEffect(bs: seq<Block>, n: nat, lo: nat, hi: nat)
    requires WellFormed(bs, lo, hi) && n % 4 == 0
    ensures WellFormed(Allocate(bs, n), lo, hi)
    ensures var i := FirstFit(bs, n);
            if i == |bs| then Allocate(bs, n) == bs
            else Bytes(Live(Allocate(bs, n))) == Bytes(Live(bs)) + HEADER + Carve(bs[i], n)[0].size
  {
    hide Chain, Live, Bytes, Carve;
    AllocateKeeps(bs, n, lo, hi);
    if FirstFit(bs, n) < |bs| {
      AllocateTakes(bs, n, lo, hi);
    }
  }

  lemma ReleaseEffect(bs: seq<Block>, i: nat, lo: nat, hi: nat)
    requires WellFormed(bs, lo, hi) && i < |bs| && !bs[i].free
    ensures WellFormed(Release(bs, i), lo, hi)
    ensures Bytes(Live(Release(bs, i))) + HEADER + bs[i].size == Bytes(Live(bs))
  {
    ReleaseKeeps(bs, i, lo, hi);
    ReleaseDrops(bs, i, lo, hi);
  }
}
