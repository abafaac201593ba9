/**
 Runs of `kmalloc` and `kfree` over blocks and memory together, also of a `kfree` on a pointer
 that was freed before. What the kernel does then depends on the bytes it finds: a header that was
 merged away stays behind in memory until a later one is written over it.
 */
module HeapRuns {
  import opened B = Bytes
  import opened Words
  import opened HeapSpec
  import opened Memory
  import opened HeapMemory

  datatype Heap = Heap(blocks: seq<Block>, mem: Mem)

  ghost predicate HeapOk(h: Heap, hi: nat) {
    && WellFormed(h.blocks, HEAP_BASE, hi) && hi <= HEAP_BASE + HEAP_MAX_SIZE
    && Written(h.mem, h.blocks)
  }

  // ----- the calls

  datatype Call =
    | Malloc(request: nat)
    | FreeAt(ptr: nat)
    | Store(addr: nat, value: byte)     // the owner of a block writes to it

  /** What a `kfree` comes to; `Wild` is one that takes something else for a block in use. */
  datatype Outcome = Nothing | Released | Panic | Wild

  /** Where `kfree` looks for the header of a pointer, in 32-bit arithmetic. */
  function HeaderAddress(ptr: nat): (a: nat)
    ensures a < WORD
  { (ptr + WORD - HEADER) % WORD }

  function Verdict(h: Heap, ptr: nat): Outcome
    requires ptr < WORD
  {
    var block := (ptr + WORD - HEADER) % WORD;
    if ptr == 0 then Nothing
    else if Get(h.mem, block, Magic) != BLOCK_MAGIC then Panic
    else if IsFree(h.mem, block) then Nothing
    else if IndexOf(h.blocks, block) < |h.blocks| then Released
    else Wild
  }

  /** The address lies in the payload of a block in use. */
  predicate Owned(bs: seq<Block>, k: nat) {
    exists i :: 0 <= i < |bs| && !bs[i].free && bs[i].addr + HEADER <= k < bs[i].End()
  }

  /** A call that neither panics nor runs wild; an owner writes to its own block only. */
  predicate Calm(h: Heap, c: Call) {
    match c
    case Malloc(request) => request < WORD
    case FreeAt(ptr) => ptr < WORD && Verdict(h, ptr) != Panic && Verdict(h, ptr) != Wild
    case Store(addr, _) => addr < WORD && Owned(h.blocks, addr)
  }

  function Step(h: Heap, c: Call): Heap
    requires Calm(h, c)
  {
    match c
    case Malloc(request) =>
      var n := Round(request);
      var i := FirstFit(h.blocks, n);
      if request == 0 || i == |h.blocks| then h
      else Heap(Allocate(h.blocks, n), MallocMem(h.mem, h.blocks[i].addr, n))
    case FreeAt(ptr) =>
      if Verdict(h, ptr) == Released then Heap(Free(h.blocks, HeaderAddress(ptr)), FreeMem(h.mem, HeaderAddress(ptr)))
      else h
    case Store(addr, value) => h.(mem := h.mem[addr := value])
  }

  predicate CalmRun(h: Heap, calls: seq<Call>)
    decreases |calls|
  {
    calls == [] || (Calm(h, calls[0]) && CalmRun(Step(h, calls[0]), calls[1..]))
  }

  function Run(h: Heap, calls: seq<Call>): Heap
    requires CalmRun(h, calls)
    decreases |calls|
  {
    if calls == [] then h else Run(Step(h, calls[0]), calls[1..])
  }

  // ----- the lists of blocks that a call writes into memory, one after the other

  ghost function Releases(bs: seq<Block>, i: nat): (r: seq<seq<Block>>)
    requires i < |bs|
    ensures |r| == 3 && r[2] == Release(bs, i)
  {
    var flagged := bs[i := bs[i].(free := true)];
    [flagged, MergeRight(flagged, i), MergeLeft(MergeRight(flagged, i), i)]
  }

  ghost function Stamps(h: Heap, c: Call): seq<seq<Block>>
    requires Calm(h, c)
  {
    match c
    case Malloc(request) =>
      if request == 0 || FirstFit(h.blocks, Round(request)) == |h.blocks| then []
          else [Allocate(h.blocks, Round(request))]
    case FreeAt(ptr) =>
      if Verdict(h, ptr) == Released then Releases(h.blocks, IndexOf(h.blocks, HeaderAddress(ptr))) else []
    case Store(_, _) => []
  }

  /** The lists that a whole run writes. */
  ghost function Lists(h: Heap, calls: seq<Call>): seq<seq<Block>>
    requires CalmRun(h, calls)
    decreases |calls|
  {
    if calls == [] then [] else Stamps(h, calls[0]) + Lists(Step(h, calls[0]), calls[1..])
  }

  /** A release writes three lists in turn. */
  lemma ReleaseStamps(m: Mem, bs: seq<Block>, i: nat)
    requires Written(m, bs) && Placed(bs) && i < |bs|
    ensures var rs := Releases(bs, i); var block := bs[i].addr;
            var m1 := PutFree(m, block, true);
            var m2 := AbsorbNextMem(m1, block);
            && Stamped(m, rs[0], m1) && Stamped(m1, rs[1], m2) && Stamped(m2, rs[2], FreeMem(m, block))
            && Placed(rs[0]) && Placed(rs[1]) && Placed(rs[2])
  {
    hide Stamped, Placed, PutFree, AbsorbNextMem, AbsorbIntoPrevMem;
    var block := bs[i].addr;
    var flagged := bs[i := bs[i].(free := true)];
    FlagStamps(m, bs, i, true);
    var m1 := PutFree(m, block, true);
    StampedWritten(m, flagged, m1);
    NextStamps(m1, flagged, i);
    var m2 := AbsorbNextMem(m1, block);
    StampedWritten(m1, MergeRight(flagged, i), m2);
    PrevStamps(m2, MergeRight(flagged, i), i);
  }

  lemma StampedWritten(m: Mem, bs: seq<Block>, r: Mem)
    requires Stamped(m, bs, r)
    ensures Written(r, bs)
  {
  }

  // ----- whole runs

  lemma StepKeeps(h: Heap, c: Call, hi: nat)
    requires HeapOk(h, hi) && Calm(h, c)
    ensures HeapOk(Step(h, c), hi)
  {
    hide WellFormed, Allocate, Release, FirstFit, Round, MallocMem, FreeMem, Written, Placed;
    PlacedFrom(h.blocks, hi);
    match c
    case Malloc(request) =>
      if request != 0 && FirstFit(h.blocks, Round(request)) < |h.blocks| {
        var i := FirstFit(h.blocks, Round(request));
        AllocateKeeps(h.blocks, Round(request), HEAP_BASE, hi);
        AllocateStamps(h.mem, h.blocks, Round(request));
        StampedWritten(h.mem, Allocate(h.blocks, Round(request)), MallocMem(h.mem, h.blocks[i].addr, Round(request)));
      }
    case FreeAt(ptr) =>
      if Verdict(h, ptr) == Released {
        var i := IndexOf(h.blocks, HeaderAddress(ptr));
        Reads(h.mem, h.blocks, i);
        ReleaseKeeps(h.blocks, i, HEAP_BASE, hi);
        ReleaseStamps(h.mem, h.blocks, i);
      }
    case Store(addr, value) => StoreKeeps(h, addr, value, hi);
  }

  lemma StoreKeeps(h: Heap, addr: nat, value: byte, hi: nat)
    requires HeapOk(h, hi) && Calm(h, Store(addr, value))
    ensures HeapOk(Step(h, Store(addr, value)), hi)
  {
    PlacedFrom(h.blocks, hi);
    var m := h.mem[addr := value];
    var j :| 0 <= j < |h.blocks| && !h.blocks[j].free && h.blocks[j].addr + HEADER <= addr < h.blocks[j].End();
    hide Holds, WellFormed;
    forall i {:trigger HeaderOf(h.blocks, i)} | 0 <= i < |h.blocks|
           ensures Holds(m, h.blocks[i].addr, HeaderOf(h.blocks, i)) {
      Reads(h.mem, h.blocks, i);
      assert i < j ==> Before(h.blocks, i, j);
      assert j < i ==> Before(h.blocks, j, i);
      HoldsSame(h.mem, m, h.blocks[i].addr, HeaderOf(h.blocks, i));
    }
  }

  /**
   Whatever is allocated and freed, in whatever order and however often: as long as no `kfree`
   panics or runs wild, memory holds a well-formed list, no byte is lost, and no two blocks overlap.
   */
  lemma {:induction false} RunKeeps(h: Heap, calls: seq<Call>, hi: nat)
    requires HeapOk(h, hi) && CalmRun(h, calls)
    ensures var r := Run(h, calls);
            && HeapOk(r, hi)
            && HeapSpec.Bytes(Live(r.blocks)) + FreeBytes(r.blocks) == hi - HEAP_BASE
            && forall i, j | 0 <= i < j < |r.blocks| :: r.blocks[i].End() <= r.blocks[j].addr
    decreases |calls|
  {
    hide Step, Calm, Chain, Live, HeapSpec.Bytes, FreeBytes, Written;
    if calls == [] {
      BytesConserved(h.blocks, HEAP_BASE, hi, false);
      ChainOrder(h.blocks, HEAP_BASE, hi, false);
    } else {
      StepKeeps(h, calls[0], hi);
      RunKeeps(Step(h, calls[0]), calls[1..], hi);
    }
  }

  // ----- what owners have stored

  lemma FlagOutside(bs: seq<Block>, i: nat, k: nat)
    requires i < |bs| && Outside(bs, k)
    ensures Outside(bs[i := bs[i].(free := true)], k)
  {
    var r := bs[i := bs[i].(free := true)];
    assert forall j | 0 <= j < |r| :: r[j].addr == bs[j].addr;
  }

  lemma FuseOutsideStill(bs: seq<Block>, i: nat, k: nat)
    requires i + 1 < |bs| && Outside(bs, k)
    ensures Outside(FuseAt(bs, i), k)
  {
    var r := FuseAt(bs, i);
    FusesConcat(bs, i, r[i]);
    forall j | 0 <= j < |r| ensures !InHeader(r[j].addr, k) {
      assert r[j].addr == bs[if j <= i then j else j + 1].addr;
    }
  }

  /** All that a release writes are headers of the old list. */
  lemma ReleaseOutside(bs: seq<Block>, i: nat, k: nat)
    requires i < |bs| && Outside(bs, k)
    ensures forall l | l in Releases(bs, i) :: Outside(l, k)
  {
    hide Outside;
    var flagged := bs[i := bs[i].(free := true)];
    FlagOutside(bs, i, k);
    if i + 1 < |bs| && flagged[i + 1].free {
      FuseOutsideStill(flagged, i, k);
    }
    var merged := MergeRight(flagged, i);
    if 0 < i && merged[i - 1].free {
      FuseOutsideStill(merged, i - 1, k);
    }
  }

  lemma OwnedOutside(bs: seq<Block>, k: nat)
    requires Ordered(bs) && Owned(bs, k)
    ensures Outside(bs, k)
  {
    var j :| 0 <= j < |bs| && !bs[j].free && bs[j].addr + HEADER <= k < bs[j].End();
    forall i | 0 <= i < |bs| ensures !InHeader(bs[i].addr, k) {
      assert i < j ==> Before(bs, i, j);
      assert j < i ==> Before(bs, j, i);
    }
  }

  lemma OwnedStill(bs: seq<Block>, n: nat, hi: nat, k: nat)
    requires WellFormed(bs, HEAP_BASE, hi) && n % 4 == 0 && FirstFit(bs, n) < |bs| && Owned(bs, k)
    ensures Owned(Allocate(bs, n), k)
  {
    var j :| 0 <= j < |bs| && !bs[j].free && bs[j].addr + HEADER <= k < bs[j].End();
    var i := FirstFit(bs, n);
    var r := Allocate(bs, n);
    assert r[if j < i then j else j + |Carve(bs[i], n)| - 1] == bs[j];
  }

  /** No call but its owner's stores changes a byte of a block in use, not even the call that frees it. */
  lemma StepPayload(h: Heap, c: Call, hi: nat, k: nat)
    requires HeapOk(h, hi) && Calm(h, c) && k < WORD && Owned(h.blocks, k)
    requires c.Store? ==> c.addr != k
    ensures Step(h, c).mem[k] == h.mem[k]
  {
    hide WellFormed, Owned, Outside, Allocate, Release, MallocMem, Written, Placed, Releases;
    PlacedFrom(h.blocks, hi);
    PlacedOrdered(h.blocks);
    match c
    case Malloc(request) =>
      if request != 0 && FirstFit(h.blocks, Round(request)) < |h.blocks| {
        AllocateStamps(h.mem, h.blocks, Round(request));
        OwnedStill(h.blocks, Round(request), hi, k);
        PlacedOrdered(Allocate(h.blocks, Round(request)));
        OwnedOutside(Allocate(h.blocks, Round(request)), k);
      }
    case FreeAt(ptr) =>
      if Verdict(h, ptr) == Released {
        var i := IndexOf(h.blocks, HeaderAddress(ptr));
        ReleaseStamps(h.mem, h.blocks, i);
        OwnedOutside(h.blocks, k);
        ReleaseOutside(h.blocks, i, k);
      }
    case Store(_, _) =>
  }

  /** The byte belongs to a block in use all along, and nobody stores to it. */
  predicate Undisturbed(h: Heap, calls: seq<Call>, k: nat)
    requires CalmRun(h, calls)
    decreases |calls|
  {
    calls == [] || (Owned(h.blocks, k) && (calls[0].Store? ==> calls[0].addr != k)
        && Undisturbed(Step(h, calls[0]), calls[1..], k))
  }

  /** Over any run, what an owner has stored stays until it stores something else. */
  lemma {:induction false} PayloadStays(h: Heap, calls: seq<Call>, hi: nat, k: nat)
    requires HeapOk(h, hi) && CalmRun(h, calls) && k < WORD && Undisturbed(h, calls, k)
    ensures Run(h, calls).mem[k] == h.mem[k]
    decreases |calls|
  {
    hide Step, Calm, HeapOk, Owned;
    if calls != [] {
      StepKeeps(h, calls[0], hi);
      StepPayload(h, calls[0], hi, k);
      PayloadStays(Step(h, calls[0]), calls[1..], hi, k);
    }
  }

  // ----- what is left of a header that was merged away

  /** `Whole`: it still says free. `InUse`: it says in use. `Broken`: it is no header any more. */
  datatype Remains = Whole | InUse | Broken

  predicate Shows(m: Mem, x: nat, r: Remains) {
    && x + HEADER < WORD
    && match r
       case Whole => Get(m, x, Magic) == BLOCK_MAGIC && IsFree(m, x)
       case InUse => Get(m, x, Magic) == BLOCK_MAGIC && !IsFree(m, x)
       case Broken => m[x + 3] <= 2 || m[x] <= 1
  }

  function SizeAt(bs: seq<Block>, a: nat): Option<nat> {
    var i := IndexOf(bs, a);
    if i < |bs| then Some(bs[i].size) else None
  }

  /** A header of the list reaches into the magic number at `x` from below. */
  ghost predicate Struck(bs: seq<Block>, x: nat) {
    exists i :: 0 <= i < |bs| && bs[i].addr < x < bs[i].addr + HEADER
  }

  /** A header of the list covers the free flag at `x`: its size does from 4 bytes on, its magic number from 8. */
  predicate Overlaid(bs: seq<Block>, x: nat) { SizeAt(bs, x + 4).Some? || SizeAt(bs, x + 8).Some? }

  /** The size of a block is written over the flag, and its low byte is 0. */
  predicate Unflagged(bs: seq<Block>, x: nat) { SizeAt(bs, x + 4).Some? && SizeAt(bs, x + 4).value % 256 == 0 }

  ghost function After(bs: seq<Block>, r: Remains, x: nat): Remains {
    if r == Broken || Struck(bs, x) then Broken
    else if !Overlaid(bs, x) then r
    else if Unflagged(bs, x) then InUse
    else Whole
  }

  ghost function AfterAll(ls: seq<seq<Block>>, r: Remains, x: nat): Remains
    decreases |ls|
  {
    if ls == [] then r else AfterAll(ls[1..], After(ls[0], r, x), x)
  }

  lemma TopByte(m: Mem, a: nat)
    requires a + 4 <= WORD && ReadWord(m, a) < 0x300_0000
    ensures m[a + 3] <= 2
  {
    var s := [m[a], m[a + 1], m[a + 2], m[a + 3]];
    assert s[..2] == [m[a], m[a + 1]] && s[2..] == [m[a + 2], m[a + 3]];
  }

  lemma StruckBreaks(m: Mem, bs: seq<Block>, x: nat, i: nat)
    requires Written(m, bs) && Placed(bs) && x % 4 == 0 && x + HEADER < WORD
    requires i < |bs| && bs[i].addr < x < bs[i].addr + HEADER
    ensures Shows(m, x, Broken)
  {
    hide ReadWord, Written, Placed, IsFree;
    Reads(m, bs, i);
    FieldsBelow(bs, i);
    var d := x - bs[i].addr;
    assert d % 4 == 0;
    if d == 4 || d == 12 || d == 16 {
      TopByte(m, x);
    }
  }

  lemma FieldsBelow(bs: seq<Block>, i: nat)
    requires Placed(bs) && i < |bs|
    ensures bs[i].addr % 4 == 0
    ensures NextOf(bs, i) < 0x300_0000 && PrevOf(bs, i) < 0x300_0000 && bs[i].size < 0x300_0000
  {
  }

  lemma NotStruck(bs: seq<Block>, x: nat, k: nat)
    requires Placed(bs) && !Struck(bs, x) && IndexOf(bs, x) == |bs| && x % 4 == 0
    requires x <= k < x + 4 || (k == x + FREE_AT && !Overlaid(bs, x))
    ensures Outside(bs, k)
  {
    forall i | 0 <= i < |bs| ensures !InHeader(bs[i].addr, k) {
      assert bs[i].addr % 4 == 0 && bs[i] in bs;
      assert bs[i].addr == x + 4 ==> IndexOf(bs, x + 4) < |bs|;
      assert bs[i].addr == x + 8 ==> IndexOf(bs, x + 8) < |bs|;
    }
  }

  lemma OverlaidFlag(m: Mem, bs: seq<Block>, x: nat)
    requires Written(m, bs) && Placed(bs) && Overlaid(bs, x) && x + HEADER < WORD
    ensures IsFree(m, x) <==> !Unflagged(bs, x)
  {
    hide ReadWord;
    if SizeAt(bs, x + 4).Some? {
      Reads(m, bs, IndexOf(bs, x + 4));
      LowByte(m, x + 8);
    } else {
      Reads(m, bs, IndexOf(bs, x + 8));
      LowByte(m, x + 8);
    }
  }

  /** What a list of headers, written over memory, makes of the remains at `x`. */
  lemma StampShows(m: Mem, bs: seq<Block>, r: Mem, x: nat, before: Remains)
    requires Stamped(m, bs, r) && Placed(bs) && IndexOf(bs, x) == |bs| && x % 4 == 0 && Shows(m, x, before)
    ensures Shows(r, x, After(bs, before, x))
  {
    hide Written, Placed, Outside, Overlaid, Unflagged, ReadWord;
    if Struck(bs, x) {
      var i :| 0 <= i < |bs| && bs[i].addr < x < bs[i].addr + HEADER;
      StruckBreaks(r, bs, x, i);
    } else {
      forall k | x <= k < x + 4 ensures r[k] == m[k] {
        NotStruck(bs, x, k);
      }
      WordSame(m, r, x);
      if Overlaid(bs, x) {
        OverlaidFlag(r, bs, x);
      } else {
        NotStruck(bs, x, x + FREE_AT);
      }
    }
  }

  /** Nothing is ever put at `x`: no block of the run starts there, and no owner stores into the 20 bytes. */
  ghost predicate Abandoned(h: Heap, calls: seq<Call>, x: nat)
    requires CalmRun(h, calls)
    decreases |calls|
  {
    && IndexOf(h.blocks, x) == |h.blocks|
    && (calls != [] ==>
          && (calls[0].Store? ==> !InHeader(x, calls[0].addr))
          && (forall l | l in Stamps(h, calls[0]) :: IndexOf(l, x) == |l|)
          && Abandoned(Step(h, calls[0]), calls[1..], x))
  }

  lemma StepShows(h: Heap, c: Call, hi: nat, x: nat, r: Remains)
    requires HeapOk(h, hi) && Calm(h, c) && x % 4 == 0 && Shows(h.mem, x, r)
    requires c.Store? ==> !InHeader(x, c.addr)
    requires forall l | l in Stamps(h, c) :: IndexOf(l, x) == |l|
    ensures Shows(Step(h, c).mem, x, AfterAll(Stamps(h, c), r, x))
  {
    hide Shows, AfterAll, MallocMem, FreeMem, Releases, Allocate, Release, FirstFit, HeapOk, Round;
    AfterNone(r, x);
    match c
    case Malloc(request) =>
      if request != 0 && FirstFit(h.blocks, Round(request)) < |h.blocks| {
        MallocShows(h, Round(request), hi, x, r);
      }
    case FreeAt(ptr) =>
      if Verdict(h, ptr) == Released {
        ReleaseShows(h, IndexOf(h.blocks, HeaderAddress(ptr)), hi, x, r);
      }
    case Store(addr, value) => StoreShows(h.mem, addr, value, x, r);
  }

  lemma MallocShows(h: Heap, n: nat, hi: nat, x: nat, r: Remains)
    requires HeapOk(h, hi) && n % 4 == 0 && FirstFit(h.blocks, n) < |h.blocks| && x % 4 == 0 && Shows(h.mem, x, r)
    requires IndexOf(Allocate(h.blocks, n), x) == |Allocate(h.blocks, n)|
    ensures Shows(MallocMem(h.mem, h.blocks[FirstFit(h.blocks, n)].addr, n), x, AfterAll([Allocate(h.blocks, n)], r, x))
  {
    hide WellFormed, Allocate, MallocMem, Written, Placed, Stamped, After, Shows, AfterAll, FirstFit;
    PlacedFrom(h.blocks, hi);
    AllocateStamps(h.mem, h.blocks, n);
    StampShows(h.mem, Allocate(h.blocks, n), MallocMem(h.mem, h.blocks[FirstFit(h.blocks, n)].addr, n), x, r);
    AfterOne(Allocate(h.blocks, n), r, x);
  }

  lemma ReleaseShows(h: Heap, i: nat, hi: nat, x: nat, r: Remains)
    requires HeapOk(h, hi) && i < |h.blocks| && x % 4 == 0 && Shows(h.mem, x, r)
    requires forall l | l in Releases(h.blocks, i) :: IndexOf(l, x) == |l|
    ensures Shows(FreeMem(h.mem, h.blocks[i].addr), x, AfterAll(Releases(h.blocks, i), r, x))
  {
    hide WellFormed, Written, Placed, Stamped, After, Shows, AfterAll, Releases, FreeMem, PutFree, AbsorbNextMem,
         IndexOf;
    var block := h.blocks[i].addr;
    PlacedFrom(h.blocks, hi);
    ReleaseStamps(h.mem, h.blocks, i);
    var m1 := PutFree(h.mem, block, true);
    var m2 := AbsorbNextMem(m1, block);
    ThreeStamps(h.mem, Releases(h.blocks, i), m1, m2, FreeMem(h.mem, block), x, r);
  }

  lemma AfterNone(r: Remains, x: nat)
    ensures AfterAll([], r, x) == r
  {
  }

  lemma AfterOne(bs: seq<Block>, r: Remains, x: nat)
    ensures AfterAll([bs], r, x) == After(bs, r, x)
  {
    assert [bs][1..] == [];
  }

  lemma ThreeStamps(m: Mem, ls: seq<seq<Block>>, m1: Mem, m2: Mem, m3: Mem, x: nat, r: Remains)
    requires |ls| == 3 && Stamped(m, ls[0], m1) && Stamped(m1, ls[1], m2) && Stamped(m2, ls[2], m3)
    requires forall l | l in ls :: Placed(l) && IndexOf(l, x) == |l|
    requires x % 4 == 0 && Shows(m, x, r)
    ensures Shows(m3, x, AfterAll(ls, r, x))
  {
    hide Stamped, Placed, After, Shows, IndexOf;
    StampShows(m, ls[0], m1, x, r);
    StampShows(m1, ls[1], m2, x, After(ls[0], r, x));
    StampShows(m2, ls[2], m3, x, After(ls[1], After(ls[0], r, x), x));
    assert ls[1..][0] == ls[1] && ls[1..][1..] == [ls[2]];
    AfterOne(ls[2], After(ls[1], After(ls[0], r, x), x), x);
  }

  lemma StoreShows(m: Mem, addr: nat, value: byte, x: nat, r: Remains)
    requires Shows(m, x, r) && addr < WORD && !InHeader(x, addr)
    ensures Shows(m[addr := value], x, r)
  {
    hide ReadWord;
    WordSame(m, m[addr := value], x);
  }

  lemma {:induction false} AfterAllConcat(a: seq<seq<Block>>, b: seq<seq<Block>>, r: Remains, x: nat)
    ensures AfterAll(a + b, r, x) == AfterAll(b, AfterAll(a, r, x), x)
    decreases |a|
  {
    if a == [] {
      assert a + b == b;
    } else {
      assert (a + b)[1..] == a[1..] + b;
      AfterAllConcat(a[1..], b, After(a[0], r, x), x);
    }
  }

  /** Over any run the remains at `x` are what the lists written since make of them. */
  lemma {:induction false} RunShows(h: Heap, calls: seq<Call>, hi: nat, x: nat, r: Remains)
    requires HeapOk(h, hi) && CalmRun(h, calls) && x % 4 == 0 && Shows(h.mem, x, r) && Abandoned(h, calls, x)
    ensures Shows(Run(h, calls).mem, x, AfterAll(Lists(h, calls), r, x))
    ensures IndexOf(Run(h, calls).blocks, x) == |Run(h, calls).blocks|
    decreases |calls|
  {
    hide Step, Calm, HeapOk, Shows, Stamps;
    if calls != [] {
      var next := Step(h, calls[0]);
      StepKeeps(h, calls[0], hi);
      StepShows(h, calls[0], hi, x, r);
      RunShows(next, calls[1..], hi, x, AfterAll(Stamps(h, calls[0]), r, x));
      AfterAllConcat(Stamps(h, calls[0]), Lists(next, calls[1..]), r, x);
    }
  }

  /** The lists in plain words: struck once is broken for good; otherwise the last header laid over the flag decides. */
  lemma {:induction false} AfterAllMeans(ls: seq<seq<Block>>, r: Remains, x: nat)
    ensures AfterAll(ls, r, x) == Broken <==> r == Broken || exists l :: l in ls && Struck(l, x)
    ensures AfterAll(ls, r, x) == InUse <==>
              && r != Broken && (forall l | l in ls :: !Struck(l, x))
              && (LastUnflags(ls, x) || (r == InUse && forall l | l in ls :: !Overlaid(l, x)))
    decreases |ls|
  {
    hide Struck, Overlaid, Unflagged;
    if ls != [] {
      var next := After(ls[0], r, x);
      assert ls == [ls[0]] + ls[1..];
      AfterAllMeans(ls[1..], next, x);
      LastFirst(ls, x);
      UnflaggedOverlays(ls[0], x);
    }
  }

  /** The last of these lists that lays a header over the flag at `x` puts a zero there. */
  ghost predicate LastUnflags(ls: seq<seq<Block>>, x: nat) {
    exists j :: 0 <= j < |ls| && Unflagged(ls[j], x) && forall k | j < k < |ls| :: !Overlaid(ls[k], x)
  }

  lemma UnflaggedOverlays(bs: seq<Block>, x: nat)
    ensures Unflagged(bs, x) ==> Overlaid(bs, x)
  {
  }

  lemma LastFirst(ls: seq<seq<Block>>, x: nat)
    requires ls != []
    ensures LastUnflags(ls, x) <==>
              LastUnflags(ls[1..], x) || (Unflagged(ls[0], x) && forall l | l in ls[1..] :: !Overlaid(l, x))
  {
    hide Overlaid, Unflagged;
    var rest := ls[1..];
    if LastUnflags(ls, x) {
      var j :| 0 <= j < |ls| && Unflagged(ls[j], x) && forall k | j < k < |ls| :: !Overlaid(ls[k], x);
      assert forall k | 0 <= k < |rest| :: rest[k] == ls[k + 1];
      if j > 0 {
        assert Unflagged(rest[j - 1], x);
      }
    }
    if LastUnflags(rest, x) {
      var j :| 0 <= j < |rest| && Unflagged(rest[j], x) && forall k | j < k < |rest| :: !Overlaid(rest[k], x);
      assert Unflagged(ls[j + 1], x);
      forall k | j + 1 < k < |ls| ensures !Overlaid(ls[k], x) {
        assert ls[k] == rest[k - 1];
      }
    }
    if Unflagged(ls[0], x) && forall l | l in rest :: !Overlaid(l, x) {
      forall k | 0 < k < |ls| ensures !Overlaid(ls[k], x) {
        assert ls[k] == rest[k - 1];
      }
    }
  }

  // ----- a second free

  lemma SomewhereListed(bs: seq<Block>, a: nat)
    ensures IndexOf(bs, a) < |bs| <==> exists i :: 0 <= i < |bs| && bs[i].addr == a
  {
    if i :| 0 <= i < |bs| && bs[i].addr == a {
      assert bs[i] in bs;
    }
  }

  /** Fusing drops one address from the list. */
  lemma FuseListed(bs: seq<Block>, i: nat, a: nat)
    requires i + 1 < |bs| && IndexOf(bs, a) < |bs|
    ensures IndexOf(FuseAt(bs, i), a) < |FuseAt(bs, i)| || a == bs[i + 1].addr
  {
    var r := FuseAt(bs, i);
    FusesConcat(bs, i, r[i]);
    SomewhereListed(r, a);
    var k := IndexOf(bs, a);
    assert k != i + 1 ==> r[if k <= i then k else k - 1].addr == a;
  }

  /** No block of these starts so close to a former one that its header would overlap. */
  ghost predicate Clear(bs: seq<Block>, x: nat) {
    forall i | 0 <= i < |bs| :: bs[i].addr == x || Far(bs[i].addr, x)
  }

  lemma ClearKeeps(bs: seq<Block>, x: nat, m: Mem, r: Mem)
    requires Stamped(m, bs, r) && Placed(bs) && Clear(bs, x) && x % 4 == 0
    requires if IndexOf(bs, x) < |bs| then bs[IndexOf(bs, x)].free else Shows(m, x, Whole)
    ensures Shows(r, x, Whole)
  {
    hide ReadWord, Written, Outside;
    if IndexOf(bs, x) < |bs| {
      Reads(r, bs, IndexOf(bs, x));
      InBounds(bs, IndexOf(bs, x));
    } else {
      StampShows(m, bs, r, x, Whole);
    }
  }

  lemma InBounds(bs: seq<Block>, i: nat)
    requires Placed(bs) && i < |bs|
    ensures bs[i].addr + HEADER < WORD && bs[i].addr % 4 == 0
  {
  }

  lemma FlagClear(bs: seq<Block>, i: nat, x: nat)
    requires Clear(bs, x) && i < |bs|
    ensures Clear(bs[i := bs[i].(free := true)], x)
  {
    var r := bs[i := bs[i].(free := true)];
    assert forall j | 0 <= j < |r| :: r[j].addr == bs[j].addr;
  }

  lemma FuseClear(bs: seq<Block>, i: nat, x: nat)
    requires Clear(bs, x) && i + 1 < |bs|
    ensures Clear(FuseAt(bs, i), x)
  {
    var r := FuseAt(bs, i);
    FusesConcat(bs, i, r[i]);
    assert forall j | 0 <= j < |r| :: r[j].addr == bs[if j <= i then j else j + 1].addr;
  }

  /** The block at `x`, if there is one, is free. */
  predicate FreeThere(bs: seq<Block>, x: nat) { IndexOf(bs, x) < |bs| ==> bs[IndexOf(bs, x)].free }

  lemma MergedLists(bs: seq<Block>, i: nat, x: nat)
    requires Placed(bs) && i < |bs| && IndexOf(bs, x) < |bs| && IndexOf(Release(bs, i), x) == |Release(bs, i)|
    ensures forall l | l in Releases(bs, i) :: Clear(l, x) && FreeThere(l, x)
  {
    hide Placed, Ordered, Clear, FuseAt, MergeRight, MergeLeft;
    var flagged := bs[i := bs[i].(free := true)];
    PlacedOrdered(bs);
    SelfClear(bs, IndexOf(bs, x));
    FlagPlaced(bs, i, true);
    FlagClear(bs, i, x);
    FlagListed(bs, i, x);
    MergeRightFuses(flagged, i);
    RightMerged(flagged, i, x);
    LeftMerged(MergeRight(flagged, i), i, x);
    PlacedOrdered(flagged);
    IndexOfBlock(flagged, i);
  }

  lemma RightMerged(bs: seq<Block>, i: nat, x: nat)
    requires Placed(bs) && i < |bs| && bs[i].free && Clear(bs, x) && IndexOf(bs, x) < |bs|
    ensures var r := MergeRight(bs, i);
            && Placed(r) && Clear(r, x) && i < |r| && r[i].free && r[i].addr == bs[i].addr
            && (IndexOf(r, x) == |r| ==> bs[IndexOf(bs, x)].free)
  {
    hide Placed, Ordered, Clear, FuseAt, MergeRight, Addresses, Headers;
    PlacedOrdered(bs);
    MergeRightFuses(bs, i);
    if i + 1 < |bs| && bs[i + 1].free {
      FusePlaced(bs, i);
      FuseClear(bs, i, x);
      FuseListed(bs, i, x);
      IndexOfBlock(bs, i + 1);
      FuseHere(bs, i);
    }
  }

  lemma LeftMerged(bs: seq<Block>, i: nat, x: nat)
    requires Placed(bs) && i < |bs| && bs[i].free && Clear(bs, x)
    requires IndexOf(MergeLeft(bs, i), x) == |MergeLeft(bs, i)|
    ensures Clear(MergeLeft(bs, i), x) && (IndexOf(bs, x) < |bs| ==> x == bs[i].addr && bs[IndexOf(bs, x)].free)
  {
    hide Placed, Ordered, Clear, FuseAt, MergeLeft, Addresses, Headers;
    PlacedOrdered(bs);
    IndexOfBlock(bs, i);
    MergeLeftFuses(bs, i);
    if 0 < i && bs[i - 1].free {
      FuseClear(bs, i - 1, x);
      if IndexOf(bs, x) < |bs| {
        FuseListed(bs, i - 1, x);
      }
    }
  }

  lemma MergeRightFuses(bs: seq<Block>, i: nat)
    requires i < |bs|
    ensures MergeRight(bs, i) == if i + 1 < |bs| && bs[i + 1].free then FuseAt(bs, i) else bs
    ensures i < |MergeRight(bs, i)|
  {
  }

  lemma MergeLeftFuses(bs: seq<Block>, i: nat)
    requires i < |bs|
    ensures MergeLeft(bs, i) == if 0 < i && bs[i - 1].free then FuseAt(bs, i - 1) else bs
  {
  }

  lemma FuseHere(bs: seq<Block>, i: nat)
    requires i + 1 < |bs|
    ensures i < |FuseAt(bs, i)| && FuseAt(bs, i)[i].addr == bs[i].addr && FuseAt(bs, i)[i].free == bs[i].free
    ensures i > 0 ==> FuseAt(bs, i)[i - 1] == bs[i - 1]
  {
  }

  lemma SelfClear(bs: seq<Block>, j: nat)
    requires Ordered(bs) && j < |bs|
    ensures Clear(bs, bs[j].addr)
  {
    forall i | 0 <= i < |bs| && i != j ensures Far(bs[i].addr, bs[j].addr) {
      FarBlocks(bs, i, j);
    }
  }

  lemma FlagListed(bs: seq<Block>, i: nat, x: nat)
    requires i < |bs| && IndexOf(bs, x) < |bs|
    ensures IndexOf(bs[i := bs[i].(free := true)], x) < |bs|
  {
    var r := bs[i := bs[i].(free := true)];
    assert r[IndexOf(bs, x)].addr == x;
    SomewhereListed(r, x);
  }

  /** A header that a release merges away is left whole: a second free of its block changes nothing. */
  lemma MergedIsWhole(h: Heap, ptr: nat, hi: nat, x: nat)
    requires HeapOk(h, hi) && ptr < WORD && Verdict(h, ptr) == Released
    requires IndexOf(h.blocks, x) < |h.blocks|
    requires var r := Step(h, FreeAt(ptr)); IndexOf(r.blocks, x) == |r.blocks|
    ensures x % 4 == 0 && Shows(Step(h, FreeAt(ptr)).mem, x, Whole)
  {
    hide WellFormed, Placed, Stamped, Shows, Clear, Written, Releases, FreeMem, AbsorbNextMem, PutFree;
    var bs, block := h.blocks, HeaderAddress(ptr);
    var i := IndexOf(bs, block);
    PlacedFrom(bs, hi);
    InBounds(bs, IndexOf(bs, x));
    MergedLists(bs, i, x);
    ReleaseStamps(h.mem, bs, i);
    var m1 := PutFree(h.mem, block, true);
    var m2 := AbsorbNextMem(m1, block);
    var ls := Releases(bs, i);
    FlagListed(bs, i, x);
    FirstRelease(bs, i);
    ClearKeeps(ls[0], x, h.mem, m1);
    ClearKeeps(ls[1], x, m1, m2);
    ClearKeeps(ls[2], x, m2, FreeMem(h.mem, block));
  }

  lemma FirstRelease(bs: seq<Block>, i: nat)
    requires i < |bs|
    ensures Releases(bs, i)[0] == bs[i := bs[i].(free := true)]
  {
  }

  /**
   What a second free of a merged block does after any run that puts nothing there: it panics if
   some header has been written over the magic number; if not, and the last header over the flag
   has put a zero there, it runs wild; and otherwise it changes nothing.
   */
  lemma SecondFree(h: Heap, calls: seq<Call>, hi: nat, x: nat)
    requires HeapOk(h, hi) && CalmRun(h, calls) && x % 4 == 0 && Shows(h.mem, x, Whole) && Abandoned(h, calls, x)
    ensures var ls := Lists(h, calls);
            var outcome := Verdict(Run(h, calls), x + HEADER);
            && (outcome == Panic <==> exists l :: l in ls && Struck(l, x))
            && (outcome == Wild <==> (forall l | l in ls :: !Struck(l, x)) && LastUnflags(ls, x))
            && (outcome == Nothing <==> (forall l | l in ls :: !Struck(l, x)) && !LastUnflags(ls, x))
  {
    hide AfterAll, Shows, Struck, LastUnflags, Lists, Run, CalmRun, HeapOk, Verdict, Overlaid, Unflagged;
    var ls := Lists(h, calls);
    RunShows(h, calls, hi, x, Whole);
    ShownFits(h.mem, x, Whole);
    AfterAllMeans(ls, Whole, x);
    assert HeaderAddress(x + HEADER) == x;
    ShownVerdict(Run(h, calls), x, AfterAll(ls, Whole, x));
  }

  lemma ShownFits(m: Mem, x: nat, r: Remains)
    requires Shows(m, x, r)
    ensures x + HEADER < WORD
  {
  }

  lemma ShownVerdict(h: Heap, x: nat, r: Remains)
    requires Shows(h.mem, x, r) && IndexOf(h.blocks, x) == |h.blocks|
    ensures Verdict(h, x + HEADER) == match r case Whole => Nothing case InUse => Wild case Broken => Panic
  {
    hide ReadWord;
    if r == Broken {
      LowByte(h.mem, x);
      if h.mem[x + 3] <= 2 {
        HighByte(h.mem, x);
      }
    }
  }

  lemma HighByte(m: Mem, a: nat)
    requires a + 4 <= WORD && m[a + 3] <= 2
    ensures ReadWord(m, a) < BLOCK_MAGIC
  {
    var s := [m[a], m[a + 1], m[a + 2], m[a + 3]];
    assert s[..2] == [m[a], m[a + 1]] && s[2..] == [m[a + 2], m[a + 3]];
  }

  /** A free that runs wild over a size that ends in a zero byte makes it a wrong size before it does anything else. */
  lemma WildSpoils(h: Heap, hi: nat, x: nat)
    requires HeapOk(h, hi) && x + HEADER < WORD && Unflagged(h.blocks, x)
    ensures var m := PutFree(h.mem, x, true);
            Get(m, x + 4, Size) == SizeAt(h.blocks, x + 4).value + 1 && !Written(m, h.blocks)
  {
    PlacedFrom(h.blocks, hi);
    var i := IndexOf(h.blocks, x + 4);
    Reads(h.mem, h.blocks, i);
    var m := PutFree(h.mem, x, true);
    NextByte(h.mem, x + 8);
    assert Written(m, h.blocks) ==> Holds(m, h.blocks[i].addr, HeaderOf(h.blocks, i));
  }

  lemma NextByte(m: Mem, a: nat)
    requires a + 4 <= WORD && m[a] == 0
    ensures ReadWord(m[a := 1], a) == ReadWord(m, a) + 1
  {
    var s, t := [m[a], m[a + 1], m[a + 2], m[a + 3]], [1, m[a + 1], m[a + 2], m[a + 3]];
    assert s[..2] == [m[a], m[a + 1]] && s[2..] == [m[a + 2], m[a + 3]] == t[2..] && t[..2] == [1, m[a + 1]];
  }

  // ----- frees and nothing else

  /** A block starts at `x`, or the header of a former one is whole; and no other header is near. */
  ghost predicate Settled(h: Heap, x: nat) {
    Clear(h.blocks, x) && x % 4 == 0 && x + HEADER < WORD
        && (IndexOf(h.blocks, x) < |h.blocks| || Shows(h.mem, x, Whole))
  }

  lemma ReleasesClear(bs: seq<Block>, i: nat, x: nat)
    requires i < |bs| && Clear(bs, x)
    ensures forall l | l in Releases(bs, i) :: Clear(l, x) && (IndexOf(bs, x) == |bs| ==> IndexOf(l, x) == |l|)
  {
    hide Clear, FuseAt, MergeRight, MergeLeft;
    var flagged := bs[i := bs[i].(free := true)];
    FlagClear(bs, i, x);
    FlagUnlisted(bs, i, x);
    MergeRightFuses(flagged, i);
    if i + 1 < |flagged| && flagged[i + 1].free {
      FuseClear(flagged, i, x);
      FuseUnlisted(flagged, i, x);
    }
    var merged := MergeRight(flagged, i);
    MergeLeftFuses(merged, i);
    if 0 < i && merged[i - 1].free {
      FuseClear(merged, i - 1, x);
      FuseUnlisted(merged, i - 1, x);
    }
  }

  lemma FlagUnlisted(bs: seq<Block>, i: nat, x: nat)
    requires i < |bs|
    ensures IndexOf(bs, x) == |bs| ==> IndexOf(bs[i := bs[i].(free := true)], x) == |bs|
  {
    var r := bs[i := bs[i].(free := true)];
    SomewhereListed(bs, x);
    if IndexOf(r, x) < |r| {
      assert bs[IndexOf(r, x)].addr == x;
    }
  }

  lemma FuseUnlisted(bs: seq<Block>, i: nat, x: nat)
    requires i + 1 < |bs|
    ensures IndexOf(bs, x) == |bs| ==> IndexOf(FuseAt(bs, i), x) == |FuseAt(bs, i)|
  {
    var r := FuseAt(bs, i);
    FusesConcat(bs, i, r[i]);
    SomewhereListed(bs, x);
    var k := IndexOf(r, x);
    if k < |r| {
      assert bs[if k <= i then k else k + 1].addr == x;
    }
  }

  lemma ReleaseSettles(h: Heap, ptr: nat, hi: nat, x: nat)
    requires HeapOk(h, hi) && ptr < WORD && Verdict(h, ptr) == Released && Settled(h, x)
    ensures Settled(Step(h, FreeAt(ptr)), x)
  {
    hide WellFormed, Placed, Stamped, Shows, Clear, Written, Releases, Release, FreeMem, AbsorbNextMem, PutFree;
    var bs, block := h.blocks, HeaderAddress(ptr);
    var i := IndexOf(bs, block);
    var ls := Releases(bs, i);
    PlacedFrom(bs, hi);
    Reads(h.mem, bs, i);
    ReleasesClear(bs, i, x);
    assert ls[2] == Release(bs, i) == Step(h, FreeAt(ptr)).blocks;
    if IndexOf(ls[2], x) == |ls[2]| {
      if IndexOf(bs, x) < |bs| {
        MergedIsWhole(h, ptr, hi, x);
      } else {
        ReleaseStamps(h.mem, bs, i);
        var m1 := PutFree(h.mem, block, true);
        var m2 := AbsorbNextMem(m1, block);
        ClearKeeps(ls[0], x, h.mem, m1);
        ClearKeeps(ls[1], x, m1, m2);
        ClearKeeps(ls[2], x, m2, FreeMem(h.mem, block));
      }
    }
  }

  lemma SettledVerdict(h: Heap, hi: nat, x: nat)
    requires HeapOk(h, hi) && Settled(h, x)
    ensures Calm(h, FreeAt(x + HEADER)) && Step(h, FreeAt(x + HEADER)).blocks == Free(h.blocks, x)
  {
    hide WellFormed, Placed, Clear, Written, Release, Get, IsFree;
    assert HeaderAddress(x + HEADER) == x;
    var i := IndexOf(h.blocks, x);
    if i < |h.blocks| {
      PlacedFrom(h.blocks, hi);
      Reads(h.mem, h.blocks, i);
    }
  }

  function Frees(addrs: seq<nat>): seq<Call> { seq(|addrs|, i requires 0 <= i < |addrs| => FreeAt(addrs[i] + HEADER)) }

  /** Freeing blocks in any order, and any of them again and again, never panics and does what it should. */
  lemma {:induction false} FreesAreCalm(h: Heap, addrs: seq<nat>, hi: nat)
    requires HeapOk(h, hi) && forall a | a in addrs :: Settled(h, a)
    ensures CalmRun(h, Frees(addrs)) && Run(h, Frees(addrs)).blocks == FreeAll(h.blocks, addrs)
    decreases |addrs|
  {
    hide HeapOk, Settled, Calm, Step, Free;
    if addrs != [] {
      var c := FreeAt(addrs[0] + HEADER);
      SettledVerdict(h, hi, addrs[0]);
      StepKeeps(h, c, hi);
      forall a | a in addrs[1..] ensures Settled(Step(h, c), a) {
        FreeSettles(h, c.ptr, hi, a);
      }
      FreesAreCalm(Step(h, c), addrs[1..], hi);
      assert Frees(addrs)[0] == c && Frees(addrs)[1..] == Frees(addrs[1..]);
    }
  }

  lemma FreeSettles(h: Heap, ptr: nat, hi: nat, x: nat)
    requires HeapOk(h, hi) && Calm(h, FreeAt(ptr)) && Settled(h, x)
    ensures Settled(Step(h, FreeAt(ptr)), x)
  {
    hide HeapOk, Settled, Get, IsFree, Free, FreeMem;
    if Verdict(h, ptr) == Released {
      ReleaseSettles(h, ptr, hi, x);
    }
  }

  lemma ListedSettled(h: Heap, hi: nat, a: nat)
    requires HeapOk(h, hi) && IndexOf(h.blocks, a) < |h.blocks|
    ensures Settled(h, a) && WellFormed(h.blocks, HEAP_BASE, hi)
  {
    hide WellFormed, Clear, Written, Placed;
    PlacedFrom(h.blocks, hi);
    PlacedOrdered(h.blocks);
    SelfClear(h.blocks, IndexOf(h.blocks, a));
    InBounds(h.blocks, IndexOf(h.blocks, a));
  }

  lemma WellFormedList(h: Heap, hi: nat)
    requires HeapOk(h, hi)
    ensures WellFormed(h.blocks, HEAP_BASE, hi)
  {
  }

  /** So freeing all blocks in use, in any order and more than once, ends in the list of a fresh heap. */
  lemma FreeAllInMemory(h: Heap, addrs: seq<nat>, hi: nat)
    requires HeapOk(h, hi) && hi >= HEAP_BASE + HEADER
    requires forall a | a in addrs :: IndexOf(h.blocks, a) < |h.blocks|
    requires forall b | b in Live(h.blocks) :: b.addr in addrs
    ensures CalmRun(h, Frees(addrs)) && Run(h, Frees(addrs)).blocks == [Block(HEAP_BASE, hi - HEAP_BASE - HEADER, true)]
  {
    hide HeapOk, Settled, Live, FreeAll, CalmRun, Run;
    WellFormedList(h, hi);
    forall a | a in addrs ensures Settled(h, a) {
      ListedSettled(h, hi, a);
    }
    FreesAreCalm(h, addrs, hi);
    FreeAllRestores(h.blocks, addrs, HEAP_BASE, hi);
  }
}
