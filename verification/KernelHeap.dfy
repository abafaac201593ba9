/** The heap as the kernel keeps it: headers in memory, rewritten field by field and linked both ways. */
module KernelMemory {
  import opened B = Bytes
  import opened Words
  import opened HeapSpec
  import opened Memory
  import opened HeapMemory
  import opened HeapRuns

  const HEAP_MIN_SIZE: nat := 1024 * 1024
  const USABLE: nat := 1

  datatype Region = Region(base: nat, length: nat, kind: nat)

  lemma FreshHeap(size: nat)
    requires size >= HEADER
    ensures WellFormed([Block(HEAP_BASE, size - HEADER, true)], HEAP_BASE, HEAP_BASE + size)
    ensures Live([Block(HEAP_BASE, size - HEADER, true)]) == []
  {
    var b := Block(HEAP_BASE, size - HEADER, true);
    assert [b][1..] == [];
    assert Chain([b][1..], b.End(), HEAP_BASE + size, true);
    LiveOne(b);
  }

  /** How far the usable region holding the heap base extends; the first such region decides. */
  method UsableHeapSize(regions: seq<Region>) returns (size: nat)
    ensures (exists i :: 0 <= i < |regions| && HoldsBase(regions[i])) ==>
              exists i :: && 0 <= i < |regions| && HoldsBase(regions[i])
                          && (forall j | 0 <= j < i :: !HoldsBase(regions[j]))
                          && HEAP_BASE + size <= regions[i].base + regions[i].length
                          && (size == HEAP_MAX_SIZE || HEAP_BASE + size == regions[i].base + regions[i].length)
    ensures (forall i | 0 <= i < |regions| :: !HoldsBase(regions[i])) ==> size == HEAP_MIN_SIZE
    ensures 0 < size <= HEAP_MAX_SIZE
  {
    for k := 0 to |regions|
      invariant forall j | 0 <= j < k :: !HoldsBase(regions[j])
    {
      if regions[k].kind == USABLE {
        var start, end := regions[k].base, regions[k].base + regions[k].length;
        if start <= HEAP_BASE && end > HEAP_BASE {
          var available := end - HEAP_BASE;
          if available > HEAP_MAX_SIZE {
            available := HEAP_MAX_SIZE;
          }
          assert HoldsBase(regions[k]);
          return available;
        }
      }
    }
    size := HEAP_MIN_SIZE;
  }

  predicate HoldsBase(r: Region) {
    r.kind == USABLE && r.base <= HEAP_BASE < r.base + r.length
  }

  lemma FreshStamps(m: Mem, size: nat)
    requires HEADER <= size <= HEAP_MAX_SIZE
    ensures Stamped(m, [Block(HEAP_BASE, size - HEADER, true)], Fill(m, HEAP_BASE, size - HEADER, 0, 0))
  {
    var b := Block(HEAP_BASE, size - HEADER, true);
    FillFields(m, HEAP_BASE, size - HEADER, 0, 0);
    hide Holds, Fill, Outside;
    OutsideBlock([b], 0);
    assert HeaderOf([b], 0) == Header(BLOCK_MAGIC, size - HEADER, true, 0, 0);
  }

  /** The block found has an address, so 0 says that there is none. */
  lemma FoundThere(bs: seq<Block>, i: nat)
    requires Placed(bs) && i <= |bs|
    ensures i < |bs| ==> bs[i].addr != 0
  {
  }

  /** What `kmalloc` adds to the bytes in use is the size it reads back. */
  lemma TakenSize(h: Heap, n: nat)
    requires Written(h.mem, h.blocks) && Placed(h.blocks) && n % 4 == 0 && FirstFit(h.blocks, n) < |h.blocks|
    ensures var i := FirstFit(h.blocks, n);
            Get(MallocMem(h.mem, h.blocks[i].addr, n), h.blocks[i].addr, Size) == Carve(h.blocks[i], n)[0].size
  {
    hide Placed, Written, MallocMem, Get;
    var i := FirstFit(h.blocks, n);
    AllocateStamps(h.mem, h.blocks, n);
    AllocateIsSplit(h.blocks, n);
    StampedWritten(h.mem, Allocate(h.blocks, n), MallocMem(h.mem, h.blocks[i].addr, n));
    Reads(MallocMem(h.mem, h.blocks[i].addr, n), Allocate(h.blocks, n), i);
  }

  lemma SizeAfterFlag(m: Mem, bs: seq<Block>, i: nat)
    requires Written(m, bs) && Placed(bs) && i < |bs|
    ensures Get(PutFree(m, bs[i].addr, true), bs[i].addr, Size) == bs[i].size
  {
    hide ReadWord, PutFree;
    Reads(m, bs, i);
    FlagElsewhere(m, bs[i].addr, true);
  }

  class KernelHeap {
    const mem: array<byte>
    var head: nat
    var heapSize: nat
    var heapUsed: int
    ghost var blocks: seq<Block>

    ghost function State(): Heap
      requires mem.Length == WORD
      reads this, mem
    { Heap(blocks, mem[..]) }

    ghost predicate Valid()
      reads this, mem
    {
      && mem.Length == WORD && head == HEAP_BASE
      && HeapOk(State(), HEAP_BASE + heapSize)
      && heapUsed == HeapSpec.Bytes(Live(blocks))
    }

    /** `mem_init` on this memory, given the size found; the caller has panicked when it is too small. */
    constructor (memory: array<byte>, size: nat)
      requires memory.Length == WORD && HEAP_MIN_SIZE <= size <= HEAP_MAX_SIZE
      modifies memory
      ensures Valid() && heapSize == size && mem == memory
      ensures blocks == [Block(HEAP_BASE, size - HEADER, true)] && heapUsed == 0
      ensures Stamped(old(memory[..]), blocks, memory[..])
    {
      mem := memory;
      head := HEAP_BASE;
      heapSize := size;
      heapUsed := 0;
      blocks := [Block(HEAP_BASE, size - HEADER, true)];
      new;
      hide Fill, WellFormed, HeapSpec.Bytes, Live, Stamped, Written;
      ghost var before := mem[..];
      StoreHeader(HEAP_BASE, size - HEADER, 0, 0);
      FreshHeap(size);
      FreshStamps(before, size);
    }

    // ----- loads and stores

    method LoadWord(a: nat) returns (v: nat)
      requires mem.Length == WORD
      ensures v == ReadWord(mem[..], a)
    {
      v := ReadU32([mem[Slot(a)], mem[Slot(a + 1)], mem[Slot(a + 2)], mem[Slot(a + 3)]]);
    }

    method StoreWord(a: nat, v: nat)
      requires mem.Length == WORD
      modifies mem
      ensures mem[..] == WriteWord(old(mem[..]), a, v)
    {
      var u := U32(v);
      mem[Slot(a)] := u[0];
      mem[Slot(a + 1)] := u[1];
      mem[Slot(a + 2)] := u[2];
      mem[Slot(a + 3)] := u[3];
    }

    method Load(block: nat, f: Field) returns (v: nat)
      requires mem.Length == WORD
      ensures v == Get(mem[..], block, f)
    {
      v := LoadWord(block + Offset(f));
    }

    method Store(block: nat, f: Field, v: nat)
      requires mem.Length == WORD
      modifies mem
      ensures mem[..] == Put(old(mem[..]), block, f, v)
    {
      StoreWord(block + Offset(f), v);
    }

    method LoadFlag(block: nat) returns (free: bool)
      requires mem.Length == WORD
      ensures free == IsFree(mem[..], block)
    {
      free := mem[Slot(block + FREE_AT)] != 0;
    }

    method StoreFlag(block: nat, free: bool)
      requires mem.Length == WORD
      modifies mem
      ensures mem[..] == PutFree(old(mem[..]), block, free)
    {
      mem[Slot(block + FREE_AT)] := if free then 1 else 0;
    }

    /** The header of a new free block. */
    method StoreHeader(block: nat, size: nat, next: nat, prev: nat)
      requires mem.Length == WORD
      modifies mem
      ensures mem[..] == Fill(old(mem[..]), block, size, next, prev)
    {
      hide Put, PutFree;
      Store(block, Magic, BLOCK_MAGIC);
      Store(block, Size, size);
      StoreFlag(block, true);
      Store(block, Next, next);
      Store(block, Prev, prev);
    }

    // ----- allocation

    /** `split_block`: cuts `size` bytes off the front of a free block when the leftover is worth a block. */
    method SplitBlock(block: nat, size: nat, ghost i: nat)
      requires mem.Length == WORD && size % 4 == 0
      modifies mem
      ensures mem[..] == SplitMem(old(mem[..]), block, size)
      ensures old(Heads(mem[..], blocks, i, block)) && blocks[i].size >= size ==>
                Stamped(old(mem[..]), SplitAt(blocks, i, size), mem[..])
    {
      hide Get, Put, Fill, Stamped, SplitAt, Placed, Written;
      if Heads(mem[..], blocks, i, block) && blocks[i].size >= size {
        SplitStamps(mem[..], blocks, i, size);
      }
      var whole := Load(block, Size);
      if whole < size + HEADER + MIN_LEFTOVER {
        return;
      }
      var next := Load(block, Next);
      var rest := block + HEADER + size;
      StoreHeader(rest, whole - size - HEADER, next, block);
      if next != 0 {
        Store(next, Prev, rest);
      }
      Store(block, Next, rest);
      Store(block, Size, size);
    }

    /** The first-fit walk over the links; 0 stands for NULL. */
    method FindFit(size: nat) returns (block: nat)
      requires Valid()
      ensures block == if FirstFit(blocks, size) < |blocks| then blocks[FirstFit(blocks, size)].addr else 0
    {
      hide Get, IsFree, Written, Placed, WellFormed;
      PlacedFrom(blocks, HEAP_BASE + heapSize);
      block := head;
      ghost var k := 0;
      while block != 0
        invariant 0 <= k <= |blocks|
        invariant block == if k < |blocks| then blocks[k].addr else 0
        invariant forall j | 0 <= j < k :: !(blocks[j].free && blocks[j].size >= size)
        decreases |blocks| - k
      {
        Reads(mem[..], blocks, k);
        var free := LoadFlag(block);
        var room := Load(block, Size);
        if free && room >= size {
          return;
        }
        block := Load(block, Next);
        k := k + 1;
      }
      FoundThere(blocks, k);
    }

    /** `kmalloc`. It writes the headers of the new list, and no other byte. */
    method Malloc(request: nat) returns (ptr: nat)
      requires Valid() && request < WORD
      modifies this, mem
      ensures Valid() && heapSize == old(heapSize)
      ensures State() == Step(old(State()), HeapRuns.Malloc(request))
      ensures var i := FirstFit(old(blocks), Round(request));
              ptr == if request == 0 || i == |old(blocks)| then 0 else old(blocks)[i].addr + HEADER
      ensures ptr != 0 ==> Stamped(old(mem[..]), blocks, mem[..])
    {
      hide WellFormed, HeapSpec.Bytes, Live, Allocate, Carve, Round, FirstFit, SplitMem, PutFree, Written, Placed,
           Stamped;
      if request == 0 {
        return 0;
      }
      var size := Round(request);
      ghost var before := State();
      PlacedFrom(blocks, HEAP_BASE + heapSize);
      StepKeeps(before, HeapRuns.Malloc(request), HEAP_BASE + heapSize);
      AllocateEffect(blocks, size, HEAP_BASE, HEAP_BASE + heapSize);
      var block := FindFit(size);
      if block == 0 {
        FoundThere(blocks, FirstFit(blocks, size));
        return 0;
      }
      AllocateStamps(mem[..], blocks, size);
      SplitBlock(block, size, FirstFit(blocks, size));
      StoreFlag(block, false);
      blocks := Allocate(blocks, size);
      var taken := Load(block, Size);
      TakenSize(before, size);
      heapUsed := heapUsed + taken + HEADER;
      return block + HEADER;
    }

    // ----- release

    /** The first half of `coalesce`: a free right neighbour is swallowed. */
    method AbsorbNext(block: nat, ghost bs: seq<Block>, ghost i: nat)
      requires mem.Length == WORD
      modifies mem
      ensures mem[..] == AbsorbNextMem(old(mem[..]), block)
      ensures old(Heads(mem[..], bs, i, block)) ==>
                Stamped(old(mem[..]), MergeRight(bs, i), mem[..]) && Heads(mem[..], MergeRight(bs, i), i, block)
    {
      hide Get, Put, IsFree, MergeRight, Placed, Written, Outside;
      if Heads(mem[..], bs, i, block) {
        NextStamps(mem[..], bs, i);
      }
      var next := Load(block, Next);
      if next == 0 {
        return;
      }
      var free := LoadFlag(next);
      if !free {
        return;
      }
      var size := Load(block, Size);
      var more := Load(next, Size);
      Store(block, Size, size + more + HEADER);
      next := Load(block, Next);
      var after := Load(next, Next);
      Store(block, Next, after);
      after := Load(block, Next);
      if after != 0 {
        Store(after, Prev, block);
      }
    }

    /** The second half of `coalesce`: the block is swallowed by a free left neighbour. */
    method AbsorbIntoPrev(block: nat, ghost bs: seq<Block>, ghost i: nat)
      requires mem.Length == WORD
      modifies mem
      ensures mem[..] == AbsorbIntoPrevMem(old(mem[..]), block)
      ensures old(Heads(mem[..], bs, i, block)) ==> Stamped(old(mem[..]), MergeLeft(bs, i), mem[..])
    {
      hide Get, Put, IsFree, MergeLeft, Placed, Stamped, Written;
      if Heads(mem[..], bs, i, block) {
        PrevStamps(mem[..], bs, i);
      }
      var prev := Load(block, Prev);
      if prev == 0 {
        return;
      }
      var free := LoadFlag(prev);
      if !free {
        return;
      }
      var size := Load(prev, Size);
      var more := Load(block, Size);
      Store(prev, Size, size + more + HEADER);
      prev := Load(block, Prev);
      var after := Load(block, Next);
      Store(prev, Next, after);
      after := Load(block, Next);
      if after != 0 {
        prev := Load(block, Prev);
        Store(after, Prev, prev);
      }
    }

    method Coalesce(block: nat, ghost bs: seq<Block>, ghost i: nat)
      requires mem.Length == WORD
      modifies mem
      ensures mem[..] == AbsorbIntoPrevMem(AbsorbNextMem(old(mem[..]), block), block)
      ensures old(Heads(mem[..], bs, i, block)) ==> Written(mem[..], MergeLeft(MergeRight(bs, i), i))
    {
      hide AbsorbNextMem, AbsorbIntoPrevMem, MergeRight, MergeLeft, Placed, Outside;
      AbsorbNext(block, bs, i);
      ghost var merged := if i < |bs| then MergeRight(bs, i) else bs;
      AbsorbIntoPrev(block, merged, i);
    }

    /**
     `kfree`. What it finds in memory decides: no magic number there, and it panics; a set free flag,
     and nothing happens; the header of a block in use, and the block is released. If the bytes only
     look like one it goes ahead all the same, and the list is not promised to survive.
     */
    method Free(ptr: nat) returns (panicked: bool)
      requires Valid() && ptr < WORD
      modifies this, mem
      ensures heapSize == old(heapSize) && (panicked <==> Verdict(old(State()), ptr) == Panic)
      ensures match Verdict(old(State()), ptr)
              case Released => Valid() && State() == Step(old(State()), FreeAt(ptr))
              case Wild => mem[..] == FreeMem(old(mem[..]), HeaderAddress(ptr))
              case _ => Valid() && State() == old(State())
    {
      hide WellFormed, HeapSpec.Bytes, Live, Release, Get, IsFree, PutFree, AbsorbNextMem, AbsorbIntoPrevMem, Written,
           Placed;
      if ptr == 0 {
        return false;
      }
      var block := (ptr + WORD - HEADER) % WORD;
      var magic := Load(block, Magic);
      if magic != BLOCK_MAGIC {
        return true;
      }
      var free := LoadFlag(block);
      if !free {
        ghost var before := State();
        ghost var i := IndexOf(blocks, block);
        if i < |blocks| {
          PlacedFrom(blocks, HEAP_BASE + heapSize);
          Reads(mem[..], blocks, i);
          StepKeeps(before, FreeAt(ptr), HEAP_BASE + heapSize);
          ReleaseEffect(blocks, i, HEAP_BASE, HEAP_BASE + heapSize);
          SizeAfterFlag(before.mem, blocks, i);
        }
        StoreFlag(block, true);
        var size := Load(block, Size);
        heapUsed := heapUsed - (size + HEADER);
        Coalesce(block, if i < |blocks| then blocks[i := blocks[i].(free := true)] else blocks, i);
        blocks := HeapSpec.Free(blocks, block);
      }
      return false;
    }
  }
}
