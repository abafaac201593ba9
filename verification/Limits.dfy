/**
 Inputs on which the kernel does not do what one would expect of it, one for each of the exact
 conditions proved elsewhere that a running system can fail to meet.
 */
module Limits {
  import opened Bytes
  import opened Words
  import opened Paths
  import opened FsSpec
  import opened AccountSpec
  import opened SnapshotFormat
  import opened SnapshotTree
  import opened SnapshotExact
  import opened PersistSpec
  import FsRuns
  import P = PermissionSpec
  import Heap = HeapSpec

  // ----- dot names

  const DOT_PATH: Str := [SLASH, DOT]

  /** A bare root with a file "/." in it. */
  function Dotted(): Fs { Create(Bare(), DOT_PATH, File).0 }

  lemma DotPath()
    ensures DOT_PATH == Join([SELF])
  {
    assert [SELF][1..] == [];
  }

  lemma DottedFacts()
    ensures Valid(Bare()) && Target(Bare(), DOT_PATH) == Some((0, SELF))
    ensures Valid(Dotted()) && Create(Bare(), DOT_PATH, File).1 == Some(1) && 1 in Dotted().nodes
            && NamesTo(Dotted(), 1) == [SELF]
    ensures Dotted().nodes.Keys == {0, 1}
  {
    BareValid();
    DotPath();
    assert NamesTo(Bare(), 0) == [] && [] + [SELF] == [SELF];
    assert NameOk(SELF) && FindChild(Bare(), 0, SELF) == None;
    hide TreeOk, NamesTo, Create, Target, Join;
    ChildTarget(Bare(), 0, SELF);
    CreateKeeps(Bare(), DOT_PATH, File);
  }

  /**
   `fs_create` makes a file named ".", its path leads to the directory instead, and all the same
   it survives a reboot.
   */
  lemma DotFile(bare: Fs)
    requires Valid(bare) && bare.nodes[bare.root].children == []
    ensures Valid(Dotted()) && 1 in Dotted().nodes && Create(Bare(), DOT_PATH, File).1 == Some(1)
    ensures Resolve(Dotted(), DOT_PATH) != Some(1) && Resolve(Dotted(), AbsPath(Dotted(), 1)) != Some(1)
    ensures Storable(Dotted()) && Valid(ReplayAll(bare, AllRecords(Dotted())))
            && Forest(ReplayAll(bare, AllRecords(Dotted()))) == Forest(Dotted())
  {
    DottedFacts();
    CreateResolves(Bare(), DOT_PATH, File);
    hide Dotted, TreeOk, NodeOk, NamesTo, Forest, ReplayAll, AllRecords, Resolve;
    var fs := Dotted();
    ResolvePrinted(fs, 1);
    ShortNames(fs);
    RestoredExactly(fs, bare);
  }

  lemma ShortNames(fs: Fs)
    requires TreeOk(fs) && fs.nodes.Keys == {0, 1} && 1 != fs.root && NamesTo(fs, 1) == [SELF] && fs.root in fs.nodes
    ensures Storable(fs) && !NoDots(NamesTo(fs, 1))
  {
    assert [SELF][1..] == [] && [SELF][..0] == [];
    assert Join([SELF]) == [SLASH] + SELF + [];
    forall id | id in fs.nodes ensures StorableNode(fs, id) {
      RootStorable(fs);
    }
    assert NamesTo(fs, 1)[0] == SELF;
  }

  // ----- depth

  const LETTER: Str := [97]

  function Letters(n: nat): seq<Str> { seq(n, _ => LETTER) }

  /** A directory with these names, made level by level; level `k` has identity `k`. */
  function Chain(names: seq<Str>): Fs
    decreases |names|
  {
    if names == [] then Bare() else Create(Chain(names[..|names| - 1]), Join(names), Directory).0
  }

  lemma {:induction false} ChainFacts(names: seq<Str>)
    requires NamesOk(names) && NoDots(names) && |Join(names)| <= PATH_MAX - 2
    ensures var n, fs := |names|, Chain(names);
            && Valid(fs) && fs.root == 0 && fs.next == n + 1 && n in fs.nodes
            && fs.nodes[n].kind == Directory && fs.nodes[n].children == [] && NamesTo(fs, n) == names
            && (n > 0 ==> 1 in fs.nodes && fs.nodes[n].parent == Some(n - 1))
    decreases |names|
  {
    var n := |names|;
    if n == 0 {
      BareValid();
    } else {
      hide TreeOk, NodeOk, NamesTo, Create, Target, Join;
      var above, last := names[..n - 1], names[n - 1];
      assert names == above + [last];
      JoinSnoc(above, last);
      ChainFacts(above);
      var fs := Chain(above);
      assert FindChild(fs, n - 1, last) == None;
      ChildTarget(fs, n - 1, last);
      CreateKeeps(fs, Join(names), Directory);
    }
  }

  /** Directories "/a", "/a/a" and so on, `n` levels deep. */
  function Deep(n: nat): Fs { Chain(Letters(n)) }

  lemma {:induction false} LettersLength(n: nat)
    ensures |Join(Letters(n))| == 2 * n && NamesOk(Letters(n)) && NoDots(Letters(n))
  {
    assert NameOk(LETTER);
    if n > 0 {
      LettersLength(n - 1);
      assert Letters(n)[1..] == Letters(n - 1);
    }
  }

  lemma DeepFacts(n: nat)
    requires n <= 100
    ensures Valid(Deep(n)) && Deep(n).root == 0 && Deep(n).next == n + 1 && n in Deep(n).nodes
    ensures Deep(n).nodes[n].kind == Directory && Deep(n).nodes[n].children == [] && NamesTo(Deep(n), n) == Letters(n)
    ensures n > 0 ==> 1 in Deep(n).nodes && Deep(n).nodes[n].parent == Some(n - 1)
  {
    hide TreeOk, NamesTo, Chain, Join, NamesOk, NoDots;
    LettersLength(n);
    ChainFacts(Letters(n));
  }

  /** A directory that `fs_create` made 33 levels deep: its printed path does not lead back to it. */
  lemma DeepPathIsCut()
    ensures Valid(Deep(33)) && 33 in Deep(33).nodes && Resolve(Deep(33), AbsPath(Deep(33), 33)) != Some(33)
  {
    hide Deep, TreeOk, NodeOk, NamesTo, Resolve;
    DeepFacts(33);
    ResolvePrinted(Deep(33), 33);
  }

  /** And a system that holds it does not come back as it was: the mount succeeds with another tree. */
  lemma DeepTreeIsLost(m: Machine, memory: bool, boot: Fs, v: Vars, env: Env)
    requires m.fs == Deep(33) && MachineOk(m) && Located(m) && m.vars.status != NoDisk
    requires Save(m, memory, None, None).1 == 0 && Valid(boot) && Works(env)
    ensures DisksOk(Save(m, memory, None, None).0.disks) && boot.root in boot.nodes
    ensures var m2 := Mount(Machine(Save(m, memory, None, None).0.disks, boot, Empty(), v), env);
            m2.vars.status == Loaded && Valid(m2.fs) && Forest(m2.fs) != Forest(m.fs)
  {
    hide Deep, TreeOk, NodeOk, NamesTo, Save, Mount, Empty, Forest, TableOk;
    DeepFacts(33);
    SaveThenMount(m, memory, boot, v, env);
    BootRoot(boot);
    assert !StorableNode(m.fs, 33);
    DeepRoot();
  }

  lemma DeepRoot()
    ensures Valid(Deep(33)) && Deep(33).nodes[Deep(33).root].children != []
  {
    hide Create;
    DeepFacts(33);
    DeepFacts(0);
    if Deep(33).nodes[0].children == [] {
      UnderRoot(Deep(33), 33);
      UnderSomeChild(Deep(33), 33, 0);
    }
  }

  // ----- permissions

  const TMP_NAME: Str := [116, 109, 112]

  /** "/a/tmp/a/a" and so on, 33 levels deep. */
  const HIDDEN: seq<Str> := [LETTER] + BEHIND
  const BEHIND: seq<Str> := [TMP_NAME] + Letters(31)

  lemma HiddenFacts()
    ensures |BEHIND| == DEPTH_MAX && NamesOk(HIDDEN) && NoDots(HIDDEN) && |Join(HIDDEN + [LETTER])| <= PATH_MAX - 2
    ensures |Join(HIDDEN)| <= PATH_MAX - 2 && Join(BEHIND[..1]) == P.TMP
  {
    LettersLength(31);
    assert NameOk(LETTER) && NameOk(TMP_NAME);
    assert BEHIND[1..] == Letters(31) && HIDDEN[1..] == BEHIND;
    JoinSnoc(HIDDEN, LETTER);
    assert BEHIND[..1] == [TMP_NAME] && [TMP_NAME][1..] == [];
  }

  /** In a directory that deep anyone who may write to "/tmp" may make a file. */
  lemma DeepTmp(kind: Kind)
    ensures var fs := Chain(HIDDEN);
            var path := Join(HIDDEN + [LETTER]);
            var (r, id) := Create(fs, path, kind);
            && Valid(fs) && P.TargetAbs(fs, path).Some? && P.Covers(P.TMP, P.TargetAbs(fs, path).value)
            && id.Some? && TreeOk(r) && id.value in r.nodes && NamesTo(r, id.value) == HIDDEN + [LETTER]
            && !P.Inside(P.TMP, NamesTo(r, id.value))
  {
    hide Chain, Create, NamesTo, TreeOk, Join, NamesOk, NoDots, P.TargetAbs, P.Covers, P.Inside;
    HiddenFacts();
    ChainFacts(HIDDEN);
    assert NameOk(LETTER);
    P.DeepParentEscapes(Chain(HIDDEN), 33, LETTER, BEHIND, 1, LETTER, kind);
  }

  // ----- the current directory

  /** "/a/a" is the current directory, and "/a" is removed without complaint. */
  lemma CwdRemoved()
    ensures var fs := Deep(2).(cwd := 2);
            && Valid(fs) && RemovalOf(fs, Join(Letters(1))) == Removed(1)
            && 1 in fs.nodes && fs.root != 1 && Under(fs, fs.cwd, 1) && fs.cwd != 1
            && !CwdOk(Prune(fs, 1))
  {
    hide Create;
    DeepFacts(2);
    var fs := Deep(2).(cwd := 2);
    FsRuns.CwdTree(Deep(2), 2);
    assert NodeOk(fs, 2);
    ParentFacts(fs, 2);
    NamesAfterMove(Deep(2), fs, 2);
    LettersLength(1);
    LettersLength(2);
    assert Letters(2) == Letters(1) + [LETTER];
    SnocEqual(NamesTo(fs, 1), fs.nodes[2].name, Letters(1), LETTER);
    FoldNames(fs, 1);
    ComponentsJoin(Letters(1));
    JoinStart(Letters(1));
    ResolveAbsolute(fs, Join(Letters(1)));
    assert Under(fs, 1, 1);
    PruneKeeps(fs, 1);
  }

  lemma NamesAfterMove(a: Fs, b: Fs, m: Id)
    requires TreeOk(a) && TreeOk(b) && b.nodes == a.nodes && b.root == a.root && m in a.nodes
    ensures NamesTo(b, m) == NamesTo(a, m)
  {
    FsRuns.NamesSame(a, b, m);
  }

  // ----- user ids

  const LAST_USER: User := User([97, 98], [SLASH], WORD - 1, 0, 1)

  /** After an import with the largest user id, the next ordinary account gets the administrator's. */
  lemma UidWraps()
    ensures var (t1, code1) := Import(Empty(), LAST_USER);
            var (t2, code2) := Add(t1, [99, 100], PASSWORD_MIN, 1, false);
            && code1 == 0 && code2 == 0 && TableOk(t1)
            && t2.slots[1].Some? && t2.slots[1].value.name == [99, 100] && t2.slots[1].value.uid == 0
  {
    var t1 := Import(Empty(), LAST_USER).0;
    assert ValidName([97, 98]) && ValidName([99, 100]);
    assert Empty().slots[0] == None;
    assert Find(Empty().slots, [97, 98]) == USER_MAX;
    assert FreeSlot(Empty().slots) == 0;
    assert t1.slots[0].Some? && t1.slots[1] == None && t1.slots[0].value.name == [97, 98];
    assert Find(t1.slots, [99, 100]) == USER_MAX;
    assert FreeSlot(t1.slots) == 1;
    ImportKeeps(Empty(), LAST_USER);
  }

  // ----- the heap

  /** On a fresh heap a request for 0xFFFFFFFF bytes is answered with a block of none. */
  lemma HugeRequest(lo: nat, size: nat)
    requires size >= 2 * Heap.HEADER + Heap.MIN_LEFTOVER
    ensures var bs := [Heap.Block(lo, size - Heap.HEADER, true)];
            && Heap.Round(WORD - 1) == 0 && Heap.FirstFit(bs, 0) == 0
            && Heap.Allocate(bs, Heap.Round(WORD - 1))[0] == Heap.Block(lo, 0, false)
  {
    Heap.RoundHoldsRequest(WORD - 1);
    var bs := [Heap.Block(lo, size - Heap.HEADER, true)];
    assert bs[..0] == [] && bs[1..] == [];
  }

  // ----- nothing to save

  /** A data disk, a bare root and no account. */
  function Nothing(): Machine {
    Machine(Disks([], [Zeros(SECTOR), Zeros(SECTOR)]), Bare(), Empty(), FRESH_VARS.(status := Blank))
  }

  /** Saving it succeeds, and the next boot finds an error. */
  lemma NothingMountsAsError(boot: Fs, env: Env)
    requires Valid(boot) && Works(env)
    ensures MachineOk(Nothing()) && Located(Nothing()) && Save(Nothing(), true, None, None).1 == 0
    ensures var disks := Save(Nothing(), true, None, None).0.disks;
            DisksOk(disks) && boot.root in boot.nodes
            && Mount(Machine(disks, boot, Empty(), FRESH_VARS), env).vars.status == Error
  {
    hide Save, Mount, Written, Chop, Padded, EncodeSuper;
    BareValid();
    BootRoot(boot);
    ListedNones(Empty().slots);
    NothingSaved();
    SaveThenMount(Nothing(), true, boot, FRESH_VARS, env);
  }

  lemma NothingSaved()
    requires TreeOk(Bare())
    ensures Save(Nothing(), true, None, None).1 == 0
  {
    hide Written, EncodeSuper, Zeros;
    ListedNones(Empty().slots);
    PayloadEmpty(Bare(), []);
    var run := Chop(Padded([]));
    WholeSectors([]);
    assert |run| == 1;
    WrittenFacts(Nothing().disks.slave, 1, run);
  }
}

/** Calls of `kmalloc` and `kfree` on a fresh heap after which a second free does harm. */
module HeapLimits {
  import opened Words
  import O = Bytes
  import opened HeapSpec
  import opened Memory
  import opened HeapMemory
  import opened HeapRuns

  const B: nat := HEAP_BASE

  function Used(addr: nat, size: nat): Block { Block(addr, size, false) }

  function Spare(addr: nat, size: nat): Block { Block(addr, size, true) }

  // ----- one call at a time

  lemma {:induction false} RunSnoc(h: Heap, calls: seq<Call>, c: Call)
    requires CalmRun(h, calls) && Calm(Run(h, calls), c)
    ensures CalmRun(h, calls + [c]) && Run(h, calls + [c]) == Step(Run(h, calls), c)
    decreases |calls|
  {
    hide Calm, Step;
    if calls == [] {
      assert [] + [c] == [c] && [c][1..] == [];
    } else {
      RunSnoc(Step(h, calls[0]), calls[1..], c);
      assert (calls + [c])[1..] == calls[1..] + [c];
    }
  }

  /** So far so good: these calls are calm, and lead to these blocks. */
  ghost predicate Leads(h: Heap, calls: seq<Call>, bs: seq<Block>) {
    CalmRun(h, calls) && Run(h, calls).blocks == bs
  }

  /** First fit passes over `front` and takes the next block, which is cut. */
  lemma {:induction false} ServedBehind(front: seq<Block>, b: Block, n: nat)
    requires (forall x | x in front :: !x.free) && b.free && b.size >= n + HEADER + MIN_LEFTOVER
    ensures FirstFit(front + [b], n) == |front|
    ensures Allocate(front + [b], n) == front + [Used(b.addr, n), Spare(b.addr + HEADER + n, b.size - n - HEADER)]
  {
    hide Allocate;
    if front == [] {
      assert front + [b] == [b];
      AllocateTail(front, b, n);
    } else {
      assert (front + [b])[1..] == front[1..] + [b];
      ServedBehind(front[1..], b, n);
      AllocateTail(front, b, n);
    }
  }

  lemma AllocateTail(front: seq<Block>, b: Block, n: nat)
    requires FirstFit(front + [b], n) == |front| && b.size >= n + HEADER + MIN_LEFTOVER
    ensures Allocate(front + [b], n) == front + [Used(b.addr, n), Spare(b.addr + HEADER + n, b.size - n - HEADER)]
  {
    hide FirstFit, Allocate, Carve;
    AllocateUnfolds(front + [b], n, |front|);
    LastReplaced(front, b, Carve(b, n));
    Carved(b, n);
  }

  lemma Carved(b: Block, n: nat)
    requires b.size >= n + HEADER + MIN_LEFTOVER
    ensures Carve(b, n) == [Used(b.addr, n), Spare(b.addr + HEADER + n, b.size - n - HEADER)]
  {
  }

  lemma AllocateUnfolds(bs: seq<Block>, n: nat, i: nat)
    requires FirstFit(bs, n) == i < |bs|
    ensures Allocate(bs, n) == bs[..i] + Carve(bs[i], n) + bs[i + 1..]
  {
  }

  lemma LastReplaced(front: seq<Block>, b: Block, cut: seq<Block>)
    ensures var bs := front + [b]; bs[|front|] == b && bs[..|front|] + cut + bs[|front| + 1..] == front + cut
  {
  }

  lemma Serve(h: Heap, calls: seq<Call>, bs: seq<Block>, request: nat, after: seq<Block>) returns (r: seq<Call>)
    requires Leads(h, calls, bs) && 0 < request < 1000 && request % 8 == 0 && bs != []
    requires var b := bs[|bs| - 1];
             && b.free && b.size >= request + HEADER + MIN_LEFTOVER && (forall x | x in bs[..|bs| - 1] :: !x.free)
             && after == bs[..|bs| - 1] + [Used(b.addr, request),
                Spare(b.addr + HEADER + request, b.size - request - HEADER)]
    ensures r == calls + [Malloc(request)] && Leads(h, r, after)
  {
    hide Allocate, FirstFit, MallocMem, CalmRun, Run;
    var front, b := bs[..|bs| - 1], bs[|bs| - 1];
    assert bs == front + [b];
    r := calls + [Malloc(request)];
    assert Round(request) == request;
    ServedBehind(front, b, request);
    RunSnoc(h, calls, Malloc(request));
  }

  lemma Return(h: Heap, calls: seq<Call>, hi: nat, bs: seq<Block>, i: nat, after: seq<Block>) returns (r: seq<Call>)
    requires HeapOk(h, hi) && Leads(h, calls, bs) && i < |bs| && !bs[i].free && Release(bs, i) == after
    ensures r == calls + [FreeAt(bs[i].addr + HEADER)] && Leads(h, r, after)
  {
    hide Release, FreeMem, CalmRun, Run, HeapOk, Get, IsFree;
    r := calls + [FreeAt(bs[i].addr + HEADER)];
    RunStays(h, calls, hi);
    LiveVerdict(Run(h, calls), hi, i);
    RunSnoc(h, calls, FreeAt(bs[i].addr + HEADER));
  }

  lemma RunStays(h: Heap, calls: seq<Call>, hi: nat)
    requires HeapOk(h, hi) && CalmRun(h, calls)
    ensures HeapOk(Run(h, calls), hi)
  {
    RunKeeps(h, calls, hi);
  }

  lemma LiveVerdict(h: Heap, hi: nat, i: nat)
    requires HeapOk(h, hi) && i < |h.blocks| && !h.blocks[i].free
    ensures var x := h.blocks[i].addr;
            x + HEADER < WORD && HeaderAddress(x + HEADER) == x && IndexOf(h.blocks, x) == i
                && Verdict(h, x + HEADER) == Released
  {
    hide Placed, Written, WellFormed, Get, IsFree;
    PlacedFrom(h.blocks, hi);
    PlacedOrdered(h.blocks);
    InBounds(h.blocks, i);
    IndexOfBlock(h.blocks, i);
    Reads(h.mem, h.blocks, i);
  }

  // ----- a second free that panics

  /** `p = kmalloc(16); q = kmalloc(8); kfree(p); kfree(q); kmalloc(8)`. */
  const PANIC_CALLS: seq<Call> := [Malloc(16), Malloc(8), FreeAt(B + 20), FreeAt(B + 56), Malloc(8)]

  lemma ReturnsFirst(size: nat)
    requires size >= 1000
    ensures Release([Used(B, 16), Used(B + 36, 8), Spare(B + 64, size - 64)], 0)
            == [Spare(B, 16), Used(B + 36, 8), Spare(B + 64, size - 64)]
    ensures Release([Spare(B, 16), Used(B + 36, 8), Spare(B + 64, size - 64)], 1) == [Spare(B, size)]
  {
  }

  /** A second `kfree(q)` then panics: the last split has put a free flag over the magic number. */
  lemma SecondFreePanics(h: Heap, size: nat)
    requires HeapOk(h, B + HEADER + size) && h.blocks == [Spare(B, size)] && size >= 1000
    ensures CalmRun(h, PANIC_CALLS) && Verdict(Run(h, PANIC_CALLS), B + 56) == Panic
  {
    hide HeapOk, Leads, Release, CalmRun, Run, Verdict;
    var hi := B + HEADER + size;
    Begin(h);
    var c := Serve(h, [], [Spare(B, size)], 16, [Used(B, 16), Spare(B + 36, size - 36)]);
    c := Serve(h, c, [Used(B, 16), Spare(B + 36, size - 36)], 8,
        [Used(B, 16), Used(B + 36, 8), Spare(B + 64, size - 64)]);
    ReturnsFirst(size);
    var half := [Spare(B, 16), Used(B + 36, 8), Spare(B + 64, size - 64)];
    c := Return(h, c, hi, [Used(B, 16), Used(B + 36, 8), Spare(B + 64, size - 64)], 0, half);
    c := Return(h, c, hi, half, 1, [Spare(B, size)]);
    c := Serve(h, c, [Spare(B, size)], 8, [Used(B, 8), Spare(B + 28, size - 28)]);
    assert c == PANIC_CALLS;
    End(h, c, [Used(B, 8), Spare(B + 28, size - 28)]);
    RunStays(h, c, hi);
    StruckVerdict(Run(h, c), hi, B + 36, 1);
  }

  lemma Begin(h: Heap)
    ensures Leads(h, [], h.blocks) && h.blocks == [] + h.blocks
  {
  }

  lemma End(h: Heap, calls: seq<Call>, bs: seq<Block>)
    requires Leads(h, calls, bs)
    ensures CalmRun(h, calls) && Run(h, calls).blocks == bs
  {
  }

  lemma StruckVerdict(h: Heap, hi: nat, x: nat, i: nat)
    requires HeapOk(h, hi) && i < |h.blocks| && h.blocks[i].addr < x < h.blocks[i].addr + HEADER && x % 4 == 0
    requires IndexOf(h.blocks, x) == |h.blocks| && x + HEADER < WORD
    ensures Verdict(h, x + HEADER) == Panic
  {
    hide Placed, Written, WellFormed;
    PlacedFrom(h.blocks, hi);
    StruckBreaks(h.mem, h.blocks, x, i);
    ShownVerdict(h, x, Broken);
  }

  // ----- a second free that runs wild

  /** Four blocks of 8 bytes, of which the fourth and the third are freed; then the second, and two others are made. */
  const MERGE_CALLS: seq<Call> := [Malloc(8), Malloc(8), Malloc(8), Malloc(8), FreeAt(B + 104), FreeAt(B + 76)]
  const WILD_CALLS: seq<Call> := MERGE_CALLS + [FreeAt(B + 48), Malloc(40), Malloc(256)]

  function Three(size: nat): seq<Block>
    requires size >= 1000
  { [Used(B, 8), Used(B + 28, 8), Used(B + 56, 8), Spare(B + 84, size - 84)] }

  lemma ReturnsThree(size: nat)
    requires size >= 1000
    ensures Release([Used(B, 8), Used(B + 28, 8), Used(B + 56, 8), Used(B + 84, 8), Spare(B + 112, size - 112)], 3) ==
            Three(size)
    ensures Release(Three(size), 2) == [Used(B, 8), Used(B + 28, 8), Spare(B + 56, size - 56)]
    ensures Release([Used(B, 8), Used(B + 28, 8), Spare(B + 56, size - 56)], 1) ==
            [Used(B, 8), Spare(B + 28, size - 28)]
  {
  }

  lemma ThreeLead(h: Heap, size: nat) returns (c: seq<Call>)
    requires HeapOk(h, B + HEADER + size) && h.blocks == [Spare(B, size)] && size >= 1000
    ensures c == [Malloc(8), Malloc(8), Malloc(8), Malloc(8), FreeAt(B + 104)] && Leads(h, c, Three(size))
  {
    hide HeapOk, Leads, Release;
    var hi := B + HEADER + size;
    Begin(h);
    var two := [Used(B, 8), Used(B + 28, 8), Spare(B + 56, size - 56)];
    var four := [Used(B, 8), Used(B + 28, 8), Used(B + 56, 8), Used(B + 84, 8), Spare(B + 112, size - 112)];
    c := Serve(h, [], [Spare(B, size)], 8, [Used(B, 8), Spare(B + 28, size - 28)]);
    c := Serve(h, c, [Used(B, 8), Spare(B + 28, size - 28)], 8, two);
    c := Serve(h, c, two, 8, Three(size));
    c := Serve(h, c, Three(size), 8, four);
    ReturnsThree(size);
    c := Return(h, c, hi, four, 3, Three(size));
  }

  /** The third free merges the header of the fourth block away for good; it is left whole. */
  lemma FourthSettled(h: Heap, size: nat) returns (c: seq<Call>)
    requires HeapOk(h, B + HEADER + size) && h.blocks == [Spare(B, size)] && size >= 1000
    ensures c == MERGE_CALLS && Leads(h, c, [Used(B, 8), Used(B + 28, 8), Spare(B + 56, size - 56)])
    ensures Settled(Run(h, c), B + 84)
  {
    hide HeapOk, Release, Settled, Calm, Step, FreeMem;
    var hi := B + HEADER + size;
    c := ThreeLead(h, size);
    RunStays(h, c, hi);
    var before := c;
    assert before == [Malloc(8), Malloc(8), Malloc(8), Malloc(8), FreeAt(B + 104)];
    assert Three(size)[3].addr == B + 84;
    ListedSettledAt(Run(h, before), hi, 3);
    ReturnsThree(size);
    LiveVerdict(Run(h, before), hi, 2);
    assert Calm(Run(h, before), FreeAt(B + 76)) by { CalmLive(Run(h, before), B + 76); }
    FreeSettles(Run(h, before), B + 76, hi, B + 84);
    RunSnoc(h, before, FreeAt(B + 76));
    c := Return(h, before, hi, Three(size), 2, [Used(B, 8), Used(B + 28, 8), Spare(B + 56, size - 56)]);
    assert c == MERGE_CALLS;
  }

  lemma CalmLive(h: Heap, ptr: nat)
    requires ptr < WORD && Verdict(h, ptr) == Released
    ensures Calm(h, FreeAt(ptr))
  {
  }

  lemma ListedSettledAt(h: Heap, hi: nat, i: nat)
    requires HeapOk(h, hi) && i < |h.blocks|
    ensures Settled(h, h.blocks[i].addr)
  {
    hide Settled, Written, WellFormed;
    SomewhereListed(h.blocks, h.blocks[i].addr);
    ListedSettled(h, hi, h.blocks[i].addr);
  }

  /**
   A second `kfree` of the fourth block takes its remains for a block in use: the header of the last
   block lies over the free flag, and the low byte of its size is 0. The owner of the 40 bytes has
   not written a byte. The size of that block, 256, turns into 257 at once.
   */
  lemma SecondFreeRunsWild(h: Heap, size: nat)
    requires HeapOk(h, B + HEADER + size) && h.blocks == [Spare(B, size)] && size >= 1000
    ensures CalmRun(h, WILD_CALLS) && Verdict(Run(h, WILD_CALLS), B + 104) == Wild
    ensures var r := Run(h, WILD_CALLS); var m := PutFree(r.mem, B + 84, true);
            Get(r.mem, B + 88, Size) == 256 && Get(m, B + 88, Size) == 257 && !Written(m, r.blocks)
  {
    hide HeapOk, Release, Settled, FreeMem, CalmRun, Run, Shows, After, AfterAll, Allocate, FirstFit;
    var hi := B + HEADER + size;
    var c0 := FourthSettled(h, size);
    RunStays(h, c0, hi);
    ReturnsThree(size);
    LiveVerdict(Run(h, c0), hi, 1);
    CalmLive(Run(h, c0), B + 48);
    FreeSettles(Run(h, c0), B + 48, hi, B + 84);
    RunSnoc(h, c0, FreeAt(B + 48));
    var one := [Used(B, 8), Spare(B + 28, size - 28)];
    var c1 := Return(h, c0, hi, [Used(B, 8), Used(B + 28, 8), Spare(B + 56, size - 56)], 1, one);
    SettledWhole(Run(h, c1), B + 84, one);
    RunStays(h, c1, hi);
    var cut := [Used(B, 8), Used(B + 28, 40), Spare(B + 88, size - 88)];
    var c2 := ServeShows(h, c1, hi, one, 40, cut, B + 84, Whole);
    var last := [Used(B, 8), Used(B + 28, 40), Used(B + 88, 256), Spare(B + 364, size - 364)];
    CutShows(size, After(cut, Whole, B + 84));
    var c3 := ServeShows(h, c2, hi, cut, 256, last, B + 84, After(cut, Whole, B + 84));
    assert c3 == WILD_CALLS;
    RunStays(h, c3, hi);
    ShownVerdict(Run(h, c3), B + 84, InUse);
    LastWild(Run(h, c3), hi);
  }

  lemma SettledWhole(h: Heap, x: nat, bs: seq<Block>)
    requires Settled(h, x) && h.blocks == bs && forall b | b in bs :: b.addr != x
    ensures Shows(h.mem, x, Whole)
  {
    SomewhereListed(bs, x);
  }

  /** Serving a request, seen from the remains at `x`. */
  lemma ServeShows(h: Heap, calls: seq<Call>, hi: nat, bs: seq<Block>, request: nat, after: seq<Block>, x: nat,
          was: Remains)
    returns (r: seq<Call>)
    requires HeapOk(h, hi) && Leads(h, calls, bs) && 0 < request < 1000 && request % 8 == 0 && bs != []
    requires var b := bs[|bs| - 1];
             && b.free && b.size >= request + HEADER + MIN_LEFTOVER && (forall a | a in bs[..|bs| - 1] :: !a.free)
             && after == bs[..|bs| - 1] + [Used(b.addr, request),
                Spare(b.addr + HEADER + request, b.size - request - HEADER)]
    requires x % 4 == 0 && Shows(Run(h, calls).mem, x, was) && forall b | b in after :: b.addr != x
    ensures r == calls + [Malloc(request)] && Leads(h, r, after)
    ensures Shows(Run(h, r).mem, x, After(after, was, x)) && IndexOf(after, x) == |after|
  {
    hide HeapOk, Shows, After, AfterAll, Allocate, FirstFit, MallocMem, CalmRun, Run;
    var front, b := bs[..|bs| - 1], bs[|bs| - 1];
    assert bs == front + [b];
    assert Round(request) == request;
    ServedBehind(front, b, request);
    RunStays(h, calls, hi);
    SomewhereListed(after, x);
    MallocShows(Run(h, calls), request, hi, x, was);
    AfterOne(after, was, x);
    RunSnoc(h, calls, Malloc(request));
    r := Serve(h, calls, bs, request, after);
  }

  /** The two cuts do not strike the remains of the fourth block, and the second one clears their flag. */
  lemma CutShows(size: nat, r: Remains)
    requires size >= 1000
    ensures After([Used(B, 8), Used(B + 28, 40), Spare(B + 88, size - 88)], Whole, B + 84) != Broken
    ensures r != Broken ==>
              After([Used(B, 8), Used(B + 28, 40), Used(B + 88, 256), Spare(B + 364, size - 364)], r, B + 84) == InUse
  {
    LastUnflagged(size);
  }

  lemma LastUnflagged(size: nat)
    requires size >= 1000
    ensures var last := [Used(B, 8), Used(B + 28, 40), Used(B + 88, 256), Spare(B + 364, size - 364)];
            IndexOf(last, B + 88) == 2 && SizeAt(last, B + 88) == O.Some(256) && Unflagged(last, B + 84)
                && Overlaid(last, B + 84)
  {
    var last := [Used(B, 8), Used(B + 28, 40), Used(B + 88, 256), Spare(B + 364, size - 364)];
    SomewhereListed(last, B + 88);
    assert last[2].addr == B + 88;
  }

  lemma LastWild(h: Heap, hi: nat)
    requires HeapOk(h, hi) && hi >= B + HEADER + 1000
    requires h.blocks == [Used(B, 8), Used(B + 28, 40), Used(B + 88, 256), Spare(B + 364, hi - B - HEADER - 364)]
    ensures var m := PutFree(h.mem, B + 84, true);
            Get(h.mem, B + 88, Size) == 256 && Get(m, B + 88, Size) == 257 && !Written(m, h.blocks)
  {
    hide Get, PutFree, Written, Placed, WellFormed;
    LastUnflagged(hi - B - HEADER);
    WildSpoils(h, hi, B + 84);
    PlacedFrom(h.blocks, hi);
    Reads(h.mem, h.blocks, 2);
  }
}
