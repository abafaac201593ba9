/**
 Sessions on a disk: edits that mark the machine dirty, flushes, saves and reboots, failing or not.
 A machine that is not dirty has on its disk exactly what a save would write.
 */
module PersistRuns {
  import opened Bytes
  import opened Words
  import opened Paths
  import opened FsSpec
  import opened AccountSpec
  import opened SnapshotFormat
  import opened SnapshotTree
  import opened PersistSpec

  // ----- the payload says what the tree is, and nothing about identities

  ghost function TreeRecords(trees: seq<Tree>, above: seq<Str>): seq<Rec>
    decreases trees
  {
    if trees == [] then []
    else
      var t := trees[0];
      [Rec(t.kind, Printed(above + [t.name], PATH_MAX), t.data)] + TreeRecords(t.kids, above + [t.name])
      + TreeRecords(trees[1..], above)
  }

  lemma {:induction false} RecordsOfTrees(fs: Fs, d: Id, kids: seq<Id>, lo: Id)
    requires TreeOk(fs) && Kids(fs, d, kids, lo)
    ensures Records(fs, d, kids, lo) == TreeRecords(Trees(fs, d, kids, lo), NamesTo(fs, d))
    decreases fs.next - lo, |kids|
  {
    hide TreeOk, NodeOk, NamesTo, Printed, TreeRecords, RecOf, Kids, Trees, Records;
    if kids != [] {
      var k := kids[0];
      FirstKid(fs, d, kids, lo);
      RecordsOfTrees(fs, k, fs.nodes[k].children, k + 1);
      RecordsOfTrees(fs, d, kids[1..], lo);
      var n := fs.nodes[k];
      var t := Tree(n.name, n.kind, n.data, Trees(fs, k, n.children, k + 1));
      TreeRecordsCons(t, Trees(fs, d, kids[1..], lo), NamesTo(fs, d));
    } else {
      NoKids(fs, d, lo);
      TreeRecordsNil(NamesTo(fs, d));
    }
  }

  lemma FirstKid(fs: Fs, d: Id, kids: seq<Id>, lo: Id)
    requires TreeOk(fs) && Kids(fs, d, kids, lo) && kids != []
    ensures kids[0] in fs.nodes && lo <= kids[0] < fs.next && Kids(fs, d, kids[1..], lo)
    ensures var k := kids[0];
            var n := fs.nodes[k];
            && Kids(fs, k, n.children, k + 1)
            && Trees(fs, d, kids, lo) ==
               [Tree(n.name, n.kind, n.data, Trees(fs, k, n.children, k + 1))] + Trees(fs, d, kids[1..], lo)
            && Records(fs, d, kids, lo) ==
               [RecOf(fs, k)] + Records(fs, k, n.children, k + 1) + Records(fs, d, kids[1..], lo)
            && NamesTo(fs, k) == NamesTo(fs, d) + [n.name]
            && RecOf(fs, k) == Rec(n.kind, Printed(NamesTo(fs, d) + [n.name], PATH_MAX), n.data)
  {
    KidsOf(fs, kids[0]);
    KidsTail(fs, d, kids, lo);
    KidNames(fs, d, kids, lo);
  }

  lemma NoKids(fs: Fs, d: Id, lo: Id)
    requires TreeOk(fs) && Kids(fs, d, [], lo)
    ensures d in fs.nodes && Trees(fs, d, [], lo) == [] && Records(fs, d, [], lo) == []
  {
  }

  lemma TreeRecordsNil(above: seq<Str>)
    ensures TreeRecords([], above) == []
  {
  }

  lemma TreeRecordsCons(t: Tree, rest: seq<Tree>, above: seq<Str>)
    ensures TreeRecords([t] + rest, above) ==
            [Rec(t.kind, Printed(above + [t.name], PATH_MAX), t.data)] + TreeRecords(t.kids, above + [t.name])
            + TreeRecords(rest, above)
  {
    assert ([t] + rest)[1..] == rest;
  }

  lemma KidNames(fs: Fs, d: Id, kids: seq<Id>, lo: Id)
    requires TreeOk(fs) && Kids(fs, d, kids, lo) && kids != []
    ensures NamesTo(fs, kids[0]) == NamesTo(fs, d) + [fs.nodes[kids[0]].name]
    ensures RecOf(fs, kids[0]) == Rec(fs.nodes[kids[0]].kind, Printed(NamesTo(fs, kids[0]), PATH_MAX),
            fs.nodes[kids[0]].data)
  {
    assert NodeOk(fs, kids[0]);
    ParentFacts(fs, kids[0]);
  }

  /** Equal forests are stored alike. */
  lemma SameForestSamePayload(a: Fs, b: Fs, us: seq<User>)
    requires TreeOk(a) && TreeOk(b) && Forest(a) == Forest(b)
    ensures AllRecords(a) == AllRecords(b) && Payload(a, us) == Payload(b, us)
  {
    hide TreeOk, Trees, Records, TreeRecords;
    RootNames(a);
    RootNames(b);
    KidsOf(a, a.root);
    KidsOf(b, b.root);
    RecordsOfTrees(a, a.root, a.nodes[a.root].children, a.root + 1);
    RecordsOfTrees(b, b.root, b.nodes[b.root].children, b.root + 1);
  }

  lemma RootNames(fs: Fs)
    requires TreeOk(fs)
    ensures fs.root in fs.nodes && NamesTo(fs, fs.root) == []
  {
  }

  // ----- a disk that needs no save

  /** The disk has what a save of this machine, with this many saves before, would leave there. */
  ghost predicate Carries(m: Machine, saves: nat)
    requires TreeOk(m.fs)
  {
    var d, base := On(m.disks, m.vars.drive), m.vars.base;
    var payload := Payload(m.fs, Listed(m.table.slots));
    var run := Chop(Padded(payload));
    && saves < WORD && |payload| <= MAX_PAYLOAD && base + 1 + |run| <= |d|
    && d[base] == EncodeSuper(SuperOf(m.(vars := m.vars.(saveCount := saves))))
    && d[base + 1..base + 1 + |run|] == run
  }

  ghost predicate UpToDate(m: Machine)
    requires TreeOk(m.fs)
  { exists saves :: Carries(m, saves) }

  lemma WrittenSame(d: Drive, lba: nat, run: seq<Str>)
    requires lba + |run| <= |d| && d[lba..lba + |run|] == run
    ensures Written(d, lba, run) == d
  {
    assert d == d[..lba] + d[lba..lba + |run|] + d[lba + |run|..];
  }

  lemma WrittenPrefix(d: Drive, lba: nat, run: seq<Str>, k: nat)
    requires lba + |run| <= |d| && d[lba..lba + |run|] == run && k <= |run|
    ensures Written(d, lba, run[..k]) == d
  {
    assert d[lba..lba + k] == d[lba..lba + |run|][..k];
    WrittenSame(d, lba, run[..k]);
  }

  lemma PutSame(disks: Disks, w: Which)
    ensures Put(disks, w, On(disks, w)) == disks
  {
  }

  /** A save that stops in the payload writes what is there already. */
  lemma TornHarmless(m: Machine, saves: nat, k: nat)
    requires TreeOk(m.fs) && Carries(m, saves)
    ensures Torn(m, k) == m.disks
  {
    hide Payload, Chop, Padded, EncodeSuper, Listed, Written, SuperOf;
    var d, base := On(m.disks, m.vars.drive), m.vars.base;
    var run := Chop(Padded(Payload(m.fs, Listed(m.table.slots))));
    PutSame(m.disks, m.vars.drive);
    if k <= |run| {
      WrittenPrefix(d, base + 1, run, k);
    }
  }

  /** A save of a machine whose disk is up to date would succeed, and change nothing. */
  lemma SaveAgain(m: Machine, saves: nat)
    requires TreeOk(m.fs) && Carries(m, saves) && m.vars.status != NoDisk
    ensures var n := m.(vars := m.vars.(saveCount := saves, isSealed := false));
            Save(n, true, None, None).1 == 0 && Save(n, true, None, None).0.disks == m.disks
  {
    hide Payload, Chop, Padded, EncodeSuper, Listed, Written, AllRecords;
    var d, base := On(m.disks, m.vars.drive), m.vars.base;
    var payload := Payload(m.fs, Listed(m.table.slots));
    var run := Chop(Padded(payload));
    RunNotEmpty(payload);
    WrittenSame(d, base + 1, run);
    WrittenSame(d, base, [d[base]]);
    PutSame(m.disks, m.vars.drive);
  }

  /** After a complete save the disk is up to date. */
  lemma SavedCarries(m: Machine, disks: Disks)
    requires RunOk(m) && m.vars.status != NoDisk && m.vars.saveCount < WORD
    requires Save(m, true, None, None).1 == 0 && disks == Save(m, true, None, None).0.disks
    ensures TreeOk(m.fs) && Carries(m.(disks := disks), m.vars.saveCount)
  {
    hide Payload, Chop, Padded, EncodeSuper, Listed, Written, AllRecords, Valid;
    BootRoot(m.fs);
    var d, base := On(m.disks, m.vars.drive), m.vars.base;
    var payload := Payload(m.fs, Listed(m.table.slots));
    var run := Chop(Padded(payload));
    RunNotEmpty(payload);
    if base + 1 + |run| <= |d| {
      SavedDrive(d, base, run, EncodeSuper(SuperOf(m)));
      WrittenFacts(d, base + 1, run);
    }
  }

  // ----- sessions

  datatype Turn =
    | Edit(fs: Fs, table: Table)             // a command that changes tree or accounts, and marks it
    | Saving(memory: bool, payloadFault: Option<nat>, superFault: Option<nat>)
    | Flushing(memory: bool, payloadFault: Option<nat>, superFault: Option<nat>)
    | Booting(env: Env, boot: Fs)

  /**
   On a disk, and up to date unless marked dirty. An edit brings any machine on a disk there, and
   every turn after that keeps it there.
   */
  ghost predicate InStep(m: Machine) {
    && RunOk(m) && MachineOk(m) && Located(m) && m.vars.status != NoDisk
    && (!m.vars.dirty ==> UpToDate(m))
  }

  /** A boot works, of a system that was not dirty, not empty, and of which every node can be stored. */
  ghost predicate LegalTurn(m: Machine, t: Turn)
    requires InStep(m)
  {
    match t
    case Edit(fs, table) => Valid(fs) && TableOk(table)
    case Booting(env, boot) => Works(env) && Valid(boot) && !m.vars.dirty && Storable(m.fs) && Something(m)
    case _ => true
  }

  ghost predicate Something(m: Machine)
    requires TreeOk(m.fs)
  { Listed(m.table.slots) != [] || m.fs.nodes[m.fs.root].children != [] }

  ghost function Taken(m: Machine, t: Turn): Machine
    requires InStep(m) && LegalTurn(m, t)
  {
    match t
    case Edit(fs, table) =>
      var edited := Apply(m, Work(fs, table));
      Apply(edited, MarkDirty)
    case Saving(memory, p, s) => Apply(m, SaveOp(memory, p, s))
    case Flushing(memory, p, s) => Apply(m, FlushOp(memory, p, s))
    case Booting(env, boot) => Apply(m, Reboot(env, boot, Empty()))
  }

  /** However a save ends, a machine that is in step stays so. */
  lemma SaveInStep(m: Machine, memory: bool, payloadFault: Option<nat>, superFault: Option<nat>)
    requires InStep(m)
    ensures InStep(Save(m, memory, payloadFault, superFault).0)
    ensures Save(m, memory, payloadFault, superFault).1 == 0 ==> !Save(m, memory, payloadFault, superFault).0.vars.dirty
  {
    hide Payload, Chop, Padded, EncodeSuper, Listed, Written, AllRecords, TableOk, Torn, Valid, Carries, SuperOf;
    var op := SaveOp(memory, payloadFault, superFault);
    BootRoot(m.fs);
    LocatedStays(m, op);
    SaveConfined(m, memory, payloadFault, superFault);
    var (n, code) := Save(m, memory, payloadFault, superFault);
    SaveVars(m, memory, payloadFault, superFault);
    var k := CrashPoints(m, memory, payloadFault, superFault);
    if n.disks == Torn(m, k) && code != 0 {
      if !m.vars.dirty {
        var saves :| Carries(m, saves);
        TornHarmless(m, saves, k);
        CarriesOn(m, n, saves);
      }
    } else {
      CompleteInStep(m, memory, payloadFault, superFault);
    }
  }

  lemma SaveVars(m: Machine, memory: bool, payloadFault: Option<nat>, superFault: Option<nat>)
    requires TreeOk(m.fs) && m.vars.saveCount < WORD
    ensures var (n, code) := Save(m, memory, payloadFault, superFault);
            && n.vars.saveCount < WORD && n.fs == m.fs && n.table == m.table
            && n.vars.drive == m.vars.drive && n.vars.base == m.vars.base
            && (m.vars.status != NoDisk ==> n.vars.status != NoDisk)
            && (code == 0 && m.vars.status != NoDisk ==> !n.vars.dirty && n.vars.status == Loaded)
            && (code != 0 ==> n.vars.dirty == m.vars.dirty)
  {
    hide Payload, Chop, Padded, EncodeSuper, Listed, AtaWrite, AllRecords, SuperOf;
  }

  lemma CarriesOn(m: Machine, n: Machine, saves: nat)
    requires TreeOk(m.fs) && Carries(m, saves)
    requires n.fs == m.fs && n.table == m.table && n.disks == m.disks
    requires n.vars.drive == m.vars.drive && n.vars.base == m.vars.base
    ensures UpToDate(n)
  {
    hide Payload, Chop, Padded, EncodeSuper, Listed, AllRecords;
    assert Carries(n, saves);
  }

  lemma CompleteInStep(m: Machine, memory: bool, payloadFault: Option<nat>, superFault: Option<nat>)
    requires RunOk(m) && MachineOk(m) && m.vars.status != NoDisk
    requires var n := Save(m, memory, payloadFault, superFault).0;
             Save(m, memory, None, None).1 == 0 && n.disks == Save(m, memory, None, None).0.disks
    ensures UpToDate(Save(m, memory, payloadFault, superFault).0)
  {
    hide Payload, Chop, Padded, EncodeSuper, Listed, Written, AllRecords, TableOk, Valid, Carries, SuperOf;
    BootRoot(m.fs);
    var n := Save(m, memory, payloadFault, superFault).0;
    SaveVars(m, memory, payloadFault, superFault);
    MemoryThere(m, memory);
    SavedCarries(m, n.disks);
    CarriesOn(m.(disks := n.disks), n, m.vars.saveCount);
  }

  lemma MemoryThere(m: Machine, memory: bool)
    requires TreeOk(m.fs) && m.vars.status != NoDisk && Save(m, memory, None, None).1 == 0
    ensures memory
  {
    hide Payload, Chop, Padded, EncodeSuper, Listed, AtaWrite, AllRecords, SuperOf;
  }

  // ----- what a boot brings back

  /** Tree and accounts are there again, as far as the tree can be stored. */
  ghost predicate BringsBack(m: Machine, booted: Machine)
    requires TreeOk(m.fs)
  {
    && booted.vars.status == Loaded && Valid(booted.fs)
    && (Forest(booted.fs) == Forest(m.fs) <==> Storable(m.fs))
    && Listed(booted.table.slots) == Listed(m.table.slots) && TableOk(booted.table)
  }

  /** A machine that is not dirty loses nothing when the plug is pulled. */
  lemma NothingToLose(m: Machine, boot: Fs, v: Vars, env: Env)
    requires InStep(m) && !m.vars.dirty && Something(m) && Valid(boot) && Works(env)
    ensures boot.root in boot.nodes
    ensures var booted := Mount(Machine(m.disks, boot, Empty(), v), env);
            && BringsBack(m, booted) && booted.vars.drive == m.vars.drive && booted.vars.base == m.vars.base
            && booted.vars.saveCount < WORD
  {
    hide Save, Mount, Carries, TableOk, Valid, Listed, Forest, Storable, Empty, TreeOk;
    StepValid(m);
    BootRoot(boot);
    var saves :| Carries(m, saves);
    SavesFit(m, saves);
    var n := m.(vars := m.vars.(saveCount := saves, isSealed := false));
    SaveAgain(m, saves);
    SaveThenMount(n, true, boot, v, env);
    SavedCount(n);
  }

  lemma StepValid(m: Machine)
    requires InStep(m)
    ensures TreeOk(m.fs) && m.fs.root in m.fs.nodes && (!m.vars.dirty ==> UpToDate(m))
  {
  }

  lemma SavesFit(m: Machine, saves: nat)
    requires TreeOk(m.fs) && Carries(m, saves)
    ensures saves < WORD
  {
  }

  lemma SavedCount(n: Machine)
    requires TreeOk(n.fs) && n.vars.saveCount < WORD
    ensures Save(n, true, None, None).0.vars.saveCount < WORD
    ensures Save(n, true, None, None).0.vars.drive == n.vars.drive
            && Save(n, true, None, None).0.vars.base == n.vars.base
  {
    SaveVars(n, true, None, None);
  }

  /** What was restored from the disk is what is on the disk. */
  lemma BootInStep(m: Machine, env: Env, boot: Fs)
    requires InStep(m) && LegalTurn(m, Booting(env, boot))
    ensures InStep(Taken(m, Booting(env, boot))) && !Taken(m, Booting(env, boot)).vars.dirty
  {
    hide Save, Mount, Carries, TableOk, Valid, Listed, Forest, Storable, Empty, TreeOk, Located;
    StepValid(m);
    var op := Reboot(env, boot, Empty());
    NothingToLose(m, boot, m.vars, env);
    var booted := Mount(Machine(m.disks, boot, Empty(), m.vars), env);
    assert Apply(m, op) == booted;
    ApplyOk(m, op);
    BootRoot(boot);
    MountLocates(Machine(m.disks, boot, Empty(), m.vars), env);
    LoadedIsClean(Machine(m.disks, boot, Empty(), m.vars), env);
    var saves :| Carries(m, saves);
    SameForest(m, booted);
    SameForestSamePayload(m.fs, booted.fs, Listed(m.table.slots));
    CarriesToo(m, booted, saves);
  }

  lemma SameForest(m: Machine, booted: Machine)
    requires TreeOk(m.fs) && BringsBack(m, booted) && Storable(m.fs)
    ensures TreeOk(booted.fs) && Forest(booted.fs) == Forest(m.fs)
  {
  }

  lemma LoadedIsClean(m: Machine, env: Env)
    requires DisksOk(m.disks) && m.fs.root in m.fs.nodes && Mount(m, env).vars.status == Loaded
    ensures !Mount(m, env).vars.dirty && !Mount(m, env).vars.isSealed
  {
    hide Restore, StoredPayload, ParseSuper, Flatten;
  }

  lemma CarriesToo(m: Machine, n: Machine, saves: nat)
    requires TreeOk(m.fs) && TreeOk(n.fs) && Carries(m, saves) && n.disks == m.disks
    requires n.vars.drive == m.vars.drive && n.vars.base == m.vars.base
             && Listed(n.table.slots) == Listed(m.table.slots)
    requires AllRecords(n.fs) == AllRecords(m.fs)
    requires Payload(n.fs, Listed(m.table.slots)) == Payload(m.fs, Listed(m.table.slots))
    ensures UpToDate(n)
  {
    hide Payload, Chop, Padded, EncodeSuper, Listed, AllRecords;
    assert Carries(n, saves);
  }

  // ----- whole sessions

  lemma TurnKeeps(m: Machine, t: Turn)
    requires InStep(m) && LegalTurn(m, t)
    ensures InStep(Taken(m, t))
  {
    hide Save, Mount, Carries, Storable, Located;
    match t
    case Edit(fs, table) => EditInStep(m, fs, table);
    case Saving(memory, p, s) => SaveInStep(m, memory, p, s);
    case Flushing(memory, p, s) => SaveInStep(m, memory, p, s);
    case Booting(env, boot) => BootInStep(m, env, boot);
  }

  lemma EditInStep(m: Machine, fs: Fs, table: Table)
    requires InStep(m) && Valid(fs) && TableOk(table)
    ensures InStep(Taken(m, Edit(fs, table))) && Taken(m, Edit(fs, table)).vars.dirty
    ensures Taken(m, Edit(fs, table)) == m.(fs := fs, table := table, vars := m.vars.(dirty := true))
  {
    hide Valid, TableOk, UpToDate;
  }

  ghost predicate LegalSession(m: Machine, turns: seq<Turn>)
    requires InStep(m)
    decreases |turns|
  {
    turns == [] || (LegalTurn(m, turns[0]) && (TurnKeeps(m, turns[0]); LegalSession(Taken(m, turns[0]), turns[1..])))
  }

  ghost function Session(m: Machine, turns: seq<Turn>): (r: Machine)
    requires InStep(m) && LegalSession(m, turns)
    ensures InStep(r)
    decreases |turns|
  {
    if turns == [] then m else TurnKeeps(m, turns[0]); Session(Taken(m, turns[0]), turns[1..])
  }

  /**
   The promise of kernel/shell.c:1196, over whole sessions of edits, saves, flushes and boots, whose
   saves and flushes may fail in any way: once a flush has answered 0, pulling the plug loses
   nothing of the tree and the accounts as they are then.
   */
  lemma FlushedIsSafe(m: Machine, turns: seq<Turn>, memory: bool, payloadFault: Option<nat>, superFault: Option<nat>,
          boot: Fs, v: Vars, env: Env)
    requires InStep(m) && LegalSession(m, turns) && Valid(boot) && Works(env)
    requires var now := Session(m, turns);
             Something(now) && TreeOk(now.fs) && Flush(now, memory, payloadFault, superFault).1 == 0
    ensures var now := Session(m, turns);
            var flushed := Flush(now, memory, payloadFault, superFault).0;
            && !flushed.vars.dirty && DisksOk(flushed.disks) && boot.root in boot.nodes
            && TreeOk(now.fs) && flushed.fs == now.fs && flushed.table == now.table
            && BringsBack(now, Mount(Machine(flushed.disks, boot, Empty(), v), env))
  {
    hide Save, Mount, Carries, Storable, Located, BringsBack, Empty, Session, LegalSession;
    var now := Session(m, turns);
    SaveInStep(now, memory, payloadFault, superFault);
    var flushed := Flush(now, memory, payloadFault, superFault).0;
    SaveVars(now, memory, payloadFault, superFault);
    NothingToLose(flushed, boot, v, env);
    SameBack(now, flushed, Mount(Machine(flushed.disks, boot, Empty(), v), env));
  }

  lemma SameBack(a: Machine, b: Machine, booted: Machine)
    requires a.fs == b.fs && a.table == b.table && TreeOk(a.fs) && BringsBack(b, booted)
    ensures BringsBack(a, booted)
  {
  }

  /** An edit is pending until then: `persist_flush` answers 0 for it exactly if it gets it onto the disk. */
  lemma EditIsFlushed(m: Machine, fs: Fs, table: Table)
    requires InStep(m) && Valid(fs) && TableOk(table) && !m.vars.isSealed
    ensures var edited := Taken(m, Edit(fs, table));
            && TreeOk(edited.fs)
            && var (flushed, code) := Flush(edited, true, None, None);
               var d := On(m.disks, m.vars.drive);
               var run := Chop(Padded(Payload(fs, Listed(table.slots))));
               && (code == 0 <==> |Payload(fs, Listed(table.slots))| <= MAX_PAYLOAD && m.vars.base + 1 + |run| <= |d|)
               && (code == 0 ==> UpToDate(flushed) && !flushed.vars.dirty && flushed.fs == fs && flushed.table == table)
               && (code != 0 ==> flushed.disks == m.disks && flushed.vars.dirty)
  {
    hide Payload, Chop, Padded, EncodeSuper, Listed, Written, AllRecords, TableOk, Valid, Carries, SuperOf, UpToDate;
    BootRoot(fs);
    EditInStep(m, fs, table);
    var edited := Taken(m, Edit(fs, table));
    SaveInStep(edited, true, None, None);
    RunNotEmpty(Payload(fs, Listed(table.slots)));
    SaveVars(edited, true, None, None);
    StepValid(Save(edited, true, None, None).0);
    FitsOrNot(edited);
  }

  /** On an open disk a save with a working device succeeds exactly if the snapshot fits limit and disk. */
  lemma FitsOrNot(m: Machine)
    requires RunOk(m) && TreeOk(m.fs) && m.vars.status != NoDisk && !m.vars.isSealed && On(m.disks, m.vars.drive) != []
    ensures var payload := Payload(m.fs, Listed(m.table.slots));
            var fits := |payload| <= MAX_PAYLOAD
                && m.vars.base + 1 + |Chop(Padded(payload))| <= |On(m.disks, m.vars.drive)|;
            && (Save(m, true, None, None).1 == 0 <==> fits)
            && (!fits ==> Save(m, true, None, None).0.disks == m.disks)
  {
    hide Payload, Chop, Padded, EncodeSuper, Listed, AllRecords, Valid, SuperOf;
    var payload := Payload(m.fs, Listed(m.table.slots));
    RunNotEmpty(payload);
    PutSame(m.disks, m.vars.drive);
  }

  /**
   What needs no flush gets none: after a save or flush that answered 0, or a boot that loaded,
   nothing is written.
   */
  lemma CleanFlushIsIdle(m: Machine, memory: bool, p: Option<nat>, s: Option<nat>, memory2: bool, p2: Option<nat>,
          s2: Option<nat>)
    requires InStep(m) && TreeOk(m.fs) && Save(m, memory, p, s).1 == 0
    ensures var saved := Save(m, memory, p, s).0; TreeOk(saved.fs) && Flush(saved, memory2, p2, s2) == (saved, 0)
  {
    SaveVars(m, memory, p, s);
  }

  lemma LoadedFlushIsIdle(m: Machine, env: Env, memory: bool, p: Option<nat>, s: Option<nat>)
    requires RunOk(m) && m.fs.root in m.fs.nodes && Mount(m, env).vars.status == Loaded && TreeOk(Mount(m, env).fs)
    ensures Flush(Mount(m, env), memory, p, s) == (Mount(m, env), 0)
  {
    hide Mount, Save;
    LoadedIsClean(m, env);
  }

  // ----- what is answered

  /** `persist_save` gives the first reason that applies. */
  lemma SaveAnswers(m: Machine, memory: bool, payloadFault: Option<nat>, superFault: Option<nat>)
    requires TreeOk(m.fs)
    ensures var payload := Payload(m.fs, Listed(m.table.slots));
            var d := On(m.disks, m.vars.drive);
            var room := d != [] && m.vars.base + 1 + |Chop(Padded(payload))| <= |d|;
            Save(m, memory, payloadFault, superFault).1 ==
            if m.vars.isSealed then -5 else if m.vars.status == NoDisk then 0 else if !memory then -1
            else if |payload| > 1024 * 1024 then -2 else if !room || payloadFault.Some? then -3
            else if superFault.Some? then -4 else 0
  {
    hide Payload, Chop, Padded, EncodeSuper, Listed, AllRecords, SuperOf;
    RunNotEmpty(Payload(m.fs, Listed(m.table.slots)));
  }

  /** `persist_format` needs a disk and one write; it forgets what was saved, and seals. */
  lemma FormatAnswers(m: Machine, fault: Option<nat>)
    ensures var (r, code) := Format(m, fault);
            && code == (if m.vars.status == NoDisk then -1
                        else if m.vars.base >= |On(m.disks, m.vars.drive)| || fault.Some? then -2 else 0)
            && r.fs == m.fs && r.table == m.table
            && (code != 0 ==> r.vars == m.vars)
            && (code == 0 ==> r.vars == Vars(Blank, false, true, 0, 0, m.vars.drive, m.vars.base))
  {
  }

  /**
   A mount writes nothing; off the install medium there is no disk; and unless something was
   restored, nothing changes.
   */
  lemma MountHarmless(m: Machine, env: Env)
    requires DisksOk(m.disks) && m.fs.root in m.fs.nodes
    ensures var r := Mount(m, env);
            && r.disks == m.disks && !r.vars.isSealed
            && (env.fromMedium ==> r.vars.status == NoDisk)
            && (r.vars.status == NoDisk || r.vars.status == Blank || !env.memory || !env.superRead ==>
                  r.fs == m.fs && r.table == m.table && r.vars.status != Loaded && r.vars.saveCount == m.vars.saveCount)
  {
    hide Restore, StoredPayload, ParseSuper, Flatten;
  }
}
