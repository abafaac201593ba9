/**
 Snapshot persistence (fs/persist.c over drivers/ata.c): where the snapshot lives, what a save
 writes and in which order, and what a later mount makes of the disk.
 */
module PersistSpec {
  import opened Bytes
  import opened Paths
  import opened FsSpec
  import opened AccountSpec
  import opened SnapshotFormat
  import opened SnapshotExact
  import opened SnapshotTree
  import Checksum
  import opened Words

  const SECTOR: nat := 512
  const DATA_LBA: nat := 2048          // INSTALL_DATA_LBA
  const BLANK_ROOM: nat := 64
  const VERSION: nat := 1
  const MAGIC: Str := [76, 79, 83, 70, 83, 0, 0, 0]     // "LOSFS"

  /** A drive is its sectors; a drive that is not there has none. */
  type Drive = seq<Str>

  datatype Which = Master | Slave

  datatype Disks = Disks(master: Drive, slave: Drive)

  function On(d: Disks, w: Which): Drive { if w == Master then d.master else d.slave }

  function Put(d: Disks, w: Which, v: Drive): Disks { if w == Master then d.(master := v) else d.(slave := v) }

  predicate DriveOk(d: Drive) { forall i | 0 <= i < |d| :: |d[i]| == SECTOR }

  predicate DisksOk(d: Disks) { DriveOk(d.master) && DriveOk(d.slave) }

  // ----- sector runs

  function SectorsFor(bytes: nat): nat { (bytes + SECTOR - 1) / SECTOR }

  /** Bytes cut into whole sectors. */
  function Chop(bytes: Str): seq<Str>
    decreases |bytes|
  { if |bytes| < SECTOR then [] else [bytes[..SECTOR]] + Chop(bytes[SECTOR..]) }

  function Flatten(run: seq<Str>): Str {
    if run == [] then [] else run[0] + Flatten(run[1..])
  }

  /** The drive after `run` was written from `lba` on. */
  function Written(d: Drive, lba: nat, run: seq<Str>): Drive
    requires lba + |run| <= |d|
  { d[..lba] + run + d[lba + |run|..] }

  /** `ata_write`: sectors go out in order; `fault` tells how many did before the device failed. */
  function AtaWrite(d: Drive, lba: nat, run: seq<Str>, fault: Option<nat>): (Drive, bool) {
    if d == [] then (d, false)
    else if run == [] then (d, true)
    else if lba + |run| > |d| then (d, false)
    else if fault == None then (Written(d, lba, run), true)
    else (Written(d, lba, run[..Min(fault.value, |run|)]), false)
  }

  /** `ata_read`. */
  function AtaRead(d: Drive, lba: nat, count: nat, ok: bool): Option<Str> {
    if d == [] then None
    else if count == 0 then Some([])
    else if lba + count > |d| || !ok then None
    else Some(Flatten(d[lba..lba + count]))
  }

  // ----- the superblock

  datatype Super = Super(magic: Str, version: nat, payloadBytes: nat, nodeCount: nat, userCount: nat, checksum: nat,
          saves: nat)

  function EncodeSuper(s: Super): Str
    requires |s.magic| == 8
  {
    s.magic + (U32(s.version) + (U32(s.payloadBytes)
        + (U32(s.nodeCount) + (U32(s.userCount) + (U32(s.checksum) + (U32(s.saves) + Zeros(480)))))))
  }

  function ParseSuper(b: Str): Super
    requires |b| == SECTOR
  {
    Super(b[..8], ReadU32(b[8..12]), ReadU32(b[12..16]), ReadU32(b[16..20]), ReadU32(b[20..24]), ReadU32(b[24..28]),
        ReadU32(b[28..32]))
  }

  predicate SuperFits(s: Super) {
    |s.magic| == 8 && s.version < WORD && s.payloadBytes < WORD && s.nodeCount < WORD && s.userCount < WORD
        && s.checksum < WORD && s.saves < WORD
  }

  lemma FieldBack(a: Str, v: nat, rest: Str, b: Str)
    requires b == a + (U32(v) + rest) && v < WORD
    ensures b[|a|..|a| + 4] == U32(v) && ReadU32(b[|a|..|a| + 4]) == v
    ensures b == (a + U32(v)) + rest && |a + U32(v)| == |a| + 4
  {
    IntegersRoundTrip(v);
    assert b[|a|..|a| + 4] == U32(v);
  }

  lemma SuperBack(s: Super)
    requires SuperFits(s)
    ensures |EncodeSuper(s)| == SECTOR && ParseSuper(EncodeSuper(s)) == s
  {
    hide U32, ReadU32, Zeros;
    var b := EncodeSuper(s);
    var z := Zeros(480);
    var g := U32(s.saves) + z;
    var f := U32(s.checksum) + g;
    var e := U32(s.userCount) + f;
    var d := U32(s.nodeCount) + e;
    var c := U32(s.payloadBytes) + d;
    assert b[..8] == s.magic;
    FieldBack(s.magic, s.version, c, b);
    var a1 := s.magic + U32(s.version);
    FieldBack(a1, s.payloadBytes, d, b);
    var a2 := a1 + U32(s.payloadBytes);
    FieldBack(a2, s.nodeCount, e, b);
    var a3 := a2 + U32(s.nodeCount);
    FieldBack(a3, s.userCount, f, b);
    var a4 := a3 + U32(s.userCount);
    FieldBack(a4, s.checksum, g, b);
    FieldBack(a4 + U32(s.checksum), s.saves, z, b);
  }

  // ----- the state machine

  datatype Status = NoDisk | Blank | Loaded | Error

  datatype Vars = Vars(status: Status, dirty: bool, isSealed: bool, bytesUsed: nat, saveCount: nat, drive: Which,
          base: nat)

  datatype Machine = Machine(disks: Disks, fs: Fs, table: Table, vars: Vars)

  /** What the hardware and the heap answer during a boot. */
  datatype Env = Env(fromMedium: bool, memory: bool, slaveProbe: bool, masterProbe: bool, superRead: bool,
          payloadRead: bool)

  predicate Works(env: Env) {
    !env.fromMedium && env.memory && env.slaveProbe && env.masterProbe && env.superRead && env.payloadRead
  }

  /** `probe`: does the drive carry one of our superblocks at `base`? */
  predicate Probe(d: Drive, base: nat, ok: bool) {
    d != [] && |d| > base + 1 && ok && |d[base]| == SECTOR && d[base][..8] == MAGIC
  }

  /** `choose_location`: an existing snapshot wins; else a data disk, else room on the boot disk. */
  function Choose(d: Disks, env: Env): Option<(Which, nat)> {
    if Probe(d.slave, 0, env.slaveProbe) then Some((Slave, 0))
    else if Probe(d.master, DATA_LBA, env.masterProbe) then Some((Master, DATA_LBA))
    else if d.slave != [] then Some((Slave, 0))
    else if |d.master| > DATA_LBA + BLANK_ROOM then Some((Master, DATA_LBA))
    else None
  }

  predicate Plausible(s: Super) { s.version == VERSION && s.payloadBytes != 0 && s.payloadBytes <= MAX_PAYLOAD }

  /** The bytes the superblock vouches for, if they can be read. */
  function StoredPayload(d: Drive, base: nat, s: Super, ok: bool): Option<Str> {
    var got := AtaRead(d, base + 1, SectorsFor(s.payloadBytes), ok);
    if got.Some? && s.payloadBytes <= |got.value| then Some(got.value[..s.payloadBytes]) else None
  }

  /** Rebuilding tree and accounts from a payload whose checksum is right. */
  function Restore(payload: Str, s: Super, fs: Fs, t: Table): (Reader, Fs, Table)
    requires fs.root in fs.nodes
  {
    var (r1, t1) := LoadUsers(Reader(payload, 0, false), t, s.userCount);
    var (r2, fs1) := LoadNodes(r1, Reset(fs), s.nodeCount);
    (r2, fs1, t1)
  }

  /** `persist_mount` once a location has been chosen. */
  function MountAt(m: Machine, env: Env): Machine
    requires DisksOk(m.disks) && m.fs.root in m.fs.nodes
  {
    var d, base := On(m.disks, m.vars.drive), m.vars.base;
    var got := AtaRead(d, base, 1, env.superRead);
    if got == None || |d| <= base then m.(vars := m.vars.(status := Error))
    else
      var s := ParseSuper(d[base]);
      if s.magic != MAGIC then m.(vars := m.vars.(status := Blank))
      else if !Plausible(s) || !env.memory then m.(vars := m.vars.(status := Error))
      else
        var payload := StoredPayload(d, base, s, env.payloadRead);
        if payload == None || Checksum.Fnv(payload.value) != s.checksum then m.(vars := m.vars.(status := Error))
        else
          var (r, fs, t) := Restore(payload.value, s, m.fs, m.table);
          if r.bad then m.(fs := fs, table := t, vars := m.vars.(status := Error))
          else m.(fs := fs, table := t,
                  vars := m.vars.(status := Loaded, dirty := false, bytesUsed := s.payloadBytes, saveCount := s.saves))
  }

  /** `persist_mount`. */
  function Mount(m: Machine, env: Env): Machine
    requires DisksOk(m.disks) && m.fs.root in m.fs.nodes
  {
    var v := m.vars.(isSealed := false);
    var at := Choose(m.disks, env);
    if env.fromMedium || at == None then m.(vars := v.(status := NoDisk))
    else MountAt(m.(vars := v.(drive := at.value.0, base := at.value.1)), env)
  }

  function Padded(payload: Str): Str {
    var n := if SectorsFor(|payload|) == 0 then 1 else SectorsFor(|payload|);
    payload + Zeros(n * SECTOR - |payload|)
  }

  ghost function SuperOf(m: Machine): Super
    requires TreeOk(m.fs)
  {
    var payload := Payload(m.fs, Listed(m.table.slots));
    Super(MAGIC, VERSION, |payload|, |AllRecords(m.fs)|, |Listed(m.table.slots)|, Checksum.Fnv(payload),
        (m.vars.saveCount + 1) % WORD)
  }

  /** `persist_save`, with where the device fails during the payload and during the superblock. */
  ghost function Save(m: Machine, memory: bool, payloadFault: Option<nat>, superFault: Option<nat>): (Machine, int)
    requires TreeOk(m.fs)
  {
    var v := m.vars;
    if v.isSealed then (m, -5)
    else if v.status == NoDisk then (m, 0)
    else if !memory then (m, -1)
    else
      var payload := Payload(m.fs, Listed(m.table.slots));
      if |payload| > MAX_PAYLOAD then (m, -2)
      else
        var counted := m.(vars := v.(saveCount := (v.saveCount + 1) % WORD));
        var (d1, ok1) := AtaWrite(On(m.disks, v.drive), v.base + 1, Chop(Padded(payload)), payloadFault);
        if !ok1 then (counted.(disks := Put(m.disks, v.drive, d1)), -3)
        else
          var (d2, ok2) := AtaWrite(d1, v.base, [EncodeSuper(SuperOf(m))], superFault);
          if !ok2 then (counted.(disks := Put(m.disks, v.drive, d2)), -4)
          else (counted.(disks := Put(m.disks, v.drive, d2),
                         vars := counted.vars.(bytesUsed := |payload|, status := Loaded, dirty := false)), 0)
  }

  /** `persist_format`. */
  function Format(m: Machine, fault: Option<nat>): (Machine, int) {
    var v := m.vars;
    if v.status == NoDisk then (m, -1)
    else
      var (d, ok) := AtaWrite(On(m.disks, v.drive), v.base, [Zeros(SECTOR)], fault);
      if !ok then (m.(disks := Put(m.disks, v.drive, d)), -2)
      else (m.(disks := Put(m.disks, v.drive, d),
               vars := v.(status := Blank, bytesUsed := 0, saveCount := 0, dirty := false, isSealed := true)), 0)
  }

  /** `persist_flush`. */
  ghost function Flush(m: Machine, memory: bool, payloadFault: Option<nat>, superFault: Option<nat>): (Machine, int)
    requires TreeOk(m.fs)
  {
    if m.vars.dirty then Save(m, memory, payloadFault, superFault) else (m, 0)
  }

  // ----- sector arithmetic

  lemma {:induction false} ChopFlatten(b: Str)
    requires |b| % SECTOR == 0
    ensures Flatten(Chop(b)) == b && |Chop(b)| == |b| / SECTOR && DriveOk(Chop(b))
    decreases |b|
  {
    if |b| >= SECTOR {
      ChopFlatten(b[SECTOR..]);
      assert b == b[..SECTOR] + b[SECTOR..];
    }
  }

  lemma PaddedFacts(payload: Str)
    requires payload != []
    ensures |Padded(payload)| == SectorsFor(|payload|) * SECTOR && Padded(payload)[..|payload|] == payload
    ensures |payload| <= MAX_PAYLOAD ==> 1 <= SectorsFor(|payload|) <= DATA_LBA
    ensures |Chop(Padded(payload))| == SectorsFor(|payload|) && DriveOk(Chop(Padded(payload)))
    ensures Flatten(Chop(Padded(payload))) == Padded(payload)
  {
    ChopFlatten(Padded(payload));
  }

  // ----- writing sectors

  lemma WrittenFacts(d: Drive, lba: nat, run: seq<Str>)
    requires lba + |run| <= |d|
    ensures |Written(d, lba, run)| == |d|
    ensures forall i | 0 <= i < |d| :: Written(d, lba, run)[i] == if lba <= i < lba + |run| then run[i - lba] else d[i]
    ensures Written(d, lba, run)[lba..lba + |run|] == run
    ensures DriveOk(d) && DriveOk(run) ==> DriveOk(Written(d, lba, run))
  {
  }

  /** What a save leaves in place of the sectors it was given, and that it leaves all others. */
  lemma SavedDrive(d: Drive, base: nat, run: seq<Str>, super: Str)
    requires run != [] && base + 1 + |run| <= |d|
    ensures var r := Written(Written(d, base + 1, run), base, [super]);
            && |r| == |d| && r[base] == super && r[base + 1..base + 1 + |run|] == run
            && forall i | 0 <= i < |d| && !(base <= i <= base + |run|) :: r[i] == d[i]
  {
    hide Written;
    var d1 := Written(d, base + 1, run);
    WrittenFacts(d, base + 1, run);
    var r := Written(d1, base, [super]);
    WrittenFacts(d1, base, [super]);
    Window(r, base + 1, run);
  }

  lemma Window(r: Drive, lba: nat, run: seq<Str>)
    requires lba + |run| <= |r| && forall i | lba <= i < lba + |run| :: r[i] == run[i - lba]
    ensures r[lba..lba + |run|] == run
  {
  }

  // ----- the location

  /** The location was chosen by a mount: on the boot disk only when the data disk holds nothing. */
  ghost predicate Located(m: Machine) {
    && On(m.disks, m.vars.drive) != []
    && (m.vars.drive == Slave ==> m.vars.base == 0)
    && (m.vars.drive == Master ==> m.vars.base == DATA_LBA && !Probe(m.disks.slave, 0, true))
  }

  lemma MountLocates(m: Machine, env: Env)
    requires DisksOk(m.disks) && m.fs.root in m.fs.nodes && Works(env)
    ensures Mount(m, env).vars.status != NoDisk ==> Located(Mount(m, env))
    ensures Mount(m, env).disks == m.disks
    ensures !Mount(m, env).vars.isSealed
  {
    hide Restore, StoredPayload, ParseSuper;
  }

  // ----- the accounts come back

  lemma {:induction false} ImportAllPacked(t: Table, before: seq<User>, us: seq<User>)
    requires Packed(t.slots, before) && |before| + |us| <= USER_MAX
    requires forall i | 0 <= i < |us| :: UserOk(us[i])
    requires forall i, j | 0 <= i < j < |before + us| :: (before + us)[i].name != (before + us)[j].name
    ensures Packed(ImportAll(t, us).slots, before + us) && ImportAll(t, us).current == t.current
    decreases |us|
  {
    hide Import, UserOk;
    if us == [] {
      assert before + us == before;
    } else {
      var all := before + us;
      forall i | 0 <= i < |before| ensures before[i].name != us[0].name {
        assert all[i] == before[i] && all[|before|] == us[0];
      }
      ImportAppends(t, before, us[0]);
      assert before + us == (before + [us[0]]) + us[1..];
      ImportAllPacked(Import(t, us[0]).0, before + [us[0]], us[1..]);
    }
  }

  lemma PackedTable(t: Table, us: seq<User>)
    requires Packed(t.slots, us) && t.current == None && forall i | 0 <= i < |us| :: UserOk(us[i])
    requires forall i, j | 0 <= i < j < |us| :: us[i].name != us[j].name
    ensures TableOk(t)
  {
  }

  lemma ListedOk(t: Table)
    requires TableOk(t)
    ensures |Listed(t.slots)| <= USER_MAX
    ensures forall i | 0 <= i < |Listed(t.slots)| :: UserOk(Listed(t.slots)[i])
    ensures forall i, j | 0 <= i < j < |Listed(t.slots)| :: Listed(t.slots)[i].name != Listed(t.slots)[j].name
  {
    ListedFacts(t.slots);
    ListedDistinct(t.slots);
    forall i | 0 <= i < |Listed(t.slots)| ensures UserOk(Listed(t.slots)[i]) {
      assert Listed(t.slots)[i] in Listed(t.slots);
    }
  }

  /** Restored accounts are the saved ones, in the saved order. */
  lemma AccountsBack(us: seq<User>)
    requires |us| <= USER_MAX && (forall i | 0 <= i < |us| :: UserOk(us[i]))
    requires forall i, j | 0 <= i < j < |us| :: us[i].name != us[j].name
    ensures Listed(ImportAll(Empty(), us).slots) == us && TableOk(ImportAll(Empty(), us))
  {
    assert [] + us == us;
    assert Packed(Empty().slots, []);
    ImportAllPacked(Empty(), [], us);
    PackedListed(ImportAll(Empty(), us).slots, us);
    PackedTable(ImportAll(Empty(), us), us);
  }

  // ----- the payload comes back

  lemma {:induction false} RecordsCount(rs: seq<Rec>)
    ensures |EncodeRecs(rs)| >= |rs|
  {
    if rs != [] {
      RecordsCount(rs[1..]);
    }
  }

  lemma {:induction false} UsersCount(us: seq<User>)
    ensures |EncodeUsers(us)| >= |us|
  {
    if us != [] {
      UsersCount(us[1..]);
    }
  }

  /**
   A payload reads back without a hitch whatever tree it was made of. The accounts are the ones
   that were written; the tree is, exactly if all its nodes are storable.
   */
  lemma RestoreBack(fs: Fs, us: seq<User>, s: Super, boot: Fs)
    requires TreeOk(fs) && Valid(boot) && |Payload(fs, us)| < WORD
    requires |us| <= USER_MAX && (forall i | 0 <= i < |us| :: UserOk(us[i]))
    requires forall i, j | 0 <= i < j < |us| :: us[i].name != us[j].name
    requires s.userCount == |us| && s.nodeCount == |AllRecords(fs)|
    ensures var (r, fs1, t1) := Restore(Payload(fs, us), s, boot, Empty());
            && !r.bad && Valid(fs1) && (Forest(fs1) == Forest(fs) <==> Storable(fs))
            && Listed(t1.slots) == us && TableOk(t1)
  {
    hide EncodeUsers, EncodeRecs, LoadUsers, LoadNodes, Forest, TreeOk, RecOk, UserOk, Storable, ReplayAll, ImportAll,
         Reset, Records;
    BootRoot(boot);
    RootIsTop(fs);
    KidsOf(fs, fs.root);
    var recs := AllRecords(fs);
    var payload := Payload(fs, us);
    var r0 := Reader(payload, 0, false);
    assert payload[0..] == EncodeUsers(us) + EncodeRecs(recs);
    RecordsOk(fs, fs.root, fs.nodes[fs.root].children, fs.root + 1);
    LoadUsersBack(r0, Empty(), us, EncodeRecs(recs));
    var r1 := r0.(pos := |EncodeUsers(us)|);
    ResetBare(boot);
    RestoredExactly(fs, Reset(boot));
    assert [] + EncodeRecs(recs) == EncodeRecs(recs) + [];
    LoadNodesBack(r1, Reset(boot), recs, []);
    AccountsBack(us);
  }

  lemma ResetBare(boot: Fs)
    requires Valid(boot)
    ensures Valid(Reset(boot)) && Reset(boot).nodes[Reset(boot).root].children == []
  {
    ResetValid(boot);
  }

  /** Nothing is stored exactly when there is no account and no node but the root. */
  lemma PayloadEmpty(fs: Fs, us: seq<User>)
    requires TreeOk(fs)
    ensures Payload(fs, us) == [] <==> us == [] && fs.nodes[fs.root].children == []
  {
    KidsOf(fs, fs.root);
    RecordsCount(AllRecords(fs));
    UsersCount(us);
  }

  // ----- save, then mount

  ghost predicate MachineOk(m: Machine) {
    Valid(m.fs) && TableOk(m.table) && DisksOk(m.disks) && m.vars.saveCount < WORD
  }

  lemma SuperOfFits(m: Machine)
    requires MachineOk(m) && |Payload(m.fs, Listed(m.table.slots))| <= MAX_PAYLOAD
    ensures SuperFits(SuperOf(m))
  {
    RecordsCount(AllRecords(m.fs));
    ListedOk(m.table);
    Checksum.FnvBound(Checksum.OFFSET_BASIS, Payload(m.fs, Listed(m.table.slots)));
  }

  /** The drive a successful save leaves behind, as a mount will read it. */
  lemma SavedFacts(m: Machine, memory: bool)
    requires MachineOk(m) && Located(m) && m.vars.status != NoDisk && Save(m, memory, None, None).1 == 0
    ensures var payload := Payload(m.fs, Listed(m.table.slots));
            var d := On(Save(m, memory, None, None).0.disks, m.vars.drive);
            var base := m.vars.base;
            && |payload| <= MAX_PAYLOAD && |d| > base + 1 && |d[base]| == SECTOR
            && ParseSuper(d[base]) == SuperOf(m) && d[base][..8] == MAGIC
            && (payload != [] ==> StoredPayload(d, base, SuperOf(m), true) == Some(payload))
            && DisksOk(Save(m, memory, None, None).0.disks)
            && Save(m, memory, None, None).0.disks == Put(m.disks, m.vars.drive, d)
  {
    hide Payload, ParseSuper, EncodeSuper, Chop, Flatten, Written, AllRecords, Padded, Valid, TableOk, Listed,
         SuperFits, Probe;
    BootRoot(m.fs);
    var payload := Payload(m.fs, Listed(m.table.slots));
    var d0, base := On(m.disks, m.vars.drive), m.vars.base;
    var run := Chop(Padded(payload));
    SuperOfFits(m);
    SuperBack(SuperOf(m));
    SavedRun(payload);
    var super := EncodeSuper(SuperOf(m));
    SavedDrive(d0, base, run, super);
    WrittenFacts(d0, base + 1, run);
    WrittenFacts(Written(d0, base + 1, run), base, [super]);
    assert ParseSuper(super).magic == MAGIC by { SuperMagic(super); }
    SuperMagic(super);
  }

  lemma SuperMagic(b: Str)
    requires |b| == SECTOR
    ensures ParseSuper(b).magic == b[..8]
  {
  }

  /** The sectors of a payload: at least one, all whole, and they spell the payload. */
  lemma SavedRun(payload: Str)
    requires |payload| <= MAX_PAYLOAD
    ensures var run := Chop(Padded(payload));
            && DriveOk(run) && 1 <= |run| <= DATA_LBA
            && (payload != [] ==>
                  |run| == SectorsFor(|payload|) && |Flatten(run)| >= |payload| && Flatten(run)[..|payload|] == payload)
  {
    if payload != [] {
      PaddedFacts(payload);
    } else {
      assert Padded(payload) == Zeros(SECTOR);
      ChopFlatten(Padded(payload));
    }
  }

  /**
   Save, then reboot: a mount on the same disks finds the same location and, if there was anything
   to store, loads. It brings back the same accounts for every system, and the same forest of nodes
   exactly if every path fits the path printer and nothing lies below a dot name. A snapshot of
   nothing mounts as an error, and leaves the booted system as it was.
   */
  lemma SaveThenMount(m: Machine, memory: bool, boot: Fs, v: Vars, env: Env)
    requires MachineOk(m) && Located(m) && m.vars.status != NoDisk
    requires Save(m, memory, None, None).1 == 0 && Valid(boot) && Works(env)
    ensures var m1 := Save(m, memory, None, None).0;
            var us := Listed(m.table.slots);
            DisksOk(m1.disks) &&
            var m2 := Mount(Machine(m1.disks, boot, Empty(), v), env);
            && m2.vars.drive == m1.vars.drive && m2.vars.base == m1.vars.base
            && (us != [] || m.fs.nodes[m.fs.root].children != [] ==>
                  && m2.vars.status == Loaded && Valid(m2.fs) && (Forest(m2.fs) == Forest(m.fs) <==> Storable(m.fs))
                  && Listed(m2.table.slots) == us && TableOk(m2.table)
                  && m2.vars.saveCount == m1.vars.saveCount && m2.vars.bytesUsed == m1.vars.bytesUsed)
            && (us == [] && m.fs.nodes[m.fs.root].children == [] ==>
                  m2.vars.status == Error && m2.fs == boot && m2.table == Empty())
  {
    hide Payload, ParseSuper, EncodeSuper, Chop, Flatten, Written, AllRecords, Padded, Valid, TableOk, Listed,
         StoredPayload,
         Restore, Forest, Empty, Storable;
    BootRoot(m.fs);
    var us := Listed(m.table.slots);
    var m1 := Save(m, memory, None, None).0;
    SavedFacts(m, memory);
    PayloadEmpty(m.fs, us);
    ListedOk(m.table);
    BootRoot(boot);
    var n := Machine(m1.disks, boot, Empty(), v);
    ChooseAgain(m, m1.disks, env);
    RestoreBack(m.fs, us, SuperOf(m), boot);
    MountReads(n, env, m.vars.drive, m.vars.base, SuperOf(m));
  }

  lemma BootRoot(boot: Fs)
    requires Valid(boot)
    ensures boot.root in boot.nodes && TreeOk(boot)
  {
  }

  /** The location is found again: the drive now carries a superblock, and the other one still
      does not take precedence. */
  lemma ChooseAgain(m: Machine, disks: Disks, env: Env)
    requires Located(m) && Works(env)
    requires var d := On(disks, m.vars.drive);
             |d| > m.vars.base + 1 && |d[m.vars.base]| == SECTOR && d[m.vars.base][..8] == MAGIC
                 && disks == Put(m.disks, m.vars.drive, d)
    ensures Choose(disks, env) == Some((m.vars.drive, m.vars.base))
  {
  }

  /** A mount at a known location with a known superblock. */
  lemma MountReads(n: Machine, env: Env, w: Which, base: nat, s: Super)
    requires DisksOk(n.disks) && n.fs.root in n.fs.nodes && Works(env) && Choose(n.disks, env) == Some((w, base))
    requires |On(n.disks, w)| > base && ParseSuper(On(n.disks, w)[base]) == s && s.magic == MAGIC
    ensures var m2 := Mount(n, env);
            var payload := StoredPayload(On(n.disks, w), base, s, true);
            && m2.vars.drive == w && m2.vars.base == base && m2.disks == n.disks
            && (!Plausible(s) || payload == None || Checksum.Fnv(payload.value) != s.checksum ==>
                  m2.vars.status == Error && m2.fs == n.fs && m2.table == n.table)
            && (Plausible(s) && payload.Some? && Checksum.Fnv(payload.value) == s.checksum ==>
                  var (r, fs, t) := Restore(payload.value, s, n.fs, n.table);
                  && m2.fs == fs && m2.table == t
                  && m2.vars.status == (if r.bad then Error else Loaded)
                  && (!r.bad ==> m2.vars.saveCount == s.saves && m2.vars.bytesUsed == s.payloadBytes))
  {
    hide StoredPayload, Restore, ParseSuper, Flatten;
  }

  // ----- crashes

  /** The disks after the first `k` payload sectors of a save. */
  ghost function Torn(m: Machine, k: nat): Disks
    requires TreeOk(m.fs)
  {
    var d := On(m.disks, m.vars.drive);
    var run := Chop(Padded(Payload(m.fs, Listed(m.table.slots))));
    if k <= |run| && m.vars.base + 1 + k <= |d| then Put(m.disks, m.vars.drive, Written(d, m.vars.base + 1, run[..k]))
        else m.disks
  }

  /** However a save ends, it leaves the disks as they were but for some first payload sectors, or
      carrying the complete new snapshot. */
  lemma CrashPoints(m: Machine, memory: bool, payloadFault: Option<nat>, superFault: Option<nat>) returns (k: nat)
    requires TreeOk(m.fs)
    ensures var (m1, code) := Save(m, memory, payloadFault, superFault);
            || m1.disks == Torn(m, k)
            || (Save(m, memory, None, None).1 == 0 && m1.disks == Save(m, memory, None, None).0.disks)
    ensures Save(m, memory, payloadFault, superFault).1 == 0 ==>
              Save(m, memory, payloadFault, superFault) == Save(m, memory, None, None)
  {
    hide Payload, Chop, Padded, Flatten, Listed, AllRecords, EncodeSuper, Written;
    var payload := Payload(m.fs, Listed(m.table.slots));
    var d, base := On(m.disks, m.vars.drive), m.vars.base;
    var run := Chop(Padded(payload));
    k := |run| + 1;
    PutOn(m.disks, m.vars.drive, d);
    if m.vars.isSealed || m.vars.status == NoDisk || !memory || |payload| > MAX_PAYLOAD || base + 1 + |run| > |d| {
      return;
    }
    SavedRun(payload);
    assert run[..|run|] == run;
    if payloadFault.Some? {
      k := Min(payloadFault.value, |run|);
      return;
    }
    var w := Written(d, base + 1, run);
    WrittenFacts(d, base + 1, run);
    k := |run|;
    if superFault.Some? {
      SuperStops(w, base, EncodeSuper(SuperOf(m)), superFault.value);
    }
  }

  lemma SuperStops(w: Drive, base: nat, e: Str, fault: nat)
    requires base + 1 <= |w|
    ensures AtaWrite(w, base, [e], Some(fault)) == (if fault == 0 then w else Written(w, base, [e]), false)
    ensures AtaWrite(w, base, [e], None) == (Written(w, base, [e]), true)
  {
    var one: seq<Str> := [e];
    assert one[..0] == [] && one[..1] == one;
    WrittenNothing(w, base);
  }

  lemma PutOn(d: Disks, w: Which, v: Drive)
    requires v == On(d, w)
    ensures Put(d, w, v) == d
  {
  }

  lemma WrittenNothing(d: Drive, lba: nat)
    requires lba <= |d|
    ensures Written(d, lba, []) == d
  {
  }

  /** Where a mount would compare checksums at all, a torn payload that differs from the one vouched
      for does not have the vouched-for checksum. */
  ghost predicate NoCollision(d: Drive, torn: Drive, base: nat)
    requires |d| > base ==> |d[base]| == SECTOR
  {
    |d| > base ==>
      var s := ParseSuper(d[base]);
      s.magic == MAGIC && Plausible(s) ==>
        var p, q := StoredPayload(d, base, s, true), StoredPayload(torn, base, s, true);
        q.Some? && q != p ==> Checksum.Fnv(q.value) != s.checksum
  }

  /** Whatever a mount looks at besides the payload is the same on both disks. */
  ghost predicate SameButPayload(a: Disks, b: Disks, w: Which, base: nat) {
    && DisksOk(a) && DisksOk(b)
    && base == (if w == Slave then 0 else DATA_LBA)
    && (w == Slave ==> a.master == b.master) && (w == Master ==> a.slave == b.slave)
    && |On(a, w)| == |On(b, w)|
    && (|On(a, w)| > base ==> On(a, w)[base] == On(b, w)[base])
  }

  lemma TornSame(m: Machine, k: nat)
    requires TreeOk(m.fs) && DisksOk(m.disks) && Located(m) && |Payload(m.fs, Listed(m.table.slots))| <= MAX_PAYLOAD
    ensures SameButPayload(m.disks, Torn(m, k), m.vars.drive, m.vars.base)
  {
    hide Payload, Chop, Padded, Listed;
    var d, base := On(m.disks, m.vars.drive), m.vars.base;
    var payload := Payload(m.fs, Listed(m.table.slots));
    var run := Chop(Padded(payload));
    SavedRun(payload);
    if k <= |run| && base + 1 + k <= |d| {
      WrittenFacts(d, base + 1, run[..k]);
    }
  }

  /**
   A mount after a torn payload write gives exactly what a mount of the old disks gives, or an
   error with tree and accounts untouched. A snapshot that would have mounted from the drive being
   written still mounts exactly when the bytes its superblock vouches for are intact.
   */
  lemma TornMount(a: Disks, b: Disks, w: Which, base: nat, boot: Fs, t: Table, v: Vars, env: Env)
    requires SameButPayload(a, b, w, base) && boot.root in boot.nodes && Works(env)
    requires NoCollision(On(a, w), On(b, w), base)
    ensures var before, after := Mount(Machine(a, boot, t, v), env), Mount(Machine(b, boot, t, v), env);
            after == before.(disks := b) || (after.vars.status == Error && after.fs == boot && after.table == t)
    ensures var before, after := Mount(Machine(a, boot, t, v), env), Mount(Machine(b, boot, t, v), env);
            before.vars.status == Loaded && before.vars.drive == w ==>
              (after.vars.status == Loaded <==>
                 |On(a, w)| > base &&
                 (var s := ParseSuper(On(a, w)[base]);
                  StoredPayload(On(b, w), base, s, true) == StoredPayload(On(a, w), base, s, true)))
  {
    hide Restore, ParseSuper, StoredPayload;
    var c := Choose(a, env);
    assert Choose(b, env) == c;
    if c.Some? && c.value.0 == w {
      assert c.value.1 == base;
    }
  }

  lemma {:induction false} FlattenAt(run: seq<Str>, j: nat)
    requires DriveOk(run) && j < SECTOR * |run|
    ensures |Flatten(run)| == SECTOR * |run| && Flatten(run)[j] == run[j / SECTOR][j % SECTOR]
  {
    FlattenSize(run);
    if j >= SECTOR {
      assert DriveOk(run[1..]);
      FlattenAt(run[1..], j - SECTOR);
    }
  }

  /** Byte `j` of a payload that is read from a drive. */
  lemma StoredAt(d: Drive, base: nat, s: Super, j: nat)
    requires DriveOk(d) && StoredPayload(d, base, s, true).Some? && j < s.payloadBytes
    ensures var p := StoredPayload(d, base, s, true).value;
            && |p| == s.payloadBytes && base + 1 + j / SECTOR < |d| && p[j] == d[base + 1 + j / SECTOR][j % SECTOR]
  {
    var n := SectorsFor(s.payloadBytes);
    var run := d[base + 1..base + 1 + n];
    assert DriveOk(run);
    FlattenAt(run, j);
  }

  lemma StoredThere(a: Drive, b: Drive, base: nat, s: Super)
    requires DriveOk(a) && DriveOk(b) && |a| == |b| && StoredPayload(a, base, s, true).Some?
    ensures StoredPayload(b, base, s, true).Some?
  {
    var n := SectorsFor(s.payloadBytes);
    if a != [] && n > 0 {
      FlattenSize(a[base + 1..base + 1 + n]);
      FlattenSize(b[base + 1..base + 1 + n]);
    }
  }

  /**
   After the first `k` sectors of a new payload, the bytes the old superblock vouches for are
   intact exactly if the new payload, padding included, begins like the old one as far as it went.
   */
  lemma TornIntact(m: Machine, k: nat)
    requires TreeOk(m.fs) && DisksOk(m.disks) && |Payload(m.fs, Listed(m.table.slots))| <= MAX_PAYLOAD
    requires |On(m.disks, m.vars.drive)| > m.vars.base
    requires k <= |Chop(Padded(Payload(m.fs, Listed(m.table.slots))))|
             && m.vars.base + 1 + k <= |On(m.disks, m.vars.drive)|
    requires var d, base := On(m.disks, m.vars.drive), m.vars.base;
             |d[base]| == SECTOR && StoredPayload(d, base, ParseSuper(d[base]), true).Some?
    ensures var d, base := On(m.disks, m.vars.drive), m.vars.base;
            var s := ParseSuper(d[base]);
            var stored, renewed := StoredPayload(d, base, s, true), Padded(Payload(m.fs, Listed(m.table.slots)));
            var n := Min(k * SECTOR, s.payloadBytes);
            && n <= |stored.value| && n <= |renewed|
            && (StoredPayload(On(Torn(m, k), m.vars.drive), base, s, true) == stored <==>
               renewed[..n] == stored.value[..n])
  {
    hide Payload, Chop, Padded, Listed, Flatten, ParseSuper, StoredPayload, Written;
    var d, base := On(m.disks, m.vars.drive), m.vars.base;
    var s := ParseSuper(d[base]);
    var payload := Payload(m.fs, Listed(m.table.slots));
    var run := Chop(Padded(payload));
    WholeSectors(payload);
    WrittenFacts(d, base + 1, run[..k]);
    var torn := Written(d, base + 1, run[..k]);
    assert On(Torn(m, k), m.vars.drive) == torn;
    StoredThere(d, torn, base, s);
    StoredSize(d, base, s);
    StoredSize(torn, base, s);
    var p, q := StoredPayload(d, base, s, true).value, StoredPayload(torn, base, s, true).value;
    var n := Min(k * SECTOR, s.payloadBytes);
    forall j: nat | j < s.payloadBytes ensures q[j] == if j < n then Padded(payload)[j] else p[j] {
      StoredAt(d, base, s, j);
      StoredAt(torn, base, s, j);
      if j < n {
        FlattenAt(run, j);
      }
    }
    PrefixAgrees(p, q, Padded(payload), n);
  }

  lemma StoredSize(d: Drive, base: nat, s: Super)
    requires StoredPayload(d, base, s, true).Some?
    ensures |StoredPayload(d, base, s, true).value| == s.payloadBytes
  {
  }

  lemma WholeSectors(payload: Str)
    ensures var run := Chop(Padded(payload));
            DriveOk(run) && Flatten(run) == Padded(payload) && |Padded(payload)| == |run| * SECTOR
  {
    ChopFlatten(Padded(payload));
  }

  lemma PrefixAgrees(p: Str, q: Str, f: Str, n: nat)
    requires |p| == |q| && n <= |p| && n <= |f| && forall j: nat | j < |p| :: q[j] == if j < n then f[j] else p[j]
    ensures q == p <==> f[..n] == p[..n]
  {
    if f[..n] == p[..n] {
      forall j: nat | j < |p| ensures q[j] == p[j] {
        assert j < n ==> f[..n][j] == p[..n][j];
      }
      assert q == p;
    }
    if q == p {
      assert forall j: nat | j < n :: f[j] == p[j];
    }
  }

  /**
   So a save that is cut off after `k` payload sectors leaves a snapshot that used to mount from
   that drive mountable exactly if the new payload begins with the same bytes as the old one, as
   far as it went.
   */
  lemma OldSnapshotSurvives(m: Machine, k: nat, boot: Fs, t: Table, v: Vars, env: Env)
    requires MachineOk(m) && Located(m) && boot.root in boot.nodes && Works(env)
    requires |Payload(m.fs, Listed(m.table.slots))| <= MAX_PAYLOAD
    requires k <= |Chop(Padded(Payload(m.fs, Listed(m.table.slots))))|
             && m.vars.base + 1 + k <= |On(m.disks, m.vars.drive)|
    requires NoCollision(On(m.disks, m.vars.drive), On(Torn(m, k), m.vars.drive), m.vars.base)
    requires var before := Mount(Machine(m.disks, boot, t, v), env);
             before.vars.status == Loaded && before.vars.drive == m.vars.drive
    ensures var d, base := On(m.disks, m.vars.drive), m.vars.base;
            && DisksOk(Torn(m, k)) && |d| > base && |d[base]| == SECTOR
            && var s := ParseSuper(d[base]);
               var stored, renewed := StoredPayload(d, base, s, true), Padded(Payload(m.fs, Listed(m.table.slots)));
               var n := Min(k * SECTOR, s.payloadBytes);
               && stored.Some? && n <= |stored.value| && n <= |renewed|
               && (Mount(Machine(Torn(m, k), boot, t, v), env).vars.status == Loaded <==>
                  renewed[..n] == stored.value[..n])
  {
    hide Payload, Chop, Padded, Listed, Flatten, ParseSuper, StoredPayload, Written, Torn, NoCollision, Mount, TableOk,
         Valid, Restore;
    BootRoot(m.fs);
    TornSame(m, k);
    SameOk(m.disks, Torn(m, k), m.vars.drive, m.vars.base);
    TornMount(m.disks, Torn(m, k), m.vars.drive, m.vars.base, boot, t, v, env);
    LoadedStored(Machine(m.disks, boot, t, v), env, m.vars.drive);
    TornIntact(m, k);
  }

  /** What a successful mount read was there to be read. */
  lemma LoadedStored(n: Machine, env: Env, w: Which)
    requires DisksOk(n.disks) && n.fs.root in n.fs.nodes && Works(env)
    requires Mount(n, env).vars.status == Loaded && Mount(n, env).vars.drive == w
    ensures var d, base := On(n.disks, w), if w == Slave then 0 else DATA_LBA;
            |d| > base && |d[base]| == SECTOR && StoredPayload(d, base, ParseSuper(d[base]), true).Some?
  {
    hide Restore, ParseSuper, StoredPayload, Flatten;
  }

  /**
   Crash safety of a save: whatever the device does, a later mount sees the complete new snapshot,
   or exactly what it would have seen before the save, or an error that leaves tree and accounts
   as booted. A complete snapshot gives back what `SaveThenMount` says it does.
   */
  lemma CrashSafety(m: Machine, memory: bool, payloadFault: Option<nat>, superFault: Option<nat>, boot: Fs, v: Vars,
          env: Env)
    requires MachineOk(m) && Located(m) && m.vars.status != NoDisk && Valid(boot) && Works(env)
    requires forall k: nat :: NoCollision(On(m.disks, m.vars.drive), On(Torn(m, k), m.vars.drive), m.vars.base)
    ensures var disks := Save(m, memory, payloadFault, superFault).0.disks;
            DisksOk(disks) &&
            var before := Mount(Machine(m.disks, boot, Empty(), v), env);
            var after := Mount(Machine(disks, boot, Empty(), v), env);
            || after == before.(disks := disks)
            || (after.vars.status == Error && after.fs == boot && after.table == Empty())
            || (after.vars.status == Loaded && Valid(after.fs) && (Forest(after.fs) == Forest(m.fs) <==> Storable(m.fs))
                && Listed(after.table.slots) == Listed(m.table.slots))
  {
    hide Payload, ParseSuper, EncodeSuper, Chop, Flatten, Written, AllRecords, Padded, Valid, TableOk, Listed,
         StoredPayload, Restore, Forest, Empty, Torn, Mount, Save, NoCollision, SameButPayload, Storable;
    BootRoot(m.fs);
    BootRoot(boot);
    var k := CrashPoints(m, memory, payloadFault, superFault);
    var disks := Save(m, memory, payloadFault, superFault).0.disks;
    if |Payload(m.fs, Listed(m.table.slots))| > MAX_PAYLOAD {
      TooLarge(m, memory, payloadFault, superFault);
      MountLocates(Machine(m.disks, boot, Empty(), v), env);
    } else if disks == Torn(m, k) {
      TornSame(m, k);
      assert NoCollision(On(m.disks, m.vars.drive), On(Torn(m, k), m.vars.drive), m.vars.base);
      SameOk(m.disks, disks, m.vars.drive, m.vars.base);
      TornMount(m.disks, disks, m.vars.drive, m.vars.base, boot, Empty(), v, env);
    } else {
      SaveThenMount(m, memory, boot, v, env);
    }
  }

  /** A snapshot that outgrew its reserve is not written. */
  lemma TooLarge(m: Machine, memory: bool, payloadFault: Option<nat>, superFault: Option<nat>)
    requires TreeOk(m.fs) && |Payload(m.fs, Listed(m.table.slots))| > MAX_PAYLOAD
    ensures Save(m, memory, payloadFault, superFault).0.disks == m.disks
  {
  }

  lemma SameOk(a: Disks, b: Disks, w: Which, base: nat)
    requires SameButPayload(a, b, w, base)
    ensures DisksOk(b)
  {
  }

  // ----- corruption

  lemma {:induction false} FlattenSize(run: seq<Str>)
    requires DriveOk(run)
    ensures |Flatten(run)| == SECTOR * |run|
  {
    if run != [] {
      assert DriveOk(run[1..]);
      FlattenSize(run[1..]);
    }
  }

  /**
   A single corrupted payload byte is always caught: if the stored payload matches its checksum
   on one disk, then on a disk that differs in exactly one byte of it the mount is an error that
   leaves tree and accounts untouched. No assumption about collisions is needed.
   */
  lemma CorruptByteDetected(a: Disks, b: Disks, w: Which, base: nat, i: nat, boot: Fs, t: Table, v: Vars, env: Env)
    requires SameButPayload(a, b, w, base) && boot.root in boot.nodes && Works(env)
    requires Choose(a, env) == Some((w, base)) && |On(a, w)| > base
    requires var s := ParseSuper(On(a, w)[base]);
             var p, q := StoredPayload(On(a, w), base, s, true), StoredPayload(On(b, w), base, s, true);
             && s.magic == MAGIC && p.Some? && q.Some? && |p.value| == |q.value| && i < |p.value|
             && p.value[i] != q.value[i] && (forall k | 0 <= k < |p.value| && k != i :: p.value[k] == q.value[k])
             && Checksum.Fnv(p.value) == s.checksum
    ensures var m2 := Mount(Machine(b, boot, t, v), env); m2.vars.status == Error && m2.fs == boot && m2.table == t
  {
    hide StoredPayload, Restore, ParseSuper;
    var s := ParseSuper(On(a, w)[base]);
    var p, q := StoredPayload(On(a, w), base, s, true), StoredPayload(On(b, w), base, s, true);
    Checksum.OneDifferenceDetected(p.value, q.value, i);
    assert Choose(b, env) == Choose(a, env);
    MountReads(Machine(b, boot, t, v), env, w, base, s);
  }

  // ----- the payload is rewritten in place

  const WORKING: Env := Env(false, true, true, true, true, true)
  const FRESH_VARS: Vars := Vars(NoDisk, false, false, 0, 0, Slave, 0)
  const EXAMPLE_USER: User := User([97, 98], [47], 0, 0, 1)

  /** The superblock of a valid snapshot that is one byte long and holds nothing. */
  function ExampleSuper(): Super { Super(MAGIC, VERSION, 1, 0, 0, Checksum.Fnv([1]), 0) }

  function ExampleSlots(): seq<Option<User>> { seq(USER_MAX, i => if i == 0 then Some(EXAMPLE_USER) else None) }

  /** That snapshot on the data disk, and one account about to be saved over it. */
  function Example(): Machine {
    Machine(Disks([], [EncodeSuper(ExampleSuper()), [1] + Zeros(SECTOR - 1)]), Bare(),
            Table(ExampleSlots(), None, FIRST_UID), FRESH_VARS.(status := Loaded))
  }

  lemma ExampleTable()
    ensures Listed(ExampleSlots()) == [EXAMPLE_USER] && TableOk(Table(ExampleSlots(), None, FIRST_UID))
  {
    assert ValidName(EXAMPLE_USER.name);
    assert UserOk(EXAMPLE_USER);
    PackedListed(ExampleSlots(), [EXAMPLE_USER]);
  }

  lemma ExampleSuperBack()
    ensures |EncodeSuper(ExampleSuper())| == SECTOR && ParseSuper(EncodeSuper(ExampleSuper())) == ExampleSuper()
    ensures EncodeSuper(ExampleSuper())[..8] == MAGIC
  {
    hide EncodeSuper, ParseSuper;
    Checksum.FnvBound(Checksum.OFFSET_BASIS, [1]);
    SuperBack(ExampleSuper());
    SuperMagic(EncodeSuper(ExampleSuper()));
  }

  /** The first payload sector of the save starts with the length of the account's name, 2. */
  lemma ExamplePayload()
    ensures TreeOk(Bare()) && AllRecords(Bare()) == []
    ensures var run := Chop(Padded(Payload(Bare(), [EXAMPLE_USER])));
            |run| == 1 && |run[0]| == SECTOR && run[0][0] == 2
    ensures |Payload(Bare(), [EXAMPLE_USER])| == 17
  {
    BareValid();
    KidsOf(Bare(), 0);
    var payload := Payload(Bare(), [EXAMPLE_USER]);
    ExampleUserBytes();
    assert AllRecords(Bare()) == [];
    assert [EXAMPLE_USER][1..] == [];
    assert EncodeUsers([EXAMPLE_USER]) == EncodeUser(EXAMPLE_USER) + [];
    assert payload == EncodeUser(EXAMPLE_USER);
    PaddedFacts(payload);
    var run := Chop(Padded(payload));
    assert run[0] == Padded(payload)[..SECTOR];
    assert run[0][0] == Padded(payload)[..17][0];
  }

  lemma ExampleUserBytes()
    ensures |EncodeUser(EXAMPLE_USER)| == 17 && EncodeUser(EXAMPLE_USER)[0] == 2
  {
    assert PutString(EXAMPLE_USER.name) == [2, 97, 98];
  }

  /** The byte a one-sector snapshot of length 1 vouches for. */
  lemma OneByteStored(d: Drive, s: Super)
    requires |d| == 2 && s.payloadBytes == 1 && |d[1]| == SECTOR
    ensures StoredPayload(d, 0, s, true) == Some([d[1][0]])
  {
    assert d[1..2] == [d[1]];
    var one: seq<Str> := [d[1]];
    assert one[1..] == [];
    assert Flatten(one) == d[1] + [];
    assert Flatten(d[1..2])[..1] == [d[1][0]];
  }

  lemma NothingToRestore(boot: Fs, s: Super)
    requires Valid(boot) && s.userCount == 0 && s.nodeCount == 0
    ensures !Restore([1], s, boot, Empty()).0.bad
  {
  }

  /**
   The old snapshot does not survive every crash: here it mounts before the save, and after the
   first payload sector of the save has gone out, with the old superblock still in place, it does
   not mount any more.
   */
  lemma OldSnapshotCanBeLost(boot: Fs)
    requires Valid(boot)
    ensures MachineOk(Example()) && Located(Example())
    ensures Mount(Machine(Example().disks, boot, Empty(), FRESH_VARS), WORKING).vars.status == Loaded
    ensures var (m1, code) := Save(Example(), true, Some(1), None);
            && code == -3 && DisksOk(m1.disks)
            && Mount(Machine(m1.disks, boot, Empty(), FRESH_VARS), WORKING).vars.status == Error
  {
    hide Checksum.Fnv, EncodeSuper, ParseSuper, StoredPayload, Flatten, Chop, Padded, AllRecords, Payload, Restore,
         Listed, ExampleSlots, TableOk, Zeros, Written, Empty;
    var m := Example();
    var s := ExampleSuper();
    BareValid();
    ExampleTable();
    ExampleSuperBack();
    BootRoot(boot);
    var d := m.disks.slave;
    var z: Str := [1] + Zeros(SECTOR - 1);
    assert d[1] == z && z[0] == 1;
    OneByteStored(d, s);
    NothingToRestore(boot, s);
    MountReads(Machine(m.disks, boot, Empty(), FRESH_VARS), WORKING, Slave, 0, s);
    ExamplePayload();
    var run := Chop(Padded(Payload(Bare(), [EXAMPLE_USER])));
    assert run[..1] == run;
    WrittenFacts(d, 1, run);
    var d1 := Written(d, 1, run);
    OneByteStored(d1, s);
    var after := Save(m, true, Some(1), None).0.disks;
    assert after == Disks([], d1);
    CorruptByteDetected(m.disks, after, Slave, 0, 0, boot, Empty(), FRESH_VARS, WORKING);
  }

  // ----- whole runs

  datatype Op =
    | SaveOp(memory: bool, payloadFault: Option<nat>, superFault: Option<nat>)
    | FlushOp(memory: bool, payloadFault: Option<nat>, superFault: Option<nat>)
    | FormatOp(fault: Option<nat>)
    | MarkDirty
    | Work(fs: Fs, table: Table)               // anything the system does to tree and accounts
    | Reboot(env: Env, boot: Fs, accounts: Table)

  ghost predicate RunOk(m: Machine) {
    && Valid(m.fs) && DisksOk(m.disks)
    && m.vars.base == (if m.vars.drive == Slave then 0 else DATA_LBA)
  }

  ghost predicate LegalOp(op: Op) {
    match op
    case Work(fs, _) => Valid(fs)
    case Reboot(_, boot, _) => Valid(boot)
    case _ => true
  }

  ghost function Apply(m: Machine, op: Op): Machine
    requires RunOk(m) && LegalOp(op)
  {
    match op
    case SaveOp(memory, p, s) => Save(m, memory, p, s).0
    case FlushOp(memory, p, s) => Flush(m, memory, p, s).0
    case FormatOp(fault) => Format(m, fault).0
    case MarkDirty => m.(vars := m.vars.(dirty := true))
    case Work(fs, table) => m.(fs := fs, table := table)
    case Reboot(env, boot, accounts) => Mount(m.(fs := boot, table := accounts), env)
  }

  /** `b` differs from `a` at most in the data area of drive `w`. */
  ghost predicate Confined(a: Disks, b: Disks, w: Which) {
    && |a.master| == |b.master| && |a.slave| == |b.slave| && DisksOk(b)
    && (forall i | 0 <= i < |a.master| && !(w == Master && DATA_LBA <= i <= 2 * DATA_LBA) :: b.master[i] == a.master[i])
    && (forall i | 0 <= i < |a.slave| && !(w == Slave && i <= DATA_LBA) :: b.slave[i] == a.slave[i])
  }

  lemma SaveConfined(m: Machine, memory: bool, payloadFault: Option<nat>, superFault: Option<nat>)
    requires RunOk(m)
    ensures Confined(m.disks, Save(m, memory, payloadFault, superFault).0.disks, m.vars.drive)
    ensures var r := Save(m, memory, payloadFault, superFault).0;
            r.fs == m.fs && r.table == m.table && r.vars.drive == m.vars.drive && r.vars.base == m.vars.base
  {
    hide Payload, Chop, Padded, Listed, AllRecords, EncodeSuper, ParseSuper, Valid, Written;
    BootRoot(m.fs);
    var payload := Payload(m.fs, Listed(m.table.slots));
    var d, base := On(m.disks, m.vars.drive), m.vars.base;
    if |payload| <= MAX_PAYLOAD {
      var run := Chop(Padded(payload));
      SavedRun(payload);
      AtaWriteConfined(d, base + 1, run, payloadFault);
      var d1 := AtaWrite(d, base + 1, run, payloadFault).0;
      SuperSize(m);
      AtaWriteConfined(d1, base, [EncodeSuper(SuperOf(m))], superFault);
    }
  }

  lemma SuperSize(m: Machine)
    requires TreeOk(m.fs)
    ensures |EncodeSuper(SuperOf(m))| == SECTOR
  {
    SuperLength(SuperOf(m));
  }

  lemma SuperLength(s: Super)
    requires |s.magic| == 8
    ensures |EncodeSuper(s)| == SECTOR
  {
  }

  lemma AtaWriteConfined(d: Drive, lba: nat, run: seq<Str>, fault: Option<nat>)
    requires DriveOk(d) && DriveOk(run)
    ensures var r := AtaWrite(d, lba, run, fault).0;
            && |r| == |d| && DriveOk(r)
            && forall i | 0 <= i < |d| && !(lba <= i < lba + |run|) :: r[i] == d[i]
  {
    if d != [] && run != [] && lba + |run| <= |d| {
      WrittenFacts(d, lba, run);
      if fault.Some? {
        WrittenFacts(d, lba, run[..Min(fault.value, |run|)]);
      }
    }
  }

  lemma FormatConfined(m: Machine, fault: Option<nat>)
    requires RunOk(m)
    ensures Confined(m.disks, Format(m, fault).0.disks, m.vars.drive)
  {
    hide Valid, Written;
    AtaWriteConfined(On(m.disks, m.vars.drive), m.vars.base, [Zeros(SECTOR)], fault);
  }

  /** Restoring keeps the tree well formed, whatever the payload says. */
  lemma {:induction false} LoadNodesKeeps(r: Reader, fs: Fs, n: nat)
    requires r.pos <= |r.buffer| && Valid(fs)
    ensures Valid(LoadNodes(r, fs, n).1) && LoadNodes(r, fs, n).1.root == fs.root
    decreases n
  {
    hide LoadNode, Valid;
    if n > 0 && !r.bad {
      LoadNodeKeeps(r, fs);
      LoadNodesKeeps(LoadNode(r, fs).0, LoadNode(r, fs).1, n - 1);
    }
  }

  lemma LoadNodeKeeps(r: Reader, fs: Fs)
    requires r.pos <= |r.buffer| && Valid(fs)
    ensures Valid(LoadNode(r, fs).1) && LoadNode(r, fs).1.root == fs.root
  {
    hide Valid, Create, Replay;
    var (r1, kind) := TakeU8(r);
    var (r2, pathLength) := TakeU16(r1);
    var (r3, dataLength) := TakeU32(r2);
    if !r3.bad && pathLength != 0 && pathLength < PATH_MAX {
      var (r4, path) := Take(r3, pathLength);
      if !r4.bad {
        var k := if kind == KIND_DIR then Directory else File;
        ReplayKeeps(fs, CString(path), k, if r4.pos + dataLength > |r4.buffer| then []
            else r4.buffer[r4.pos..r4.pos + dataLength]);
      }
    }
  }

  lemma ApplyOk(m: Machine, op: Op)
    requires RunOk(m) && LegalOp(op)
    ensures RunOk(Apply(m, op)) && Confined(m.disks, Apply(m, op).disks, m.vars.drive)
    ensures op.Reboot? ==> Apply(m, op).disks == m.disks
  {
    hide Valid, Save, LoadNodes, LoadUsers, ParseSuper, StoredPayload, Written, Reset;
    BootRoot(m.fs);
    match op {
      case SaveOp(memory, p, s) => SaveConfined(m, memory, p, s);
      case FlushOp(memory, p, s) => SaveConfined(m, memory, p, s);
      case FormatOp(fault) => FormatConfined(m, fault);
      case Reboot(env, boot, accounts) =>
        BootRoot(boot);
        ResetBare(boot);
        forall r: Reader, n: nat | r.pos <= |r.buffer| ensures Valid(LoadNodes(r, Reset(boot), n).1) {
          LoadNodesKeeps(r, Reset(boot), n);
        }
      case _ =>
    }
  }

  ghost function Run(m: Machine, ops: seq<Op>): (r: Machine)
    requires RunOk(m) && forall i | 0 <= i < |ops| :: LegalOp(ops[i])
    ensures RunOk(r)
    decreases |ops|
  {
    if ops == [] then m else ApplyOk(m, ops[0]); Run(Apply(m, ops[0]), ops[1..])
  }

  /**
   Disk discipline: over any run of saves, flushes, formats and reboots, failing or not, nothing
   outside the two data areas is ever written, so boot sector and kernel stay what they were.
   */
  lemma {:induction false} BootSectorsSafe(m: Machine, ops: seq<Op>)
    requires RunOk(m) && forall i | 0 <= i < |ops| :: LegalOp(ops[i])
    ensures var r := Run(m, ops).disks;
            && |r.master| == |m.disks.master| && |r.slave| == |m.disks.slave|
            && (forall i | 0 <= i < |r.master| && !(DATA_LBA <= i <= 2 * DATA_LBA) :: r.master[i] == m.disks.master[i])
            && (forall i | 0 <= i < |r.slave| && i > DATA_LBA :: r.slave[i] == m.disks.slave[i])
    decreases |ops|
  {
    hide RunOk, LegalOp, Apply;
    if ops != [] {
      ApplyOk(m, ops[0]);
      BootSectorsSafe(Apply(m, ops[0]), ops[1..]);
    }
  }

  /** Between boots the location stays one that a mount would choose. */
  lemma LocatedStays(m: Machine, op: Op)
    requires RunOk(m) && Located(m) && LegalOp(op) && !op.Reboot?
    ensures RunOk(Apply(m, op)) && Located(Apply(m, op))
  {
    hide Valid, Written, Payload, AllRecords, Chop, Padded, EncodeSuper, ParseSuper, Listed;
    ApplyOk(m, op);
    match op {
      case SaveOp(memory, p, s) => SaveConfined(m, memory, p, s);
      case FlushOp(memory, p, s) => SaveConfined(m, memory, p, s);
      case FormatOp(fault) => FormatConfined(m, fault);
      case _ =>
    }
    SlaveKept(m, Apply(m, op));
  }

  lemma SlaveKept(m: Machine, n: Machine)
    requires Located(m) && Confined(m.disks, n.disks, m.vars.drive) && n.vars.drive == m.vars.drive
             && n.vars.base == m.vars.base
    ensures Located(n)
  {
    if m.vars.drive == Master {
      assert n.disks.slave == m.disks.slave;
    }
  }

  /**
   Over any run whose boots can read the disks: whenever there is a disk to save to, it is the one
   the next boot will look at.
   */
  lemma {:induction false} LocatedRun(m: Machine, ops: seq<Op>)
    requires RunOk(m) && (m.vars.status != NoDisk ==> Located(m)) && forall i | 0 <= i < |ops| :: LegalOp(ops[i])
    requires forall i | 0 <= i < |ops| && ops[i].Reboot? :: Works(ops[i].env)
    ensures Run(m, ops).vars.status != NoDisk ==> Located(Run(m, ops))
    decreases |ops|
  {
    hide RunOk, LegalOp, Apply, Located;
    if ops != [] {
      ApplyOk(m, ops[0]);
      if ops[0].Reboot? {
        RebootLocates(m, ops[0]);
      } else {
        StatusStays(m, ops[0]);
        if m.vars.status != NoDisk {
          LocatedStays(m, ops[0]);
        }
      }
      LocatedRun(Apply(m, ops[0]), ops[1..]);
    }
  }

  lemma RebootLocates(m: Machine, op: Op)
    requires RunOk(m) && LegalOp(op) && op.Reboot? && Works(op.env)
    ensures Apply(m, op).vars.status != NoDisk ==> Located(Apply(m, op))
  {
    hide Mount, Located;
    BootRoot(op.boot);
    MountLocates(m.(fs := op.boot, table := op.accounts), op.env);
  }

  lemma StatusStays(m: Machine, op: Op)
    requires RunOk(m) && LegalOp(op) && !op.Reboot?
    ensures m.vars.status == NoDisk ==> Apply(m, op).vars.status == NoDisk
  {
    hide Valid;
  }

  /** A save that reports success, on a disk that is there, leaves its superblock. */
  lemma SavedSuper(m: Machine, memory: bool, payloadFault: Option<nat>, superFault: Option<nat>)
    requires RunOk(m) && m.vars.status != NoDisk && Save(m, memory, payloadFault, superFault).1 == 0
    ensures TreeOk(m.fs)
    ensures var d := On(Save(m, memory, payloadFault, superFault).0.disks, m.vars.drive);
            |d| > m.vars.base && d[m.vars.base] == EncodeSuper(SuperOf(m)) && |d[m.vars.base]| >= 8
                && d[m.vars.base][..8] == MAGIC
  {
    hide Payload, Chop, Padded, Listed, AllRecords, Valid, Written;
    BootRoot(m.fs);
    var payload := Payload(m.fs, Listed(m.table.slots));
    var d, base := On(m.disks, m.vars.drive), m.vars.base;
    var run := Chop(Padded(payload));
    RunNotEmpty(payload);
    if base + 1 + |run| <= |d| {
      SavedDrive(d, base, run, EncodeSuper(SuperOf(m)));
      WrittenFacts(d, base + 1, run);
    }
  }

  // ----- after a failed mount

  /**
   The boot announces that it goes on in memory only when the mount failed (kernel/kernel.c:109),
   but nothing stops the next save: it succeeds exactly if the snapshot fits, and then the damaged
   one is gone.
   */
  lemma ErrorIsOverwritten(m: Machine, env: Env, fs: Fs, t: Table)
    requires RunOk(m) && Valid(fs) && Mount(m, env).vars.status == Error
    ensures var n := Mount(m, env).(fs := fs, table := t);
            var (saved, code) := Save(n, true, None, None);
            var d, base := On(n.disks, n.vars.drive), n.vars.base;
            var payload := Payload(fs, Listed(t.slots));
            && (code == 0 <==> |payload| <= MAX_PAYLOAD && base + 1 + |Chop(Padded(payload))| <= |d|)
            && (code == 0 ==> saved.vars.status == Loaded && |On(saved.disks, n.vars.drive)| > base
                              && On(saved.disks, n.vars.drive)[base] == EncodeSuper(SuperOf(n)))
  {
    hide Payload, Chop, Padded, Listed, AllRecords, EncodeSuper, ParseSuper, Valid, Written, StoredPayload, Restore,
         Flatten;
    BootRoot(m.fs);
    BootRoot(fs);
    var n := Mount(m, env).(fs := fs, table := t);
    MountedOpen(m, env);
    var d, base := On(n.disks, n.vars.drive), n.vars.base;
    var run := Chop(Padded(Payload(fs, Listed(t.slots))));
    RunNotEmpty(Payload(fs, Listed(t.slots)));
    if base + 1 + |run| <= |d| {
      SavedDrive(d, base, run, EncodeSuper(SuperOf(n)));
      WrittenFacts(d, base + 1, run);
    }
  }

  lemma MountedOpen(m: Machine, env: Env)
    requires DisksOk(m.disks) && m.fs.root in m.fs.nodes
    ensures var n := Mount(m, env);
            && !n.vars.isSealed && n.disks == m.disks
            && (n.vars.status != NoDisk ==> On(n.disks, n.vars.drive) != [])
  {
    hide Restore, StoredPayload, ParseSuper, Flatten;
  }

  lemma RunNotEmpty(payload: Str)
    ensures Chop(Padded(payload)) != []
  {
    WholeSectors(payload);
  }

  /** The disk that a cut-off save left in `OldSnapshotCanBeLost` does not mount, and the next save replaces it. */
  lemma DamagedSnapshotIsReplaced(boot: Fs)
    requires Valid(boot)
    ensures var torn := Save(Example(), true, Some(1), None).0.disks;
            && DisksOk(torn) && boot.root in boot.nodes
            && var n := Mount(Machine(torn, boot, Empty(), FRESH_VARS), WORKING);
               && n.vars.status == Error && TreeOk(Bare())
               && Save(n.(fs := Bare(), table := Example().table), true, None, None).1 == 0
  {
    hide Save, Mount, Payload, Chop, Padded, EncodeSuper, Listed, Empty, Written;
    OldSnapshotCanBeLost(boot);
    BootRoot(boot);
    BareValid();
    var torn := Save(Example(), true, Some(1), None).0.disks;
    var start := Machine(torn, boot, Empty(), FRESH_VARS);
    ExampleTable();
    ExamplePayload();
    TornExample();
    ErrorPlace(start, WORKING);
    ErrorIsOverwritten(start, WORKING, Bare(), Example().table);
  }

  lemma TornExample()
    requires TreeOk(Bare())
    ensures var torn := Save(Example(), true, Some(1), None).0.disks; torn.master == [] && |torn.slave| == 2
  {
    hide Payload, Chop, Padded, EncodeSuper, Listed, Written, AllRecords, ExampleSlots;
    ExampleTable();
    ExamplePayload();
    var run := Chop(Padded(Payload(Bare(), [EXAMPLE_USER])));
    assert run[..1] == run;
    WrittenFacts(Example().disks.slave, 1, run);
  }

  lemma ErrorPlace(n: Machine, env: Env)
    requires DisksOk(n.disks) && n.fs.root in n.fs.nodes && n.disks.master == [] && n.disks.slave != []
             && !env.fromMedium
    ensures Mount(n, env).vars.drive == Slave && Mount(n, env).vars.base == 0 && Mount(n, env).disks == n.disks
  {
    hide Restore, StoredPayload, ParseSuper, Flatten;
  }

  // ----- after a format

  /** The snapshot is wiped and the layer refuses to write it back. */
  ghost predicate Wiped(m: Machine)
    requires RunOk(m)
  {
    && m.vars.isSealed && Located(m) && |On(m.disks, m.vars.drive)| > m.vars.base
    && On(m.disks, m.vars.drive)[m.vars.base] == Zeros(SECTOR)
  }

  lemma FormatWipes(m: Machine, fault: Option<nat>)
    requires RunOk(m) && Located(m) && Format(m, fault).1 == 0
    ensures RunOk(Format(m, fault).0) && Wiped(Format(m, fault).0)
  {
    hide Valid, Written;
    FormatConfined(m, fault);
    WrittenFacts(On(m.disks, m.vars.drive), m.vars.base, [Zeros(SECTOR)]);
    if m.vars.drive == Master {
      assert Format(m, fault).0.disks.slave == m.disks.slave;
    }
  }

  lemma WipedStays(m: Machine, op: Op)
    requires RunOk(m) && LegalOp(op) && Wiped(m) && !op.Reboot?
    ensures RunOk(Apply(m, op)) && Wiped(Apply(m, op)) && Apply(m, op).disks == m.disks
    ensures op.SaveOp? ==> Save(m, op.memory, op.payloadFault, op.superFault).1 == -5
  {
    hide Valid, Written, Payload, AllRecords;
    ApplyOk(m, op);
    if op.FormatOp? {
      var d, base := On(m.disks, m.vars.drive), m.vars.base;
      RewriteSame(d, base, [Zeros(SECTOR)]);
      WrittenNothing(d, base);
      var one := [Zeros(SECTOR)];
      assert one[..0] == [] && one[..1] == one;
      PutOn(m.disks, m.vars.drive, d);
    }
  }

  lemma RewriteSame(d: Drive, lba: nat, run: seq<Str>)
    requires lba + |run| <= |d| && forall i | 0 <= i < |run| :: d[lba + i] == run[i]
    ensures Written(d, lba, run) == d
  {
    WrittenFacts(d, lba, run);
  }

  /** After a successful format no run of operations short of a reboot changes the disks. */
  lemma {:induction false} SealHolds(m: Machine, ops: seq<Op>)
    requires RunOk(m) && Wiped(m) && forall i | 0 <= i < |ops| :: LegalOp(ops[i]) && !ops[i].Reboot?
    ensures Run(m, ops).disks == m.disks && Wiped(Run(m, ops))
    decreases |ops|
  {
    hide RunOk, LegalOp, Apply, Wiped;
    if ops != [] {
      WipedStays(m, ops[0]);
      SealHolds(Apply(m, ops[0]), ops[1..]);
    }
  }

  /**
   The mount after a format comes up blank exactly when the other location has nothing to offer:
   for the data disk, no snapshot on the boot disk; for the boot disk, a data disk whose first
   sector is no superblock, or no data disk and room enough on the boot disk.
   */
  lemma FormatThenMount(m: Machine, boot: Fs, t: Table, env: Env)
    requires RunOk(m) && Wiped(m) && Valid(boot) && Works(env)
    ensures Mount(m.(fs := boot, table := t), env).vars.status == Blank <==>
              if m.vars.drive == Slave then !Probe(m.disks.master, DATA_LBA, true)
              else if m.disks.slave != [] then m.disks.slave[0][..8] != MAGIC
              else |m.disks.master| > DATA_LBA + BLANK_ROOM
  {
    hide Valid, MountAt, MAGIC;
    BootRoot(boot);
    var n := m.(fs := boot, table := t);
    var d, base := On(m.disks, m.vars.drive), m.vars.base;
    ZerosNotMagic();
    assert d[base][..8] != MAGIC;
    var at := Choose(m.disks, env);
    if at.Some? {
      BlankMeansNoMagic(n.(vars := n.vars.(isSealed := false, drive := at.value.0, base := at.value.1)), env);
    }
  }

  lemma ZerosNotMagic()
    ensures Zeros(SECTOR)[..8] != MAGIC
  {
    assert Zeros(SECTOR)[..8][0] == 0 && MAGIC[0] == 76;
  }

  lemma BlankMeansNoMagic(n: Machine, env: Env)
    requires DisksOk(n.disks) && n.fs.root in n.fs.nodes && Works(env)
    ensures MountAt(n, env).vars.status == Blank <==>
              var d := On(n.disks, n.vars.drive);
              |d| > n.vars.base && d[n.vars.base][..8] != MAGIC
  {
    hide Restore, StoredPayload, Flatten;
    var d := On(n.disks, n.vars.drive);
    if |d| > n.vars.base {
      SuperMagic(d[n.vars.base]);
    }
  }
}
