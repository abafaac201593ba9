/**
 Installing onto a hard disk (kernel/install.c): what is written where and in which order, and what
 the installed system finds when it boots.
 */
module InstallSpec {
  import opened Bytes
  import opened FsSpec
  import opened AccountSpec
  import opened PersistSpec
  import opened SnapshotFormat

  const KERNEL_LBA: nat := 1
  const KERNEL_MAX: nat := 256

  /** `install_to_disk`; `image` is the copy taken at boot, the faults tell where each write fails. */
  function Install(d: Disks, w: Which, boot: Str, image: Option<Str>, memory: bool,
                   bootFault: Option<nat>, kernelFault: Option<nat>, blankFault: Option<nat>): (Disks, int)
  {
    if image == None || image.value == [] then (d, -1)
    else if On(d, w) == [] then (d, -2)
    else if SectorsFor(|image.value|) > KERNEL_MAX then (d, -3)
    else if |On(d, w)| < DATA_LBA + BLANK_ROOM then (d, -4)
    else
      var (d1, ok1) := AtaWrite(On(d, w), 0, [boot], bootFault);
      if !ok1 then (Put(d, w, d1), -5)
      else if !memory then (Put(d, w, d1), -6)
      else
        var (d2, ok2) := AtaWrite(d1, KERNEL_LBA, Chop(Padded(image.value)), kernelFault);
        if !ok2 then (Put(d, w, d2), -7)
        else
          var (d3, ok3) := AtaWrite(d2, DATA_LBA, [Zeros(SECTOR)], blankFault);
          (Put(d, w, d3), if ok3 then 0 else -8)
  }

  /** The disk carries this boot sector and this kernel. */
  ghost predicate Bootable(d: Drive, boot: Str, image: Str) {
    var n := SectorsFor(|image|);
    && |d| > DATA_LBA && n <= KERNEL_MAX && d[0] == boot
    && |Flatten(d[KERNEL_LBA..KERNEL_LBA + n])| >= |image|
    && Flatten(d[KERNEL_LBA..KERNEL_LBA + n])[..|image|] == image
  }

  /** `install_to_disk` gives the first reason that applies; 2112 sectors are enough for it. */
  lemma InstallAnswers(d: Disks, w: Which, boot: Str, image: Option<Str>, memory: bool,
                       bootFault: Option<nat>, kernelFault: Option<nat>, blankFault: Option<nat>)
    ensures Install(d, w, boot, image, memory, bootFault, kernelFault, blankFault).1 ==
            if image == None || image.value == [] then -1 else if On(d, w) == [] then -2
            else if |image.value| > 256 * 512 then -3 else if |On(d, w)| < 2112 then -4
            else if bootFault.Some? then -5 else if !memory then -6 else if kernelFault.Some? then -7
            else if blankFault.Some? then -8 else 0
  {
    hide Chop, Padded, Zeros;
    if image.Some? && image.value != [] && SectorsFor(|image.value|) <= KERNEL_MAX {
      KernelRun(image.value);
    }
  }

  /** An installation that reports success met no fault, so what holds of a faultless one holds of it. */
  lemma SuccessIsFaultless(d: Disks, w: Which, boot: Str, image: Option<Str>, memory: bool,
                           bootFault: Option<nat>, kernelFault: Option<nat>, blankFault: Option<nat>)
    requires Install(d, w, boot, image, memory, bootFault, kernelFault, blankFault).1 == 0
    ensures Install(d, w, boot, image, memory, bootFault, kernelFault, blankFault)
            == Install(d, w, boot, image, memory, None, None, None)
  {
    hide Chop, Padded, Written, Zeros;
    KernelRun(image.value);
  }

  lemma KernelRun(image: Str)
    requires image != [] && SectorsFor(|image|) <= KERNEL_MAX
    ensures var run := Chop(Padded(image)); |run| == SectorsFor(|image|) && run != [] && DriveOk(run)
    ensures |Flatten(Chop(Padded(image)))| >= |image| && Flatten(Chop(Padded(image)))[..|image|] == image
  {
    PaddedFacts(image);
  }

  /**
   A successful installation leaves a disk that boots this very kernel, a wiped data area, and
   everything else as it was.
   */
  lemma InstalledFacts(d: Disks, w: Which, boot: Str, image: Str, memory: bool)
    requires DisksOk(d) && |boot| == SECTOR && Install(d, w, boot, Some(image), memory, None, None, None).1 == 0
    ensures var a, b := On(d, w), On(Install(d, w, boot, Some(image), memory, None, None, None).0, w);
            && Bootable(b, boot, image) && |b| == |a| && |a| >= DATA_LBA + BLANK_ROOM && b[DATA_LBA] == Zeros(SECTOR)
            && (forall i | 0 <= i < |a| && i >= KERNEL_LBA + SectorsFor(|image|) && i != DATA_LBA :: b[i] == a[i])
            && Install(d, w, boot, Some(image), memory, None, None, None).0 == Put(d, w, b)
            && DisksOk(Put(d, w, b))
  {
    hide Chop, Padded, Flatten, Written, Zeros;
    var a := On(d, w);
    var run := Chop(Padded(image));
    KernelRun(image);
    WrittenFacts(a, 0, [boot]);
    var d1 := Written(a, 0, [boot]);
    WrittenFacts(d1, KERNEL_LBA, run);
    var d2 := Written(d1, KERNEL_LBA, run);
    WrittenFacts(d2, DATA_LBA, [Zeros(SECTOR)]);
    Window(Written(d2, DATA_LBA, [Zeros(SECTOR)]), KERNEL_LBA, run);
  }

  /** The data area is wiped last: as long as no write to it was tried, an old snapshot is still there. */
  lemma WipedLast(d: Disks, w: Which, boot: Str, image: Option<Str>, memory: bool,
                  bootFault: Option<nat>, kernelFault: Option<nat>, blankFault: Option<nat>)
    requires DisksOk(d) && |boot| == SECTOR
    ensures var (r, code) := Install(d, w, boot, image, memory, bootFault, kernelFault, blankFault);
            && DisksOk(r) && |On(r, w)| == |On(d, w)|
            && (code >= -4 && code != 0 ==> r == d)
            && (-7 <= code < 0 ==> forall i | DATA_LBA <= i < |On(d, w)| :: On(r, w)[i] == On(d, w)[i])
  {
    hide Chop, Padded, Written, Zeros;
    var a := On(d, w);
    if image.Some? && image.value != [] && a != [] && SectorsFor(|image.value|) <= KERNEL_MAX {
      KernelRun(image.value);
      AtaWriteConfined(a, 0, [boot], bootFault);
      var d1 := AtaWrite(a, 0, [boot], bootFault).0;
      AtaWriteConfined(d1, KERNEL_LBA, Chop(Padded(image.value)), kernelFault);
      var d2 := AtaWrite(d1, KERNEL_LBA, Chop(Padded(image.value)), kernelFault).0;
      AtaWriteConfined(d2, DATA_LBA, [Zeros(SECTOR)], blankFault);
    }
  }

  lemma BootableStays(a: Drive, b: Drive, boot: Str, image: Str)
    requires Bootable(a, boot, image) && |b| == |a|
    requires forall i | 0 <= i < |b| && !(DATA_LBA <= i <= 2 * DATA_LBA) :: b[i] == a[i]
    ensures Bootable(b, boot, image)
  {
    var n := SectorsFor(|image|);
    assert b[KERNEL_LBA..KERNEL_LBA + n] == a[KERNEL_LBA..KERNEL_LBA + n];
  }

  /** `install_find_target`: the master if there is one. */
  function FindTarget(d: Disks): Option<Which> {
    if d.master != [] then Some(Master) else if d.slave != [] then Some(Slave) else None
  }

  /** The boot sector starts with the instruction `cli` (boot/boot.asm:28). */
  predicate BootCode(boot: Str) { |boot| == SECTOR && boot[0] == 0xFA }

  /** On no step of the run does the snapshot live on the slave. */
  ghost predicate SlaveSpared(m: Machine, ops: seq<Op>)
    requires RunOk(m) && forall i | 0 <= i < |ops| :: LegalOp(ops[i])
    decreases |ops|
  {
    ops == [] || (m.vars.drive == Master && (ApplyOk(m, ops[0]); SlaveSpared(Apply(m, ops[0]), ops[1..])))
  }

  /**
   No run of saves, formats, flushes and reboots, failing or not, keeps a master from booting what
   was installed on it. A slave stays bootable as long as the snapshot does not live there.
   */
  lemma {:induction false} StaysBootable(m: Machine, ops: seq<Op>, w: Which, boot: Str, image: Str)
    requires RunOk(m) && (forall i | 0 <= i < |ops| :: LegalOp(ops[i])) && Bootable(On(m.disks, w), boot, image)
    requires w == Master || SlaveSpared(m, ops)
    ensures Bootable(On(Run(m, ops).disks, w), boot, image)
    decreases |ops|
  {
    hide RunOk, LegalOp, Bootable, Apply;
    if ops != [] {
      ApplyOk(m, ops[0]);
      ConfinedBootable(m.disks, Apply(m, ops[0]).disks, m.vars.drive, w, boot, image);
      StaysBootable(Apply(m, ops[0]), ops[1..], w, boot, image);
    }
  }

  lemma ConfinedBootable(a: Disks, b: Disks, where: Which, w: Which, boot: Str, image: Str)
    requires Confined(a, b, where) && Bootable(On(a, w), boot, image) && (w == Master || where == Master)
    ensures Bootable(On(b, w), boot, image)
  {
    hide Bootable;
    BootableStays(On(a, w), On(b, w), boot, image);
  }

  /** Where the first boot of an installed disk looks for a snapshot. */
  lemma FirstLocation(d: Disks, w: Which, boot: Str, image: Str, memory: bool, m: Machine, env: Env)
    requires DisksOk(d) && |boot| == SECTOR && Install(d, w, boot, Some(image), memory, None, None, None).1 == 0
    requires m.disks == Install(d, w, boot, Some(image), memory, None, None, None).0 && Valid(m.fs) && Works(env)
    ensures DisksOk(m.disks) && m.fs.root in m.fs.nodes
    ensures var n := Mount(m, env);
            && n.disks == m.disks && (n.vars.status != NoDisk ==>
               n.vars.base == if n.vars.drive == Slave then 0 else DATA_LBA)
            && (w == Slave && boot[..8] != MAGIC ==>
                  n.vars.status != NoDisk && n.vars.drive == if Probe(d.master, DATA_LBA, true) then Master else Slave)
  {
    hide Valid, MountAt, MAGIC, Install, Bootable, Zeros;
    InstalledFacts(d, w, boot, image, memory);
    BootableStart(On(m.disks, w), boot, image);
    BootRoot(m.fs);
    var at := Choose(m.disks, env);
    if at.Some? {
      MountAtPlace(m.(vars := m.vars.(isSealed := false, drive := at.value.0, base := at.value.1)), env);
    }
  }

  lemma BootableStart(d: Drive, boot: Str, image: Str)
    requires Bootable(d, boot, image)
    ensures |d| > DATA_LBA && d[0] == boot
  {
  }

  lemma MountAtPlace(n: Machine, env: Env)
    requires DisksOk(n.disks) && n.fs.root in n.fs.nodes
    ensures var r := MountAt(n, env);
            r.vars.drive == n.vars.drive && r.vars.base == n.vars.base && r.disks == n.disks
            && (r.vars.status == NoDisk ==> false) && r.vars.isSealed == n.vars.isSealed
  {
    hide Restore, StoredPayload, ParseSuper, Flatten;
  }

  /**
   The first boot of an installed disk comes up with an empty data area exactly when, for a master,
   no data disk carries a superblock, and, if there is no data disk at all, the disk has more than
   2112 sectors, where the installer already accepts 2112; and, for a slave, the boot sector does
   not look like a superblock and no snapshot lies on the master.
   */
  lemma InstallThenMount(d: Disks, w: Which, boot: Str, image: Str, memory: bool, m: Machine, env: Env)
    requires DisksOk(d) && |boot| == SECTOR && Install(d, w, boot, Some(image), memory, None, None, None).1 == 0
    requires m.disks == Install(d, w, boot, Some(image), memory, None, None, None).0 && Valid(m.fs) && Works(env)
    ensures DisksOk(m.disks) && m.fs.root in m.fs.nodes
    ensures Mount(m, env).vars.status == Blank <==>
              if w == Slave then boot[..8] != MAGIC && !Probe(d.master, DATA_LBA, true)
              else if d.slave != [] then d.slave[0][..8] != MAGIC
              else |d.master| > DATA_LBA + BLANK_ROOM
    ensures w == Master && d.slave == [] && |d.master| == DATA_LBA + BLANK_ROOM ==> Mount(m, env).vars.status == NoDisk
  {
    hide Valid, MountAt, MAGIC, Install, Bootable, Zeros;
    InstalledFacts(d, w, boot, image, memory);
    BootableStart(On(m.disks, w), boot, image);
    BootRoot(m.fs);
    ZerosNotMagic();
    var at := Choose(m.disks, env);
    if at.Some? {
      BlankMeansNoMagic(m.(vars := m.vars.(isSealed := false, drive := at.value.0, base := at.value.1)), env);
    }
  }

  /**
   The first thing written after the first boot of an installed disk, whatever the system has
   become by then: a successful save or format leaves the disk bootable exactly if it is the
   master, or the snapshot went to one that already lies on the master. A slave with no snapshot
   on the master is its own data disk, and its boot sector makes way for the superblock.
   */
  lemma SurvivesFirstWrite(d: Disks, w: Which, boot: Str, image: Str, memory: bool, m: Machine, env: Env, fs: Fs,
          t: Table, op: Op)
    requires DisksOk(d) && BootCode(boot) && Install(d, w, boot, Some(image), memory, None, None, None).1 == 0
    requires m.disks == Install(d, w, boot, Some(image), memory, None, None, None).0 && Valid(m.fs) && Works(env)
             && Valid(fs)
    requires DisksOk(m.disks) && m.fs.root in m.fs.nodes
    requires var n := Mount(m, env).(fs := fs, table := t);
             && n.vars.status != NoDisk && RunOk(n)
             && ((op.SaveOp? && Save(n, op.memory, op.payloadFault, op.superFault).1 == 0)
                || (op.FormatOp? && Format(n, op.fault).1 == 0))
    ensures Bootable(On(m.disks, w), boot, image)
    ensures Bootable(On(Apply(Mount(m, env).(fs := fs, table := t), op).disks, w), boot, image)
            <==> w == Master || Probe(d.master, DATA_LBA, true)
  {
    hide Valid, Mount, Install, Bootable, Save, Format, RunOk, EncodeSuper, SuperOf;
    FirstLocation(d, w, boot, image, memory, m, env);
    InstalledFacts(d, w, boot, image, memory);
    CliIsNoMagic(boot);
    var n := Mount(m, env).(fs := fs, table := t);
    ApplyOk(n, op);
    var after := Apply(n, op).disks;
    if w == Master || n.vars.drive == Master {
      ConfinedBootable(n.disks, after, n.vars.drive, w, boot, image);
    } else {
      FirstSector(n, op);
      if Bootable(after.slave, boot, image) {
        BootableStart(after.slave, boot, image);
      }
    }
  }

  lemma CliIsNoMagic(boot: Str)
    requires BootCode(boot)
    ensures boot[..8] != MAGIC && boot != Zeros(SECTOR)
  {
    assert boot[..8][0] == 0xFA;
  }

  /** A successful save or format leaves a sector there that starts like a superblock, or with a zero. */
  lemma FirstSector(n: Machine, op: Op)
    requires RunOk(n) && n.vars.status != NoDisk && n.vars.base == 0
    requires (op.SaveOp? && Save(n, op.memory, op.payloadFault, op.superFault).1 == 0)
             || (op.FormatOp? && Format(n, op.fault).1 == 0)
    ensures LegalOp(op) && var d := On(Apply(n, op).disks, n.vars.drive);
            |d| > 0 && d[0] != [] && (d[0][0] == 76 || d[0][0] == 0)
  {
    hide Valid, Save, Format, Written, Zeros, SuperOf, EncodeSuper;
    if op.SaveOp? {
      SavedSuper(n, op.memory, op.payloadFault, op.superFault);
      StartsLike(On(Apply(n, op).disks, n.vars.drive)[0]);
    } else {
      WipedFirst(n, op.fault);
    }
  }

  lemma StartsLike(b: Str)
    requires |b| >= 8 && b[..8] == MAGIC
    ensures b[0] == 76
  {
    assert b[..8][0] == b[0];
  }

  lemma WipedFirst(n: Machine, fault: Option<nat>)
    requires RunOk(n) && n.vars.base == 0 && Format(n, fault).1 == 0
    ensures var d := On(Format(n, fault).0.disks, n.vars.drive);
            |d| > 0 && d[0] == Zeros(SECTOR) && d[0] != [] && d[0][0] == 0
  {
    hide Valid, Written;
    var d := On(n.disks, n.vars.drive);
    if d != [] {
      WrittenFacts(d, 0, [Zeros(SECTOR)]);
    }
  }

  /** On the disk the installer picks itself, that is: exactly if there is a master. */
  lemma TargetSurvives(d: Disks, boot: Str, image: Str, memory: bool, m: Machine, env: Env, fs: Fs, t: Table, op: Op)
    requires DisksOk(d) && BootCode(boot) && FindTarget(d).Some?
    requires Install(d, FindTarget(d).value, boot, Some(image), memory, None, None, None).1 == 0
    requires m.disks == Install(d, FindTarget(d).value, boot, Some(image), memory, None, None, None).0
    requires Valid(m.fs) && Works(env) && Valid(fs) && DisksOk(m.disks) && m.fs.root in m.fs.nodes
    requires var n := Mount(m, env).(fs := fs, table := t);
             && n.vars.status != NoDisk && RunOk(n)
             && ((op.SaveOp? && Save(n, op.memory, op.payloadFault, op.superFault).1 == 0)
                || (op.FormatOp? && Format(n, op.fault).1 == 0))
    ensures Bootable(On(Apply(Mount(m, env).(fs := fs, table := t), op).disks, FindTarget(d).value), boot, image) <==>
            d.master != []
  {
    hide Valid, Mount, Install, Bootable, Save, Format, RunOk, Apply;
    SurvivesFirstWrite(d, FindTarget(d).value, boot, image, memory, m, env, fs, t, op);
  }

  /** The smallest disk the installer takes, with the kernel it takes there. */
  function Smallest(): Disks { Disks(seq(DATA_LBA + BLANK_ROOM, _ => Zeros(SECTOR)), []) }

  /** On that disk the installation succeeds, and the installed system sees no disk at all. */
  lemma SmallestDiskIsNotSeen(m: Machine, env: Env)
    requires Valid(m.fs) && Works(env)
    requires m.disks == Install(Smallest(), Master, Zeros(SECTOR), Some([1]), true, None, None, None).0
    ensures Install(Smallest(), Master, Zeros(SECTOR), Some([1]), true, None, None, None).1 == 0
    ensures DisksOk(m.disks) && m.fs.root in m.fs.nodes && Mount(m, env).vars.status == NoDisk
  {
    hide Valid, Mount, Chop, Padded, Written;
    KernelRun([1]);
    AtaWriteConfined(Smallest().master, 0, [Zeros(SECTOR)], None);
    var d1 := AtaWrite(Smallest().master, 0, [Zeros(SECTOR)], None).0;
    AtaWriteConfined(d1, KERNEL_LBA, Chop(Padded([1])), None);
    hide Install;
    InstallThenMount(Smallest(), Master, Zeros(SECTOR), [1], true, m, env);
  }

  // ----- a machine whose only disk is the slave

  const LONE_BOOT: Str := [0xFA] + Zeros(SECTOR - 1)

  /** An empty slave and no master, as the installer finds it. */
  function LoneSlave(): Disks { Disks([], seq(DATA_LBA + BLANK_ROOM, _ => Zeros(SECTOR))) }

  /** The installed system there boots once; saving its first account overwrites the boot sector. */
  lemma SlaveIsOverwritten(boot: Fs, env: Env)
    requires Valid(boot) && Works(env)
    ensures FindTarget(LoneSlave()) == Some(Slave)
    ensures var (disks, code) := Install(LoneSlave(), Slave, LONE_BOOT, Some([1]), true, None, None, None);
            && code == 0 && DisksOk(disks) && boot.root in boot.nodes && Bootable(disks.slave, LONE_BOOT, [1])
            && var n := Mount(Machine(disks, boot, Empty(), FRESH_VARS), env);
               && n.vars.status == Blank && TreeOk(Bare())
               && var (saved, result) := Save(n.(fs := Bare(), table := Example().table), true, None, None);
                  result == 0 && !Bootable(saved.disks.slave, LONE_BOOT, [1])
  {
    hide Valid, Mount, Chop, Padded, Written, Save, Bootable, Payload, Listed, EncodeSuper, ExampleSlots, Empty,
         Install,
         LoneSlave, LONE_BOOT, AllRecords, Probe, DisksOk;
    BootRoot(boot);
    BareValid();
    LoneFacts();
    LoneInstalls();
    var disks := Install(LoneSlave(), Slave, LONE_BOOT, Some([1]), true, None, None, None).0;
    InstalledFacts(LoneSlave(), Slave, LONE_BOOT, [1], true);
    var m := Machine(disks, boot, Empty(), FRESH_VARS);
    CliIsNoMagic(LONE_BOOT);
    FirstLocation(LoneSlave(), Slave, LONE_BOOT, [1], true, m, env);
    InstallThenMount(LoneSlave(), Slave, LONE_BOOT, [1], true, m, env);
    MountedOpen(m, env);
    var n := Mount(m, env).(fs := Bare(), table := Example().table);
    ExampleTable();
    ExamplePayload();
    FirstSave(n);
    SurvivesFirstWrite(LoneSlave(), Slave, LONE_BOOT, [1], true, m, env, Bare(), Example().table,
        SaveOp(true, None, None));
  }

  lemma LoneFacts()
    ensures FindTarget(LoneSlave()) == Some(Slave) && BootCode(LONE_BOOT)
    ensures !Probe(LoneSlave().master, DATA_LBA, true) && |LoneSlave().slave| == DATA_LBA + BLANK_ROOM
  {
  }

  lemma LoneInstalls()
    ensures DisksOk(LoneSlave()) && Install(LoneSlave(), Slave, LONE_BOOT, Some([1]), true, None, None, None).1 == 0
  {
    hide Chop, Padded, Written, LONE_BOOT;
    KernelRun([1]);
    LoneFacts();
    AtaWriteConfined(LoneSlave().slave, 0, [LONE_BOOT], None);
    var d1 := AtaWrite(LoneSlave().slave, 0, [LONE_BOOT], None).0;
    AtaWriteConfined(d1, KERNEL_LBA, Chop(Padded([1])), None);
  }

  lemma FirstSave(n: Machine)
    requires TreeOk(n.fs) && n.vars.status != NoDisk && !n.vars.isSealed && n.vars.base == 0
    requires var payload := Payload(n.fs, Listed(n.table.slots));
             |payload| <= MAX_PAYLOAD && 1 + |Chop(Padded(payload))| <= |On(n.disks, n.vars.drive)|
    ensures Save(n, true, None, None).1 == 0
  {
    hide Payload, Chop, Padded, Listed, Written, EncodeSuper;
    var payload := Payload(n.fs, Listed(n.table.slots));
    RunNotEmpty(payload);
    WrittenFacts(On(n.disks, n.vars.drive), 1, Chop(Padded(payload)));
  }
}

/** The installer as the kernel runs it. */
module Installer {
  import opened Bytes
  import opened PersistSpec
  import opened PersistStore
  import opened InstallSpec

  /** `install_to_disk`. */
  method InstallToDisk(device: Device, w: Which, boot: Str, image: Option<Str>, memory: bool,
                       bootFault: Option<nat>, kernelFault: Option<nat>, blankFault: Option<nat>) returns (code: int)
    modifies device
    ensures (device.disks, code) ==
            Install(old(device.disks), w, boot, image, memory, bootFault, kernelFault, blankFault)
  {
    hide Written, Chop, Zeros;
    var d := On(device.disks, w);
    PutOn(device.disks, w, d);
    if image == None || |image.value| == 0 {
      return -1;
    }
    var sectors := SectorsFor(|image.value|);
    if d == [] {
      return -2;
    }
    if sectors > KERNEL_MAX {
      return -3;
    }
    if |d| < DATA_LBA + BLANK_ROOM {
      return -4;
    }
    var ok := device.WriteRun(w, 0, [boot], bootFault);
    if !ok {
      return -5;
    }
    if !memory {
      return -6;
    }
    var buffer := image.value + Zeros(sectors * SECTOR - |image.value|);
    ok := device.WriteRun(w, KERNEL_LBA, Chop(buffer), kernelFault);
    if !ok {
      return -7;
    }
    ok := device.WriteRun(w, DATA_LBA, [Zeros(SECTOR)], blankFault);
    if !ok {
      return -8;
    }
    return 0;
  }
}
