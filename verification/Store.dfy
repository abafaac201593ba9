/** The persistence layer as the kernel runs it: cursors advanced in place over the device. */
module PersistStore {
  import opened Bytes
  import opened Paths
  import opened FsSpec
  import opened RamFs
  import opened AccountSpec
  import opened Accounts
  import opened SnapshotFormat
  import opened SnapshotTree
  import opened PersistSpec
  import Checksum
  import opened Words

  const CHUNK: nat := 255              // sectors one ATA command covers

  // ----- the device

  lemma WrittenNext(d: Drive, lba: nat, run: seq<Str>, k: nat)
    requires lba + |run| <= |d| && k < |run|
    ensures Written(d, lba, run[..k])[lba + k := run[k]] == Written(d, lba, run[..k + 1])
  {
    assert run[..k + 1] == run[..k] + [run[k]];
  }

  lemma {:induction false} FlattenConcat(a: seq<Str>, b: seq<Str>)
    ensures Flatten(a + b) == Flatten(a) + Flatten(b)
  {
    if a == [] {
      assert a + b == b;
    } else {
      assert (a + b)[1..] == a[1..] + b;
      FlattenConcat(a[1..], b);
    }
  }

  class Device {
    var disks: Disks

    constructor (d: Disks)
      ensures disks == d
    { disks := d; }

    /** `ata_write`: chunks of at most 255 sectors, sector by sector. */
    method WriteRun(w: Which, lba: nat, run: seq<Str>, fault: Option<nat>) returns (ok: bool)
      modifies this
      ensures (On(disks, w), ok) == AtaWrite(On(old(disks), w), lba, run, fault)
      ensures disks == Put(old(disks), w, On(disks, w))
    {
      hide Written;
      var d := On(disks, w);
      if d == [] {
        return false;
      }
      if |run| == 0 {
        return true;
      }
      if lba + |run| > |d| {
        return false;
      }
      ghost var start := d;
      var done := 0;
      WrittenNothing(start, lba);
      assert run[..0] == [] && run[..|run|] == run;
      while done < |run|
        invariant done <= |run| && (fault.Some? ==> done <= fault.value)
        invariant d == Written(start, lba, run[..done])
        invariant disks == old(disks)
      {
        var chunk := if |run| - done > CHUNK then CHUNK else |run| - done;
        var end := done + chunk;
        while done < end
          invariant done <= end <= |run| && (fault.Some? ==> done <= fault.value)
          invariant d == Written(start, lba, run[..done])
          invariant disks == old(disks)
        {
          if fault == Some(done) {
            disks := Put(disks, w, d);
            return false;
          }
          WrittenNext(start, lba, run, done);
          WrittenFacts(start, lba, run[..done]);
          d := d[lba + done := run[done]];
          done := done + 1;
        }
      }
      disks := Put(disks, w, d);
      return fault == None;
    }

    /** `ata_read`. */
    method ReadRun(w: Which, lba: nat, count: nat, answers: bool) returns (r: Option<Str>)
      ensures r == AtaRead(On(disks, w), lba, count, answers)
    {
      var d := On(disks, w);
      if d == [] {
        return None;
      }
      if count == 0 {
        return Some([]);
      }
      if lba + count > |d| || !answers {
        return None;
      }
      var bytes: Str := [];
      var done := 0;
      while done < count
        invariant done <= count && bytes == Flatten(d[lba..lba + done])
      {
        var chunk := if count - done > CHUNK then CHUNK else count - done;
        var end := done + chunk;
        while done < end
          invariant done <= end <= count && bytes == Flatten(d[lba..lba + done])
        {
          assert d[lba..lba + done + 1] == d[lba..lba + done] + [d[lba + done]];
          FlattenConcat(d[lba..lba + done], [d[lba + done]]);
          FlattenOne(d[lba + done]);
          bytes := bytes + d[lba + done];
          done := done + 1;
        }
      }
      return Some(bytes);
    }
  }

  lemma FlattenOne(s: Str)
    ensures Flatten([s]) == s
  {
    var one: seq<Str> := [s];
    assert one[1..] == [];
  }

  // ----- writing

  /** `writer_t`: stops storing what no longer fits and remembers that it did. */
  class Writer {
    const capacity: nat
    var bytes: Str
    var overflow: bool
    ghost var intended: Str            // everything it was asked to store

    ghost predicate Valid()
      reads this
    {
      && capacity < FILE_LIMIT && |bytes| <= capacity
      && (overflow <==> |intended| > capacity)
      && (!overflow ==> bytes == intended)
    }

    constructor (capacity: nat)
      requires capacity < FILE_LIMIT
      ensures Valid() && intended == [] && this.capacity == capacity
    {
      this.capacity := capacity;
      bytes, overflow, intended := [], false, [];
    }

    /** `put_bytes`, with the sum in 32 bits. */
    method PutBytes(data: Str)
      requires Valid() && |data| < FILE_LIMIT
      modifies this
      ensures Valid() && intended == old(intended) + data
    {
      intended := intended + data;
      if (|bytes| + |data|) % WORD > capacity {
        overflow := true;
        return;
      }
      bytes := bytes + data;
    }

    method PutName(s: Str)
      requires Valid() && |s| < 256
      modifies this
      ensures Valid() && intended == old(intended) + PutString(s)
    {
      PutBytes([|s| % 256]);
      PutBytes(s);
      assert old(intended) + [|s| % 256] + s == old(intended) + PutString(s);
    }

    method PutAccount(u: User)
      requires Valid() && |u.name| < 256 && |u.home| < 256
      modifies this
      ensures Valid() && intended == old(intended) + EncodeUser(u)
    {
      PutName(u.name);
      PutName(u.home);
      PutBytes(U32(u.uid));
      PutBytes(U32(u.gid));
      PutBytes(U32(u.hash));
      Five(old(intended), PutString(u.name), PutString(u.home), U32(u.uid), U32(u.gid), U32(u.hash));
    }

    /** `write_node`. */
    method PutNode(fs: Fs, id: Id)
      requires Valid() && TreeOk(fs) && id in fs.nodes && id != fs.root && |fs.nodes[id].data| < FILE_LIMIT
      modifies this
      ensures Valid() && intended == old(intended) + EncodeRec(RecOf(fs, id))
    {
      hide TreeOk, NamesTo, Printed;
      var path := PrintPath(fs, id, PATH_MAX);
      PathUsable(fs, id);
      var n := fs.nodes[id];
      PutBytes([KindCode(n.kind)]);
      PutBytes(U16(|path|));
      PutBytes(U32(|n.data|));
      PutBytes(path);
      PutBytes(n.data);
      Five(old(intended), [KindCode(n.kind)], U16(|path|), U32(|n.data|), path, n.data);
    }
  }

  lemma Five(w: Str, a: Str, b: Str, c: Str, d: Str, e: Str)
    ensures w + a + b + c + d + e == w + (a + b + c + d + e)
  {
  }

  /** A node's printed path is never empty, so no node but the root is left out. */
  lemma PathUsable(fs: Fs, id: Id)
    requires TreeOk(fs) && id in fs.nodes && id != fs.root
    ensures AbsPath(fs, id) != [] && |AbsPath(fs, id)| < PATH_MAX
  {
    PrintedSlash(NamesTo(fs, id));
    PrintedWhole(NamesTo(fs, id));
  }

  ghost predicate FilesFit(fs: Fs) {
    forall id | id in fs.nodes :: |fs.nodes[id].data| < FILE_LIMIT
  }

  /** The records from one sibling on: its own, those below it, those of the rest. */
  lemma RecordsStep(fs: Fs, dir: Id, kids: seq<Id>, lo: Id)
    requires TreeOk(fs) && Kids(fs, dir, kids, lo) && kids != []
    ensures Kids(fs, dir, kids[1..], lo) && kids[0] in fs.nodes && kids[0] != fs.root && kids[0] >= lo
            && kids[0] < fs.next
    ensures Kids(fs, kids[0], fs.nodes[kids[0]].children, kids[0] + 1)
    ensures var below := Records(fs, kids[0], fs.nodes[kids[0]].children, kids[0] + 1);
            var rest := Records(fs, dir, kids[1..], lo);
            && EncodeRecs(Records(fs, dir, kids, lo)) ==
               EncodeRec(RecOf(fs, kids[0])) + EncodeRecs(below) + EncodeRecs(rest)
            && |Records(fs, dir, kids, lo)| == 1 + |below| + |rest|
    ensures fs.nodes[kids[0]].kind == File ==> Records(fs, kids[0], fs.nodes[kids[0]].children, kids[0] + 1) == []
  {
    hide TreeOk, RecOf, EncodeRec;
    KidFacts(fs, dir, kids, lo);
    KidsOf(fs, kids[0]);
    KidsTail(fs, dir, kids, lo);
    DataNeedsFile(fs, kids[0]);
    var one := [RecOf(fs, kids[0])];
    var below := Records(fs, kids[0], fs.nodes[kids[0]].children, kids[0] + 1);
    EncodeRecsConcat(one + below, Records(fs, dir, kids[1..], lo));
    EncodeRecsConcat(one, below);
    assert one[1..] == [];
    assert EncodeRecs(one) == EncodeRec(one[0]) + [];
  }

  /** `write_tree`: depth first, parents before children. */
  method WriteTree(w: Writer, fs: Fs, dir: Id, start: nat) returns (count: nat)
    requires w.Valid() && TreeOk(fs) && FilesFit(fs) && dir in fs.nodes && dir < fs.next
    requires Kids(fs, dir, fs.nodes[dir].children, dir + 1)
    modifies w
    ensures w.Valid() && w.intended == old(w.intended) + EncodeRecs(Records(fs, dir, fs.nodes[dir].children, dir + 1))
    ensures count == start + |Records(fs, dir, fs.nodes[dir].children, dir + 1)|
    decreases fs.next - dir
  {
    hide TreeOk, RecOf, EncodeRec, Kids, FilesFit;
    var kids := fs.nodes[dir].children;
    count := start;
    var k := 0;
    assert kids[0..] == kids;
    ghost var done: Str := [];
    while k < |kids|
      invariant k <= |kids| && w.Valid() && Kids(fs, dir, kids[k..], dir + 1)
      invariant w.intended == old(w.intended) + done
      invariant EncodeRecs(Records(fs, dir, kids, dir + 1)) == done + EncodeRecs(Records(fs, dir, kids[k..], dir + 1))
      invariant |Records(fs, dir, kids, dir + 1)| == (count - start) + |Records(fs, dir, kids[k..], dir + 1)|
      invariant count >= start
    {
      var child := kids[k];
      RecordsStep(fs, dir, kids[k..], dir + 1);
      assert kids[k..][1..] == kids[k + 1..];
      FileFits(fs, child);
      w.PutNode(fs, child);
      count := count + 1;
      ghost var one := EncodeRec(RecOf(fs, child));
      ghost var below := EncodeRecs(Records(fs, child, fs.nodes[child].children, child + 1));
      if fs.nodes[child].kind == Directory {
        count := WriteTree(w, fs, child, count);
      } else {
        assert below == [];
      }
      Gather(old(w.intended), done, one, below, EncodeRecs(Records(fs, dir, kids[k + 1..], dir + 1)));
      assert w.intended == old(w.intended) + done + one + below;
      done := done + one + below;
      k := k + 1;
    }
    assert kids[k..] == [];
    assert EncodeRecs(Records(fs, dir, [], dir + 1)) == [];
    assert done + [] == done;
  }

  lemma FileFits(fs: Fs, id: Id)
    requires FilesFit(fs) && id in fs.nodes
    ensures |fs.nodes[id].data| < FILE_LIMIT
  {
  }

  lemma Gather(w: Str, done: Str, one: Str, below: Str, rest: Str)
    ensures w + done + one + below == w + (done + one + below)
    ensures done + (one + below + rest) == (done + one + below) + rest
  {
  }

  // ----- reading

  /** `reader_t`: a cursor that goes bad instead of running past the end. */
  class ByteReader {
    const buffer: Str
    var pos: nat
    var bad: bool

    ghost function View(): Reader
      reads this
    { Reader(buffer, pos, bad) }

    ghost predicate Valid()
      reads this
    { pos <= |buffer| }

    constructor (buffer: Str)
      ensures Valid() && View() == Reader(buffer, 0, false)
    {
      this.buffer := buffer;
      pos, bad := 0, false;
    }

    method TakeBytes(n: nat) returns (s: Str)
      requires Valid()
      modifies this
      ensures Valid() && (View(), s) == Take(old(View()), n)
    {
      if pos + n > |buffer| {
        bad := true;
        return [];
      }
      s := buffer[pos..pos + n];
      pos := pos + n;
    }

    method Byte() returns (v: nat)
      requires Valid()
      modifies this
      ensures Valid() && (View(), v) == TakeU8(old(View()))
    {
      var b := TakeBytes(1);
      v := if |b| == 1 then b[0] else 0;
    }

    method Half() returns (v: nat)
      requires Valid()
      modifies this
      ensures Valid() && (View(), v) == TakeU16(old(View()))
    {
      var b := TakeBytes(2);
      v := if |b| == 2 then ReadU16(b) else 0;
    }

    method Word() returns (v: nat)
      requires Valid()
      modifies this
      ensures Valid() && (View(), v) == TakeU32(old(View()))
    {
      var b := TakeBytes(4);
      v := if |b| == 4 then ReadU32(b) else 0;
    }

    method Name(size: nat) returns (s: Str)
      requires Valid()
      modifies this
      ensures Valid() && (View(), s) == TakeString(old(View()), size)
    {
      var length := Byte();
      if bad || length >= size {
        bad := true;
        return [];
      }
      s := TakeBytes(length);
      s := CString(s);
    }
  }

  // ----- the layer

  class Store {
    const fs: FileSystem
    const accounts: AccountTable
    const device: Device
    var vars: Vars

    ghost function State(): Machine
      reads this, fs, accounts, accounts.users, device
    { Machine(device.disks, fs.State(), accounts.State(), vars) }

    ghost predicate Valid()
      reads this, fs, accounts, accounts.users, device
    { FsSpec.Valid(fs.State()) && accounts.Valid() && DisksOk(device.disks) }

    constructor (fs: FileSystem, accounts: AccountTable, device: Device)
      requires FsSpec.Valid(fs.State()) && accounts.Valid() && DisksOk(device.disks)
      ensures Valid() && this.fs == fs && this.accounts == accounts && this.device == device
      ensures vars.status == NoDisk && !vars.dirty && !vars.isSealed
    {
      this.fs, this.accounts, this.device := fs, accounts, device;
      vars := Vars(NoDisk, false, false, 0, 0, Slave, 0);
    }

    /** The account loop of `persist_save`. */
    method PutAccounts(w: Writer) returns (count: nat)
      requires Valid() && w.Valid()
      modifies w
      ensures w.Valid() && w.intended == old(w.intended) + EncodeUsers(Listed(accounts.users[..]))
      ensures count == |Listed(accounts.users[..])|
    {
      hide FsSpec.Valid, EncodeUser;
      ListedOk(accounts.State());
      ghost var us := Listed(accounts.users[..]);
      var n := accounts.Count();
      count := 0;
      assert us[0..] == us;
      ghost var done: Str := [];
      var i := 0;
      while i < n
        invariant i <= n && w.Valid() && count == i && n == |us|
        invariant accounts.users[..] == old(accounts.users[..])
        invariant w.intended == old(w.intended) + done
        invariant EncodeUsers(us) == done + EncodeUsers(us[i..])
      {
        var u := accounts.At(i);
        if u.Some? {
          assert u.value == us[i];
          w.PutAccount(u.value);
          count := count + 1;
          assert us[i..][1..] == us[i + 1..];
          ghost var one := EncodeUser(us[i]);
          assert EncodeUsers(us[i..]) == one + EncodeUsers(us[i + 1..]);
          assert old(w.intended) + done + one == old(w.intended) + (done + one);
          assert done + (one + EncodeUsers(us[i + 1..])) == (done + one) + EncodeUsers(us[i + 1..]);
          done := done + one;
        }
        i := i + 1;
      }
      assert us[i..] == [];
      assert done + [] == done;
    }

    /** `persist_save`; the result is the machine step `Save`. */
    method SaveSnapshot(memory: bool, payloadFault: Option<nat>, superFault: Option<nat>) returns (code: int)
      requires Valid() && FilesFit(fs.State())
      modifies this, device
      ensures Valid()
      ensures (State(), code) == Save(old(State()), memory, payloadFault, superFault)
    {
      hide FsSpec.Valid, TableOk, Payload, AllRecords, Chop, Padded, EncodeSuper, Written, Listed, DriveOk;
      ghost var m := State();
      BootRoot(m.fs);
      SaveKeepsDisks(m, memory, payloadFault, superFault);
      if vars.isSealed {
        return -5;
      }
      if vars.status == NoDisk {
        return 0;
      }
      if !memory {
        return -1;
      }
      var w := new Writer(MAX_PAYLOAD);
      var userCount, nodeCount := Serialise(w);
      if w.overflow {
        return -2;
      }
      var payload := w.bytes;
      var hash := Checksum.Compute(payload, |payload|);
      assert payload[..|payload|] == payload;
      vars := vars.(saveCount := (vars.saveCount + 1) % WORD);
      var super := Super(MAGIC, VERSION, |payload|, nodeCount, userCount, hash, vars.saveCount);
      assert super == SuperOf(m);
      var ok := device.WriteRun(vars.drive, vars.base + 1, Chop(Padded(payload)), payloadFault);
      if !ok {
        return -3;
      }
      ok := device.WriteRun(vars.drive, vars.base, [EncodeSuper(super)], superFault);
      if !ok {
        return -4;
      }
      vars := vars.(bytesUsed := |payload|, status := Loaded, dirty := false);
      return 0;
    }

    /** Accounts, then the tree. */
    method Serialise(w: Writer) returns (userCount: nat, nodeCount: nat)
      requires Valid() && FilesFit(fs.State()) && w.Valid() && w.intended == [] && w.capacity == MAX_PAYLOAD
      modifies w
      ensures var payload := Payload(fs.State(), Listed(accounts.users[..]));
              && (w.overflow <==> |payload| > MAX_PAYLOAD)
              && (!w.overflow ==> w.bytes == payload)
      ensures userCount == |Listed(accounts.users[..])| && nodeCount == |AllRecords(fs.State())|
    {
      hide TableOk, EncodeRecs, EncodeUsers, Records, FilesFit;
      KidsOf(fs.State(), fs.root);
      userCount := PutAccounts(w);
      nodeCount := WriteTree(w, fs.State(), fs.root, 0);
    }

    /** `persist_flush`. */
    method FlushSnapshot(memory: bool, payloadFault: Option<nat>, superFault: Option<nat>) returns (code: int)
      requires Valid() && FilesFit(fs.State())
      modifies this, device
      ensures Valid()
      ensures (State(), code) == Flush(old(State()), memory, payloadFault, superFault)
    {
      hide Save, FsSpec.Valid, TableOk;
      if !vars.dirty {
        return 0;
      }
      code := SaveSnapshot(memory, payloadFault, superFault);
    }

    /** `persist_format`. */
    method FormatStore(fault: Option<nat>) returns (code: int)
      requires Valid()
      modifies this, device
      ensures Valid() && (State(), code) == Format(old(State()), fault)
    {
      hide FsSpec.Valid, TableOk, Written, DriveOk;
      if vars.status == NoDisk {
        return -1;
      }
      FormatKeepsDisks(State(), fault);
      var blank := Zeros(SECTOR);
      var ok := device.WriteRun(vars.drive, vars.base, [blank], fault);
      if !ok {
        return -2;
      }
      vars := vars.(status := Blank, bytesUsed := 0, saveCount := 0, dirty := false, isSealed := true);
      return 0;
    }

    /** One saved account. */
    method LoadAccount(r: ByteReader)
      requires Valid() && r.Valid() && fs.State().nodes[fs.root].children == []
      modifies r, accounts`nextUid, accounts.users, fs
      ensures Valid() && r.Valid() && fs.State() == old(fs.State())
      ensures (r.View(), accounts.State()) == LoadUser(old(r.View()), old(accounts.State()))
    {
      hide FsSpec.Valid, TableOk, TakeString, TakeU32, Sync;
      var name := r.Name(USER_NAME_MAX);
      if r.bad {
        return;
      }
      var home := r.Name(USER_HOME_MAX);
      if r.bad {
        return;
      }
      var uid := r.Word();
      var gid := r.Word();
      var hash := r.Word();
      if r.bad {
        return;
      }
      ghost var tree := fs.State();
      var code := accounts.ImportUser(User(name, home, uid, gid, hash), fs);
      SyncOnBareTree(tree, accounts.users[..]);
    }

    /** One saved node. */
    method LoadTreeNode(r: ByteReader)
      requires Valid() && r.Valid()
      modifies r, fs
      ensures Valid() && r.Valid() && fs.root == old(fs.root)
      ensures (r.View(), fs.State()) == LoadNode(old(r.View()), old(fs.State()))
    {
      hide FsSpec.Valid, TableOk, TakeU8, TakeU16, TakeU32, Target, NodeNew, Resolve;
      LoadNodeKeeps(r.View(), fs.State());
      var kind := r.Byte();
      var pathLength := r.Half();
      var dataLength := r.Word();
      if r.bad || pathLength == 0 || pathLength >= PATH_MAX {
        r.bad := true;
        return;
      }
      var path := r.TakeBytes(pathLength);
      if r.bad {
        return;
      }
      path := CString(path);
      var k := if kind == KIND_DIR then Directory else File;
      ghost var before := fs.State();
      var node := fs.CreateNode(path, k, true);
      if node == None {
        node := fs.ResolvePath(path);
      }
      if dataLength != 0 {
        if r.pos + dataLength > |r.buffer| {
          r.bad := true;
          return;
        }
        var data := r.buffer[r.pos..r.pos + dataLength];
        if node.Some? {
          var ok := fs.WriteFile(node.value, data, false, true);
        }
        r.pos := r.pos + dataLength;
      }
    }

    /** The two loops of `persist_mount`. */
    method RestoreAll(payload: Str, s: Super) returns (bad: bool)
      requires Valid()
      modifies accounts`nextUid, accounts.users, fs
      ensures Valid()
      ensures var (r, tree, table) := Restore(payload, s, old(fs.State()), old(accounts.State()));
              bad == r.bad && fs.State() == tree && accounts.State() == table
    {
      hide FsSpec.Valid, TableOk, LoadUser, LoadNode;
      RootThere(fs.State());
      fs.ResetTree();
      ghost var bare := fs.State();
      RootThere(bare);
      var r := new ByteReader(payload);
      var i := 0;
      ghost var r0, t0 := r.View(), accounts.State();
      while i < s.userCount && !r.bad
        invariant i <= s.userCount && Valid() && r.Valid() && fs.State() == bare
        invariant LoadUsers(r0, t0, s.userCount) == LoadUsers(r.View(), accounts.State(), s.userCount - i)
      {
        LoadAccount(r);
        i := i + 1;
      }
      ghost var r1, t1 := r.View(), accounts.State();
      assert LoadUsers(r0, t0, s.userCount) == (r1, t1);
      var j := 0;
      while j < s.nodeCount && !r.bad
        invariant j <= s.nodeCount && Valid() && r.Valid() && accounts.State() == t1
        invariant LoadNodes(r1, bare, s.nodeCount) == LoadNodes(r.View(), fs.State(), s.nodeCount - j)
      {
        LoadTreeNode(r);
        j := j + 1;
      }
      bad := r.bad;
      assert r0 == Reader(payload, 0, false) && t0 == old(accounts.State()) && bare == Reset(old(fs.State()));
      assert LoadNodes(r1, bare, s.nodeCount) == (r.View(), fs.State());
    }

    /** `probe`. */
    method ProbeAt(w: Which, base: nat, answers: bool) returns (found: bool)
      requires DisksOk(device.disks)
      ensures found == Probe(On(device.disks, w), base, answers)
    {
      var d := On(device.disks, w);
      if d == [] || |d| <= base + 1 {
        return false;
      }
      var got := device.ReadRun(w, base, 1, answers);
      if got == None {
        return false;
      }
      OneRead(d, base);
      return got.value[..8] == MAGIC;
    }

    /** `persist_mount`; the result is the machine step `Mount`. */
    method MountSnapshot(env: Env) returns (status: Status)
      requires Valid()
      modifies this, accounts`nextUid, accounts.users, fs
      ensures Valid()
      ensures State() == PersistSpec.Mount(old(State()), env) && status == vars.status
    {
      hide FsSpec.Valid, TableOk, Restore, ParseSuper, Checksum.Fnv, Probe, Flatten;
      RootThere(fs.State());
      vars := vars.(isSealed := false);
      if env.fromMedium {
        vars := vars.(status := NoDisk);
        return NoDisk;
      }
      var onSlave := ProbeAt(Slave, 0, env.slaveProbe);
      var onMaster := ProbeAt(Master, DATA_LBA, env.masterProbe);
      if onSlave {
        vars := vars.(drive := Slave, base := 0);
      } else if onMaster {
        vars := vars.(drive := Master, base := DATA_LBA);
      } else if device.disks.slave != [] {
        vars := vars.(drive := Slave, base := 0);
      } else if |device.disks.master| > DATA_LBA + BLANK_ROOM {
        vars := vars.(drive := Master, base := DATA_LBA);
      } else {
        vars := vars.(status := NoDisk);
        return NoDisk;
      }
      status := MountHere(env);
    }

    /** `persist_mount` from the superblock on. */
    method MountHere(env: Env) returns (status: Status)
      requires Valid()
      modifies this, accounts`nextUid, accounts.users, fs
      ensures Valid()
      ensures old(fs.root) in old(fs.State()).nodes && State() == MountAt(old(State()), env) && status == vars.status
    {
      hide FsSpec.Valid, TableOk, Restore, ParseSuper, Checksum.Fnv, Flatten;
      RootThere(fs.State());
      ghost var d := On(device.disks, vars.drive);
      var got := device.ReadRun(vars.drive, vars.base, 1, env.superRead);
      if got == None {
        vars := vars.(status := Error);
        return Error;
      }
      OneRead(d, vars.base);
      var s := ParseSuper(got.value);
      if s.magic != MAGIC {
        vars := vars.(status := Blank);
        return Blank;
      }
      if s.version != VERSION || s.payloadBytes == 0 || s.payloadBytes > MAX_PAYLOAD || !env.memory {
        vars := vars.(status := Error);
        return Error;
      }
      var stored := device.ReadRun(vars.drive, vars.base + 1, SectorsFor(s.payloadBytes), env.payloadRead);
      if stored == None {
        vars := vars.(status := Error);
        return Error;
      }
      ReadLength(d, vars.base, s);
      var hash := Checksum.Compute(stored.value, s.payloadBytes);
      if hash != s.checksum {
        vars := vars.(status := Error);
        return Error;
      }
      ghost var payload := stored.value[..s.payloadBytes];
      assert StoredPayload(d, vars.base, s, env.payloadRead) == Some(payload) && Checksum.Fnv(payload) == s.checksum;
      var bad := RestoreAll(stored.value[..s.payloadBytes], s);
      if bad {
        vars := vars.(status := Error);
        return Error;
      }
      vars := vars.(status := Loaded, dirty := false, bytesUsed := s.payloadBytes, saveCount := s.saves);
      return Loaded;
    }
  }

  lemma RootThere(fs: Fs)
    requires FsSpec.Valid(fs)
    ensures fs.root in fs.nodes && FsSpec.Valid(Reset(fs)) && Reset(fs).nodes[fs.root].children == []
  {
    ResetValid(fs);
  }

  lemma OneRead(d: Drive, base: nat)
    requires DriveOk(d) && base < |d|
    ensures Flatten(d[base..base + 1]) == d[base]
  {
    assert d[base..base + 1] == [d[base]];
    FlattenOne(d[base]);
  }

  /** A read of the sectors the payload needs yields at least the payload. */
  lemma ReadLength(d: Drive, base: nat, s: Super)
    requires DriveOk(d) && s.payloadBytes > 0 && base + 1 + SectorsFor(s.payloadBytes) <= |d|
    ensures |Flatten(d[base + 1..base + 1 + SectorsFor(s.payloadBytes)])| >= s.payloadBytes
  {
    FlattenSize(d[base + 1..base + 1 + SectorsFor(s.payloadBytes)]);
  }

  lemma SaveKeepsDisks(m: Machine, memory: bool, payloadFault: Option<nat>, superFault: Option<nat>)
    requires TreeOk(m.fs) && DisksOk(m.disks)
    ensures DisksOk(Save(m, memory, payloadFault, superFault).0.disks)
  {
    hide Payload, Chop, Padded, Listed, AllRecords, EncodeSuper, Written;
    var payload := Payload(m.fs, Listed(m.table.slots));
    var d, base := On(m.disks, m.vars.drive), m.vars.base;
    if |payload| <= MAX_PAYLOAD {
      var run := Chop(Padded(payload));
      SavedRun(payload);
      AtaWriteConfined(d, base + 1, run, payloadFault);
      SuperSize(m);
      AtaWriteConfined(AtaWrite(d, base + 1, run, payloadFault).0, base, [EncodeSuper(SuperOf(m))], superFault);
    }
  }

  lemma FormatKeepsDisks(m: Machine, fault: Option<nat>)
    requires DisksOk(m.disks)
    ensures DisksOk(Format(m, fault).0.disks)
  {
    hide Written;
    AtaWriteConfined(On(m.disks, m.vars.drive), m.vars.base, [Zeros(SECTOR)], fault);
  }
}
