/**
 Where every field of a snapshot lies (fs/persist.c:36-45, 104-135), and that a part of one is
 never taken for the whole.
 */
module SnapshotLaws {
  import opened Bytes
  import opened Words
  import opened Paths
  import opened FsSpec
  import opened AccountSpec
  import opened SnapshotFormat
  import opened PersistSpec
  import T = SnapshotTree

  // ----- layout

  /** The byte `k` of a number, lowest first. */
  function ByteOf(v: nat, k: nat): byte { v / Pow2(8 * k) % 256 }

  lemma Powers()
    ensures Pow2(0) == 1 && Pow2(8) == 0x100 && Pow2(16) == 0x1_0000 && Pow2(24) == 0x100_0000
  {
    assert Pow2(2) == 4 && Pow2(4) == 16;
    Pow2Double(4);
    Pow2Double(8);
    assert Pow2(24) == 256 * Pow2(16);
  }

  /** Numbers go out lowest byte first. */
  lemma LittleEndian(v: nat)
    requires v < WORD
    ensures U32(v) == [ByteOf(v, 0), ByteOf(v, 1), ByteOf(v, 2), ByteOf(v, 3)]
    ensures v < 0x1_0000 ==> U16(v) == [ByteOf(v, 0), ByteOf(v, 1)]
  {
    hide Pow2;
    Powers();
    LowHalf(v);
    assert v / 0x1_0000 / 256 == v / 0x100_0000;
    assert v < 0x1_0000 ==> v % 0x1_0000 == v;
  }

  lemma LowHalf(v: nat)
    ensures v % 0x1_0000 % 256 == v % 256 && v % 0x1_0000 / 256 == v / 256 % 256
  {
  }

  /** The superblock: magic number, version, payload length, node and user count, checksum, number of saves. */
  lemma SuperLayout(s: Super)
    requires |s.magic| == 8
    ensures var b := EncodeSuper(s);
            && |b| == 512 && b[0..8] == s.magic && b[8..12] == U32(s.version) && b[12..16] == U32(s.payloadBytes)
            && b[16..20] == U32(s.nodeCount) && b[20..24] == U32(s.userCount)
            && b[24..28] == U32(s.checksum) && b[28..32] == U32(s.saves)
            && forall i | 32 <= i < 512 :: b[i] == 0
  {
    hide U32;
  }

  /** What a superblock written by a save says. */
  lemma SuperSays(m: Machine)
    requires TreeOk(m.fs)
    ensures var s := SuperOf(m);
            var payload := Payload(m.fs, Listed(m.table.slots));
            && s.magic == [76, 79, 83, 70, 83, 0, 0, 0] && s.version == 1 && s.payloadBytes == |payload|
            && s.userCount == |Listed(m.table.slots)| && s.nodeCount == |AllRecords(m.fs)|
            && s.checksum == Checksum.Fnv(payload) && s.saves == (m.vars.saveCount + 1) % 0x1_0000_0000
  {
  }

  /** An account: name and home, each behind its length in a byte, then user id, group id and password hash. */
  lemma AccountLayout(u: User)
    requires UserOk(u)
    ensures var e, n, h := EncodeUser(u), |u.name|, |u.home|;
            && |e| == n + h + 14 && e[0] == n && e[1..1 + n] == u.name && e[1 + n] == h && e[2 + n..2 + n + h] == u.home
            && e[2 + n + h..6 + n + h] == U32(u.uid) && e[6 + n + h..10 + n + h] == U32(u.gid)
            && e[10 + n + h..] == U32(u.hash)
  {
    hide U32;
  }

  /** A node: kind (1 a file, 2 a directory), length of the path in two bytes and of the data in four, path, data. */
  lemma NodeLayout(rec: Rec)
    ensures var e, p := EncodeRec(rec), |rec.path|;
            && |e| == 7 + p + |rec.data| && e[0] == (if rec.kind == Directory then 2 else 1)
            && e[1..3] == U16(p) && e[3..7] == U32(|rec.data|) && e[7..7 + p] == rec.path && e[7 + p..] == rec.data
  {
    hide U16, U32;
  }

  // ----- how far a record reaches

  /** An account that was read: two strings with their lengths in front, and three numbers. */
  lemma LoadUserTakes(r: Reader, t: Table)
    requires r.pos <= |r.buffer| && !LoadUser(r, t).0.bad
    ensures !r.bad && r.pos < |r.buffer|
    ensures var name: nat := r.buffer[r.pos];
            && r.pos + 1 + name < |r.buffer| && name < 32
            && var home: nat := r.buffer[r.pos + 1 + name];
               home < 64 && LoadUser(r, t).0.pos == r.pos + 1 + name + 1 + home + 12
  {
    hide Import, CString, ReadU32;
  }

  /** A node that was read: kind, two lengths, path and data; an empty or over-long path makes the reader bad. */
  lemma LoadNodeTakes(r: Reader, fs: Fs)
    requires r.pos <= |r.buffer| && !LoadNode(r, fs).0.bad
    ensures !r.bad && r.pos + 7 <= |r.buffer|
    ensures var path, data := ReadU16(r.buffer[r.pos + 1..r.pos + 3]), ReadU32(r.buffer[r.pos + 3..r.pos + 7]);
            0 < path < 256 && LoadNode(r, fs).0.pos == r.pos + 7 + path + data <= |r.buffer|
  {
    hide Replay, Create, CString, ReadU16, ReadU32;
  }

  // ----- a part is never taken for the whole

  /** What is left to read is the beginning of this string, and not all of it. */
  ghost predicate Short(r: Reader, whole: Str) {
    r.pos <= |r.buffer| && !r.bad && r.buffer[r.pos..] <= whole && |r.buffer[r.pos..]| < |whole|
  }

  lemma ShortUser(r: Reader, t: Table, u: User, rest: Str)
    requires UserOk(u) && Short(r, EncodeUser(u) + rest)
    ensures var (r1, _) := LoadUser(r, t); r1.pos <= |r1.buffer| && (r1.bad || Short(r1, rest))
  {
    var left := r.buffer[r.pos..];
    if |left| >= |EncodeUser(u)| {
      var more := left[|EncodeUser(u)|..];
      assert left == (EncodeUser(u) + rest)[..|left|];
      assert left == EncodeUser(u) + more && more <= rest;
      LoadUserBack(r, t, u, more);
    } else if !LoadUser(r, t).0.bad {
      LoadUserTakes(r, t);
      CutUser(r, t, u, rest);
    }
  }

  /** The lengths read are those of the account, so all of it would have been read. */
  lemma CutUser(r: Reader, t: Table, u: User, rest: Str)
    requires UserOk(u) && Short(r, EncodeUser(u) + rest) && !LoadUser(r, t).0.bad
    ensures |r.buffer[r.pos..]| >= |EncodeUser(u)|
  {
    LoadUserTakes(r, t);
    var left := r.buffer[r.pos..];
    var e := EncodeUser(u) + rest;
    var name: nat := r.buffer[r.pos];
    UserBytes(u, rest);
    assert left[0] == e[0] && name == |u.name|;
    assert left[1 + name] == e[1 + name] && left[1 + name] == r.buffer[r.pos + 1 + name];
  }

  lemma UserBytes(u: User, rest: Str)
    requires UserOk(u)
    ensures |EncodeUser(u)| == 2 + |u.name| + |u.home| + 12
    ensures var e := EncodeUser(u) + rest; e[0] == |u.name| && e[1 + |u.name|] == |u.home|
  {
    hide U32;
    var tail := PutString(u.home) + U32(u.uid) + U32(u.gid) + U32(u.hash);
    assert EncodeUser(u) + rest == PutString(u.name) + (tail + rest);
    assert (tail + rest)[0] == |u.home|;
  }

  lemma ShortNode(r: Reader, fs: Fs, rec: Rec, rest: Str)
    requires RecOk(rec) && Short(r, EncodeRec(rec) + rest)
    ensures var (r1, _) := LoadNode(r, fs); r1.pos <= |r1.buffer| && (r1.bad || Short(r1, rest))
  {
    var left := r.buffer[r.pos..];
    if |left| >= |EncodeRec(rec)| {
      var more := left[|EncodeRec(rec)|..];
      assert left == (EncodeRec(rec) + rest)[..|left|];
      assert left == EncodeRec(rec) + more && more <= rest;
      LoadNodeBack(r, fs, rec, more);
    } else if !LoadNode(r, fs).0.bad {
      CutNode(r, fs, rec, rest);
    }
  }

  lemma CutNode(r: Reader, fs: Fs, rec: Rec, rest: Str)
    requires RecOk(rec) && Short(r, EncodeRec(rec) + rest) && !LoadNode(r, fs).0.bad
    ensures |r.buffer[r.pos..]| >= |EncodeRec(rec)|
  {
    hide LoadNode, U16, U32, ReadU16, ReadU32;
    LoadNodeTakes(r, fs);
    var left := r.buffer[r.pos..];
    var e := EncodeRec(rec) + rest;
    RecBytes(rec, rest);
    assert r.buffer[r.pos + 1..r.pos + 3] == left[1..3] == e[1..3];
    assert r.buffer[r.pos + 3..r.pos + 7] == left[3..7] == e[3..7];
    IntegersRoundTrip(|rec.path|);
    IntegersRoundTrip(|rec.data|);
  }

  lemma RecBytes(rec: Rec, rest: Str)
    ensures |EncodeRec(rec)| == 7 + |rec.path| + |rec.data|
    ensures var e := EncodeRec(rec) + rest; e[1..3] == U16(|rec.path|) && e[3..7] == U32(|rec.data|)
  {
    hide U16, U32;
  }

  lemma {:induction false} ShortUsers(r: Reader, t: Table, us: seq<User>, rest: Str)
    requires (forall i | 0 <= i < |us| :: UserOk(us[i])) && Short(r, EncodeUsers(us) + rest)
    ensures var (r1, _) := LoadUsers(r, t, |us|); r1.pos <= |r1.buffer| && (r1.bad || Short(r1, rest))
    decreases |us|
  {
    hide EncodeUser, LoadUser, UserOk;
    if us == [] {
      assert EncodeUsers(us) + rest == rest;
    } else {
      assert EncodeUsers(us) + rest == EncodeUser(us[0]) + (EncodeUsers(us[1..]) + rest);
      ShortUser(r, t, us[0], EncodeUsers(us[1..]) + rest);
      var (r1, t1) := LoadUser(r, t);
      if !r1.bad {
        ShortUsers(r1, t1, us[1..], rest);
      } else {
        BadUsers(r1, t1, |us| - 1);
      }
    }
  }

  lemma BadUsers(r: Reader, t: Table, n: nat)
    requires r.pos <= |r.buffer| && r.bad
    ensures LoadUsers(r, t, n) == (r, t)
  {
  }

  lemma {:induction false} ShortNodes(r: Reader, fs: Fs, rs: seq<Rec>)
    requires (forall i | 0 <= i < |rs| :: RecOk(rs[i])) && Short(r, EncodeRecs(rs))
    ensures LoadNodes(r, fs, |rs|).0.bad
    decreases |rs|
  {
    hide EncodeRec, LoadNode, RecOk;
    if rs != [] {
      ShortNode(r, fs, rs[0], EncodeRecs(rs[1..]));
      var (r1, fs1) := LoadNode(r, fs);
      if !r1.bad {
        ShortNodes(r1, fs1, rs[1..]);
      } else {
        BadNodes(r1, fs1, |rs| - 1);
      }
    }
  }

  lemma BadNodes(r: Reader, fs: Fs, n: nat)
    requires r.pos <= |r.buffer| && r.bad
    ensures LoadNodes(r, fs, n) == (r, fs)
  {
  }

  /**
   A proper beginning of a payload is never restored as if it were all of it: with the counts of the
   whole, the reader goes bad, even if the checksum should be right.
   */
  lemma PartIsBad(fs: Fs, us: seq<User>, part: Str, s: Super, boot: Fs, t: Table)
    requires TreeOk(fs) && |Payload(fs, us)| < WORD && boot.root in boot.nodes
    requires (forall i | 0 <= i < |us| :: UserOk(us[i])) && part <= Payload(fs, us) && |part| < |Payload(fs, us)|
    requires s.userCount == |us| && s.nodeCount == |AllRecords(fs)|
    ensures Restore(part, s, boot, t).0.bad
  {
    hide EncodeUsers, EncodeRecs, LoadUsers, LoadNodes, AllRecords, UserOk, RecOk, TreeOk, Reset;
    var r := Reader(part, 0, false);
    assert part[0..] == part;
    RecordsFit(fs, us);
    ShortUsers(r, t, us, EncodeRecs(AllRecords(fs)));
    var (r1, t1) := LoadUsers(r, t, |us|);
    if r1.bad {
      BadNodes(r1, Reset(boot), |AllRecords(fs)|);
    } else {
      ShortNodes(r1, Reset(boot), AllRecords(fs));
    }
  }

  lemma RecordsFit(fs: Fs, us: seq<User>)
    requires TreeOk(fs) && |Payload(fs, us)| < WORD
    ensures forall i | 0 <= i < |AllRecords(fs)| :: RecOk(AllRecords(fs)[i])
  {
    KidsOf(fs, fs.root);
    T.RecordsOk(fs, fs.root, fs.nodes[fs.root].children, fs.root + 1);
  }
}
