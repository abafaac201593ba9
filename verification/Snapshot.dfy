/**
 The snapshot format (fs/persist.c): how the tree and the accounts are laid out as bytes, how
 they are read back, and that rebuilding a tree from its records gives the same tree.
 */
module SnapshotFormat {
  import opened Bytes
  import opened Paths
  import opened FsSpec
  import opened AccountSpec

  const MAX_PAYLOAD: nat := 1024 * 1024
  const FILE_LIMIT: nat := 0x200_0000  // the heap: no file is larger
  const KIND_FILE: byte := 1
  const KIND_DIR: byte := 2

  /** One node as it is stored. */
  datatype Rec = Rec(kind: Kind, path: Str, data: Str)

  function PutString(s: Str): Str { [|s| % 256] + s }

  function EncodeUser(u: User): Str {
    PutString(u.name) + PutString(u.home) + U32(u.uid) + U32(u.gid) + U32(u.hash)
  }

  function EncodeUsers(us: seq<User>): Str {
    if us == [] then [] else EncodeUser(us[0]) + EncodeUsers(us[1..])
  }

  function KindCode(kind: Kind): byte { if kind == Directory then KIND_DIR else KIND_FILE }

  function EncodeRec(r: Rec): Str {
    [KindCode(r.kind)] + U16(|r.path|) + U32(|r.data|) + r.path + r.data
  }

  function EncodeRecs(rs: seq<Rec>): Str {
    if rs == [] then [] else EncodeRec(rs[0]) + EncodeRecs(rs[1..])
  }

  lemma {:induction false} EncodeRecsConcat(a: seq<Rec>, b: seq<Rec>)
    ensures EncodeRecs(a + b) == EncodeRecs(a) + EncodeRecs(b)
  {
    hide EncodeRec;
    if a == [] {
      assert a + b == b;
    } else {
      assert (a + b)[1..] == a[1..] + b;
      EncodeRecsConcat(a[1..], b);
      assert EncodeRec(a[0]) + (EncodeRecs(a[1..]) + EncodeRecs(b)) ==
             (EncodeRec(a[0]) + EncodeRecs(a[1..])) + EncodeRecs(b);
    }
  }

  ghost function RecOf(fs: Fs, id: Id): Rec
    requires TreeOk(fs) && id in fs.nodes
  { Rec(fs.nodes[id].kind, AbsPath(fs, id), fs.nodes[id].data) }

  /** Siblings of one directory, all of them at least `lo`. */
  ghost predicate Kids(fs: Fs, dir: Id, kids: seq<Id>, lo: Id) {
    && dir in fs.nodes && KidsOk(fs, dir, kids) && lo <= fs.next
    && forall i | 0 <= i < |kids| :: lo <= kids[i] < fs.next
  }

  lemma KidsOf(fs: Fs, dir: Id)
    requires TreeOk(fs) && dir in fs.nodes
    ensures dir < fs.next && Kids(fs, dir, fs.nodes[dir].children, dir + 1)
  {
    assert NodeOk(fs, dir);
    var kids := fs.nodes[dir].children;
    forall i | 0 <= i < |kids| ensures dir + 1 <= kids[i] < fs.next {
      assert NodeOk(fs, kids[i]);
    }
  }

  lemma KidsTail(fs: Fs, dir: Id, kids: seq<Id>, lo: Id)
    requires Kids(fs, dir, kids, lo) && kids != []
    ensures Kids(fs, dir, kids[1..], lo)
  {
    var rest := kids[1..];
    assert forall i | 0 <= i < |rest| :: rest[i] == kids[i + 1];
  }

  /** The records of these nodes and everything below them: parents before children. */
  ghost function Records(fs: Fs, dir: Id, kids: seq<Id>, lo: Id): seq<Rec>
    requires TreeOk(fs) && Kids(fs, dir, kids, lo)
    decreases fs.next - lo, |kids|
  {
    if kids == [] then []
    else
      KidsOf(fs, kids[0]);
      KidsTail(fs, dir, kids, lo);
      [RecOf(fs, kids[0])] + Records(fs, kids[0], fs.nodes[kids[0]].children, kids[0] + 1)
          + Records(fs, dir, kids[1..], lo)
  }

  ghost function AllRecords(fs: Fs): seq<Rec>
    requires TreeOk(fs)
  {
    KidsOf(fs, fs.root);
    Records(fs, fs.root, fs.nodes[fs.root].children, fs.root + 1)
  }

  ghost function Payload(fs: Fs, users: seq<User>): Str
    requires TreeOk(fs)
  { EncodeUsers(users) + EncodeRecs(AllRecords(fs)) }

  // ----- reading

  datatype Reader = Reader(buffer: Str, pos: nat, bad: bool)

  function Take(r: Reader, n: nat): (Reader, Str)
    requires r.pos <= |r.buffer|
  {
    if r.pos + n > |r.buffer| then (r.(bad := true), [])
    else (r.(pos := r.pos + n), r.buffer[r.pos..r.pos + n])
  }

  function TakeU8(r: Reader): (res: (Reader, nat))
    requires r.pos <= |r.buffer|
    ensures res.0.buffer == r.buffer && res.0.pos <= |res.0.buffer|
  { var (next, b) := Take(r, 1); (next, if |b| == 1 then b[0] else 0) }

  function TakeU16(r: Reader): (res: (Reader, nat))
    requires r.pos <= |r.buffer|
    ensures res.0.buffer == r.buffer && res.0.pos <= |res.0.buffer| && res.1 < 0x1_0000
  { var (next, b) := Take(r, 2); (next, if |b| == 2 then ReadU16(b) else 0) }

  function TakeU32(r: Reader): (res: (Reader, nat))
    requires r.pos <= |r.buffer|
    ensures res.0.buffer == r.buffer && res.0.pos <= |res.0.buffer| && res.1 < 0x1_0000_0000
  { var (next, b) := Take(r, 4); (next, if |b| == 4 then ReadU32(b) else 0) }

  /** What a C string holding these bytes spells. */
  function CString(s: Str): (r: Str)
    ensures NulFree(r) && |r| <= |s|
  { if s == [] || s[0] == 0 then [] else [s[0]] + CString(s[1..]) }

  function TakeString(r: Reader, size: nat): (res: (Reader, Str))
    requires r.pos <= |r.buffer|
    ensures res.0.buffer == r.buffer && res.0.pos <= |res.0.buffer|
    ensures NulFree(res.1)
  {
    var (r1, length) := TakeU8(r);
    if r1.bad || length >= size then (r1.(bad := true), [])
    else var (r2, s) := Take(r1, length); (r2, CString(s))
  }

  /** One saved account; nothing is imported from a reader that went bad. */
  function LoadUser(r: Reader, t: Table): (res: (Reader, Table))
    requires r.pos <= |r.buffer|
    ensures res.0.buffer == r.buffer && res.0.pos <= |res.0.buffer|
  {
    var (r1, name) := TakeString(r, USER_NAME_MAX);
    if r1.bad then (r1, t) else
    var (r2, home) := TakeString(r1, USER_HOME_MAX);
    if r2.bad then (r2, t) else
    var (r3, uid) := TakeU32(r2);
    var (r4, gid) := TakeU32(r3);
    var (r5, hash) := TakeU32(r4);
    if r5.bad then (r5, t) else (r5, Import(t, User(name, home, uid, gid, hash)).0)
  }

  function LoadUsers(r: Reader, t: Table, n: nat): (res: (Reader, Table))
    requires r.pos <= |r.buffer|
    ensures res.0.buffer == r.buffer && res.0.pos <= |res.0.buffer|
    decreases n
  {
    if n == 0 || r.bad then (r, t) else var (r1, t1) := LoadUser(r, t); LoadUsers(r1, t1, n - 1)
  }

  /** Puts one record back: creates its node, or finds it, and restores what the file held. */
  function Replay(fs: Fs, rec: Rec): Fs {
    var (made, id) := Create(fs, rec.path, rec.kind);
    var node := if id.Some? then id else Resolve(fs, rec.path);
    if rec.data != [] && node.Some? then Write(made, node.value, rec.data, false) else made
  }

  function ReplayAll(fs: Fs, rs: seq<Rec>): Fs
    decreases |rs|
  { if rs == [] then fs else ReplayAll(Replay(fs, rs[0]), rs[1..]) }

  function LoadNode(r: Reader, fs: Fs): (res: (Reader, Fs))
    requires r.pos <= |r.buffer|
    ensures res.0.buffer == r.buffer && res.0.pos <= |res.0.buffer|
  {
    var (r1, kind) := TakeU8(r);
    var (r2, pathLength) := TakeU16(r1);
    var (r3, dataLength) := TakeU32(r2);
    if r3.bad || pathLength == 0 || pathLength >= PATH_MAX then (r3.(bad := true), fs) else
    var (r4, path) := Take(r3, pathLength);
    if r4.bad then (r4, fs) else
    var k := if kind == KIND_DIR then Directory else File;
    if r4.pos + dataLength > |r4.buffer| then (r4.(bad := true), Create(fs, CString(path), k).0)
    else (r4.(pos := r4.pos + dataLength), Replay(fs, Rec(k, CString(path), r4.buffer[r4.pos..r4.pos + dataLength])))
  }

  function LoadNodes(r: Reader, fs: Fs, n: nat): (res: (Reader, Fs))
    requires r.pos <= |r.buffer|
    ensures res.0.buffer == r.buffer && res.0.pos <= |res.0.buffer|
    decreases n
  {
    if n == 0 || r.bad then (r, fs) else var (r1, fs1) := LoadNode(r, fs); LoadNodes(r1, fs1, n - 1)
  }

  // ----- the reader undoes the writer

  /** The reader stands before `next`, which is followed by `rest`. */
  ghost predicate Before(r: Reader, next: Str, rest: Str) {
    r.pos <= |r.buffer| && !r.bad && r.buffer[r.pos..] == next + rest
  }

  lemma TakeBack(r: Reader, a: Str, rest: Str)
    requires r.pos <= |r.buffer| && !r.bad && r.buffer[r.pos..] == a + rest
    ensures Take(r, |a|) == (r.(pos := r.pos + |a|), a)
    ensures r.pos + |a| <= |r.buffer| && r.buffer[r.pos + |a|..] == rest
  {
    var tail := r.buffer[r.pos..];
    assert tail[..|a|] == a && tail[|a|..] == rest;
    assert r.buffer[r.pos..r.pos + |a|] == tail[..|a|];
    assert r.buffer[r.pos + |a|..] == tail[|a|..];
  }

  lemma TakeBackU32(r: Reader, v: nat, rest: Str)
    requires v < 0x1_0000_0000 && Before(r, U32(v), rest)
    ensures TakeU32(r) == (r.(pos := r.pos + 4), v)
    ensures Before(r.(pos := r.pos + 4), [], rest)
  {
    TakeBack(r, U32(v), rest);
    IntegersRoundTrip(v);
    assert [] + rest == rest;
  }

  lemma {:induction false} CStringWhole(s: Str)
    requires NulFree(s)
    ensures CString(s) == s
  {
    if s != [] {
      CStringWhole(s[1..]);
    }
  }

  lemma TakeBackString(r: Reader, s: Str, size: nat, rest: Str)
    requires |s| < size <= 256 && NulFree(s) && Before(r, PutString(s), rest)
    ensures TakeString(r, size) == (r.(pos := r.pos + 1 + |s|), s)
    ensures Before(r.(pos := r.pos + 1 + |s|), [], rest)
  {
    var length: Str := [|s|];
    assert PutString(s) == length + s;
    assert PutString(s) + rest == length + (s + rest);
    TakeBack(r, length, s + rest);
    var r1 := r.(pos := r.pos + 1);
    TakeBack(r1, s, rest);
    CStringWhole(s);
    assert [] + rest == rest;
  }

  lemma LoadUserBack(r: Reader, t: Table, u: User, rest: Str)
    requires UserOk(u) && Before(r, EncodeUser(u), rest)
    ensures LoadUser(r, t) == (r.(pos := r.pos + |EncodeUser(u)|), Import(t, u).0)
    ensures Before(r.(pos := r.pos + |EncodeUser(u)|), [], rest)
  {
    hide Import, U32, TakeString, TakeU32;
    var a, b, c, d, e := PutString(u.name), PutString(u.home), U32(u.uid), U32(u.gid), U32(u.hash);
    assert EncodeUser(u) + rest == a + (b + (c + (d + (e + rest))));
    assert NulFree(u.name);
    TakeBackString(r, u.name, USER_NAME_MAX, b + (c + (d + (e + rest))));
    var r1 := r.(pos := r.pos + |a|);
    Resume(r1, b, c + (d + (e + rest)));
    TakeBackString(r1, u.home, USER_HOME_MAX, c + (d + (e + rest)));
    var r2 := r1.(pos := r1.pos + |b|);
    Resume(r2, c, d + (e + rest));
    TakeBackU32(r2, u.uid, d + (e + rest));
    var r3 := r2.(pos := r2.pos + 4);
    Resume(r3, d, e + rest);
    TakeBackU32(r3, u.gid, e + rest);
    var r4 := r3.(pos := r3.pos + 4);
    Resume(r4, e, rest);
    TakeBackU32(r4, u.hash, rest);
  }

  lemma Resume(r: Reader, a: Str, rest: Str)
    requires Before(r, [], a + rest)
    ensures Before(r, a, rest)
  {
    assert [] + (a + rest) == a + rest;
  }

  ghost predicate RecOk(rec: Rec) {
    0 < |rec.path| < PATH_MAX && NulFree(rec.path) && |rec.data| < 0x1_0000_0000
  }

  lemma LoadNodeBack(r: Reader, fs: Fs, rec: Rec, rest: Str)
    requires RecOk(rec) && r.pos <= |r.buffer| && !r.bad && r.buffer[r.pos..] == EncodeRec(rec) + rest
    ensures LoadNode(r, fs) == (r.(pos := r.pos + |EncodeRec(rec)|), Replay(fs, rec))
    ensures Before(r.(pos := r.pos + |EncodeRec(rec)|), [], rest)
  {
    hide Replay, U16, U32, ReadU16, ReadU32, Create, TakeU8, TakeU16, TakeU32, Take, Before, EncodeRec, CString,
         NulFree;
    var k: Str := [KindCode(rec.kind)];
    var a, b := U16(|rec.path|), U32(|rec.data|);
    RecBytes(rec, rest);
    var behind := rec.data + rest;
    LoadHeader(r, k, |rec.path|, |rec.data|, rec.path + behind);
    var r3 := r.(pos := r.pos + 7);
    TakeBack(r3, rec.path, behind);
    CStringWhole(rec.path);
    var r4 := r3.(pos := r3.pos + |rec.path|);
    TakeBack(r4, rec.data, rest);
    TakeSlice(r4, rec.data);
    BeforeAgain(r4.(pos := r4.pos + |rec.data|), [], rest);
  }

  lemma RecBytes(rec: Rec, rest: Str)
    ensures EncodeRec(rec) + rest ==
            ([KindCode(rec.kind)] + U16(|rec.path|) + U32(|rec.data|)) + (rec.path + (rec.data + rest))
    ensures |EncodeRec(rec)| == 7 + |rec.path| + |rec.data|
  {
  }

  lemma BeforeAgain(r: Reader, a: Str, rest: Str)
    requires r.pos <= |r.buffer| && !r.bad
    requires r.buffer[r.pos..] == a + rest || (a == [] && r.buffer[r.pos..] == rest)
    ensures Before(r, a, rest)
  {
    assert [] + rest == rest;
  }

  lemma TakeSlice(r: Reader, a: Str)
    requires r.pos + |a| <= |r.buffer| && Take(r, |a|) == (r.(pos := r.pos + |a|), a)
    ensures r.buffer[r.pos..r.pos + |a|] == a
  {
  }

  /** Kind, path length and data length of a record. */
  lemma LoadHeader(r: Reader, k: Str, pathLength: nat, dataLength: nat, rest: Str)
    requires |k| == 1 && pathLength < 0x1_0000 && dataLength < 0x1_0000_0000
    requires r.pos <= |r.buffer| && !r.bad && r.buffer[r.pos..] == (k + U16(pathLength) + U32(dataLength)) + rest
    ensures var (r1, kind) := TakeU8(r);
            var (r2, p) := TakeU16(r1);
            var (r3, d) := TakeU32(r2);
            kind == k[0] && p == pathLength && d == dataLength && r3 == r.(pos := r.pos + 7)
    ensures Before(r.(pos := r.pos + 7), [], rest)
    ensures r.pos + 7 <= |r.buffer| && r.buffer[r.pos + 7..] == rest
  {
    hide U16, U32, ReadU16, ReadU32;
    var a, b := U16(pathLength), U32(dataLength);
    assert (k + a + b) + rest == k + (a + (b + rest));
    TakeBack(r, k, a + (b + rest));
    var r1 := r.(pos := r.pos + 1);
    TakeBack(r1, a, b + rest);
    IntegersRoundTrip(pathLength);
    var r2 := r1.(pos := r1.pos + 2);
    TakeBackU32(r2, dataLength, rest);
    TakeBack(r2, b, rest);
  }

  lemma {:induction false} LoadUsersBack(r: Reader, t: Table, us: seq<User>, rest: Str)
    requires (forall i | 0 <= i < |us| :: UserOk(us[i])) && Before(r, EncodeUsers(us), rest)
    ensures LoadUsers(r, t, |us|).0 == r.(pos := r.pos + |EncodeUsers(us)|)
    ensures Before(r.(pos := r.pos + |EncodeUsers(us)|), [], rest)
    ensures LoadUsers(r, t, |us|).1 == ImportAll(t, us)
    decreases |us|
  {
    hide LoadUser, EncodeUser, Import, UserOk;
    if us != [] {
      var tail := us[1..];
      assert EncodeUsers(us) + rest == EncodeUser(us[0]) + (EncodeUsers(tail) + rest);
      LoadUserBack(r, t, us[0], EncodeUsers(tail) + rest);
      var r1 := r.(pos := r.pos + |EncodeUser(us[0])|);
      Resume(r1, EncodeUsers(tail), rest);
      LoadUsersBack(r1, Import(t, us[0]).0, tail, rest);
    }
  }

  function ImportAll(t: Table, us: seq<User>): Table
    decreases |us|
  { if us == [] then t else ImportAll(Import(t, us[0]).0, us[1..]) }

  lemma {:induction false} LoadNodesBack(r: Reader, fs: Fs, rs: seq<Rec>, rest: Str)
    requires (forall i | 0 <= i < |rs| :: RecOk(rs[i])) && Before(r, EncodeRecs(rs), rest)
    ensures LoadNodes(r, fs, |rs|) == (r.(pos := r.pos + |EncodeRecs(rs)|), ReplayAll(fs, rs))
    decreases |rs|
  {
    hide LoadNode, EncodeRec, Replay, RecOk;
    if rs != [] {
      var tail := rs[1..];
      assert EncodeRecs(rs) + rest == EncodeRec(rs[0]) + (EncodeRecs(tail) + rest);
      LoadNodeBack(r, fs, rs[0], EncodeRecs(tail) + rest);
      var r1 := r.(pos := r.pos + |EncodeRec(rs[0])|);
      Resume(r1, EncodeRecs(tail), rest);
      LoadNodesBack(r1, Replay(fs, rs[0]), tail, rest);
    }
  }
}

/** Rebuilding a tree from its records. */
module SnapshotTree {
  import opened Bytes
  import opened Paths
  import opened FsSpec
  import opened SnapshotFormat
  import opened Words

  /** What a directory tree is, whatever identities its nodes have. */
  datatype Tree = Tree(name: Str, kind: Kind, data: Str, kids: seq<Tree>)

  ghost function Trees(fs: Fs, dir: Id, kids: seq<Id>, lo: Id): seq<Tree>
    requires TreeOk(fs) && Kids(fs, dir, kids, lo)
    decreases fs.next - lo, |kids|
  {
    if kids == [] then []
    else
      KidsOf(fs, kids[0]);
      KidsTail(fs, dir, kids, lo);
      var n := fs.nodes[kids[0]];
      [Tree(n.name, n.kind, n.data, Trees(fs, kids[0], n.children, kids[0] + 1))] + Trees(fs, dir, kids[1..], lo)
  }

  /** The trees below the root, in listing order. */
  ghost function Forest(fs: Fs): seq<Tree>
    requires TreeOk(fs)
  {
    KidsOf(fs, fs.root);
    Trees(fs, fs.root, fs.nodes[fs.root].children, fs.root + 1)
  }

  /** Every node's stored path says where the node belongs. */
  ghost predicate Storable(fs: Fs)
    requires TreeOk(fs)
  {
    forall id {:trigger StorableNode(fs, id)} | id in fs.nodes :: StorableNode(fs, id)
  }

  /** The path lies within the limits of `fs_abspath` and no directory on it has a dot name; the node itself may. */
  ghost predicate StorableNode(fs: Fs, id: Id)
    requires TreeOk(fs) && id in fs.nodes
  {
    PathFits(NamesTo(fs, id)) && NoDots(Above(NamesTo(fs, id)))
  }

  // ----- frames

  /** Nodes from `lo` on are in `other` what they are in `fs`. */
  ghost predicate SameFrom(fs: Fs, other: Fs, lo: Id) {
    forall m | m in fs.nodes && m >= lo :: m in other.nodes && other.nodes[m] == fs.nodes[m]
  }

  lemma {:induction false} TreesFrame(fs: Fs, other: Fs, dir: Id, kids: seq<Id>, lo: Id)
    requires TreeOk(fs) && TreeOk(other) && Kids(fs, dir, kids, lo) && Kids(other, dir, kids, lo)
             && SameFrom(fs, other, lo) && fs.next <= other.next
    ensures Trees(other, dir, kids, lo) == Trees(fs, dir, kids, lo)
    decreases fs.next - lo, |kids|
  {
    if kids != [] {
      var k := kids[0];
      KidsOf(fs, k);
      KidsOf(other, k);
      KidsTail(fs, dir, kids, lo);
      KidsTail(other, dir, kids, lo);
      TreesFrame(fs, other, k, fs.nodes[k].children, k + 1);
      TreesFrame(fs, other, dir, kids[1..], lo);
    }
  }

  // ----- one record

  /** A node's stored path is its names joined, one longer than its parent's. */
  lemma KidPath(fs: Fs, k: Id)
    requires TreeOk(fs) && Storable(fs) && k in fs.nodes && k != fs.root
    ensures fs.nodes[k].parent.Some? && fs.nodes[k].parent.value in fs.nodes
    ensures var above := NamesTo(fs, fs.nodes[k].parent.value);
            && NamesTo(fs, k) == above + [fs.nodes[k].name]
            && AbsPath(fs, k) == Join(above + [fs.nodes[k].name])
            && NamesOk(above + [fs.nodes[k].name]) && NoDots(above) && NameOk(fs.nodes[k].name)
  {
    assert NodeOk(fs, k);
    ParentFacts(fs, k);
    assert StorableNode(fs, k);
    assert Above(NamesTo(fs, k)) == NamesTo(fs, ParentOr(fs, k));
    PrintedWhole(NamesTo(fs, k));
  }

  /** Whatever the tree, a printed path can be stored. */
  lemma PrintedStorable(names: seq<Str>)
    requires names != [] && NamesOk(names)
    ensures 0 < |Printed(names, PATH_MAX)| < PATH_MAX && NulFree(Printed(names, PATH_MAX))
            && Printed(names, PATH_MAX)[0] == SLASH
  {
    PrintedWhole(names);
    PrintedSlash(names);
    var parts := LastParts(names);
    var shown := parts[..Fitting(parts, 0, PATH_MAX)];
    assert forall i | 0 <= i < |shown| :: shown[i] == names[i + |names| - |parts|];
    JoinNulFree(shown);
  }

  lemma RecOkOf(fs: Fs, k: Id)
    requires TreeOk(fs) && k in fs.nodes && k != fs.root && |fs.nodes[k].data| < WORD
    ensures RecOk(RecOf(fs, k))
  {
    PrintedStorable(NamesTo(fs, k));
  }

  lemma NotEmpty(name: Str)
    requires NameOk(name)
    ensures name != []
  {
  }

  /** The path of a would-be child leads to its directory and its name. */
  lemma ChildTarget(fs: Fs, d: Id, name: Str)
    requires TreeOk(fs) && d in fs.nodes && fs.nodes[d].kind == Directory && NameOk(name)
    requires NoDots(NamesTo(fs, d)) && |Join(NamesTo(fs, d) + [name])| <= PATH_MAX - 2
    requires FindChild(fs, d, name) == None
    ensures Target(fs, Join(NamesTo(fs, d) + [name])) == Some((d, name))
    ensures NulFree(Join(NamesTo(fs, d) + [name]))
  {
    hide TreeOk, FindChild, NamesTo, Fold, Components, Join, NoDots, NulFree, NameOk;
    var above := NamesTo(fs, d);
    var cs := above + [name];
    var path := Join(cs);
    NotEmpty(name);
    assert NamesOk(cs);
    JoinStart(cs);
    JoinNulFree(cs);
    ComponentsJoin(cs);
    assert Buffered(path) == path;
    assert cs[..|cs| - 1] == above;
    FoldNames(fs, d);
  }

  /** `fs1` with a childless copy of `n` appended to directory `d1`. */
  ghost function Placed(fs1: Fs, d1: Id, n: Node): Fs
    requires d1 in fs1.nodes
  {
    fs1.(nodes := fs1.nodes[d1 := fs1.nodes[d1].(children := fs1.nodes[d1].children + [fs1.next])]
                           [fs1.next := Node(n.name, n.kind, n.data, Some(d1), [])],
         next := fs1.next + 1, count := fs1.count + 1)
  }

  /** What replaying a node's record does under the copy of its parent. */
  lemma ReplayOne(fs: Fs, k: Id, fs1: Fs, d1: Id)
    requires TreeOk(fs) && Storable(fs) && k in fs.nodes && k != fs.root && fs.nodes[k].parent.Some?
             && fs.nodes[k].parent.value in fs.nodes
    requires TreeOk(fs1) && d1 in fs1.nodes && fs1.nodes[d1].kind == Directory
    requires NamesTo(fs1, d1) == NamesTo(fs, fs.nodes[k].parent.value)
    requires FindChild(fs1, d1, fs.nodes[k].name) == None
    ensures var r := Replay(fs1, RecOf(fs, k));
            && r == Placed(fs1, d1, fs.nodes[k])
            && TreeOk(r) && fs1.next !in fs1.nodes && d1 < fs1.next
            && NamesTo(r, fs1.next) == NamesTo(fs, k)
            && (forall m | m in fs1.nodes :: NamesTo(r, m) == NamesTo(fs1, m))
  {
    hide Target, AbsPath, FindChild, NodeOk;
    KidPath(fs, k);
    DataNeedsFile(fs, k);
    IdBelowNext(fs1, d1);
    var n := fs.nodes[k];
    var rec := RecOf(fs, k);
    assert PathFits(NamesTo(fs, k)) by { assert StorableNode(fs, k); }
    ChildTarget(fs1, d1, n.name);
    CreateKeeps(fs1, rec.path, rec.kind);
    var made := Create(fs1, rec.path, rec.kind).0;
    WriteKeeps(made, fs1.next, rec.data, false);
    assert Create(fs1, rec.path, rec.kind).1 == Some(fs1.next);
    WritePlaced(fs1, d1, n);
  }

  lemma DataNeedsFile(fs: Fs, k: Id)
    requires TreeOk(fs) && k in fs.nodes
    ensures fs.nodes[k].data != [] ==> fs.nodes[k].kind == File
    ensures fs.nodes[k].kind == File ==> fs.nodes[k].children == []
  {
    assert NodeOk(fs, k);
  }

  lemma WritePlaced(fs1: Fs, d1: Id, n: Node)
    requires d1 in fs1.nodes && (n.data != [] ==> n.kind == File)
    ensures var made := NodeNew(fs1, n.name, n.kind, d1);
            Placed(fs1, d1, n) == if n.data != [] then Write(made, fs1.next, n.data, false) else made
  {
    assert [] + n.data == n.data;
    if n.data != [] {
      assert Placed(fs1, d1, n).nodes == Write(NodeNew(fs1, n.name, n.kind, d1), fs1.next, n.data, false).nodes;
    }
  }

  // ----- many records

  lemma ReplayKeeps(fs: Fs, path: Str, kind: Kind, data: Str)
    requires NulFree(path) && Valid(fs)
    ensures Valid(Create(fs, path, kind).0) && Create(fs, path, kind).0.root == fs.root
    ensures Valid(Replay(fs, Rec(kind, path, data))) && Replay(fs, Rec(kind, path, data)).root == fs.root
    ensures Replay(fs, Rec(kind, path, data)).cwd == fs.cwd
  {
    hide Target, Resolve, TreeOk, CwdOk;
    CreateKeeps(fs, path, kind);
    var (made, id) := Create(fs, path, kind);
    var node := if id.Some? then id else Resolve(fs, path);
    if node.Some? {
      WriteKeeps(made, node.value, data, false);
    }
  }

  lemma {:induction false} ReplayConcat(fs: Fs, a: seq<Rec>, b: seq<Rec>)
    ensures ReplayAll(fs, a + b) == ReplayAll(ReplayAll(fs, a), b)
    decreases |a|
  {
    hide Replay;
    if a == [] {
      assert a + b == b;
    } else {
      assert (a + b)[1..] == a[1..] + b;
      ReplayConcat(Replay(fs, a[0]), a[1..], b);
    }
  }

  /** `fs2` is `fs1` with new children `added`, and what hangs below them, under `d1`. */
  ghost predicate Extends(fs1: Fs, fs2: Fs, d1: Id, added: seq<Id>)
    requires TreeOk(fs1)
  {
    && TreeOk(fs2) && fs2.root == fs1.root && fs2.cwd == fs1.cwd && fs1.next <= fs2.next
    && d1 in fs1.nodes && d1 in fs2.nodes && d1 < fs1.next
    && fs2.nodes[d1] == fs1.nodes[d1].(children := fs1.nodes[d1].children + added)
    && (forall m | m in fs1.nodes && m != d1 :: m in fs2.nodes && fs2.nodes[m] == fs1.nodes[m])
    && (forall m | m in fs1.nodes :: m in fs2.nodes && NamesTo(fs2, m) == NamesTo(fs1, m))
    && Kids(fs2, d1, added, fs1.next)
  }

  lemma PlacedExtends(fs1: Fs, d1: Id, n: Node)
    requires TreeOk(fs1) && d1 in fs1.nodes && TreeOk(Placed(fs1, d1, n)) && fs1.next !in fs1.nodes && d1 < fs1.next
    requires forall m | m in fs1.nodes :: NamesTo(Placed(fs1, d1, n), m) == NamesTo(fs1, m)
    ensures Extends(fs1, Placed(fs1, d1, n), d1, [fs1.next])
  {
    hide TreeOk, NamesTo, Kids, Placed;
    PlacedKid(fs1, d1, n);
    PlacedNodes(fs1, d1, n);
  }

  lemma PlacedNodes(fs1: Fs, d1: Id, n: Node)
    requires d1 in fs1.nodes && fs1.next !in fs1.nodes
    ensures var r := Placed(fs1, d1, n);
            && r.root == fs1.root && r.cwd == fs1.cwd && r.next == fs1.next + 1 && d1 in r.nodes
            && r.nodes[d1] == fs1.nodes[d1].(children := fs1.nodes[d1].children + [fs1.next])
            && forall m | m in fs1.nodes && m != d1 :: m in r.nodes && r.nodes[m] == fs1.nodes[m]
  {
  }

  lemma PlacedKid(fs1: Fs, d1: Id, n: Node)
    requires d1 in fs1.nodes && fs1.next !in fs1.nodes && d1 < fs1.next
    ensures Kids(Placed(fs1, d1, n), d1, [fs1.next], fs1.next)
  {
  }

  lemma NothingExtends(fs1: Fs, d1: Id)
    requires TreeOk(fs1) && d1 in fs1.nodes
    ensures Extends(fs1, fs1, d1, [])
  {
    IdBelowNext(fs1, d1);
    assert fs1.nodes[d1].children + [] == fs1.nodes[d1].children;
  }

  lemma KidsSuffix(fs: Fs, dir: Id, a: seq<Id>, b: seq<Id>, lo: Id)
    requires dir in fs.nodes && KidsOk(fs, dir, a + b) && lo <= fs.next
    requires forall i | 0 <= i < |b| :: lo <= b[i] < fs.next
    ensures Kids(fs, dir, b, lo)
  {
    assert forall i | 0 <= i < |b| :: b[i] == (a + b)[|a| + i];
  }

  /** A new child, what goes below it, and then its younger siblings. */
  lemma ExtendsJoin(fs1: Fs, fsB: Fs, fsC: Fs, fs2: Fs, d1: Id, below: seq<Id>, after: seq<Id>)
    requires TreeOk(fs1) && fs1.next !in fs1.nodes && Extends(fs1, fsB, d1, [fs1.next]) && fsB.next == fs1.next + 1
    requires fs1.next in fsB.nodes && fsB.nodes[fs1.next].children == []
    requires Extends(fsB, fsC, fs1.next, below) && Extends(fsC, fs2, d1, after)
    ensures Extends(fs1, fs2, d1, [fs1.next] + after)
    ensures fs2.nodes[fs1.next] == fsB.nodes[fs1.next].(children := below)
    ensures SameFrom(fsC, fs2, fs1.next + 1)
  {
    hide TreeOk, NamesTo;
    var c := fs1.next;
    var elder := fs1.nodes[d1].children;
    assert elder + [c] + after == elder + ([c] + after);
    assert [] + below == below;
    ExtendsKids(fs2, d1, elder, [c] + after, c);
  }

  lemma ExtendsKids(fs2: Fs, d1: Id, a: seq<Id>, b: seq<Id>, lo: Id)
    requires TreeOk(fs2) && d1 in fs2.nodes && fs2.nodes[d1].children == a + b && lo <= fs2.next
    requires forall i | 0 <= i < |b| :: lo <= b[i]
    ensures Kids(fs2, d1, b, lo)
  {
    assert NodeOk(fs2, d1);
    KidsOf(fs2, d1);
    forall i | 0 <= i < |b| ensures b[i] < fs2.next {
      assert b[i] == (a + b)[|a| + i];
    }
    KidsSuffix(fs2, d1, a, b, lo);
  }

  lemma {:induction false} TreesLo(fs: Fs, dir: Id, kids: seq<Id>, lo: Id, floor: Id)
    requires TreeOk(fs) && Kids(fs, dir, kids, lo) && Kids(fs, dir, kids, floor)
    ensures Trees(fs, dir, kids, lo) == Trees(fs, dir, kids, floor)
    decreases |kids|
  {
    if kids != [] {
      KidsOf(fs, kids[0]);
      KidsTail(fs, dir, kids, lo);
      KidsTail(fs, dir, kids, floor);
      TreesLo(fs, dir, kids[1..], lo, floor);
    }
  }

  /** None of these names is taken in the copy of the directory. */
  ghost predicate NamesFree(fs: Fs, kids: seq<Id>, fs1: Fs, d1: Id) {
    forall i | 0 <= i < |kids| :: kids[i] in fs.nodes && FindChild(fs1, d1, fs.nodes[kids[i]].name) == None
  }

  lemma NamesFreeAfter(fs: Fs, d: Id, kids: seq<Id>, fs1: Fs, fsB: Fs, fsC: Fs, d1: Id, below: seq<Id>)
    requires KidsOk(fs, d, kids) && kids != [] && NamesFree(fs, kids, fs1, d1)
    requires TreeOk(fs1) && fs1.next !in fs1.nodes && d1 in fs1.nodes && d1 < fs1.next
             && fs1.nodes[d1].kind == Directory
    requires fsB == Placed(fs1, d1, fs.nodes[kids[0]]) && TreeOk(fsB) && Extends(fsB, fsC, fs1.next, below)
    ensures NamesFree(fs, kids[1..], fsC, d1)
  {
    hide TreeOk, NamesTo;
    var c := fs1.next;
    var elder := fs1.nodes[d1].children;
    var rest := kids[1..];
    KidsInside(fs1, d1);
    forall i | 0 <= i < |rest| ensures rest[i] in fs.nodes && FindChild(fsC, d1, fs.nodes[rest[i]].name) == None {
      assert rest[i] == kids[i + 1];
      var name := fs.nodes[rest[i]].name;
      assert name != fs.nodes[kids[0]].name;
      assert FindAmong(fs1, elder, name) == None;
      FindAmongSame(fs1, fsC, elder, name);
      FindAmongConcat(fsC, elder, [c], name);
      assert [c][1..] == [];
      assert FindAmong(fsC, [c], name) == None;
    }
  }

  /**
   Replaying the records of some siblings under a copy of their directory grows exactly their
   trees there, in the same order, and disturbs nothing that was there before.
   */
  lemma {:induction false} Rebuild(fs: Fs, d: Id, kids: seq<Id>, lo: Id, fs1: Fs, d1: Id) returns (added: seq<Id>)
    requires TreeOk(fs) && Storable(fs) && Kids(fs, d, kids, lo)
    requires TreeOk(fs1) && d1 in fs1.nodes && fs1.nodes[d1].kind == Directory
    requires NamesTo(fs1, d1) == NamesTo(fs, d) && NamesFree(fs, kids, fs1, d1)
    ensures Extends(fs1, ReplayAll(fs1, Records(fs, d, kids, lo)), d1, added)
    ensures Trees(ReplayAll(fs1, Records(fs, d, kids, lo)), d1, added, fs1.next) == Trees(fs, d, kids, lo)
    decreases fs.next - lo, |kids|
  {
    hide TreeOk, NamesTo, Replay, RecOf, Storable, Kids, KidsOk, NamesFree, FindChild;
    if kids == [] {
      NothingExtends(fs1, d1);
      added := [];
    } else {
      var k, c := kids[0], fs1.next;
      KidFacts(fs, d, kids, lo);
      var n := fs.nodes[k];
      KidsOf(fs, k);
      KidsTail(fs, d, kids, lo);
      assert FindChild(fs1, d1, n.name) == None by { NamesFreeFirst(fs, kids, fs1, d1); }
      ReplayOne(fs, k, fs1, d1);
      var fsB := Placed(fs1, d1, n);
      PlacedExtends(fs1, d1, n);
      var recs := Records(fs, k, n.children, k + 1);
      var below := RebuildBelow(fs, k, fsB, c);
      var fsC := ReplayAll(fsB, recs);
      NamesFreeAfter(fs, d, kids, fs1, fsB, fsC, d1, below);
      var after := Rebuild(fs, d, kids[1..], lo, fsC, d1);
      var restRecs := Records(fs, d, kids[1..], lo);
      var fs2 := ReplayAll(fsC, restRecs);
      ReplayCons(fs1, RecOf(fs, k), recs, restRecs);
      ExtendsJoin(fs1, fsB, fsC, fs2, d1, below, after);
      added := [c] + after;
      AssembleTrees(fs, d, kids, lo, fs1, fsC, fs2, d1, below, after);
    }
  }

  lemma NamesFreeFirst(fs: Fs, kids: seq<Id>, fs1: Fs, d1: Id)
    requires NamesFree(fs, kids, fs1, d1) && kids != []
    ensures kids[0] in fs.nodes && FindChild(fs1, d1, fs.nodes[kids[0]].name) == None
  {
  }

  lemma KidFacts(fs: Fs, d: Id, kids: seq<Id>, lo: Id)
    requires TreeOk(fs) && Kids(fs, d, kids, lo) && kids != []
    ensures d in fs.nodes && KidsOk(fs, d, kids) && kids[0] in fs.nodes && kids[0] != fs.root && kids[0] >= lo
    ensures fs.nodes[kids[0]].parent == Some(d)
  {
    assert NodeOk(fs, kids[0]);
  }

  lemma ReplayCons(fs: Fs, r: Rec, a: seq<Rec>, b: seq<Rec>)
    ensures ReplayAll(fs, [r] + a + b) == ReplayAll(ReplayAll(Replay(fs, r), a), b)
  {
    assert ([r] + a + b)[1..] == a + b;
    ReplayConcat(Replay(fs, r), a, b);
  }

  /** The step of `Rebuild` into a directory; a file has nothing below it. */
  lemma {:induction false} RebuildBelow(fs: Fs, k: Id, fsB: Fs, c: Id) returns (below: seq<Id>)
    requires TreeOk(fs) && Storable(fs) && k in fs.nodes && k < fs.next && Kids(fs, k, fs.nodes[k].children, k + 1)
    requires TreeOk(fsB) && c in fsB.nodes && c + 1 == fsB.next && NamesTo(fsB, c) == NamesTo(fs, k)
    requires fsB.nodes[c].kind == fs.nodes[k].kind && fsB.nodes[c].children == []
    ensures Extends(fsB, ReplayAll(fsB, Records(fs, k, fs.nodes[k].children, k + 1)), c, below)
    ensures Trees(ReplayAll(fsB, Records(fs, k, fs.nodes[k].children, k + 1)), c, below, c + 1) ==
            Trees(fs, k, fs.nodes[k].children, k + 1)
    decreases fs.next - k - 1, |fs.nodes[k].children| + 1
  {
    hide TreeOk, NamesTo, Replay, RecOf, Storable;
    DataNeedsFile(fs, k);
    if fs.nodes[k].kind == Directory {
      assert NamesFree(fs, fs.nodes[k].children, fsB, c);
      below := Rebuild(fs, k, fs.nodes[k].children, k + 1, fsB, c);
    } else {
      NothingExtends(fsB, c);
      below := [];
    }
  }

  lemma AssembleTrees(fs: Fs, d: Id, kids: seq<Id>, lo: Id, fs1: Fs, fsC: Fs, fs2: Fs, d1: Id, below: seq<Id>,
          after: seq<Id>)
    requires TreeOk(fs) && Kids(fs, d, kids, lo) && kids != []
    requires TreeOk(fs1) && TreeOk(fsC) && TreeOk(fs2) && fsC.next <= fs2.next && fs1.next < fsC.next
    requires Kids(fs2, d1, [fs1.next] + after, fs1.next) && Kids(fs2, d1, after, fsC.next)
    requires fs1.next in fsC.nodes && Kids(fsC, fs1.next, below, fs1.next + 1) && SameFrom(fsC, fs2, fs1.next + 1)
    requires fs1.next in fs2.nodes && kids[0] in fs.nodes
    requires var n := fs.nodes[kids[0]]; fs2.nodes[fs1.next] == Node(n.name, n.kind, n.data, Some(d1), below)
    requires Kids(fs, kids[0], fs.nodes[kids[0]].children, kids[0] + 1) && Kids(fs, d, kids[1..], lo)
    requires Trees(fsC, fs1.next, below, fs1.next + 1) == Trees(fs, kids[0], fs.nodes[kids[0]].children, kids[0] + 1)
    requires Trees(fs2, d1, after, fsC.next) == Trees(fs, d, kids[1..], lo)
    ensures Trees(fs2, d1, [fs1.next] + after, fs1.next) == Trees(fs, d, kids, lo)
  {
    var c := fs1.next;
    var all := [c] + after;
    KidsTail(fs2, d1, all, c);
    assert all[1..] == after;
    TreesLo(fs2, d1, after, c, fsC.next);
    KidsOf(fs2, c);
    hide TreeOk, Kids;
    TreesFrame(fsC, fs2, c, below, c + 1);
  }

  /** As long as they fit the snapshot at all, the records of any tree are within the format's limits. */
  lemma {:induction false} RecordsOk(fs: Fs, d: Id, kids: seq<Id>, lo: Id)
    requires TreeOk(fs) && Kids(fs, d, kids, lo) && |EncodeRecs(Records(fs, d, kids, lo))| < WORD
    ensures forall i | 0 <= i < |Records(fs, d, kids, lo)| :: RecOk(Records(fs, d, kids, lo)[i])
    decreases fs.next - lo, |kids|
  {
    hide RecOk, RecOf, TreeOk, EncodeRec;
    if kids != [] {
      KidFacts(fs, d, kids, lo);
      KidsOf(fs, kids[0]);
      KidsTail(fs, d, kids, lo);
      var below := Records(fs, kids[0], fs.nodes[kids[0]].children, kids[0] + 1);
      var rest := Records(fs, d, kids[1..], lo);
      RecordSizes(RecOf(fs, kids[0]), below, rest);
      DataOf(fs, kids[0]);
      RecOkOf(fs, kids[0]);
      RecordsOk(fs, kids[0], fs.nodes[kids[0]].children, kids[0] + 1);
      RecordsOk(fs, d, kids[1..], lo);
    }
  }

  lemma DataOf(fs: Fs, k: Id)
    requires TreeOk(fs) && k in fs.nodes
    ensures RecOf(fs, k).data == fs.nodes[k].data
  {
  }

  lemma RecordSizes(one: Rec, below: seq<Rec>, rest: seq<Rec>)
    ensures |EncodeRecs([one] + below + rest)| >= |one.data| + |EncodeRecs(below)| + |EncodeRecs(rest)|
  {
    EncodeRecsConcat([one] + below, rest);
    EncodeRecsConcat([one], below);
    var single := [one];
    assert single[1..] == [];
    assert EncodeRecs(single) == EncodeRec(one) + [];
  }

  lemma NamesFreeBare(fs: Fs, kids: seq<Id>, d: Id, bare: Fs)
    requires Kids(fs, d, kids, d + 1) && bare.root in bare.nodes && bare.nodes[bare.root].children == []
    ensures NamesFree(fs, kids, bare, bare.root)
  {
  }

  /** A bare tree that has replayed all the records of a storable tree holds the same forest. */
  lemma RestoreForest(fs: Fs, bare: Fs)
    requires TreeOk(fs) && Storable(fs) && Valid(bare) && bare.nodes[bare.root].children == []
    ensures var r := ReplayAll(bare, AllRecords(fs));
            Valid(r) && Forest(r) == Forest(fs) && r.root == bare.root && r.cwd == bare.cwd
  {
    hide Records, Trees, NamesFree, Replay, NamesTo, NodeOk, Kids;
    KidsOf(fs, fs.root);
    var kids := fs.nodes[fs.root].children;
    NamesFreeBare(fs, kids, fs.root, bare);
    assert NamesTo(fs, fs.root) == [] == NamesTo(bare, bare.root);
    var added := Rebuild(fs, fs.root, kids, fs.root + 1, bare, bare.root);
    var r := ReplayAll(bare, AllRecords(fs));
    assert [] + added == added;
    KidsOf(r, r.root);
    TreesLo(r, r.root, added, bare.next, r.root + 1);
  }
}

/**
 Exactly which trees come back. The depths of all nodes add up to the same in a tree and in its
 forest; replaying a record adds a node at most as deep as its path has names that go down; so a
 restored forest is the saved one only if every record said the whole way to its node.
 */
module SnapshotExact {
  import opened Bytes
  import opened Paths
  import opened FsSpec
  import opened SnapshotFormat
  import opened SnapshotTree
  import opened Words
  import FsRuns

  // ----- depths

  /** The depths of the nodes in `s` with identities below `n`. */
  ghost function DepthSum(fs: Fs, s: set<Id>, n: nat): nat
    requires TreeOk(fs)
  {
    if n == 0 then 0
    else DepthSum(fs, s, n - 1) + (if n - 1 in s && n - 1 in fs.nodes then |NamesTo(fs, n - 1)| else 0)
  }

  ghost function Total(fs: Fs): nat
    requires TreeOk(fs)
  { DepthSum(fs, fs.nodes.Keys, fs.next) }

  /** The depths in a forest whose trees stand at `depth`. */
  function Weight(ts: seq<Tree>, depth: nat): nat {
    if ts == [] then 0 else depth + Weight(ts[0].kids, depth + 1) + Weight(ts[1..], depth)
  }

  lemma {:induction false} SumUnion(fs: Fs, a: set<Id>, b: set<Id>, n: nat)
    requires TreeOk(fs) && a !! b
    ensures DepthSum(fs, a + b, n) == DepthSum(fs, a, n) + DepthSum(fs, b, n)
  {
    hide TreeOk, NamesTo;
    if n > 0 {
      SumUnion(fs, a, b, n - 1);
    }
  }

  lemma {:induction false} SumOne(fs: Fs, id: Id, n: nat)
    requires TreeOk(fs) && id in fs.nodes
    ensures DepthSum(fs, {id}, n) == if id < n then |NamesTo(fs, id)| else 0
  {
    hide TreeOk, NamesTo;
    if n > 0 {
      SumOne(fs, id, n - 1);
    }
  }

  lemma {:induction false} SumNone(fs: Fs, n: nat)
    requires TreeOk(fs)
    ensures DepthSum(fs, {}, n) == 0
  {
    hide TreeOk, NamesTo;
    if n > 0 {
      SumNone(fs, n - 1);
    }
  }

  /** The subtrees of siblings share no node. */
  lemma KidsApart(fs: Fs, d: Id, kids: seq<Id>, lo: Id)
    requires TreeOk(fs) && Kids(fs, d, kids, lo) && kids != []
    ensures kids[0] in fs.nodes && Subtree(fs, kids[0]) !! KidTrees(fs, kids[1..])
    ensures KidTrees(fs, kids) == Subtree(fs, kids[0]) + KidTrees(fs, kids[1..])
  {
    KidFacts(fs, d, kids, lo);
    var k, rest := kids[0], kids[1..];
    forall m | m in fs.nodes ensures !(Under(fs, m, k) && BelowSome(fs, m, rest)) {
      if Under(fs, m, k) && BelowSome(fs, m, rest) {
        var x :| x in rest && x in fs.nodes && Under(fs, m, x);
        OneOfTheRest(fs, d, kids, lo, x);
        UnderComparable(fs, m, k, x);
        SameParent(fs, d, k, x);
      }
    }
    forall m | m in fs.nodes ensures BelowSome(fs, m, kids) <==> Under(fs, m, k) || BelowSome(fs, m, rest) {
      FirstOrRest(fs, m, kids);
    }
  }

  lemma OneOfTheRest(fs: Fs, d: Id, kids: seq<Id>, lo: Id, x: Id)
    requires TreeOk(fs) && Kids(fs, d, kids, lo) && kids != [] && x in kids[1..]
    ensures x in fs.nodes && x != kids[0] && fs.nodes[x].parent == Some(d) && fs.nodes[kids[0]].parent == Some(d)
  {
    var i :| 0 <= i < |kids[1..]| && kids[1..][i] == x;
    assert kids[i + 1] == x;
  }

  lemma SameParent(fs: Fs, d: Id, a: Id, b: Id)
    requires TreeOk(fs) && d in fs.nodes && a in fs.nodes && b in fs.nodes && a != b && d < a && d < b
    requires fs.nodes[a].parent == Some(d) && fs.nodes[b].parent == Some(d)
    ensures !Under(fs, a, b) && !Under(fs, b, a)
  {
    if Under(fs, a, b) {
      UnderLe(fs, d, b);
    }
    if Under(fs, b, a) {
      UnderLe(fs, d, a);
    }
  }

  lemma FirstOrRest(fs: Fs, m: Id, kids: seq<Id>)
    requires TreeOk(fs) && m in fs.nodes && kids != [] && kids[0] in fs.nodes
    ensures BelowSome(fs, m, kids) <==> Under(fs, m, kids[0]) || BelowSome(fs, m, kids[1..])
  {
    hide Under, TreeOk;
    assert kids == [kids[0]] + kids[1..];
    if x :| x in kids && x in fs.nodes && Under(fs, m, x) {
      assert x == kids[0] || x in kids[1..];
    }
    if x :| x in kids[1..] && x in fs.nodes && Under(fs, m, x) {
      assert x in kids;
    }
    assert kids[0] in kids;
  }

  /** Counted over identities or over the forest, the depths add up to the same. */
  lemma {:induction false} SumIsWeight(fs: Fs, d: Id, kids: seq<Id>, lo: Id)
    requires TreeOk(fs) && Kids(fs, d, kids, lo) && d in fs.nodes
    ensures DepthSum(fs, KidTrees(fs, kids), fs.next) == Weight(Trees(fs, d, kids, lo), |NamesTo(fs, d)| + 1)
    decreases fs.next - lo, |kids|
  {
    hide TreeOk, NamesTo, DepthSum, Kids, KidTrees, Subtree, KidsOk;
    if kids == [] {
      KidTreesNil(fs);
      SumNone(fs, fs.next);
    } else {
      var k := kids[0];
      KidFacts(fs, d, kids, lo);
      KidsOf(fs, k);
      KidsTail(fs, d, kids, lo);
      ChildDepth(fs, d, k);
      SumIsWeight(fs, k, fs.nodes[k].children, k + 1);
      SumIsWeight(fs, d, kids[1..], lo);
      KidsApart(fs, d, kids, lo);
      SubtreeSplits(fs, k);
      SumUnion(fs, Subtree(fs, k), KidTrees(fs, kids[1..]), fs.next);
      SumUnion(fs, {k}, KidTrees(fs, fs.nodes[k].children), fs.next);
      SumOne(fs, k, fs.next);
      TreesFirst(fs, d, kids, lo);
    }
  }

  lemma ChildDepth(fs: Fs, d: Id, k: Id)
    requires TreeOk(fs) && k in fs.nodes && d in fs.nodes && fs.nodes[k].parent == Some(d)
    ensures |NamesTo(fs, k)| == |NamesTo(fs, d)| + 1 && k < fs.next && k != fs.root
    ensures NamesTo(fs, k) == NamesTo(fs, d) + [fs.nodes[k].name]
  {
    assert NodeOk(fs, k);
  }

  lemma TreesFirst(fs: Fs, d: Id, kids: seq<Id>, lo: Id)
    requires TreeOk(fs) && Kids(fs, d, kids, lo) && kids != []
    requires kids[0] in fs.nodes && Kids(fs, kids[0], fs.nodes[kids[0]].children, kids[0] + 1)
             && Kids(fs, d, kids[1..], lo)
    ensures var ts := Trees(fs, d, kids, lo);
            && ts != [] && ts[0].kids == Trees(fs, kids[0], fs.nodes[kids[0]].children, kids[0] + 1)
            && ts[1..] == Trees(fs, d, kids[1..], lo)
  {
  }

  lemma TotalIsWeight(fs: Fs)
    requires TreeOk(fs)
    ensures Total(fs) == Weight(Forest(fs), 1)
  {
    hide NamesTo, DepthSum, KidTrees, NodeOk;
    KidsOf(fs, fs.root);
    var below := KidTrees(fs, fs.nodes[fs.root].children);
    RootCovers(fs);
    assert fs.nodes.Keys == {fs.root} + below;
    SumUnion(fs, {fs.root}, below, fs.next);
    SumOne(fs, fs.root, fs.next);
    SumIsWeight(fs, fs.root, fs.nodes[fs.root].children, fs.root + 1);
    assert NamesTo(fs, fs.root) == [];
  }

  // ----- what a record can add

  /** How deep a node made at this path can come to lie. */
  function Reach(path: Str): nat {
    var cs := Components(Buffered(path));
    if cs == [] then 0 else Descents(cs[..|cs| - 1]) + 1
  }

  function Reaches(rs: seq<Rec>): nat {
    if rs == [] then 0 else Reach(rs[0].path) + Reaches(rs[1..])
  }

  lemma {:induction false} ReachesConcat(a: seq<Rec>, b: seq<Rec>)
    ensures Reaches(a + b) == Reaches(a) + Reaches(b)
  {
    hide Reach;
    if a == [] {
      assert a + b == b;
    } else {
      assert (a + b)[1..] == a[1..] + b;
      ReachesConcat(a[1..], b);
    }
  }

  /** Nodes that keep their names keep their depths. */
  lemma {:induction false} SumSame(fs: Fs, r: Fs, n: nat)
    requires TreeOk(fs) && TreeOk(r)
    requires forall m | m < n :: m in r.nodes <==> m in fs.nodes
    requires forall m | m < n && m in fs.nodes && m in r.nodes :: NamesTo(r, m) == NamesTo(fs, m)
    ensures DepthSum(r, r.nodes.Keys, n) == DepthSum(fs, fs.nodes.Keys, n)
  {
    hide TreeOk, NamesTo;
    if n > 0 {
      SumSame(fs, r, n - 1);
    }
  }

  lemma CreateTotal(fs: Fs, path: Str, kind: Kind)
    requires TreeOk(fs) && NulFree(path) && path != [] && path[0] == SLASH
    ensures var r := Create(fs, path, kind).0; TreeOk(r) && Total(r) <= Total(fs) + Reach(path)
  {
    hide TreeOk, NamesTo, Target, Create, Components, Descents, Fold, NodeNew, FindChild;
    CreateKeeps(fs, path, kind);
    if Target(fs, path).Some? {
      TargetFacts(fs, path);
      var (parent, name) := Target(fs, path).value;
      var r := Create(fs, path, kind).0;
      var cs := Components(Buffered(path));
      RootIsTop(fs);
      FoldDepth(fs, fs.root, cs[..|cs| - 1]);
      NodeNewIds(fs, name, kind, parent);
      SumSame(fs, r, fs.next);
    } else {
      NotCreated(fs, path, kind);
    }
  }

  lemma NodeNewIds(fs: Fs, name: Str, kind: Kind, parent: Id)
    requires parent in fs.nodes
    ensures var r := NodeNew(fs, name, kind, parent); r.next == fs.next + 1 && r.nodes.Keys == fs.nodes.Keys + {fs.next}
  {
  }

  lemma NotCreated(fs: Fs, path: Str, kind: Kind)
    requires Target(fs, path).None?
    ensures Create(fs, path, kind).0 == fs
  {
  }

  lemma RootIsTop(fs: Fs)
    requires TreeOk(fs)
    ensures fs.root in fs.nodes && NamesTo(fs, fs.root) == []
  {
  }

  lemma WriteTotal(fs: Fs, id: Id, bytes: Str)
    requires TreeOk(fs)
    ensures TreeOk(Write(fs, id, bytes, false)) && Total(Write(fs, id, bytes, false)) == Total(fs)
  {
    WriteKeeps(fs, id, bytes, false);
    assert Write(fs, id, bytes, false).next == fs.next;
    hide TreeOk, NamesTo, Write;
    SumSame(fs, Write(fs, id, bytes, false), fs.next);
  }

  lemma ReplayTotal(fs: Fs, rec: Rec)
    requires TreeOk(fs) && NulFree(rec.path) && rec.path != [] && rec.path[0] == SLASH
    ensures TreeOk(Replay(fs, rec)) && Total(Replay(fs, rec)) <= Total(fs) + Reach(rec.path)
  {
    hide TreeOk, Total, Create, Resolve, Write, Reach;
    CreateTotal(fs, rec.path, rec.kind);
    var (made, id) := Create(fs, rec.path, rec.kind);
    var node := if id.Some? then id else Resolve(fs, rec.path);
    if node.Some? {
      WriteTotal(made, node.value, rec.data);
    }
  }

  ghost predicate Absolute(rs: seq<Rec>) {
    forall i | 0 <= i < |rs| :: NulFree(rs[i].path) && rs[i].path != [] && rs[i].path[0] == SLASH
  }

  lemma {:induction false} ReplayAllTotal(fs: Fs, rs: seq<Rec>)
    requires TreeOk(fs) && Absolute(rs)
    ensures TreeOk(ReplayAll(fs, rs)) && Total(ReplayAll(fs, rs)) <= Total(fs) + Reaches(rs)
    decreases |rs|
  {
    hide TreeOk, Total, Replay, Reach;
    if rs != [] {
      assert rs[0] in rs;
      ReplayTotal(fs, rs[0]);
      assert Absolute(rs[1..]) by { assert forall i | 0 <= i < |rs[1..]| :: rs[1..][i] == rs[i + 1]; }
      ReplayAllTotal(Replay(fs, rs[0]), rs[1..]);
    }
  }

  /** A record reaches no deeper than its node lies, and as deep only if it says the whole way. */
  lemma RecReach(fs: Fs, k: Id)
    requires TreeOk(fs) && k in fs.nodes && k != fs.root
    ensures Reach(AbsPath(fs, k)) <= |NamesTo(fs, k)|
    ensures Reach(AbsPath(fs, k)) == |NamesTo(fs, k)| ==> StorableNode(fs, k)
  {
    var names := NamesTo(fs, k);
    var path := AbsPath(fs, k);
    var shown := PrintedNames(names);
    PrintedStorable(names);
    assert Buffered(path) == path;
    hide TreeOk, NamesTo, PathFits, Components;
    if shown != [] {
      assert shown == names ==> shown[..|shown| - 1] == Above(names);
    }
  }

  lemma {:induction false} RecordsReach(fs: Fs, d: Id, kids: seq<Id>, lo: Id)
    requires TreeOk(fs) && Kids(fs, d, kids, lo)
    ensures var rs, w := Records(fs, d, kids, lo), Weight(Trees(fs, d, kids, lo), |NamesTo(fs, d)| + 1);
            && Absolute(rs) && Reaches(rs) <= w
            && (Reaches(rs) == w ==> forall m | m in KidTrees(fs, kids) :: StorableNode(fs, m))
    decreases fs.next - lo, |kids|
  {
    hide TreeOk, NamesTo, Kids, KidsOk, StorableNode, Reach, AbsPath, KidTrees, Subtree, Absolute;
    if kids == [] {
      KidTreesNil(fs);
      NoneAbsolute();
    } else {
      var k := kids[0];
      KidFacts(fs, d, kids, lo);
      KidsOf(fs, k);
      KidsTail(fs, d, kids, lo);
      ChildDepth(fs, d, k);
      RecordsReach(fs, k, fs.nodes[k].children, k + 1);
      RecordsReach(fs, d, kids[1..], lo);
      KidsApart(fs, d, kids, lo);
      SubtreeSplits(fs, k);
      TreesFirst(fs, d, kids, lo);
      RecReach(fs, k);
      var below := Records(fs, k, fs.nodes[k].children, k + 1);
      var rest := Records(fs, d, kids[1..], lo);
      ReachesJoin(RecOf(fs, k), below, rest);
      AbsoluteJoin(fs, k, below, rest);
    }
  }

  lemma NoneAbsolute()
    ensures Absolute([])
  {
  }

  lemma ReachesJoin(one: Rec, below: seq<Rec>, rest: seq<Rec>)
    ensures Reaches([one] + below + rest) == Reach(one.path) + Reaches(below) + Reaches(rest)
  {
    hide Reach;
    ReachesConcat([one] + below, rest);
    assert ([one] + below)[1..] == below;
  }

  lemma AbsoluteJoin(fs: Fs, k: Id, below: seq<Rec>, rest: seq<Rec>)
    requires TreeOk(fs) && k in fs.nodes && k != fs.root && Absolute(below) && Absolute(rest)
    ensures Absolute([RecOf(fs, k)] + below + rest)
  {
    PrintedStorable(NamesTo(fs, k));
  }

  // ----- the exact condition

  /** However odd the tree, replaying its records leaves a well-formed one with the same root and current directory. */
  lemma {:induction false} ReplayAllKeeps(fs: Fs, rs: seq<Rec>)
    requires Valid(fs) && Absolute(rs)
    ensures Valid(ReplayAll(fs, rs)) && ReplayAll(fs, rs).root == fs.root && ReplayAll(fs, rs).cwd == fs.cwd
    decreases |rs|
  {
    hide Valid, Replay;
    if rs != [] {
      assert NulFree(rs[0].path);
      assert rs[0] == Rec(rs[0].kind, rs[0].path, rs[0].data);
      ReplayKeeps(fs, rs[0].path, rs[0].kind, rs[0].data);
      assert Absolute(rs[1..]) by { assert forall i | 0 <= i < |rs[1..]| :: rs[1..][i] == rs[i + 1]; }
      ReplayAllKeeps(Replay(fs, rs[0]), rs[1..]);
    }
  }

  /**
   Replaying the records of a tree on a bare root gives the same forest exactly if every node's
   path fits the path printer and nothing lies below a dot name.
   */
  lemma RestoredExactly(fs: Fs, bare: Fs)
    requires TreeOk(fs) && Valid(bare) && bare.nodes[bare.root].children == []
    ensures var r := ReplayAll(bare, AllRecords(fs));
            && Valid(r) && r.root == bare.root && r.cwd == bare.cwd
            && (Forest(r) == Forest(fs) <==> Storable(fs))
  {
    hide Records, Trees, NamesTo, NodeOk, Kids, Total, Reaches, Absolute, StorableNode, KidTrees;
    KidsOf(fs, fs.root);
    var kids := fs.nodes[fs.root].children;
    var rs := AllRecords(fs);
    RootIsTop(fs);
    RecordsReach(fs, fs.root, kids, fs.root + 1);
    ReplayAllKeeps(bare, rs);
    ReplayAllTotal(bare, rs);
    var r := ReplayAll(bare, rs);
    TotalIsWeight(bare);
    TotalIsWeight(r);
    assert Forest(bare) == [] by { BareForest(bare); }
    if Storable(fs) {
      RestoreForest(fs, bare);
    }
    if Forest(r) == Forest(fs) {
      RootCovers(fs);
      RootStorable(fs);
    }
  }

  lemma BareForest(bare: Fs)
    requires TreeOk(bare) && bare.nodes[bare.root].children == []
    ensures Forest(bare) == []
  {
  }

  lemma RootStorable(fs: Fs)
    requires TreeOk(fs)
    ensures fs.root in fs.nodes && StorableNode(fs, fs.root)
  {
  }

  /** For every tree that operations can make, the path limits alone decide whether it comes back. */
  lemma MadeTreesComeBack(fs: Fs, ops: seq<FsRuns.Op>, bare: Fs)
    requires FsRuns.MadeBy(fs, ops) && Valid(bare) && bare.nodes[bare.root].children == []
    ensures Valid(fs) && Valid(ReplayAll(bare, AllRecords(fs)))
    ensures Forest(ReplayAll(bare, AllRecords(fs))) == Forest(fs) <==> forall id | id in fs.nodes ::
            PathFits(NamesTo(fs, id))
  {
    FsRuns.BareWalked();
    hide FsRuns.Run, NodeOk, Forest, ReplayAll, AllRecords, PathFits, NamesTo;
    RestoredExactly(fs, bare);
    if Storable(fs) {
      forall id | id in fs.nodes ensures PathFits(NamesTo(fs, id)) {
        assert StorableNode(fs, id);
      }
    }
  }
}
