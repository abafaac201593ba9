/**
 The in-memory file system (fs/ramfs.c).

 `FsSpec` is the value-level account: an arena of nodes under identities that are handed out in
 increasing order and stand for the node pointers, so a node is always younger than its parent.
 `FileSystem` keeps such an arena and rewrites it in place.
 */
module FsSpec {
  import opened Bytes
  import opened Paths

  type Id = nat

  datatype Kind = File | Directory

  datatype Node = Node(name: Str, kind: Kind, data: Str, parent: Option<Id>, children: seq<Id>)

  /** `count` is the counter the kernel keeps; `next` is the next unused identity. */
  datatype Fs = Fs(nodes: map<Id, Node>, root: Id, cwd: Id, next: Id, count: int)

  // ----- the invariant

  /** Links are consistent both ways, and no two siblings share a name. */
  ghost predicate NodeOk(fs: Fs, id: Id)
    requires id in fs.nodes
  {
    var n := fs.nodes[id];
    && id < fs.next
    && (id == fs.root <==> n.parent == None)
    && (n.parent.Some? ==>
          && n.parent.value in fs.nodes && n.parent.value < id
          && id in fs.nodes[n.parent.value].children && NameOk(n.name))
    && (n.kind == File ==> n.children == [])
    && (n.kind == Directory ==> n.data == [])
    && KidsOk(fs, id, n.children)
  }

  ghost predicate KidsOk(fs: Fs, id: Id, kids: seq<Id>) {
    && (forall i | 0 <= i < |kids| :: kids[i] in fs.nodes && id < kids[i] && fs.nodes[kids[i]].parent == Some(id))
    && (forall i, j | 0 <= i < j < |kids| :: fs.nodes[kids[i]].name != fs.nodes[kids[j]].name)
  }

  ghost predicate TreeOk(fs: Fs) {
    && fs.root in fs.nodes && fs.nodes[fs.root].kind == Directory
    && (forall id {:trigger NodeOk(fs, id)} | id in fs.nodes :: NodeOk(fs, id))
    && fs.count == |fs.nodes|
  }

  ghost predicate CwdOk(fs: Fs) { fs.cwd in fs.nodes && fs.nodes[fs.cwd].kind == Directory }

  ghost predicate Valid(fs: Fs) { TreeOk(fs) && CwdOk(fs) }

  // ----- walking

  /** `find_child` among some siblings: the first with that name. */
  function FindAmong(fs: Fs, kids: seq<Id>, name: Str): (r: Option<Id>)
    ensures r.Some? ==> r.value in kids && r.value in fs.nodes && fs.nodes[r.value].name == name
    ensures r.None? ==> forall k | k in kids && k in fs.nodes :: fs.nodes[k].name != name
  {
    if kids == [] then None
    else if kids[0] in fs.nodes && fs.nodes[kids[0]].name == name then Some(kids[0])
    else FindAmong(fs, kids[1..], name)
  }

  function FindChild(fs: Fs, dir: Id, name: Str): Option<Id> {
    if dir in fs.nodes && fs.nodes[dir].kind == Directory then FindAmong(fs, fs.nodes[dir].children, name) else None
  }

  function ParentOr(fs: Fs, id: Id): Id {
    if id in fs.nodes && fs.nodes[id].parent.Some? then fs.nodes[id].parent.value else fs.root
  }

  /** One component of a path: stay, go up, or go down. */
  function Hop(fs: Fs, at: Id, component: Str): Option<Id> {
    if component == SELF then Some(at)
    else if component == UP then Some(ParentOr(fs, at))
    else FindChild(fs, at, component)
  }

  /** The components of a path, one after the other. */
  function Fold(fs: Fs, at: Id, components: seq<Str>): Option<Id>
    decreases |components|
  {
    if components == [] then Some(at)
    else
      var step := Hop(fs, at, components[0]);
      if step == None then None else Fold(fs, step.value, components[1..])
  }

  function Start(fs: Fs, path: Str): Id
    requires path != []
  { if path[0] == SLASH then fs.root else fs.cwd }

  /** `walk` to the end of the path. */
  function WalkAll(fs: Fs, path: Str): Option<Id> {
    if path == [] then None else Fold(fs, Start(fs, path), Components(Buffered(path)))
  }

  /** `walk` up to the last component, which is handed back. */
  function WalkToLast(fs: Fs, path: Str): (Option<Id>, Str) {
    if path == [] then (None, [])
    else
      var cs := Components(Buffered(path));
      if cs == [] then (Some(Start(fs, path)), [])
      else
        var at := Fold(fs, Start(fs, path), cs[..|cs| - 1]);
        (at, if at == None then [] else cs[|cs| - 1])
  }

  function Resolve(fs: Fs, path: Str): Option<Id> {
    if path == [] then Some(fs.cwd)
    else if path == [SLASH] then Some(fs.root)
    else WalkAll(fs, path)
  }

  // ----- creating, writing, removing

  function NodeNew(fs: Fs, name: Str, kind: Kind, parent: Id): Fs
    requires parent in fs.nodes
  {
    var id := fs.next;
    var p := fs.nodes[parent];
    fs.(nodes := fs.nodes[parent := p.(children := p.children + [id])][id := Node(name, kind, [], Some(parent), [])],
        next := id + 1,
        count := fs.count + 1)
  }

  /** Whether `fs_create` can make a node at `path`, and if so under which parent and name. */
  function Target(fs: Fs, path: Str): Option<(Id, Str)> {
    var (parent, name) := WalkToLast(fs, path);
    if parent == None || parent.value !in fs.nodes || fs.nodes[parent.value].kind != Directory || name == [] then None
    else if FindChild(fs, parent.value, name) != None then None
    else Some((parent.value, name))
  }

  function Create(fs: Fs, path: Str, kind: Kind): (Fs, Option<Id>) {
    var t := Target(fs, path);
    if t == None || t.value.0 !in fs.nodes then (fs, None)
    else (NodeNew(fs, t.value.1, kind, t.value.0), Some(fs.next))
  }

  /** `fs_write_n`: replaces or extends what a file holds. */
  function Write(fs: Fs, id: Id, bytes: Str, append: bool): Fs {
    if id !in fs.nodes || fs.nodes[id].kind != File then fs
    else
      var n := fs.nodes[id];
      fs.(nodes := fs.nodes[id := n.(data := (if append then n.data else []) + bytes)])
  }

  /** `m` is `n` or lies below it. */
  ghost predicate Under(fs: Fs, m: Id, n: Id)
    requires TreeOk(fs) && m in fs.nodes
    decreases m
  {
    m == n || (NodeOk(fs, m) && fs.nodes[m].parent.Some? && Under(fs, fs.nodes[m].parent.value, n))
  }

  ghost function Subtree(fs: Fs, n: Id): set<Id>
    requires TreeOk(fs)
  { set m | m in fs.nodes && Under(fs, m, n) }

  function Without(kids: seq<Id>, n: Id): seq<Id> {
    if kids == [] then [] else if kids[0] == n then kids[1..] else [kids[0]] + Without(kids[1..], n)
  }

  datatype Removal = NotFound | InUse | Removed(id: Id)

  function RemovalOf(fs: Fs, path: Str): Removal {
    var n := Resolve(fs, path);
    if n == None || n.value == fs.root || n.value !in fs.nodes then NotFound
    else if n.value == fs.cwd then InUse
    else Removed(n.value)
  }

  /** The tree with the subtree at `n` unlinked and freed. */
  ghost function Prune(fs: Fs, n: Id): Fs
    requires TreeOk(fs) && n in fs.nodes && n != fs.root
  {
    assert NodeOk(fs, n);
    var p := fs.nodes[n].parent.value;
    var gone := Subtree(fs, n);
    fs.(nodes := fs.nodes[p := fs.nodes[p].(children := Without(fs.nodes[p].children, n))] - gone,
        count := fs.count - |gone|)
  }

  /** `fs_reset` on an existing tree: everything but the root goes. */
  function Reset(fs: Fs): Fs
    requires fs.root in fs.nodes
  {
    fs.(nodes := map[fs.root := fs.nodes[fs.root].(children := [])], cwd := fs.root, count := 1)
  }

  /** `node_new` for the root of a fresh tree. */
  function Bare(): Fs { Fs(map[0 := Node([SLASH], Directory, [], None, [])], 0, 0, 1, 1) }

  lemma BareValid()
    ensures Valid(Bare())
  {
    assert NodeOk(Bare(), 0);
  }

  lemma ResetValid(fs: Fs)
    requires TreeOk(fs)
    ensures Valid(Reset(fs))
  {
    assert NodeOk(fs, fs.root);
    assert NodeOk(Reset(fs), fs.root);
  }

  // ----- the names on the way to a node

  ghost function NamesTo(fs: Fs, n: Id): (r: seq<Str>)
    requires TreeOk(fs) && n in fs.nodes
    ensures NamesOk(r)
    ensures r == [] <==> n == fs.root
    decreases n
  {
    assert NodeOk(fs, n);
    if n == fs.root then [] else NamesTo(fs, fs.nodes[n].parent.value) + [fs.nodes[n].name]
  }

  lemma FindAmongUnique(fs: Fs, kids: seq<Id>, id: Id, i: nat)
    requires KidsOk(fs, id, kids) && i < |kids|
    ensures FindAmong(fs, kids, fs.nodes[kids[i]].name) == Some(kids[i])
  {
    var r := FindAmong(fs, kids, fs.nodes[kids[i]].name);
    assert kids[i] in kids;
    assert r.Some?;
    var j :| 0 <= j < |kids| && kids[j] == r.value;
  }

  /** A node is found under its own name in its parent. */
  lemma FoundInParent(fs: Fs, n: Id)
    requires TreeOk(fs) && n in fs.nodes && n != fs.root
    ensures fs.nodes[n].parent.Some? && fs.nodes[n].parent.value in fs.nodes
    ensures FindChild(fs, fs.nodes[n].parent.value, fs.nodes[n].name) == Some(n)
  {
    assert NodeOk(fs, n);
    var p := fs.nodes[n].parent.value;
    assert NodeOk(fs, p);
    var kids := fs.nodes[p].children;
    var i :| 0 <= i < |kids| && kids[i] == n;
    FindAmongUnique(fs, kids, p, i);
  }

  /** What `find_child` finds is a child: it knows its parent. */
  lemma FindChildFacts(fs: Fs, dir: Id, name: Str)
    requires TreeOk(fs) && FindChild(fs, dir, name).Some?
    ensures var c := FindChild(fs, dir, name).value;
            && dir in fs.nodes && c in fs.nodes && c != fs.root && c > dir
            && fs.nodes[c].parent == Some(dir) && fs.nodes[c].name == name
  {
    assert NodeOk(fs, dir);
    var kids := fs.nodes[dir].children;
    var c := FindChild(fs, dir, name).value;
    var i :| 0 <= i < |kids| && kids[i] == c;
    assert NodeOk(fs, c);
  }

  lemma {:induction false} FoldConcat(fs: Fs, at: Id, a: seq<Str>, b: seq<Str>)
    ensures Fold(fs, at, a + b) == (var mid := Fold(fs, at, a); if mid == None then None else Fold(fs, mid.value, b))
    decreases |a|
  {
    if a == [] {
      assert a + b == b;
    } else {
      assert (a + b)[1..] == a[1..] + b;
      var step := Hop(fs, at, a[0]);
      if step.Some? {
        FoldConcat(fs, step.value, a[1..], b);
      }
    }
  }

  lemma FoldOne(fs: Fs, at: Id, c: Str)
    ensures Fold(fs, at, [c]) == Hop(fs, at, c)
  {
    assert [c][1..] == [];
  }

  /** Following a node's names from the root leads to the node, if none of them is a dot name. */
  lemma {:induction false} FoldNames(fs: Fs, n: Id)
    requires TreeOk(fs) && n in fs.nodes && NoDots(NamesTo(fs, n))
    ensures Fold(fs, fs.root, NamesTo(fs, n)) == Some(n)
    decreases n
  {
    if n != fs.root {
      assert NodeOk(fs, n);
      var p, name := fs.nodes[n].parent.value, fs.nodes[n].name;
      var above := NamesTo(fs, p);
      assert NamesTo(fs, n) == above + [name];
      assert forall i | 0 <= i < |above| :: above[i] == NamesTo(fs, n)[i];
      assert NamesTo(fs, n)[|above|] == name;
      FoldNames(fs, p);
      FoldConcat(fs, fs.root, above, [name]);
      FoldOne(fs, p, name);
      FoundInParent(fs, n);
    }
  }

  /** How many of the components go down. */
  function Descents(cs: seq<Str>): (d: nat)
    ensures d <= |cs|
    ensures d == |cs| ==> NoDots(cs)
  {
    if cs == [] then 0
    else
      var d := Descents(cs[1..]);
      assert forall i | 1 <= i < |cs| :: cs[i] == cs[1..][i - 1];
      (if IsDots(cs[0]) then 0 else 1) + d
  }

  lemma ParentFacts(fs: Fs, n: Id)
    requires TreeOk(fs) && n in fs.nodes
    ensures ParentOr(fs, n) in fs.nodes
    ensures n != fs.root ==> NamesTo(fs, n) == NamesTo(fs, ParentOr(fs, n)) + [fs.nodes[n].name]
    ensures n == fs.root ==> ParentOr(fs, n) == fs.root
  {
    assert NodeOk(fs, n);
  }

  /** A walk gets no deeper than the components that go down, and stays inside the tree. */
  lemma {:induction false} FoldDepth(fs: Fs, at: Id, cs: seq<Str>)
    requires TreeOk(fs) && at in fs.nodes && Fold(fs, at, cs).Some?
    ensures Fold(fs, at, cs).value in fs.nodes
    ensures |NamesTo(fs, Fold(fs, at, cs).value)| <= |NamesTo(fs, at)| + Descents(cs)
    decreases |cs|
  {
    if cs != [] {
      var step := Hop(fs, at, cs[0]).value;
      if cs[0] == SELF {
      } else if cs[0] == UP {
        ParentFacts(fs, at);
      } else {
        FindChildFacts(fs, at, cs[0]);
        ParentFacts(fs, step);
      }
      FoldDepth(fs, step, cs[1..]);
    }
  }

  // ----- the path printer

  function LastParts(names: seq<Str>): seq<Str> {
    if |names| <= DEPTH_MAX then names else names[|names| - DEPTH_MAX..]
  }

  /** How many parts fit behind `used` characters before the buffer of `size` is full. */
  function Fitting(parts: seq<Str>, used: nat, size: nat): (k: nat)
    ensures k <= |parts|
  {
    if parts == [] || used + |parts[0]| + 2 >= size then 0
    else 1 + Fitting(parts[1..], used + 1 + |parts[0]|, size)
  }

  /** What `fs_abspath` prints for these names. */
  function Printed(names: seq<Str>, size: nat): Str {
    if names == [] then Truncate([SLASH], if size > 0 then size - 1 else 0)
    else
      var parts := LastParts(names);
      Join(parts[..Fitting(parts, 0, size)])
  }

  ghost function AbsPath(fs: Fs, n: Id): Str
    requires TreeOk(fs) && n in fs.nodes
  { Printed(NamesTo(fs, n), PATH_MAX) }

  /** Within the limits of `fs_abspath`: at most 32 names and 254 characters. */
  predicate PathFits(names: seq<Str>) {
    |names| <= DEPTH_MAX && |Join(names)| <= PATH_MAX - 2
  }

  lemma {:induction false} FittingAll(parts: seq<Str>, used: nat, size: nat)
    requires size >= 2 && used <= size - 2
    ensures Fitting(parts, used, size) == |parts| <==> used + |Join(parts)| <= size - 2
    ensures used + |Join(parts[..Fitting(parts, used, size)])| <= size - 2
    decreases |parts|
  {
    var k := Fitting(parts, used, size);
    if parts != [] {
      if k == 0 {
        assert parts[..0] == [];
      } else {
        FittingAll(parts[1..], used + 1 + |parts[0]|, size);
        assert parts[..k] == [parts[0]] + parts[1..][..k - 1];
        assert parts[..k][1..] == parts[1..][..k - 1];
      }
    } else {
      assert parts[..k] == [];
    }
  }

  /** A path within the limits is printed in full; any other is cut to fewer names. */
  lemma PrintedWhole(names: seq<Str>)
    requires names != []
    ensures PathFits(names) ==> Printed(names, PATH_MAX) == Join(names)
    ensures |Printed(names, PATH_MAX)| <= PATH_MAX - 2
  {
    var parts := LastParts(names);
    FittingAll(parts, 0, PATH_MAX);
    assert parts[..|parts|] == parts;
  }

  /** The names that are printed: all of them exactly within the limits, else strictly fewer. */
  lemma PrintedNames(names: seq<Str>) returns (shown: seq<Str>)
    requires names != [] && NamesOk(names)
    ensures Components(Printed(names, PATH_MAX)) == shown
    ensures |shown| <= |names| && (|shown| == |names| <==> PathFits(names)) && (PathFits(names) ==> shown == names)
  {
    var parts := LastParts(names);
    var k := Fitting(parts, 0, PATH_MAX);
    FittingAll(parts, 0, PATH_MAX);
    shown := parts[..k];
    assert forall i | 0 <= i < |shown| :: shown[i] == names[i + |names| - |parts|];
    ComponentsJoin(shown);
  }

  /**
   The printer and the walker undo each other exactly for nodes within the depth and length
   limits none of whose names is `.` or `..`.
   */
  lemma ResolvePrinted(fs: Fs, n: Id)
    requires TreeOk(fs) && n in fs.nodes
    ensures Resolve(fs, AbsPath(fs, n)) == Some(n) <==> PathFits(NamesTo(fs, n)) && NoDots(NamesTo(fs, n))
  {
    var names := NamesTo(fs, n);
    var path := AbsPath(fs, n);
    if n == fs.root {
      assert path == [SLASH];
    } else {
      var shown := PrintedNames(names);
      PrintedWhole(names);
      PrintedSlash(names);
      hide Printed;
      ResolveAbsolute(fs, path);
      if PathFits(names) && NoDots(names) {
        FoldNames(fs, n);
      } else if Fold(fs, fs.root, shown) == Some(n) {
        FoldDepth(fs, fs.root, shown);
      }
    }
  }

  lemma PrintedSlash(names: seq<Str>)
    requires names != [] && NamesOk(names)
    ensures Printed(names, PATH_MAX) != [] && Printed(names, PATH_MAX)[0] == SLASH
  {
    var parts := LastParts(names);
    assert NameOk(parts[0]) by { assert parts[0] == names[|names| - |parts|]; }
    JoinStart(parts[..Fitting(parts, 0, PATH_MAX)]);
  }

  /** An absolute path that fits the walker's buffer is the fold of its components from the root. */
  lemma ResolveAbsolute(fs: Fs, path: Str)
    requires path != [] && path[0] == SLASH && |path| < PATH_MAX
    ensures Resolve(fs, path) == Fold(fs, fs.root, Components(path))
  {
    assert Buffered(path) == path;
    if path == [SLASH] {
      assert path[1..] == [];
    }
  }

  // ----- names and ancestry

  /** No two nodes have the same names above them. */
  lemma {:induction false} NamesInjective(fs: Fs, m: Id, n: Id)
    requires TreeOk(fs) && m in fs.nodes && n in fs.nodes && NamesTo(fs, m) == NamesTo(fs, n)
    ensures m == n
    decreases m
  {
    if m != fs.root && n != fs.root {
      ParentFacts(fs, m);
      ParentFacts(fs, n);
      assert NodeOk(fs, m) && NodeOk(fs, n);
      var a, b := NamesTo(fs, ParentOr(fs, m)), NamesTo(fs, ParentOr(fs, n));
      SnocEqual(a, fs.nodes[m].name, b, fs.nodes[n].name);
      NamesInjective(fs, ParentOr(fs, m), ParentOr(fs, n));
      FoundInParent(fs, m);
      FoundInParent(fs, n);
    }
  }

  lemma SnocEqual(a: seq<Str>, x: Str, b: seq<Str>, y: Str)
    requires a + [x] == b + [y]
    ensures a == b && x == y
  {
    assert |a + [x]| == |b + [y]|;
    assert a == (a + [x])[..|a|] && b == (b + [y])[..|b|];
    assert x == (a + [x])[|a|] && y == (b + [y])[|b|];
  }

  /** Lying below a node is the same as having its names in front. */
  lemma {:induction false} UnderIsPrefix(fs: Fs, m: Id, n: Id)
    requires TreeOk(fs) && m in fs.nodes && n in fs.nodes
    ensures Under(fs, m, n) <==> NamesTo(fs, n) <= NamesTo(fs, m)
    decreases m
  {
    if m == fs.root {
      assert NodeOk(fs, m);
    } else {
      ParentFacts(fs, m);
      assert NodeOk(fs, m);
      var p := ParentOr(fs, m);
      UnderIsPrefix(fs, p, n);
      var a, b := NamesTo(fs, n), NamesTo(fs, m);
      if a <= b && m != n {
        if |a| == |b| {
          NamesInjective(fs, m, n);
        }
        assert NamesTo(fs, p) == b[..|b| - 1];
      }
    }
  }

  // ----- creating

  lemma NewId(fs: Fs)
    requires TreeOk(fs)
    ensures fs.next !in fs.nodes
  {
    assert fs.next in fs.nodes ==> NodeOk(fs, fs.next);
  }

  /** `m`'s record and the records of its relatives are what they were. */
  lemma KidsSame(fs: Fs, other: Fs, id: Id, kids: seq<Id>)
    requires KidsOk(fs, id, kids)
    requires forall k | k in kids ::
               k in fs.nodes && k in other.nodes && other.nodes[k].name == fs.nodes[k].name
                   && other.nodes[k].parent == fs.nodes[k].parent
    ensures KidsOk(other, id, kids)
  {
    forall i | 0 <= i < |kids| ensures kids[i] in other.nodes && id < kids[i]
           && other.nodes[kids[i]].parent == Some(id) {
      assert kids[i] in kids;
    }
    forall i, j | 0 <= i < j < |kids| ensures other.nodes[kids[i]].name != other.nodes[kids[j]].name {
      assert kids[i] in kids && kids[j] in kids;
    }
  }

  lemma NodeNewKeeps(fs: Fs, name: Str, kind: Kind, parent: Id)
    requires TreeOk(fs) && parent in fs.nodes && fs.nodes[parent].kind == Directory
    requires NameOk(name) && FindChild(fs, parent, name) == None
    ensures TreeOk(NodeNew(fs, name, kind, parent))
  {
    hide FindChild, NameOk;
    NewId(fs);
    var r := NodeNew(fs, name, kind, parent);
    assert r.nodes.Keys == fs.nodes.Keys + {fs.next};
    assert |r.nodes| == |fs.nodes| + 1;
    forall id | id in r.nodes ensures NodeOk(r, id) {
      if id == fs.next {
        assert NodeOk(fs, parent);
        assert KidsOk(r, id, []);
        assert r.nodes[parent].children[|fs.nodes[parent].children|] == id;
      } else {
        assert NodeOk(fs, id);
        NodeNewOld(fs, name, kind, parent, id);
      }
    }
  }

  lemma NodeNewOld(fs: Fs, name: Str, kind: Kind, parent: Id, id: Id)
    requires TreeOk(fs) && parent in fs.nodes && fs.nodes[parent].kind == Directory
    requires NameOk(name) && FindChild(fs, parent, name) == None
    requires id in fs.nodes && NodeOk(fs, id) && fs.next !in fs.nodes
    ensures NodeOk(NodeNew(fs, name, kind, parent), id)
  {
    var r := NodeNew(fs, name, kind, parent);
    var kids := fs.nodes[id].children;
    assert forall k | k in kids :: k in fs.nodes by {
      forall k | k in kids ensures k in fs.nodes { var i :| 0 <= i < |kids| && kids[i] == k; }
    }
    KidsSame(fs, r, id, kids);
    if id == parent {
      var grown := kids + [fs.next];
      forall i, j | 0 <= i < j < |grown| ensures r.nodes[grown[i]].name != r.nodes[grown[j]].name {
        if j == |kids| {
          assert grown[i] in kids;
        }
      }
      assert KidsOk(r, id, grown);
    }
    if fs.nodes[id].parent.Some? {
      var p := fs.nodes[id].parent.value;
      assert id in fs.nodes[p].children;
      assert id in r.nodes[p].children;
    }
  }

  lemma {:induction false} NodeNewNames(fs: Fs, name: Str, kind: Kind, parent: Id, m: Id)
    requires TreeOk(fs) && parent in fs.nodes && TreeOk(NodeNew(fs, name, kind, parent)) && fs.next !in fs.nodes
    requires m in fs.nodes
    ensures NamesTo(NodeNew(fs, name, kind, parent), m) == NamesTo(fs, m)
    decreases m
  {
    if m != fs.root {
      assert NodeOk(fs, m) && NodeOk(NodeNew(fs, name, kind, parent), m);
      NodeNewNames(fs, name, kind, parent, fs.nodes[m].parent.value);
    }
  }

  /** The name a creation gives, when there is one, can be a node's name. */
  lemma TargetFacts(fs: Fs, path: Str)
    requires TreeOk(fs) && NulFree(path) && Target(fs, path).Some?
    ensures var (parent, name) := Target(fs, path).value;
            && parent in fs.nodes && fs.nodes[parent].kind == Directory
            && NameOk(name) && FindChild(fs, parent, name) == None
            && path != [] && Components(Buffered(path)) != []
            && name == Components(Buffered(path))[|Components(Buffered(path))| - 1]
            && Fold(fs, Start(fs, path), Components(Buffered(path))[..|Components(Buffered(path))| - 1]) == Some(parent)
  {
    ComponentsAreNames(Buffered(path));
  }

  /** `fs_create` keeps the tree well formed, touches nothing but the parent's child list, and
      names the new node after the path. */
  lemma CreateKeeps(fs: Fs, path: Str, kind: Kind)
    requires TreeOk(fs) && NulFree(path)
    ensures TreeOk(Create(fs, path, kind).0)
    ensures CwdOk(fs) ==> CwdOk(Create(fs, path, kind).0)
    ensures Create(fs, path, kind).1.Some? <==> Target(fs, path).Some?
    ensures Target(fs, path).Some? ==>
              var (parent, name) := Target(fs, path).value;
              var r := Create(fs, path, kind).0;
              && parent in fs.nodes && fs.next !in fs.nodes && fs.next in r.nodes
              && Create(fs, path, kind).1 == Some(fs.next)
              && r == NodeNew(fs, name, kind, parent)
              && NamesTo(r, fs.next) == NamesTo(fs, parent) + [name]
              && forall m | m in fs.nodes :: m in r.nodes && NamesTo(r, m) == NamesTo(fs, m)
  {
    if Target(fs, path).Some? {
      TargetFacts(fs, path);
      var (parent, name) := Target(fs, path).value;
      hide Target, FindChild;
      NewId(fs);
      NodeNewKeeps(fs, name, kind, parent);
      var r := NodeNew(fs, name, kind, parent);
      assert NodeOk(r, fs.next);
      forall m | m in fs.nodes ensures m in r.nodes && NamesTo(r, m) == NamesTo(fs, m) {
        NodeNewNames(fs, name, kind, parent, m);
      }
    }
  }

  /** A walk that found something still finds it after a node is added. */
  lemma {:induction false} FoldAfterNew(fs: Fs, name: Str, kind: Kind, parent: Id, at: Id, cs: seq<Str>)
    requires TreeOk(fs) && parent in fs.nodes && fs.next !in fs.nodes && at in fs.nodes
    requires Fold(fs, at, cs).Some?
    ensures Fold(NodeNew(fs, name, kind, parent), at, cs) == Fold(fs, at, cs)
    decreases |cs|
  {
    if cs != [] {
      FoldDepth(fs, at, [cs[0]]) by { FoldOne(fs, at, cs[0]); }
      FoldOne(fs, at, cs[0]);
      HopAfterNew(fs, name, kind, parent, at, cs[0]);
      FoldAfterNew(fs, name, kind, parent, Hop(fs, at, cs[0]).value, cs[1..]);
    }
  }

  lemma {:induction false} FindAmongSame(fs: Fs, r: Fs, kids: seq<Id>, name: Str)
    requires forall k | k in kids :: k in fs.nodes && k in r.nodes && r.nodes[k].name == fs.nodes[k].name
    ensures FindAmong(r, kids, name) == FindAmong(fs, kids, name)
  {
    if kids != [] {
      assert kids[0] in kids;
      FindAmongSame(fs, r, kids[1..], name);
    }
  }

  lemma {:induction false} FindAmongConcat(fs: Fs, a: seq<Id>, b: seq<Id>, name: Str)
    ensures FindAmong(fs, a + b, name) == if FindAmong(fs, a, name).Some? then FindAmong(fs, a, name)
            else FindAmong(fs, b, name)
  {
    if a == [] {
      assert a + b == b;
    } else {
      assert (a + b)[1..] == a[1..] + b;
      FindAmongConcat(fs, a[1..], b, name);
    }
  }

  lemma KidsInside(fs: Fs, id: Id)
    requires TreeOk(fs) && id in fs.nodes
    ensures forall k | k in fs.nodes[id].children :: k in fs.nodes && k > id && fs.nodes[k].parent == Some(id)
  {
    assert NodeOk(fs, id);
    var kids := fs.nodes[id].children;
    forall k | k in kids ensures k in fs.nodes && k > id && fs.nodes[k].parent == Some(id) {
      var i :| 0 <= i < |kids| && kids[i] == k;
    }
  }

  lemma ChildAfterNew(fs: Fs, name: Str, kind: Kind, parent: Id, at: Id, c: Str)
    requires TreeOk(fs) && parent in fs.nodes && fs.next !in fs.nodes && at in fs.nodes
    ensures FindChild(NodeNew(fs, name, kind, parent), at, c) ==
            if FindChild(fs, at, c).None? && at == parent && fs.nodes[parent].kind == Directory && c == name
                then Some(fs.next)
            else FindChild(fs, at, c)
  {
    var r := NodeNew(fs, name, kind, parent);
    var kids := fs.nodes[at].children;
    KidsInside(fs, at);
    FindAmongSame(fs, r, kids, c);
    if at == parent {
      FindAmongConcat(r, kids, [fs.next], c);
      assert [fs.next][1..] == [];
      assert FindAmong(r, [fs.next], c) == if c == name then Some(fs.next) else None;
    }
  }

  lemma HopAfterNew(fs: Fs, name: Str, kind: Kind, parent: Id, at: Id, c: Str)
    requires TreeOk(fs) && parent in fs.nodes && fs.next !in fs.nodes && at in fs.nodes
    requires Hop(fs, at, c).Some?
    ensures Hop(NodeNew(fs, name, kind, parent), at, c) == Hop(fs, at, c)
  {
    ChildAfterNew(fs, name, kind, parent, at, c);
  }

  /**
   After a successful creation the path leads to the new node, unless its last component is a dot
   name; and every path that led somewhere still leads there.
   */
  lemma CreateResolves(fs: Fs, path: Str, kind: Kind)
    requires Valid(fs) && NulFree(path) && Target(fs, path).Some?
    ensures Resolve(Create(fs, path, kind).0, path) == Some(fs.next) <==> !IsDots(Target(fs, path).value.1)
  {
    hide Target, NamesTo, FindChild, Fold, Components, Buffered, NameOk, NodeOk;
    TargetFacts(fs, path);
    CreateKeeps(fs, path, kind);
    var (parent, name) := Target(fs, path).value;
    var r := Create(fs, path, kind).0;
    var cs := Components(Buffered(path));
    assert cs == cs[..|cs| - 1] + [name];
    FoldAfterNew(fs, name, kind, parent, Start(fs, path), cs[..|cs| - 1]);
    FoldConcat(r, Start(fs, path), cs[..|cs| - 1], [name]);
    FoldOne(r, parent, name);
    ChildAfterNew(fs, name, kind, parent, parent, name);
    SlashAlone();
    assert Resolve(r, path) == Hop(r, parent, name);
    ParentFacts(fs, parent);
    ParentFacts(r, parent);
  }

  lemma CreateFrame(fs: Fs, path: Str, kind: Kind, other: Str)
    requires Valid(fs) && NulFree(path) && Resolve(fs, other).Some?
    ensures Resolve(Create(fs, path, kind).0, other) == Resolve(fs, other)
  {
    if Target(fs, path).Some? && other != [] && other != [SLASH] {
      CreateKeeps(fs, path, kind);
      var (parent, name) := Target(fs, path).value;
      FoldAfterNew(fs, name, kind, parent, Start(fs, other), Components(Buffered(other)));
    }
  }

  /** Writing changes one file's contents and nothing about the shape of the tree. */
  lemma WriteKeeps(fs: Fs, id: Id, bytes: Str, append: bool)
    requires TreeOk(fs)
    ensures TreeOk(Write(fs, id, bytes, append))
    ensures CwdOk(fs) ==> CwdOk(Write(fs, id, bytes, append))
    ensures forall m :: m in Write(fs, id, bytes, append).nodes <==> m in fs.nodes
    ensures forall m | m in fs.nodes :: NamesTo(Write(fs, id, bytes, append), m) == NamesTo(fs, m)
  {
    hide NodeOk, NamesTo;
    var r := Write(fs, id, bytes, append);
    assert r.nodes.Keys == fs.nodes.Keys;
    forall m | m in r.nodes ensures NodeOk(r, m) {
      WriteNode(fs, id, bytes, append, m);
    }
    assert |r.nodes| == |r.nodes.Keys| && |fs.nodes.Keys| == |fs.nodes|;
    forall m | m in fs.nodes ensures NamesTo(r, m) == NamesTo(fs, m) {
      WriteNames(fs, id, bytes, append, m);
    }
  }

  lemma WriteNode(fs: Fs, id: Id, bytes: Str, append: bool, m: Id)
    requires TreeOk(fs) && m in fs.nodes
    ensures m in Write(fs, id, bytes, append).nodes && NodeOk(Write(fs, id, bytes, append), m)
  {
    hide KidsOk;
    assert NodeOk(fs, m);
    KidsInside(fs, m);
    KidsSame(fs, Write(fs, id, bytes, append), m, fs.nodes[m].children);
  }

  lemma {:induction false} WriteNames(fs: Fs, id: Id, bytes: Str, append: bool, m: Id)
    requires TreeOk(fs) && TreeOk(Write(fs, id, bytes, append)) && m in fs.nodes
    ensures NamesTo(Write(fs, id, bytes, append), m) == NamesTo(fs, m)
    decreases m
  {
    if m != fs.root {
      assert NodeOk(fs, m) && NodeOk(Write(fs, id, bytes, append), m);
      WriteNames(fs, id, bytes, append, fs.nodes[m].parent.value);
    }
  }

  // ----- removing

  /** Writing a file moves no path: whatever resolved before resolves to the same node after. */
  lemma WriteResolves(fs: Fs, id: Id, bytes: Str, append: bool, path: Str)
    ensures Resolve(Write(fs, id, bytes, append), path) == Resolve(fs, path)
  {
    if path != [] && path != [SLASH] {
      FoldAfterWrite(fs, id, bytes, append, Start(fs, path), Components(Buffered(path)));
    }
  }

  lemma {:induction false} FoldAfterWrite(fs: Fs, id: Id, bytes: Str, append: bool, at: Id, cs: seq<Str>)
    ensures Fold(Write(fs, id, bytes, append), at, cs) == Fold(fs, at, cs)
    decreases |cs|
  {
    if cs != [] {
      HopAfterWrite(fs, id, bytes, append, at, cs[0]);
      hide Hop, Write;
      if Hop(fs, at, cs[0]).Some? {
        FoldAfterWrite(fs, id, bytes, append, Hop(fs, at, cs[0]).value, cs[1..]);
      }
    }
  }

  lemma HopAfterWrite(fs: Fs, id: Id, bytes: Str, append: bool, at: Id, c: Str)
    ensures Hop(Write(fs, id, bytes, append), at, c) == Hop(fs, at, c)
  {
    if at in fs.nodes {
      FindAmongWritten(fs, id, bytes, append, fs.nodes[at].children, c);
    }
  }

  lemma {:induction false} FindAmongWritten(fs: Fs, id: Id, bytes: Str, append: bool, kids: seq<Id>, name: Str)
    ensures FindAmong(Write(fs, id, bytes, append), kids, name) == FindAmong(fs, kids, name)
  {
    if kids != [] {
      FindAmongWritten(fs, id, bytes, append, kids[1..], name);
    }
  }

  lemma {:induction false} WithoutFacts(fs: Fs, id: Id, kids: seq<Id>, n: Id)
    requires KidsOk(fs, id, kids)
    ensures KidsOk(fs, id, Without(kids, n))
    ensures forall k :: k in Without(kids, n) <==> k in kids && k != n
    ensures |Without(kids, n)| <= |kids|
  {
    if kids != [] {
      var rest := kids[1..];
      assert forall i | 0 <= i < |rest| :: rest[i] == kids[i + 1];
      assert kids == [kids[0]] + rest;
      assert KidsOk(fs, id, rest);
      assert kids[0] !in rest;
      WithoutFacts(fs, id, rest, n);
      if kids[0] != n {
        WithoutCons(fs, id, kids[0], rest, Without(rest, n));
      }
    }
  }

  lemma WithoutCons(fs: Fs, id: Id, k: Id, rest: seq<Id>, w: seq<Id>)
    requires KidsOk(fs, id, [k] + rest) && KidsOk(fs, id, w) && forall x | x in w :: x in rest
    ensures KidsOk(fs, id, [k] + w)
  {
    var a, b := [k] + rest, [k] + w;
    assert a[0] == k;
    forall i, j | 0 <= i < j < |b| ensures fs.nodes[b[i]].name != fs.nodes[b[j]].name {
      if i == 0 {
        assert w[j - 1] in w;
        var x :| 0 <= x < |rest| && rest[x] == w[j - 1];
        assert a[x + 1] == b[j];
      } else {
        assert b[i] == w[i - 1] && b[j] == w[j - 1];
      }
    }
  }

  /** The subtree holds a node exactly when it holds the node's parent, save its own top. */
  lemma SubtreeStep(fs: Fs, n: Id, m: Id)
    requires TreeOk(fs) && m in fs.nodes && n in fs.nodes && n != fs.root
    ensures fs.root !in Subtree(fs, n) && n in Subtree(fs, n)
    ensures m != fs.root ==>
              ParentOr(fs, m) in fs.nodes && (m in Subtree(fs, n) <==> m == n || ParentOr(fs, m) in Subtree(fs, n))
  {
    assert NodeOk(fs, m) && NodeOk(fs, fs.root);
  }

  lemma PruneMembers(fs: Fs, n: Id)
    requires TreeOk(fs) && n in fs.nodes && n != fs.root
    ensures Prune(fs, n).nodes.Keys == fs.nodes.Keys - Subtree(fs, n)
    ensures Prune(fs, n).count == |Prune(fs, n).nodes|
    ensures forall m | m in Prune(fs, n).nodes ::
              Prune(fs, n).nodes[m] == (if m == ParentOr(fs, n)
                  then fs.nodes[m].(children := Without(fs.nodes[m].children, n)) else fs.nodes[m])
  {
    hide Under, KidsOk, Without;
    var gone := Subtree(fs, n);
    assert gone <= fs.nodes.Keys;
    assert NodeOk(fs, n);
    hide Subtree, NodeOk;
    var p := ParentOr(fs, n);
    DropKeys(fs.nodes[p := fs.nodes[p].(children := Without(fs.nodes[p].children, n))], gone);
    assert |fs.nodes.Keys| == |fs.nodes|;
  }

  lemma DropKeys(m: map<Id, Node>, gone: set<Id>)
    requires gone <= m.Keys
    ensures (m - gone).Keys == m.Keys - gone && |m - gone| == |m.Keys| - |gone|
  {
    assert |m.Keys - gone| == |m.Keys| - |gone|;
    assert |m - gone| == |(m - gone).Keys|;
  }

  lemma PruneKids(fs: Fs, n: Id, m: Id)
    requires TreeOk(fs) && n in fs.nodes && n != fs.root && m in fs.nodes && m !in Subtree(fs, n)
    ensures KidsOk(Prune(fs, n), m, Prune(fs, n).nodes[m].children)
  {
    PruneMembers(fs, n);
    var r := Prune(fs, n);
    var kids := r.nodes[m].children;
    assert NodeOk(fs, m);
    WithoutFacts(fs, m, fs.nodes[m].children, n);
    KidsInside(fs, m);
    assert KidsOk(fs, m, kids);
    forall k | k in kids ensures k in r.nodes && r.nodes[k].name == fs.nodes[k].name
           && r.nodes[k].parent == fs.nodes[k].parent && k in fs.nodes {
      assert k in fs.nodes[m].children;
      assert NodeOk(fs, k);
      SubtreeStep(fs, n, k);
      assert k != n;
    }
    KidsSame(fs, r, m, kids);
  }

  lemma PruneNode(fs: Fs, n: Id, m: Id)
    requires TreeOk(fs) && n in fs.nodes && n != fs.root && m in fs.nodes && m !in Subtree(fs, n)
    ensures m in Prune(fs, n).nodes && NodeOk(Prune(fs, n), m)
  {
    PruneMembers(fs, n);
    PruneKids(fs, n, m);
    assert NodeOk(fs, m);
    SubtreeStep(fs, n, m);
    if m != fs.root {
      var p := ParentOr(fs, m);
      assert NodeOk(fs, p);
      WithoutFacts(fs, p, fs.nodes[p].children, n);
    }
    if fs.nodes[m].kind == File {
      assert Without([], n) == [];
    }
  }

  /** `fs_remove` keeps the tree well formed and its counter right; the working directory stays
      valid exactly when it does not lie in the removed subtree. */
  lemma PruneKeeps(fs: Fs, n: Id)
    requires TreeOk(fs) && n in fs.nodes && n != fs.root
    ensures TreeOk(Prune(fs, n))
    ensures CwdOk(fs) ==> (CwdOk(Prune(fs, n)) <==> !Under(fs, fs.cwd, n))
    ensures forall m :: m in Prune(fs, n).nodes <==> m in fs.nodes && !Under(fs, m, n)
  {
    PruneMembers(fs, n);
    var r := Prune(fs, n);
    SubtreeStep(fs, n, n);
    forall m | m in r.nodes ensures NodeOk(r, m) {
      PruneNode(fs, n, m);
    }
  }

  lemma {:induction false} PruneNames(fs: Fs, n: Id, m: Id)
    requires TreeOk(fs) && n in fs.nodes && n != fs.root && TreeOk(Prune(fs, n)) && m in fs.nodes
             && m in Prune(fs, n).nodes
    ensures NamesTo(Prune(fs, n), m) == NamesTo(fs, m)
    decreases m
  {
    PruneMembers(fs, n);
    if m != fs.root {
      assert NodeOk(fs, m) && NodeOk(Prune(fs, n), m);
      PruneNames(fs, n, fs.nodes[m].parent.value);
    }
  }

  /** The walk starts and stays outside the subtree at `n`. */
  ghost predicate Avoids(fs: Fs, at: Id, cs: seq<Str>, n: Id)
    requires TreeOk(fs)
    decreases |cs|
  {
    && at in fs.nodes && !Under(fs, at, n)
    && (cs == [] || (Hop(fs, at, cs[0]).Some? ==> Avoids(fs, Hop(fs, at, cs[0]).value, cs[1..], n)))
  }

  lemma {:induction false} FindAmongWithout(fs: Fs, kids: seq<Id>, name: Str, n: Id)
    requires FindAmong(fs, kids, name).Some? && FindAmong(fs, kids, name).value != n
    ensures FindAmong(fs, Without(kids, n), name) == FindAmong(fs, kids, name)
  {
    if !(kids[0] in fs.nodes && fs.nodes[kids[0]].name == name) && kids[0] != n {
      FindAmongWithout(fs, kids[1..], name, n);
      assert Without(kids, n)[1..] == Without(kids[1..], n);
    }
  }

  lemma HopStays(fs: Fs, n: Id, at: Id, c: Str)
    requires TreeOk(fs) && n in fs.nodes && n != fs.root && at in fs.nodes && !Under(fs, at, n)
    requires Hop(fs, at, c).Some? && Hop(fs, at, c).value in fs.nodes && !Under(fs, Hop(fs, at, c).value, n)
    ensures Hop(Prune(fs, n), at, c) == Hop(fs, at, c)
  {
    PruneMembers(fs, n);
    if c != SELF && c != UP {
      var r := Prune(fs, n);
      var kids := fs.nodes[at].children;
      var found := Hop(fs, at, c).value;
      assert Under(fs, n, n);
      if at == ParentOr(fs, n) {
        FindAmongWithout(fs, kids, c, n);
      }
      KidsInside(fs, at);
      FindAmongPruned(fs, n, r.nodes[at].children, c);
    }
  }

  lemma {:induction false} FindAmongPruned(fs: Fs, n: Id, kids: seq<Id>, name: Str)
    requires TreeOk(fs) && n in fs.nodes && n != fs.root
    requires FindAmong(fs, kids, name).Some? && !Under(fs, FindAmong(fs, kids, name).value, n)
    ensures FindAmong(Prune(fs, n), kids, name) == FindAmong(fs, kids, name)
  {
    PruneMembers(fs, n);
    if !(kids[0] in fs.nodes && fs.nodes[kids[0]].name == name) {
      FindAmongPruned(fs, n, kids[1..], name);
    }
  }

  lemma FindAmongNone(fs: Fs, kids: seq<Id>, name: Str, k: Id)
    requires k in kids && k in fs.nodes && fs.nodes[k].name == name
    ensures FindAmong(fs, kids, name).Some?
  {
  }

  /** A step after a removal is the step before it, unless that one led into what was removed. */
  lemma HopPruned(fs: Fs, n: Id, at: Id, c: Str)
    requires TreeOk(fs) && n in fs.nodes && n != fs.root && at in fs.nodes && !Under(fs, at, n)
    ensures Hop(fs, at, c).Some? ==> Hop(fs, at, c).value in fs.nodes
    ensures Hop(Prune(fs, n), at, c) ==
            if Hop(fs, at, c).Some? && !Under(fs, Hop(fs, at, c).value, n) then Hop(fs, at, c) else None
  {
    hide TreeOk, NodeOk, Prune, Under, FindChild;
    HopInside(fs, at, c);
    if Hop(fs, at, c).Some? && !Under(fs, Hop(fs, at, c).value, n) {
      HopStays(fs, n, at, c);
    } else {
      HopLost(fs, n, at, c);
    }
  }

  lemma HopInside(fs: Fs, at: Id, c: Str)
    requires TreeOk(fs) && at in fs.nodes
    ensures Hop(fs, at, c).Some? ==> Hop(fs, at, c).value in fs.nodes
  {
    ParentFacts(fs, at);
  }

  lemma HopLost(fs: Fs, n: Id, at: Id, c: Str)
    requires TreeOk(fs) && n in fs.nodes && n != fs.root && at in fs.nodes && !Under(fs, at, n)
    requires Hop(fs, at, c).Some? ==> Under(fs, Hop(fs, at, c).value, n)
    ensures Hop(Prune(fs, n), at, c) == None
  {
    var r := Prune(fs, n);
    PruneMembers(fs, n);
    SubtreeStep(fs, n, at);
    if Hop(r, at, c).Some? && c != SELF && c != UP {
      var k := Hop(r, at, c).value;
      var kids := fs.nodes[at].children;
      assert NodeOk(fs, at);
      WithoutFacts(fs, at, kids, n);
      FindAmongNone(fs, kids, c, k);
      SameName(fs, at, kids, k, FindAmong(fs, kids, c).value);
    }
  }

  lemma SameName(fs: Fs, at: Id, kids: seq<Id>, a: Id, b: Id)
    requires KidsOk(fs, at, kids) && a in kids && b in kids && fs.nodes[a].name == fs.nodes[b].name
    ensures a == b
  {
  }

  /** After a removal a walk ends where it did if it stays outside the removed subtree, and otherwise nowhere. */
  lemma {:induction false} FoldAfterPrune(fs: Fs, n: Id, at: Id, cs: seq<Str>)
    requires TreeOk(fs) && n in fs.nodes && n != fs.root && at in fs.nodes && !Under(fs, at, n)
    ensures Fold(Prune(fs, n), at, cs) == if Avoids(fs, at, cs, n) then Fold(fs, at, cs) else None
    decreases |cs|
  {
    hide TreeOk, Prune, Under, Hop;
    if cs != [] {
      HopPruned(fs, n, at, cs[0]);
      if Hop(fs, at, cs[0]).Some? && !Under(fs, Hop(fs, at, cs[0]).value, n) {
        FoldAfterPrune(fs, n, Hop(fs, at, cs[0]).value, cs[1..]);
      }
    }
  }

  /**
   Removal and paths: a path leads where it did if its walk stayed outside the removed subtree,
   and nowhere if it did not; no path leads anywhere new.
   */
  lemma RemoveResolves(fs: Fs, n: Id, other: Str)
    requires Valid(fs) && n in fs.nodes && n != fs.root && !Under(fs, fs.cwd, n)
    ensures other != [] ==>
              Resolve(Prune(fs, n), other) ==
              if Avoids(fs, Start(fs, other), Components(Buffered(other)), n) then Resolve(fs, other) else None
    ensures Resolve(Prune(fs, n), []) == Resolve(fs, [])
    ensures Resolve(Prune(fs, n), other).Some? ==>
              Resolve(Prune(fs, n), other).value in fs.nodes && !Under(fs, Resolve(Prune(fs, n), other).value, n)
  {
    PruneKeeps(fs, n);
    SubtreeStep(fs, n, n);
    var r := Prune(fs, n);
    if other != [] {
      var cs := Components(Buffered(other));
      SlashAlone();
      FoldAfterPrune(fs, n, Start(fs, other), cs);
      if Resolve(r, other).Some? {
        FoldDepth(r, Start(r, other), cs);
      }
    }
  }

  // ----- freeing, child by child

  ghost predicate BelowSome(fs: Fs, m: Id, kids: seq<Id>)
    requires TreeOk(fs) && m in fs.nodes
  { exists k :: k in kids && k in fs.nodes && Under(fs, m, k) }

  /** Everything at or below one of these nodes. */
  ghost function KidTrees(fs: Fs, kids: seq<Id>): set<Id>
    requires TreeOk(fs)
  { set m | m in fs.nodes && BelowSome(fs, m, kids) }

  lemma {:induction false} UnderLe(fs: Fs, m: Id, n: Id)
    requires TreeOk(fs) && m in fs.nodes && Under(fs, m, n)
    ensures n <= m && n in fs.nodes
    decreases m
  {
    if m != n {
      UnderLe(fs, fs.nodes[m].parent.value, n);
    }
  }

  lemma {:induction false} UnderTrans(fs: Fs, m: Id, n: Id, top: Id)
    requires TreeOk(fs) && m in fs.nodes && n in fs.nodes && Under(fs, m, n) && Under(fs, n, top)
    ensures Under(fs, m, top)
    decreases m
  {
    if m != n {
      UnderTrans(fs, fs.nodes[m].parent.value, n, top);
    }
  }

  lemma {:induction false} UnderRoot(fs: Fs, m: Id)
    requires TreeOk(fs) && m in fs.nodes
    ensures Under(fs, m, fs.root)
    decreases m
  {
    assert NodeOk(fs, m);
    if m != fs.root {
      UnderRoot(fs, fs.nodes[m].parent.value);
    }
  }

  /** Of two nodes above a third, one is above the other. */
  lemma {:induction false} UnderComparable(fs: Fs, m: Id, a: Id, b: Id)
    requires TreeOk(fs) && m in fs.nodes && a in fs.nodes && b in fs.nodes && Under(fs, m, a) && Under(fs, m, b)
    ensures Under(fs, a, b) || Under(fs, b, a)
    decreases m
  {
    if m != a && m != b {
      UnderComparable(fs, fs.nodes[m].parent.value, a, b);
    }
  }

  lemma KidTreesSnoc(fs: Fs, a: seq<Id>, k: Id)
    requires TreeOk(fs) && k in fs.nodes
    ensures KidTrees(fs, a + [k]) == KidTrees(fs, a) + Subtree(fs, k)
  {
    forall m | m in fs.nodes ensures BelowSome(fs, m, a + [k]) <==> BelowSome(fs, m, a) || Under(fs, m, k) {
      assert k in a + [k];
      if x :| x in a + [k] && x in fs.nodes && Under(fs, m, x) {
        assert x in a || x == k;
      }
      if x :| x in a && x in fs.nodes && Under(fs, m, x) {
        assert x in a + [k];
      }
    }
  }

  lemma ChildUnder(fs: Fs, k: Id, id: Id)
    requires TreeOk(fs) && id in fs.nodes && k in fs.nodes[id].children
    ensures k in fs.nodes && Under(fs, k, id) && !Under(fs, id, k)
  {
    KidsInside(fs, id);
    assert NodeOk(fs, k);
    if Under(fs, id, k) {
      UnderLe(fs, id, k);
    }
  }

  /** Distinct children have disjoint subtrees. */
  lemma KidTreesApart(fs: Fs, id: Id, k: nat, m: Id)
    requires TreeOk(fs) && id in fs.nodes && k < |fs.nodes[id].children|
    requires m in fs.nodes && Under(fs, m, fs.nodes[id].children[k])
    ensures !BelowSome(fs, m, fs.nodes[id].children[..k])
    ensures BelowSome(fs, m, fs.nodes[id].children)
  {
    var kids := fs.nodes[id].children;
    var b := kids[k];
    assert b in kids;
    KidsInside(fs, id);
    forall a | a in kids[..k] && a in fs.nodes ensures !Under(fs, m, a) {
      var i :| 0 <= i < k && kids[i] == a;
      assert a in kids;
      if Under(fs, m, a) {
        SiblingsApart(fs, id, i, k);
        UnderComparable(fs, m, a, b);
      }
    }
  }

  lemma SiblingsApart(fs: Fs, id: Id, i: nat, k: nat)
    requires TreeOk(fs) && id in fs.nodes && i < k < |fs.nodes[id].children|
    ensures var kids := fs.nodes[id].children;
            kids[i] in fs.nodes && kids[k] in fs.nodes && !Under(fs, kids[i], kids[k]) && !Under(fs, kids[k], kids[i])
  {
    var kids := fs.nodes[id].children;
    assert NodeOk(fs, id);
    var a, b := kids[i], kids[k];
    assert a in kids && b in kids;
    ChildUnder(fs, a, id);
    ChildUnder(fs, b, id);
    assert fs.nodes[a].parent == Some(id) && fs.nodes[b].parent == Some(id);
  }

  lemma TreesApart(fs: Fs, id: Id, k: nat)
    requires TreeOk(fs) && id in fs.nodes && k < |fs.nodes[id].children|
    ensures var kids := fs.nodes[id].children;
            Subtree(fs, kids[k]) !! KidTrees(fs, kids[..k]) && Subtree(fs, kids[k]) <= KidTrees(fs, kids)
  {
    var kids := fs.nodes[id].children;
    forall m | m in Subtree(fs, kids[k]) ensures m !in KidTrees(fs, kids[..k]) && m in KidTrees(fs, kids) {
      KidTreesApart(fs, id, k, m);
    }
  }

  lemma IdBelowNext(fs: Fs, id: Id)
    requires TreeOk(fs) && id in fs.nodes
    ensures id < fs.next
  {
    assert NodeOk(fs, id);
  }

  /** What unlinking `n` needs to know. */
  lemma UnlinkFacts(fs: Fs, n: Id)
    requires TreeOk(fs) && n in fs.nodes && n != fs.root
    ensures fs.nodes[n].parent == Some(ParentOr(fs, n)) && ParentOr(fs, n) in fs.nodes
            && ParentOr(fs, n) !in Subtree(fs, n)
    ensures Subtree(fs, n) <= fs.nodes.Keys && TreeOk(Prune(fs, n))
    ensures Prune(fs, n).count == |Prune(fs, n).nodes| && fs.count == |fs.nodes|
  {
    assert NodeOk(fs, n);
    ChildUnder(fs, n, ParentOr(fs, n));
    PruneKeeps(fs, n);
  }

  lemma KidTreesNil(fs: Fs)
    requires TreeOk(fs)
    ensures KidTrees(fs, []) == {}
  {
  }

  lemma MinusTwice(m: map<Id, Node>, a: set<Id>, b: set<Id>)
    ensures (m - a) - b == m - (a + b)
  {
  }

  /** A subtree is its top and the subtrees of its children. */
  lemma SubtreeSplits(fs: Fs, id: Id)
    requires TreeOk(fs) && id in fs.nodes
    ensures Subtree(fs, id) == {id} + KidTrees(fs, fs.nodes[id].children)
    ensures id !in KidTrees(fs, fs.nodes[id].children)
  {
    var kids := fs.nodes[id].children;
    assert NodeOk(fs, id);
    forall m | m in fs.nodes ensures Under(fs, m, id) <==> m == id || BelowSome(fs, m, kids) {
      if k :| k in kids && k in fs.nodes && Under(fs, m, k) {
        ChildUnder(fs, k, id);
        UnderTrans(fs, m, k, id);
      }
      if Under(fs, m, id) && m != id {
        UnderSomeChild(fs, m, id);
      }
    }
    forall k | k in kids && k in fs.nodes ensures !Under(fs, id, k) {
      ChildUnder(fs, k, id);
    }
  }

  lemma {:induction false} UnderSomeChild(fs: Fs, m: Id, id: Id)
    requires TreeOk(fs) && m in fs.nodes && id in fs.nodes && Under(fs, m, id) && m != id
    ensures BelowSome(fs, m, fs.nodes[id].children)
    decreases m
  {
    assert NodeOk(fs, m);
    var p := fs.nodes[m].parent.value;
    if p == id {
      assert Under(fs, m, m);
    } else {
      UnderSomeChild(fs, p, id);
      var k :| k in fs.nodes[id].children && k in fs.nodes && Under(fs, p, k);
      assert Under(fs, m, k);
    }
  }

  lemma RootCovers(fs: Fs)
    requires TreeOk(fs)
    ensures KidTrees(fs, fs.nodes[fs.root].children) == fs.nodes.Keys - {fs.root}
  {
    SubtreeSplits(fs, fs.root);
    forall m | m in fs.nodes ensures m in Subtree(fs, fs.root) {
      UnderRoot(fs, m);
    }
  }
}

/** Whole runs of file system operations, from the bare root on. */
module FsRuns {
  import opened Bytes
  import opened Paths
  import opened FsSpec

  datatype Op =
    | Make(path: Str, kind: Kind)
    | Store(path: Str, bytes: Str, append: bool)
    | Remove(path: Str)
    | ChangeDir(path: Str)
    | Clear

  /** Nothing lies below a dot name. */
  ghost predicate Walked(fs: Fs) {
    && Valid(fs) && NoDots(NamesTo(fs, fs.cwd))
    && forall id | id in fs.nodes :: NoDots(Above(NamesTo(fs, id)))
  }

  /** Strings without NUL, and no removal from under the current directory. */
  ghost predicate Legal(fs: Fs, op: Op)
    requires Valid(fs)
  {
    match op
    case Make(path, _) => NulFree(path)
    case Remove(path) => RemovalOf(fs, path).Removed? ==> !Under(fs, fs.cwd, RemovalOf(fs, path).id)
    case _ => true
  }

  ghost function Apply(fs: Fs, op: Op): Fs
    requires Valid(fs) && Legal(fs, op)
  {
    match op
    case Make(path, kind) => Create(fs, path, kind).0
    case Store(path, bytes, append) =>
      var n := Resolve(fs, path);
      if n == None then fs else Write(fs, n.value, bytes, append)
    case Remove(path) => if RemovalOf(fs, path).Removed? then Prune(fs, RemovalOf(fs, path).id) else fs
    case ChangeDir(path) =>
      var n := Resolve(fs, path);
      if n.Some? && n.value in fs.nodes && fs.nodes[n.value].kind == Directory then fs.(cwd := n.value) else fs
    case Clear => Reset(fs)
  }

  /** A walk passes through and ends at nodes whose names are no dot names. */
  lemma {:induction false} FoldWalked(fs: Fs, at: Id, cs: seq<Str>)
    requires TreeOk(fs) && at in fs.nodes && NoDots(NamesTo(fs, at)) && Fold(fs, at, cs).Some?
    ensures Fold(fs, at, cs).value in fs.nodes && NoDots(NamesTo(fs, Fold(fs, at, cs).value))
    decreases |cs|
  {
    hide TreeOk, NamesTo, FindChild;
    if cs != [] {
      var step := Hop(fs, at, cs[0]).value;
      ParentFacts(fs, at);
      if cs[0] == UP {
        if at != fs.root {
          DotsSnoc(NamesTo(fs, ParentOr(fs, at)), fs.nodes[at].name);
        }
      } else if cs[0] != SELF {
        FindChildFacts(fs, at, cs[0]);
        ParentFacts(fs, step);
        DotsSnoc(NamesTo(fs, at), cs[0]);
      }
      FoldWalked(fs, step, cs[1..]);
    }
  }

  lemma DotsSnoc(names: seq<Str>, name: Str)
    ensures NoDots(names + [name]) <==> NoDots(names) && !IsDots(name)
  {
    var all := names + [name];
    assert forall i | 0 <= i < |names| :: all[i] == names[i];
    assert all[|names|] == name;
  }

  lemma ResolveWalked(fs: Fs, path: Str)
    requires Walked(fs) && Resolve(fs, path).Some?
    ensures Resolve(fs, path).value in fs.nodes && NoDots(NamesTo(fs, Resolve(fs, path).value))
  {
    if path != [] && path != [SLASH] {
      FoldWalked(fs, Start(fs, path), Components(Buffered(path)));
    }
  }

  lemma MakeWalked(fs: Fs, path: Str, kind: Kind)
    requires Walked(fs) && NulFree(path)
    ensures Walked(Create(fs, path, kind).0)
  {
    hide Target, TreeOk, NamesTo, Fold, Components, FindChild;
    CreateKeeps(fs, path, kind);
    if Target(fs, path).Some? {
      TargetFacts(fs, path);
      var (parent, name) := Target(fs, path).value;
      var cs := Components(Buffered(path));
      RootWalked(fs);
      FoldWalked(fs, Start(fs, path), cs[..|cs| - 1]);
      NewNodeIds(fs, name, kind, parent);
      AboveSnoc(NamesTo(fs, parent), name);
    }
  }

  lemma RootWalked(fs: Fs)
    requires TreeOk(fs)
    ensures fs.root in fs.nodes && NoDots(NamesTo(fs, fs.root))
  {
  }

  lemma NewNodeIds(fs: Fs, name: Str, kind: Kind, parent: Id)
    requires parent in fs.nodes
    ensures var r := NodeNew(fs, name, kind, parent); r.cwd == fs.cwd && r.nodes.Keys == fs.nodes.Keys + {fs.next}
  {
  }

  lemma AboveSnoc(names: seq<Str>, name: Str)
    ensures Above(names + [name]) == names
  {
  }

  lemma StoreWalked(fs: Fs, id: Id, bytes: Str, append: bool)
    requires Walked(fs)
    ensures Walked(Write(fs, id, bytes, append))
  {
    WriteKeeps(fs, id, bytes, append);
    assert Write(fs, id, bytes, append).cwd == fs.cwd;
    hide Write, TreeOk, NamesTo;
  }

  lemma RemoveWalked(fs: Fs, n: Id)
    requires Walked(fs) && n in fs.nodes && n != fs.root && !Under(fs, fs.cwd, n)
    ensures Walked(Prune(fs, n))
  {
    PruneKeeps(fs, n);
    var r := Prune(fs, n);
    assert r.cwd == fs.cwd;
    hide Prune, TreeOk, NamesTo, Under;
    forall m | m in r.nodes ensures NamesTo(r, m) == NamesTo(fs, m) {
      PruneNames(fs, n, m);
    }
  }

  lemma ClearWalked(fs: Fs)
    requires Valid(fs)
    ensures Walked(Reset(fs))
  {
    ResetValid(fs);
  }

  lemma ApplyWalked(fs: Fs, op: Op)
    requires Walked(fs) && Legal(fs, op)
    ensures Walked(Apply(fs, op))
  {
    match op {
      case Make(path, kind) => MakeWalked(fs, path, kind);
      case Store(path, bytes, append) =>
        if Resolve(fs, path).Some? {
          StoreWalked(fs, Resolve(fs, path).value, bytes, append);
        }
      case Remove(path) =>
        if RemovalOf(fs, path).Removed? {
          RemoveWalked(fs, RemovalOf(fs, path).id);
        }
      case ChangeDir(path) =>
        if Resolve(fs, path).Some? {
          ResolveWalked(fs, path);
          CwdMoves(fs, Resolve(fs, path).value);
        }
      case Clear => ClearWalked(fs);
    }
  }

  lemma CwdMoves(fs: Fs, dir: Id)
    requires Walked(fs) && dir in fs.nodes && NoDots(NamesTo(fs, dir))
    ensures fs.nodes[dir].kind == Directory ==> Walked(fs.(cwd := dir))
  {
    hide TreeOk, NamesTo, NoDots;
    var r := fs.(cwd := dir);
    CwdTree(fs, dir);
    forall m | m in r.nodes ensures NamesTo(r, m) == NamesTo(fs, m) {
      NamesSame(fs, r, m);
    }
  }

  lemma CwdTree(fs: Fs, dir: Id)
    requires TreeOk(fs)
    ensures TreeOk(fs.(cwd := dir))
  {
    var r := fs.(cwd := dir);
    forall m | m in r.nodes ensures NodeOk(r, m) {
      assert NodeOk(fs, m);
      CwdNode(fs, dir, m);
    }
  }

  lemma CwdNode(fs: Fs, dir: Id, m: Id)
    requires m in fs.nodes && NodeOk(fs, m)
    ensures NodeOk(fs.(cwd := dir), m)
  {
  }

  lemma {:induction false} NamesSame(fs: Fs, r: Fs, m: Id)
    requires TreeOk(fs) && TreeOk(r) && r.nodes == fs.nodes && r.root == fs.root && m in fs.nodes
    ensures NamesTo(r, m) == NamesTo(fs, m)
    decreases m
  {
    if m != fs.root {
      assert NodeOk(fs, m);
      NamesSame(fs, r, fs.nodes[m].parent.value);
    }
  }

  ghost predicate LegalRun(fs: Fs, ops: seq<Op>)
    requires Walked(fs)
    decreases |ops|
  {
    ops == [] || (Legal(fs, ops[0]) && (ApplyWalked(fs, ops[0]); LegalRun(Apply(fs, ops[0]), ops[1..])))
  }

  /** The tree after a run; every directory that a run can make has a path of ordinary names. */
  ghost function Run(fs: Fs, ops: seq<Op>): (r: Fs)
    requires Walked(fs) && LegalRun(fs, ops)
    ensures Walked(r)
    decreases |ops|
  {
    if ops == [] then fs else ApplyWalked(fs, ops[0]); Run(Apply(fs, ops[0]), ops[1..])
  }

  lemma BareWalked()
    ensures Walked(Bare())
  {
    BareValid();
  }

  /** This run of operations makes this tree out of a bare root. */
  ghost predicate MadeBy(fs: Fs, ops: seq<Op>) {
    BareWalked();
    LegalRun(Bare(), ops) && fs == Run(Bare(), ops)
  }
}

/** The file system as the kernel keeps it: the arena is rewritten node by node. */
module RamFs {
  import opened Bytes
  import opened Paths
  import opened FsSpec

  /** The component loop of `walk`, from index `i` of the buffer: skips slashes, collects at most
      what a name buffer holds, skips an over-long tail. */
  method NextComponent(buffer: Str, start: nat) returns (component: Str, i: nat)
    requires start < |buffer| && buffer[start] != SLASH
    ensures start < i <= |buffer|
    ensures Components(buffer[start..]) == [component] + Components(buffer[i..])
    ensures i < |buffer| ==> buffer[i] == SLASH
  {
    i := start;
    component := [];
    while i < |buffer| && buffer[i] != SLASH && |component| < NAME_MAX - 1
      invariant start <= i <= |buffer| && component == buffer[start..i]
      invariant SLASH !in buffer[start..i] && |component| <= NAME_MAX - 1
    {
      component := component + [buffer[i]];
      i := i + 1;
    }
    while i < |buffer| && buffer[i] != SLASH
      invariant start < i <= |buffer| && SLASH !in buffer[start..i]
      invariant component == Truncate(buffer[start..i], NAME_MAX - 1)
    {
      i := i + 1;
    }
    ComponentsWord(buffer[start..i], buffer[i..]);
    assert buffer[start..] == buffer[start..i] + buffer[i..];
  }

  /** Skips a run of slashes. */
  method SkipSlashes(buffer: Str, start: nat) returns (i: nat)
    requires start <= |buffer|
    ensures start <= i <= |buffer| && (i < |buffer| ==> buffer[i] != SLASH)
    ensures Components(buffer[start..]) == Components(buffer[i..])
    ensures i == |buffer| <==> Components(buffer[start..]) == []
  {
    i := start;
    while i < |buffer| && buffer[i] == SLASH
      invariant start <= i <= |buffer|
      invariant Components(buffer[start..]) == Components(buffer[i..])
    {
      assert buffer[i..][1..] == buffer[i + 1..];
      i := i + 1;
    }
    if i == |buffer| {
      assert buffer[i..] == [];
    }
  }

  /** `find_child`: the sibling loop. */
  method FindChildNode(fs: Fs, dir: Id, name: Str) returns (r: Option<Id>)
    requires TreeOk(fs) && dir in fs.nodes
    ensures r == FindChild(fs, dir, name)
  {
    if fs.nodes[dir].kind != Directory {
      return None;
    }
    KidsInside(fs, dir);
    var kids := fs.nodes[dir].children;
    var k := 0;
    while k < |kids|
      invariant k <= |kids|
      invariant FindAmong(fs, kids, name) == FindAmong(fs, kids[k..], name)
    {
      assert kids[k..][1..] == kids[k + 1..];
      assert kids[k] in kids;
      if fs.nodes[kids[k]].name == name {
        return Some(kids[k]);
      }
      k := k + 1;
    }
    assert kids[k..] == [];
    return None;
  }

  /** One component: `.` stays, `..` goes up and stops at the root, a name goes down. */
  method HopNode(fs: Fs, node: Id, component: Str) returns (r: Option<Id>)
    requires TreeOk(fs) && node in fs.nodes
    ensures r == Hop(fs, node, component)
    ensures r.Some? ==> r.value in fs.nodes
  {
    if component == SELF {
      return Some(node);
    }
    if component == UP {
      ParentFacts(fs, node);
      return Some(if fs.nodes[node].parent.Some? then fs.nodes[node].parent.value else fs.root);
    }
    r := FindChildNode(fs, node, component);
    if r.Some? {
      FindChildFacts(fs, node, component);
    }
  }

  /** `walk`: the index-driven loop over the buffered path equals the fold over its components. */
  method Walk(fs: Fs, path: Str, stopBeforeLast: bool) returns (r: Option<Id>, last: Str)
    requires Valid(fs)
    ensures stopBeforeLast ==> (r, last) == WalkToLast(fs, path)
    ensures !stopBeforeLast ==> r == WalkAll(fs, path)
  {
    hide Components, Fold, WalkToLast, WalkAll, Hop, TreeOk;
    if path == [] {
      WalkNothing(fs);
      return None, [];
    }
    var buffer := Buffered(path);
    var node := if buffer[0] == SLASH then fs.root else fs.cwd;
    var i := if buffer[0] == SLASH then 1 else 0;
    ghost var at, done, rest := Start(fs, path), [], Components(buffer);
    WalkBegins(fs, path);
    while i < |buffer|
      invariant i <= |buffer| && node in fs.nodes
      invariant Components(buffer) == done + rest && rest == Components(buffer[i..])
      invariant Fold(fs, at, done) == Some(node)
      invariant stopBeforeLast && done != [] ==> rest != []
      decreases |buffer| - i
    {
      i := SkipSlashes(buffer, i);
      if i == |buffer| {
        break;
      }
      var component, after := NextComponent(buffer, i);
      rest := Components(buffer[after..]);
      i := after;
      var j := SkipSlashes(buffer, i);
      if j == |buffer| && stopBeforeLast {
        WalkEndsBefore(fs, path, done, component, node);
        return Some(node), component;
      }
      var step := HopNode(fs, node, component);
      FoldStep(fs, at, done, component, node);
      done := done + [component];
      if step == None {
        WalkFails(fs, path, done, rest);
        return None, [];
      }
      node := step.value;
    }
    ComponentsNil();
    assert buffer[i..] == [];
    WalkEnds(fs, path, done, node);
    return Some(node), [];
  }

  lemma ComponentsNil()
    ensures Components([]) == []
  {
  }

  lemma WalkNothing(fs: Fs)
    ensures WalkAll(fs, []) == None && WalkToLast(fs, []) == (None, [])
  {
  }

  lemma WalkBegins(fs: Fs, path: Str)
    requires Valid(fs) && path != []
    ensures var b := Buffered(path);
            && b != [] && b[0] == path[0] && b[0..] == b
            && (b[0] == SLASH ==> Components(b) == Components(b[1..]))
            && Components(b) == [] + Components(b)
    ensures Fold(fs, Start(fs, path), []) == Some(Start(fs, path)) && Start(fs, path) in fs.nodes
  {
  }

  lemma FoldStep(fs: Fs, at: Id, done: seq<Str>, c: Str, node: Id)
    requires Fold(fs, at, done) == Some(node)
    ensures Fold(fs, at, done + [c]) == Hop(fs, node, c)
  {
    FoldConcat(fs, at, done, [c]);
    FoldOne(fs, node, c);
  }

  lemma WalkEndsBefore(fs: Fs, path: Str, done: seq<Str>, c: Str, node: Id)
    requires path != [] && Components(Buffered(path)) == done + [c] && Fold(fs, Start(fs, path), done) == Some(node)
    ensures WalkToLast(fs, path) == (Some(node), c)
  {
    assert (done + [c])[..|done|] == done;
  }

  lemma WalkEnds(fs: Fs, path: Str, done: seq<Str>, node: Id)
    requires path != [] && Components(Buffered(path)) == done && Fold(fs, Start(fs, path), done) == Some(node)
    ensures WalkAll(fs, path) == Some(node)
    ensures done == [] ==> node == Start(fs, path) && WalkToLast(fs, path) == (Some(node), [])
  {
  }

  lemma WalkFails(fs: Fs, path: Str, done: seq<Str>, rest: seq<Str>)
    requires path != [] && Components(Buffered(path)) == done + rest && Fold(fs, Start(fs, path), done) == None
    ensures WalkAll(fs, path) == None
    ensures rest != [] ==> WalkToLast(fs, path) == (None, [])
  {
    FoldConcat(fs, Start(fs, path), done, rest);
    if rest != [] {
      FoldConcat(fs, Start(fs, path), done, rest[..|rest| - 1]);
      assert (done + rest)[..|done + rest| - 1] == done + rest[..|rest| - 1];
    }
  }

  /** `fs_abspath`: climbs at most DEPTH_MAX parents, then prints what fits, outermost first. */
  method PrintPath(fs: Fs, n: Id, size: nat) returns (out: Str)
    requires TreeOk(fs) && n in fs.nodes && size > 0
    ensures out == Printed(NamesTo(fs, n), size)
  {
    var node := n;
    var parts: seq<Str> := [];
    ghost var shown: seq<Str> := [];
    ghost var names := NamesTo(fs, n);
    assert names == names + [];
    while fs.nodes[node].parent.Some? && |parts| < DEPTH_MAX
      invariant node in fs.nodes && |parts| == |shown| <= DEPTH_MAX
      invariant names == NamesTo(fs, node) + shown
      invariant forall k | 0 <= k < |parts| :: parts[k] == shown[|shown| - 1 - k]
      decreases node
    {
      assert NodeOk(fs, node);
      ParentFacts(fs, node);
      ghost var above, name := NamesTo(fs, ParentOr(fs, node)), fs.nodes[node].name;
      assert above + [name] + shown == above + ([name] + shown);
      parts := parts + [fs.nodes[node].name];
      shown := [name] + shown;
      node := fs.nodes[node].parent.value;
    }
    assert NodeOk(fs, node);
    ShownParts(names, NamesTo(fs, node), shown);
    if |parts| == 0 {
      return Truncate([SLASH], size - 1);
    }
    out := PrintParts(parts, shown, size);
  }

  lemma ShownParts(names: seq<Str>, above: seq<Str>, shown: seq<Str>)
    requires names == above + shown && |shown| <= DEPTH_MAX && (above == [] || |shown| == DEPTH_MAX)
    ensures shown == LastParts(names)
    ensures shown == [] <==> names == []
  {
  }

  /** The printing loop, from the outermost part inwards. */
  method PrintParts(parts: seq<Str>, ghost shown: seq<Str>, size: nat) returns (out: Str)
    requires |parts| == |shown| && forall k | 0 <= k < |parts| :: parts[k] == shown[|shown| - 1 - k]
    ensures out == Join(shown[..Fitting(shown, 0, size)])
  {
    hide Join, Fitting;
    out := [];
    var i := |parts|;
    ghost var j := 0;
    PrintBegins(shown, size);
    while i > 0
      invariant 0 <= i && i + j == |parts|
      invariant out == Join(shown[..j])
      invariant Fitting(shown, 0, size) == j + Fitting(shown[j..], |out|, size)
    {
      FitStep(shown, j, |out|, size);
      if |out| + |parts[i - 1]| + 2 >= size {
        return;
      }
      JoinSnoc(shown[..j], shown[j]);
      assert shown[..j + 1] == shown[..j] + [shown[j]];
      out := out + [SLASH] + parts[i - 1];
      i := i - 1;
      j := j + 1;
    }
    FitNothing(|out|, size);
    assert shown[j..] == [];
  }

  lemma PrintBegins(shown: seq<Str>, size: nat)
    ensures Join(shown[..0]) == [] && Fitting(shown, 0, size) == 0 + Fitting(shown[0..], 0, size)
  {
    assert shown[0..] == shown;
  }

  lemma FitNothing(used: nat, size: nat)
    ensures Fitting([], used, size) == 0
  {
  }

  lemma FitStep(shown: seq<Str>, j: nat, used: nat, size: nat)
    requires j < |shown|
    ensures Fitting(shown[j..], used, size) ==
            if used + |shown[j]| + 2 >= size then 0 else 1 + Fitting(shown[j + 1..], used + 1 + |shown[j]|, size)
  {
    assert shown[j..][1..] == shown[j + 1..];
  }

  class FileSystem {
    var nodes: map<Id, Node>
    var root: Id
    var cwd: Id
    var next: Id
    var count: int

    function State(): Fs
      reads this
    { Fs(nodes, root, cwd, next, count) }

    /** `node_new` for the root: a tree that holds nothing else. */
    constructor ()
      ensures State() == Bare() && Valid(State())
    {
      nodes := map[0 := Node([SLASH], Directory, [], None, [])];
      root, cwd, next, count := 0, 0, 1, 1;
      new;
      BareValid();
    }

    method ResolvePath(path: Str) returns (r: Option<Id>)
      requires Valid(State())
      ensures r == Resolve(State(), path)
    {
      if path == [] {
        return Some(cwd);
      }
      if path == [SLASH] {
        return Some(root);
      }
      var last;
      r, last := Walk(State(), path, false);
    }

    /** `fs_create`; `memory` says whether there is room for the node. */
    method CreateNode(path: Str, kind: Kind, memory: bool) returns (r: Option<Id>)
      requires Valid(State()) && NulFree(path)
      modifies this
      ensures Valid(State())
      ensures (State(), r) == if memory then Create(old(State()), path, kind) else (old(State()), None)
    {
      CreateKeeps(State(), path, kind);
      var parent, name := Walk(State(), path, true);
      if parent == None || parent.value !in nodes || nodes[parent.value].kind != Directory || name == [] {
        return None;
      }
      var twin := FindChildNode(State(), parent.value, name);
      if twin != None {
        return None;
      }
      if !memory {
        return None;
      }
      var id, p := next, nodes[parent.value];
      nodes := nodes[parent.value := p.(children := p.children + [id])];
      nodes := nodes[id := Node(name, kind, [], Some(parent.value), [])];
      next := next + 1;
      count := count + 1;
      return Some(id);
    }

    /** `fs_write_n`; `memory` says whether the buffer is large enough or a larger one could be had. */
    method WriteFile(id: Id, bytes: Str, append: bool, memory: bool) returns (ok: bool)
      requires Valid(State())
      modifies this`nodes
      ensures Valid(State()) && State() == if memory then Write(old(State()), id, bytes, append) else old(State())
      ensures ok <==> memory && id in old(nodes) && old(nodes)[id].kind == File
    {
      WriteKeeps(State(), id, bytes, append);
      if id !in nodes || nodes[id].kind != File {
        return false;
      }
      if !memory {
        return false;
      }
      var base := if append then nodes[id].data else [];
      nodes := nodes[id := nodes[id].(data := base + bytes)];
      return true;
    }

    /** `fs_reset`: frees the root's children one after the other. */
    method ResetTree()
      requires Valid(State())
      modifies this
      ensures Valid(State()) && State() == Reset(old(State()))
    {
      hide Subtree, KidTrees;
      ghost var fs := State();
      ResetValid(fs);
      RootCovers(fs);
      IdBelowNext(fs, root);
      hide TreeOk;
      var kids := nodes[root].children;
      FreeSubtrees(kids, fs, root);
      assert nodes.Keys == {root} && |nodes.Keys| == |nodes|;
      nodes := nodes[root := nodes[root].(children := [])];
      cwd := root;
      assert nodes == Reset(fs).nodes;
    }

    /** `free_subtree`: children first, then the node itself. */
    method FreeSubtree(id: Id, ghost fs: Fs)
      requires TreeOk(fs) && id in fs.nodes
      requires forall m | m in Subtree(fs, id) :: m in nodes && nodes[m] == fs.nodes[m]
      modifies this`nodes, this`count
      ensures nodes == old(nodes) - Subtree(fs, id)
      ensures count - |nodes| == old(count) - |old(nodes)|
      decreases fs.next - id, 0
    {
      hide Subtree, KidTrees, TreeOk;
      IdBelowNext(fs, id);
      SubtreeSplits(fs, id);
      var kids := nodes[id].children;
      MinusTwice(nodes, KidTrees(fs, kids), {id});
      FreeSubtrees(kids, fs, id);
      ghost var before := nodes;
      nodes := nodes - {id};
      assert |nodes| == |before| - 1 by { assert nodes.Keys == before.Keys - {id}; }
      count := count - 1;
    }

    /** The child loop of `free_subtree` and `fs_reset`. */
    method FreeSubtrees(kids: seq<Id>, ghost fs: Fs, ghost parent: Id)
      requires TreeOk(fs) && parent in fs.nodes && kids == fs.nodes[parent].children
      requires forall m | m in KidTrees(fs, kids) :: m in nodes && nodes[m] == fs.nodes[m]
      modifies this`nodes, this`count
      ensures nodes == old(nodes) - KidTrees(fs, kids)
      ensures count - |nodes| == old(count) - |old(nodes)|
      decreases fs.next - parent - 1, 1
    {
      hide Subtree, KidTrees, TreeOk;
      KidsInside(fs, parent);
      KidTreesNil(fs);
      var k := 0;
      while k < |kids|
        invariant 0 <= k <= |kids|
        invariant nodes == old(nodes) - KidTrees(fs, kids[..k])
        invariant count - |nodes| == old(count) - |old(nodes)|
      {
        assert kids[k] in kids;
        IdBelowNext(fs, kids[k]);
        TreesApart(fs, parent, k);
        MinusTwice(old(nodes), KidTrees(fs, kids[..k]), Subtree(fs, kids[k]));
        FreeSubtree(kids[k], fs);
        KidTreesSnoc(fs, kids[..k], kids[k]);
        assert kids[..k + 1] == kids[..k] + [kids[k]];
        k := k + 1;
      }
      assert kids[..k] == kids;
    }

    /** `fs_remove`: unlinks the node from its parent's list, then frees its subtree. */
    method RemoveNode(path: Str) returns (code: int)
      requires Valid(State())
      modifies this`nodes, this`count
      ensures match RemovalOf(old(State()), path)
              case NotFound => code == -1 && State() == old(State())
              case InUse => code == -2 && State() == old(State())
              case Removed(n) => code == 0 && n in old(nodes) && n != root && State() == Prune(old(State()), n)
      ensures TreeOk(State())
    {
      hide Subtree, Resolve, TreeOk, Without;
      ghost var fs := State();
      var found := ResolvePath(path);
      if found == None || found.value == root || found.value !in nodes {
        return -1;
      }
      var n := found.value;
      if n == cwd {
        return -2;
      }
      UnlinkFacts(fs, n);
      var p := nodes[n].parent.value;
      nodes := nodes[p := nodes[p].(children := Without(nodes[p].children, n))];
      FreeSubtree(n, fs);
      return 0;
    }
  }
}