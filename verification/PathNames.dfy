/**
 What a path means, said with names alone: "." keeps the list of names walked so far, ".." drops the
 last, any other component is put behind. The walker of fs/ramfs.c ends at the node with these names,
 and it gets through exactly if there is a node for every list on the way.
 */
module PathNames {
  import opened Bytes
  import opened Paths
  import opened FsSpec

  function Moved(names: seq<Str>, component: Str): seq<Str> {
    if component == [DOT] then names
    else if component == [DOT, DOT] then (if names == [] then [] else names[..|names| - 1])
    else names + [component]
  }

  function Normal(names: seq<Str>, components: seq<Str>): seq<Str>
    decreases |components|
  {
    if components == [] then names else Normal(Moved(names, components[0]), components[1..])
  }

  ghost predicate Named(fs: Fs, names: seq<Str>)
    requires TreeOk(fs)
  { exists m :: m in fs.nodes && NamesTo(fs, m) == names }

  /** There is a node for every list of names on the way. */
  ghost predicate Passable(fs: Fs, names: seq<Str>, components: seq<Str>)
    requires TreeOk(fs)
  {
    forall i {:trigger components[..i]} | 0 < i <= |components| :: Named(fs, Normal(names, components[..i]))
  }

  lemma {:induction false} NormalSnoc(names: seq<Str>, cs: seq<Str>, c: Str)
    ensures Normal(names, cs + [c]) == Moved(Normal(names, cs), c)
    decreases |cs|
  {
    if cs == [] {
      assert [c][1..] == [] && [] + [c] == [c];
      assert Normal(names, [c]) == Normal(Moved(names, c), []);
    } else {
      assert (cs + [c])[1..] == cs[1..] + [c];
      NormalSnoc(Moved(names, cs[0]), cs[1..], c);
    }
  }

  /** A child is found exactly if the tree has a node with its names. */
  lemma ChildNamed(fs: Fs, at: Id, c: Str)
    requires TreeOk(fs) && at in fs.nodes
    ensures FindChild(fs, at, c).Some? ==> NamesTo(fs, FindChild(fs, at, c).value) == NamesTo(fs, at) + [c]
                                           && FindChild(fs, at, c).value in fs.nodes
    ensures FindChild(fs, at, c).Some? <==> Named(fs, NamesTo(fs, at) + [c])
  {
    hide TreeOk, NodeOk, FindChild, NamesTo;
    if FindChild(fs, at, c).Some? {
      FindChildFacts(fs, at, c);
      ParentFacts(fs, FindChild(fs, at, c).value);
    }
    if m :| m in fs.nodes && NamesTo(fs, m) == NamesTo(fs, at) + [c] {
      RootUnnamed(fs);
      ParentFacts(fs, m);
      SnocEqual(NamesTo(fs, ParentOr(fs, m)), fs.nodes[m].name, NamesTo(fs, at), c);
      NamesInjective(fs, ParentOr(fs, m), at);
      FoundInParent(fs, m);
    }
  }

  lemma RootUnnamed(fs: Fs)
    requires TreeOk(fs)
    ensures fs.root in fs.nodes && NamesTo(fs, fs.root) == []
  {
  }

  /** One component, by names. */
  lemma HopNamed(fs: Fs, at: Id, c: Str)
    requires TreeOk(fs) && at in fs.nodes
    ensures Hop(fs, at, c).Some? <==> Named(fs, Moved(NamesTo(fs, at), c))
    ensures Hop(fs, at, c).Some? ==>
              Hop(fs, at, c).value in fs.nodes && NamesTo(fs, Hop(fs, at, c).value) == Moved(NamesTo(fs, at), c)
  {
    hide TreeOk, NodeOk, FindChild, NamesTo, Named;
    RootUnnamed(fs);
    ParentFacts(fs, at);
    if c == SELF {
      NamedHere(fs, at);
    } else if c == UP {
      NamedHere(fs, ParentOr(fs, at));
    } else {
      ChildNamed(fs, at, c);
    }
  }

  lemma NamedHere(fs: Fs, m: Id)
    requires TreeOk(fs) && m in fs.nodes
    ensures Named(fs, NamesTo(fs, m))
  {
  }

  lemma PassableRest(fs: Fs, names: seq<Str>, cs: seq<Str>)
    requires TreeOk(fs) && cs != []
    ensures Passable(fs, names, cs) <==> Named(fs, Moved(names, cs[0])) && Passable(fs, Moved(names, cs[0]), cs[1..])
  {
    hide Named;
    var next := Moved(names, cs[0]);
    forall i | 0 < i <= |cs| ensures Normal(names, cs[..i]) == Normal(next, cs[1..][..i - 1]) {
      assert cs[..i][1..] == cs[1..][..i - 1];
    }
    if Passable(fs, names, cs) {
      assert cs[..1][1..] == [];
      assert Normal(names, cs[..1]) == next;
      forall j | 0 < j <= |cs[1..]| ensures Named(fs, Normal(next, cs[1..][..j])) {
        assert Normal(names, cs[..j + 1]) == Normal(next, cs[1..][..j]);
      }
    }
    if Named(fs, next) && Passable(fs, next, cs[1..]) {
      forall i | 0 < i <= |cs| ensures Named(fs, Normal(names, cs[..i])) {
        assert i == 1 ==> cs[1..][..i - 1] == [];
      }
    }
  }

  /** A walk gets through exactly if every list of names on the way belongs to a node, and ends at the last. */
  lemma {:induction false} FoldNormal(fs: Fs, at: Id, cs: seq<Str>)
    requires TreeOk(fs) && at in fs.nodes
    ensures Fold(fs, at, cs).Some? <==> Passable(fs, NamesTo(fs, at), cs)
    ensures Fold(fs, at, cs).Some? ==>
              Fold(fs, at, cs).value in fs.nodes && NamesTo(fs, Fold(fs, at, cs).value) == Normal(NamesTo(fs, at), cs)
    decreases |cs|
  {
    hide TreeOk, Hop, NamesTo, Named, Passable, Moved;
    if cs == [] {
      PassableNil(fs, NamesTo(fs, at));
    } else {
      HopNamed(fs, at, cs[0]);
      PassableRest(fs, NamesTo(fs, at), cs);
      if Hop(fs, at, cs[0]).Some? {
        FoldNormal(fs, Hop(fs, at, cs[0]).value, cs[1..]);
      }
    }
  }

  lemma PassableNil(fs: Fs, names: seq<Str>)
    requires TreeOk(fs)
    ensures Passable(fs, names, [])
  {
  }

  // ----- paths

  /** The names a path starts from: none for an absolute one, those of the current directory for any other. */
  ghost function From(fs: Fs, path: Str): seq<Str>
    requires Valid(fs)
  { if path != [] && path[0] == SLASH then [] else NamesTo(fs, fs.cwd) }

  /** Following the path by names leads to this node. */
  ghost predicate Leads(fs: Fs, path: Str, m: Id)
    requires Valid(fs)
  {
    var cs := Components(Truncate(path, PATH_MAX - 1));
    m in fs.nodes && NamesTo(fs, m) == Normal(From(fs, path), cs) && Passable(fs, From(fs, path), cs)
  }

  lemma StartNames(fs: Fs, path: Str)
    requires Valid(fs) && path != []
    ensures Start(fs, path) in fs.nodes && NamesTo(fs, Start(fs, path)) == From(fs, path)
  {
    RootUnnamed(fs);
  }

  /** `fs_resolve` finds a node exactly if the path leads to it by names. */
  lemma ResolveExactly(fs: Fs, path: Str, m: Id)
    requires Valid(fs)
    ensures Resolve(fs, path) == Some(m) <==> Leads(fs, path, m)
  {
    hide TreeOk, NamesTo, Passable, Normal, Fold;
    var cs := Components(Buffered(path));
    if path == [] {
      EmptyPath();
      PassableNil(fs, From(fs, path));
      assert Normal(From(fs, path), []) == From(fs, path) by { NormalNil(From(fs, path)); }
    } else {
      StartNames(fs, path);
      FoldNormal(fs, Start(fs, path), cs);
      SlashAlone();
      FoldNil(fs, fs.root);
    }
    SameNames(fs, m, Resolve(fs, path));
  }

  lemma EmptyPath()
    ensures Components(Truncate([], PATH_MAX - 1)) == []
  {
  }

  lemma NormalNil(names: seq<Str>)
    ensures Normal(names, []) == names
  {
  }

  lemma FoldNil(fs: Fs, at: Id)
    ensures Fold(fs, at, []) == Some(at)
  {
  }

  lemma SameNames(fs: Fs, m: Id, n: Option<Id>)
    requires TreeOk(fs)
    ensures n.Some? && n.value in fs.nodes && m in fs.nodes && NamesTo(fs, m) == NamesTo(fs, n.value) ==> n == Some(m)
  {
    if n.Some? && n.value in fs.nodes && m in fs.nodes && NamesTo(fs, m) == NamesTo(fs, n.value) {
      NamesInjective(fs, m, n.value);
    }
  }

  /** "/.." behind a node's path leads one level up, and stays at the root. */
  lemma DotsLeadUp(fs: Fs, n: Id)
    requires Valid(fs) && n in fs.nodes && PathFits(NamesTo(fs, n)) && NoDots(NamesTo(fs, n))
    requires |AbsPath(fs, n)| + 3 < PATH_MAX
    ensures var up := Resolve(fs, AbsPath(fs, n) + [SLASH, DOT, DOT]);
            && up.Some? && up.value in fs.nodes && NamesTo(fs, up.value) == Above(NamesTo(fs, n))
            && up.value == if fs.nodes[n].parent.Some? then fs.nodes[n].parent.value else n
  {
    var names := NamesTo(fs, n);
    var path := AbsPath(fs, n) + [SLASH, DOT, DOT];
    assert NodeOk(fs, n);
    UpComponents(fs, n);
    hide TreeOk, NodeOk, NamesTo, Components, AbsPath, PathFits, NoDots;
    FoldNames(fs, n);
    FoldConcat(fs, fs.root, names, [UP]);
    FoldOne(fs, n, UP);
    RootUnnamed(fs);
    HopNamed(fs, n, UP);
    ParentFacts(fs, n);
  }

  lemma UpComponents(fs: Fs, n: Id)
    requires TreeOk(fs) && n in fs.nodes && PathFits(NamesTo(fs, n)) && |AbsPath(fs, n)| + 3 < PATH_MAX
    ensures var path := AbsPath(fs, n) + [SLASH, DOT, DOT];
            && Buffered(path) == path && path[0] == SLASH && path != [SLASH]
            && Components(path) == NamesTo(fs, n) + [UP]
  {
    var names, shown := NamesTo(fs, n), AbsPath(fs, n);
    var tail: Str := [SLASH, DOT, DOT];
    ComponentsConcat(shown, tail);
    UpAlone();
    if names == [] {
      assert shown == [SLASH];
      SlashAlone();
    } else {
      PrintedWhole(names);
      ComponentsJoin(names);
      JoinStart(names);
    }
  }

  lemma UpAlone()
    ensures Components([SLASH, DOT, DOT]) == [UP]
  {
    var up: seq<Str> := [UP];
    assert up[1..] == [] && NameOk(UP);
    assert Join(up[1..]) == [];
    assert Join(up) == [SLASH] + UP + [];
    var path: Str := [SLASH, DOT, DOT];
    assert Join(up) == path;
    ComponentsJoin(up);
  }

  // ----- creating and removing

  /** The directory a path names, and the last component. */
  ghost predicate Place(fs: Fs, path: Str, d: Id, name: Str)
    requires Valid(fs)
  {
    var cs := Components(Truncate(path, PATH_MAX - 1));
    && cs != [] && name == cs[|cs| - 1]
    && d in fs.nodes && NamesTo(fs, d) == Normal(From(fs, path), cs[..|cs| - 1])
    && Passable(fs, From(fs, path), cs[..|cs| - 1])
  }

  /**
   `fs_create` makes a node exactly if all but the last component lead to a directory that has no
   such child, and then its names are the directory's with the last component behind them.
   */
  lemma CreateExactly(fs: Fs, path: Str, kind: Kind)
    requires Valid(fs) && NulFree(path)
    ensures var (r, id) := Create(fs, path, kind);
            && TreeOk(r)
            && (id.Some? <==> exists d, name :: Place(fs, path, d, name) && fs.nodes[d].kind == Directory
                                                && !Named(fs, NamesTo(fs, d) + [name]))
            && (id == None ==> r == fs)
            && forall d, name | id.Some? && Place(fs, path, d, name) ::
                 && id.value in r.nodes && r.nodes[id.value].kind == kind && r.nodes[id.value].data == []
                 && NamesTo(r, id.value) == NamesTo(fs, d) + [name]
  {
    hide TreeOk, NodeOk, NamesTo, Passable, Normal, Fold, Named, NameOk;
    CreateKeeps(fs, path, kind);
    var (r, id) := Create(fs, path, kind);
    forall d, name | Place(fs, path, d, name)
      ensures Target(fs, path) == if fs.nodes[d].kind == Directory && !Named(fs, NamesTo(fs, d) + [name])
              then Some((d, name))
                                  else None
    {
      PlaceTarget(fs, path, d, name);
    }
    if Target(fs, path).Some? {
      TargetFacts(fs, path);
      var (d, name) := Target(fs, path).value;
      TargetPlace(fs, path);
    }
  }

  lemma PlaceTarget(fs: Fs, path: Str, d: Id, name: Str)
    requires Valid(fs) && NulFree(path) && Place(fs, path, d, name)
    ensures Target(fs, path) == if fs.nodes[d].kind == Directory && !Named(fs, NamesTo(fs, d) + [name])
            then Some((d, name))
                                else None
  {
    var cs := Components(Buffered(path));
    ComponentsAreNames(Buffered(path));
    assert NameOk(cs[|cs| - 1]);
    hide TreeOk, NamesTo, Passable, Normal, Fold, Named, NameOk, FindChild, Components;
    if path == [] {
      EmptyPath();
    } else {
      StartNames(fs, path);
      FoldNormal(fs, Start(fs, path), cs[..|cs| - 1]);
      SameNames(fs, d, Fold(fs, Start(fs, path), cs[..|cs| - 1]));
      ChildNamed(fs, d, name);
    }
  }

  lemma TargetPlace(fs: Fs, path: Str)
    requires Valid(fs) && NulFree(path) && Target(fs, path).Some?
    ensures var (d, name) := Target(fs, path).value;
            Place(fs, path, d, name) && fs.nodes[d].kind == Directory && !Named(fs, NamesTo(fs, d) + [name])
  {
    TargetFacts(fs, path);
    hide TreeOk, NamesTo, Passable, Normal, Fold, Named, FindChild, Components;
    var (d, name) := Target(fs, path).value;
    var cs := Components(Buffered(path));
    StartNames(fs, path);
    FoldNormal(fs, Start(fs, path), cs[..|cs| - 1]);
    ChildNamed(fs, d, name);
  }

  /** `fs_remove` removes the node the path leads to, unless it is the root or the current directory. */
  lemma RemovalExactly(fs: Fs, path: Str, n: Id)
    requires Valid(fs)
    ensures RemovalOf(fs, path) == Removed(n) <==> Leads(fs, path, n) && n != fs.root && n != fs.cwd
    ensures RemovalOf(fs, path) == InUse <==> Leads(fs, path, fs.cwd) && fs.cwd != fs.root
    ensures RemovalOf(fs, path) == NotFound <==> Leads(fs, path, fs.root) || forall m: Id :: !Leads(fs, path, m)
  {
    hide Leads, Resolve;
    ResolveExactly(fs, path, n);
    ResolveExactly(fs, path, fs.root);
    ResolveExactly(fs, path, fs.cwd);
    forall m: Id ensures Resolve(fs, path) == Some(m) <==> Leads(fs, path, m) {
      ResolveExactly(fs, path, m);
    }
    LeadsInside(fs, path);
  }

  lemma LeadsInside(fs: Fs, path: Str)
    requires Valid(fs)
    ensures forall m: Id | Leads(fs, path, m) :: m in fs.nodes
  {
  }

  // ----- contents, and what is printed

  /** `fs_write_n`: the file holds the bytes, behind what it held before if they are appended; nothing else changes. */
  lemma WriteExactly(fs: Fs, n: Id, bytes: Str, append: bool, m: Id)
    requires TreeOk(fs) && m in fs.nodes
    ensures var r := Write(fs, n, bytes, append);
            && m in r.nodes && r.nodes.Keys == fs.nodes.Keys && r.cwd == fs.cwd && r.root == fs.root
            && r.nodes[m] == fs.nodes[m].(data := r.nodes[m].data)
            && r.nodes[m].data == (if m != n || fs.nodes[n].kind == Directory then fs.nodes[m].data
                                   else if append then fs.nodes[n].data + bytes else bytes)
  {
    assert [] + bytes == bytes;
  }

  /** `fs_abspath` shows the last 32 names or fewer, from the first of them on as many as 254 characters hold. */
  lemma PrintedExactly(names: seq<Str>) returns (k: nat)
    requires names != [] && NamesOk(names)
    ensures var first := if |names| > 32 then |names| - 32 else 0;
            && first + k <= |names| && Printed(names, 256) == Join(names[first..first + k])
            && |Join(names[first..first + k])| <= 254
            && (first + k < |names| ==> |Join(names[first..first + k + 1])| > 254)
  {
    var parts := LastParts(names);
    var first := |names| - |parts|;
    k := Fitting(parts, 0, PATH_MAX);
    FittingAll(parts, 0, PATH_MAX);
    FittingMost(parts, 0);
    assert parts == names[first..];
    assert parts[..k] == names[first..first + k];
    assert k < |parts| ==> parts[..k + 1] == names[first..first + k + 1];
  }

  lemma {:induction false} FittingMost(parts: seq<Str>, used: nat)
    ensures var k := Fitting(parts, used, PATH_MAX); k < |parts| ==> used + |Join(parts[..k + 1])| > PATH_MAX - 2
    decreases |parts|
  {
    var k := Fitting(parts, used, PATH_MAX);
    if k < |parts| {
      if k == 0 {
        assert parts[..1][1..] == [];
        assert Join(parts[..1]) == [SLASH] + parts[0] + [];
      } else {
        FittingMost(parts[1..], used + 1 + |parts[0]|);
        assert parts[..k + 1][1..] == parts[1..][..k];
      }
    }
  }
}
