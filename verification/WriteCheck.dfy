/** What the write check of the shell (kernel/shell.c:96-150) lets through, by the names of nodes. */
module WriteCheck {
  import opened Bytes
  import opened Paths
  import opened FsSpec
  import opened AccountSpec
  import opened PathNames
  import opened PermissionSpec

  /** The check passes for this path. */
  ghost predicate Passes(fs: Fs, path: Str, t: Table)
    requires TreeOk(fs)
  { TargetAbs(fs, path).Some? && MayWrite(t, TargetAbs(fs, path).value) }

  /** `dir` spells these names or the first of them; an empty one spells everything, "/" the root alone. */
  ghost predicate Admits(dir: Str, names: seq<Str>) {
    dir == [] || (dir == [SLASH] && names == []) || Inside(dir, names)
  }

  /** Someone is logged in, and is the administrator, or these names lie in the home or in "/tmp". */
  ghost predicate Allowed(t: Table, names: seq<Str>) {
    t.current.Some? && t.current.value < |t.slots| && t.slots[t.current.value].Some? &&
    var u := t.slots[t.current.value].value;
    u.uid == 0 || Admits(u.home, names) || Admits(TMP, names)
  }

  /** The string test on a path in full. */
  lemma CoversAdmits(dir: Str, names: seq<Str>)
    requires NamesOk(names)
    ensures Covers(dir, if names == [] then [SLASH] else Join(names)) <==> Admits(dir, names)
  {
    JoinStart(names);
    if names != [] {
      NamesAreWords(names);
      if dir != [] && Covers(dir, Join(names)) {
        var k := CoversJoin(dir, names);
      }
      if k :| 1 <= k <= |names| && dir == Join(names[..k]) {
        JoinCovers(names, k);
      }
    }
  }

  lemma MayWriteAllowed(t: Table, names: seq<Str>)
    requires NamesOk(names)
    ensures MayWrite(t, if names == [] then [SLASH] else Join(names)) <==> Allowed(t, names)
  {
    hide Covers, Admits;
    if t.current.Some? && t.current.value < |t.slots| && t.slots[t.current.value].Some? {
      CoversAdmits(t.slots[t.current.value].value.home, names);
      CoversAdmits(TMP, names);
    }
  }

  /** For a path that leads to a node the check looks at where that node is, whatever the path looks like. */
  lemma CheckThere(fs: Fs, path: Str, n: Id, t: Table)
    requires Valid(fs) && Leads(fs, path, n) && PathFits(NamesTo(fs, n))
    ensures Passes(fs, path, t) <==> Allowed(t, NamesTo(fs, n))
  {
    ResolveExactly(fs, path, n);
    hide TreeOk, NamesTo, Resolve, Leads, MayWrite, Allowed, AbsPath;
    RootHasNoNames(fs, n);
    RootPrinted(fs);
    if n != fs.root {
      PrintedJoin(fs, n);
    }
    MayWriteAllowed(t, NamesTo(fs, n));
  }

  /** The same in terms of the nodes that home path and "/tmp" name. */
  lemma CheckIsAncestry(fs: Fs, path: Str, n: Id, t: Table)
    requires Valid(fs) && Leads(fs, path, n) && PathFits(NamesTo(fs, n)) && TableOk(t)
    ensures n in fs.nodes
    ensures Passes(fs, path, t) <==>
            && t.current.Some?
            && var u := t.slots[t.current.value].value;
               u.uid == 0 || Within(fs, n, u.home) || Within(fs, n, TMP)
  {
    CheckThere(fs, path, n, t);
    hide TreeOk, NamesTo, Leads, Within, Covers, AbsPath, TargetAbs;
    if t.current.Some? {
      var u := t.slots[t.current.value].value;
      CoversMeansWithin(fs, n, u.home);
      CoversMeansWithin(fs, n, TMP);
      ResolveExactly(fs, path, n);
      TargetThere(fs, path, n);
    }
  }

  lemma TargetThere(fs: Fs, path: Str, n: Id)
    requires TreeOk(fs) && Resolve(fs, path) == Some(n) && n in fs.nodes
    ensures TargetAbs(fs, path) == Some(AbsPath(fs, n))
  {
  }

  /** For a path that leads nowhere yet, it looks at where `fs_create` would put the node. */
  lemma CheckNew(fs: Fs, path: Str, d: Id, name: Str, t: Table)
    requires Valid(fs) && NulFree(path) && Place(fs, path, d, name) && fs.nodes[d].kind == Directory
    requires (forall m: Id :: !Leads(fs, path, m)) && Spot(fs, path).1 == name
    requires PathFits(NamesTo(fs, d) + [name])
    ensures Passes(fs, path, t) <==> Allowed(t, NamesTo(fs, d) + [name])
  {
    NewPath(fs, path, d, name);
    var names := NamesTo(fs, d) + [name];
    PlaceName(fs, path, d, name);
    hide TreeOk, NamesTo, Leads, Place, MayWrite, Allowed, TargetAbs;
    MayWriteAllowed(t, names);
  }

  lemma PlaceName(fs: Fs, path: Str, d: Id, name: Str)
    requires Valid(fs) && NulFree(path) && Place(fs, path, d, name)
    ensures NameOk(name) && NamesOk(NamesTo(fs, d) + [name])
  {
    var cs := Components(Buffered(path));
    ComponentsAreNames(Buffered(path));
    assert NameOk(cs[|cs| - 1]);
  }

  lemma NewPath(fs: Fs, path: Str, d: Id, name: Str)
    requires Valid(fs) && NulFree(path) && Place(fs, path, d, name) && fs.nodes[d].kind == Directory
    requires (forall m: Id :: !Leads(fs, path, m)) && Spot(fs, path).1 == name
    requires PathFits(NamesTo(fs, d) + [name])
    ensures TargetAbs(fs, path) == Some(Join(NamesTo(fs, d) + [name]))
  {
    var names := NamesTo(fs, d);
    var cs := Components(Buffered(path));
    PlaceName(fs, path, d, name);
    hide TreeOk, NamesTo, Leads, Passable, Normal, Fold, Components, PathFits, AbsPath, NameOk, Spot, Resolve,
         TargetAbs;
    if Resolve(fs, path).Some? {
      ResolveExactly(fs, path, Resolve(fs, path).value);
    }
    NameNotEmpty(name);
    assert path != [] by { EmptyPath(); }
    SpotIsTarget(fs, path);
    StartNames(fs, path);
    FoldNormal(fs, Start(fs, path), cs[..|cs| - 1]);
    SameNames(fs, d, Fold(fs, Start(fs, path), cs[..|cs| - 1]));
    FrontFits(names, name);
    var k := SpotPath(fs, d, name);
    assert names[..k] == names;
    SpotShown(fs, path, d, name, Join(names + [name]));
  }

  lemma SpotShown(fs: Fs, path: Str, d: Id, name: Str, shown: Str)
    requires TreeOk(fs) && Resolve(fs, path) == None && Spot(fs, path) == (Some(d), name) && name != []
    requires d in fs.nodes && fs.nodes[d].kind == Directory && |shown| < PATH_MAX - 1
    requires shown == if AbsPath(fs, d) == [SLASH] then AbsPath(fs, d) + name else AbsPath(fs, d) + [SLASH] + name
    ensures TargetAbs(fs, path) == Some(shown)
  {
    hide TreeOk, Resolve, AbsPath, Spot;
    assert shown[..|shown|] == shown;
  }

  lemma NameNotEmpty(name: Str)
    requires NameOk(name)
    ensures name != []
  {
  }

  lemma FrontFits(names: seq<Str>, name: Str)
    requires PathFits(names + [name])
    ensures PathFits(names) && |names| <= DEPTH_MAX && |Join(names + [name])| < PATH_MAX - 1
  {
    PrefixFits(names + [name], |names|);
    assert (names + [name])[..|names|] == names;
  }

  lemma AdmitsBelow(dir: Str, names: seq<Str>, more: seq<Str>)
    requires Admits(dir, names) && names != [] && names <= more
    ensures Admits(dir, more)
  {
    if dir != [] {
      InsideMore(dir, names, more);
    }
  }

  /** Whatever a permitted removal takes away lies where its user may write. */
  lemma RemovalConfined(fs: Fs, path: Str, n: Id, t: Table, m: Id)
    requires Valid(fs) && RemovalOf(fs, path) == Removed(n) && n in fs.nodes && n != fs.root
    requires PathFits(NamesTo(fs, n)) && Passes(fs, path, t) && m in fs.nodes && m !in Prune(fs, n).nodes
    ensures Allowed(t, NamesTo(fs, m))
  {
    RemovalExactly(fs, path, n);
    CheckThere(fs, path, n, t);
    PruneKeeps(fs, n);
    UnderIsPrefix(fs, m, n);
    RootHasNoNames(fs, n);
    hide TreeOk, NamesTo, Under, Leads, Admits, Passes, Prune;
    var u := t.slots[t.current.value].value;
    var names, more := NamesTo(fs, n), NamesTo(fs, m);
    if Admits(u.home, names) {
      AdmitsBelow(u.home, names, more);
    }
    if Admits(TMP, names) {
      AdmitsBelow(TMP, names, more);
    }
  }

  /** And a permitted write changes one file, which lies there too. */
  lemma OverwriteConfined(fs: Fs, path: Str, n: Id, t: Table, bytes: Str, append: bool, m: Id)
    requires Valid(fs) && Leads(fs, path, n) && PathFits(NamesTo(fs, n)) && Passes(fs, path, t)
    requires m in fs.nodes && m in Write(fs, n, bytes, append).nodes
    requires Write(fs, n, bytes, append).nodes[m] != fs.nodes[m]
    ensures m == n && Allowed(t, NamesTo(fs, m))
  {
    CheckThere(fs, path, n, t);
  }
}
