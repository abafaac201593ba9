/**
 Who may write where (kernel/users.c, kernel/shell.c): the test is on path strings, and it means
 ancestry in the tree.
 */
module PermissionSpec {
  import opened Bytes
  import opened Paths
  import opened FsSpec
  import opened AccountSpec

  const TMP: Str := [47, 116, 109, 112]          // "/tmp"

  /** The string test: `dir` itself, or `dir` followed by a slash. */
  predicate Covers(dir: Str, path: Str) {
    dir <= path && (|path| == |dir| || path[|dir|] == SLASH)
  }

  /** `users_may_write`. */
  predicate MayWrite(t: Table, path: Str) {
    t.current.Some? && t.current.value < |t.slots| && t.slots[t.current.value].Some? &&
    var u := t.slots[t.current.value].value;
    u.uid == 0 || Covers(u.home, path) || Covers(TMP, path)
  }

  /** Not empty and without a slash, of any length. */
  predicate Words(ws: seq<Str>) { forall i | 0 <= i < |ws| :: ws[i] != [] && SLASH !in ws[i] }

  lemma NamesAreWords(names: seq<Str>)
    requires NamesOk(names)
    ensures Words(names)
  {
    forall i | 0 <= i < |names| ensures names[i] != [] && SLASH !in names[i] {
      assert NameOk(names[i]);
    }
  }

  lemma WordsPart(ws: seq<Str>)
    requires Words(ws) && ws != []
    ensures Words(ws[1..]) && ws[0] != [] && SLASH !in ws[0]
  {
  }

  /** A string covers a joined path exactly when it is empty or the join of some of its leading words. */
  lemma {:induction false} CoversJoin(h: Str, ws: seq<Str>) returns (k: nat)
    requires Words(ws) && h != [] && Covers(h, Join(ws))
    ensures 1 <= k <= |ws| && h == Join(ws[..k])
    decreases |ws|
  {
    var word, rest := ws[0], ws[1..];
    WordsPart(ws);
    var front := [SLASH] + word;
    assert Join(ws) == front + Join(rest);
    JoinStart(rest);
    NoCutInside(word, Join(rest), h);
    if |h| == |front| {
      assert h == front;
      k := 1;
      var one: seq<Str> := [word];
      assert ws[..1] == one && one[1..] == [];
      assert Join(ws[..1]) == front + [];
    } else {
      var tail := h[|front|..];
      assert h == front + tail;
      CoversTail(front, tail, Join(rest));
      var j := CoversJoin(tail, rest);
      k := j + 1;
      assert ws[..k][1..] == rest[..j];
    }
  }

  /** A covering string never ends inside a word. */
  lemma NoCutInside(word: Str, rest: Str, h: Str)
    requires SLASH !in word && h != [] && Covers(h, [SLASH] + word + rest)
    ensures |h| >= 1 + |word|
  {
    var s := [SLASH] + word + rest;
    assert forall i | 1 <= i <= |word| :: s[i] == word[i - 1] && s[i] != SLASH;
  }

  lemma CoversTail(front: Str, h: Str, rest: Str)
    requires Covers(front + h, front + rest)
    ensures Covers(h, rest)
  {
    assert (front + rest)[|front|..] == rest;
    assert (front + rest)[..|front + h|] == front + h;
    assert rest[..|h|] == h by { assert rest[..|h|] == (front + rest)[|front|..|front| + |h|]; }
    if |rest| > |h| {
      assert (front + rest)[|front + h|] == rest[|h|];
    }
  }

  lemma JoinCovers(ws: seq<Str>, k: nat)
    requires k <= |ws|
    ensures Covers(Join(ws[..k]), Join(ws)) && |Join(ws[..k])| <= |Join(ws)|
  {
    assert ws == ws[..k] + ws[k..];
    JoinConcat(ws[..k], ws[k..]);
    JoinStart(ws[k..]);
  }

  lemma PrefixFits(names: seq<Str>, k: nat)
    requires PathFits(names) && k <= |names|
    ensures PathFits(names[..k])
  {
    JoinCovers(names, k);
  }

  /** The ancestor `k` names below the root. */
  lemma {:induction false} AncestorAt(fs: Fs, n: Id, k: nat) returns (a: Id)
    requires TreeOk(fs) && n in fs.nodes && k <= |NamesTo(fs, n)|
    ensures a in fs.nodes && NamesTo(fs, a) == NamesTo(fs, n)[..k] && Under(fs, n, a)
    decreases n
  {
    var names := NamesTo(fs, n);
    if k == |names| {
      assert names[..k] == names;
      a := n;
    } else {
      ParentFacts(fs, n);
      assert NodeOk(fs, n);
      var p := ParentOr(fs, n);
      a := AncestorAt(fs, p, k);
      assert NamesTo(fs, p)[..k] == names[..k];
    }
  }

  /** `n` lies in the part of the tree that the path `h` names; naming the root covers the root alone. */
  ghost predicate Within(fs: Fs, n: Id, h: Str)
    requires TreeOk(fs) && n in fs.nodes
  {
    h == [] || exists a | a in fs.nodes :: Under(fs, n, a) && AbsPath(fs, a) == h && (a == fs.root ==> n == fs.root)
  }

  lemma RootPrinted(fs: Fs)
    requires TreeOk(fs)
    ensures fs.root in fs.nodes && AbsPath(fs, fs.root) == [SLASH]
  {
  }

  lemma PrintedJoin(fs: Fs, n: Id)
    requires TreeOk(fs) && n in fs.nodes && n != fs.root && PathFits(NamesTo(fs, n))
    ensures AbsPath(fs, n) == Join(NamesTo(fs, n)) && NamesTo(fs, n) != []
  {
    PrintedWhole(NamesTo(fs, n));
  }

  /** Whatever string `h` is: it covers a node's path exactly when the node lies within what `h` names. */
  lemma CoversMeansWithin(fs: Fs, n: Id, h: Str)
    requires TreeOk(fs) && n in fs.nodes && PathFits(NamesTo(fs, n))
    ensures Covers(h, AbsPath(fs, n)) <==> Within(fs, n, h)
  {
    hide AbsPath, NamesTo, Under, TreeOk;
    RootPrinted(fs);
    var path := AbsPath(fs, n);
    if h == [] {
      PathStartsWithSlash(fs, n);
    } else {
      if Covers(h, path) {
        if n == fs.root {
          assert h == [SLASH];
          SelfUnder(fs, n);
        } else {
          PrintedJoin(fs, n);
          NamesAreWords(NamesTo(fs, n));
          var k := CoversJoin(h, NamesTo(fs, n));
          var a := AncestorAt(fs, n, k);
          PrefixFits(NamesTo(fs, n), k);
          RootHasNoNames(fs, a);
          PrintedJoin(fs, a);
        }
      }
      if Within(fs, n, h) {
        var a :| a in fs.nodes && Under(fs, n, a) && AbsPath(fs, a) == h && (a == fs.root ==> n == fs.root);
        if n != fs.root {
          UnderIsPrefix(fs, n, a);
          var k := |NamesTo(fs, a)|;
          assert NamesTo(fs, a) == NamesTo(fs, n)[..k];
          PrefixFits(NamesTo(fs, n), k);
          PrintedJoin(fs, n);
          PrintedJoin(fs, a);
          JoinCovers(NamesTo(fs, n), k);
        } else {
          RootUnder(fs, a);
        }
      }
    }
  }

  lemma PathStartsWithSlash(fs: Fs, n: Id)
    requires TreeOk(fs) && n in fs.nodes
    ensures AbsPath(fs, n) != [] && AbsPath(fs, n)[0] == SLASH
  {
    if NamesTo(fs, n) != [] {
      PrintedSlash(NamesTo(fs, n));
    }
  }

  lemma SelfUnder(fs: Fs, n: Id)
    requires TreeOk(fs) && n in fs.nodes
    ensures Under(fs, n, n)
  {
  }

  lemma RootUnder(fs: Fs, a: Id)
    requires TreeOk(fs) && fs.root in fs.nodes && Under(fs, fs.root, a)
    ensures a == fs.root
  {
    assert NodeOk(fs, fs.root);
  }

  lemma RootHasNoNames(fs: Fs, a: Id)
    requires TreeOk(fs) && a in fs.nodes
    ensures NamesTo(fs, a) == [] <==> a == fs.root
  {
  }

  /**
   The write permission is ancestry: someone who is not an administrator may write at a node's
   path exactly when the node lies at or below the node that the home path or "/tmp" names.
   An empty home would cover everything, a home of "/" the root alone.
   */
  lemma MayWriteIsAncestry(fs: Fs, n: Id, t: Table)
    requires TreeOk(fs) && n in fs.nodes && PathFits(NamesTo(fs, n)) && TableOk(t)
    requires t.current.Some? ==> t.slots[t.current.value].value.uid != 0
    ensures MayWrite(t, AbsPath(fs, n)) <==>
              t.current.Some? && (Within(fs, n, t.slots[t.current.value].value.home) || Within(fs, n, TMP))
  {
    hide AbsPath, Covers, Within, TreeOk;
    if t.current.Some? {
      CoversMeansWithin(fs, n, t.slots[t.current.value].value.home);
      CoversMeansWithin(fs, n, TMP);
    }
  }

  /** For the homes that `users_add` gives, that is one subtree each. */
  lemma HomeIsSubtree(fs: Fs, n: Id, home: Id)
    requires TreeOk(fs) && n in fs.nodes && home in fs.nodes && home != fs.root && PathFits(NamesTo(fs, n))
             && PathFits(NamesTo(fs, home))
    ensures Covers(AbsPath(fs, home), AbsPath(fs, n)) <==> Under(fs, n, home)
  {
    hide Under, TreeOk, NamesTo;
    RootPrinted(fs);
    CoversMeansWithin(fs, n, AbsPath(fs, home));
    PathStartsWithSlash(fs, home);
    if Within(fs, n, AbsPath(fs, home)) {
      var a :| a in fs.nodes && Under(fs, n, a) && AbsPath(fs, a) == AbsPath(fs, home)
          && (a == fs.root ==> n == fs.root);
      SamePathSameNode(fs, n, a, home);
    }
  }

  lemma SamePathSameNode(fs: Fs, n: Id, a: Id, b: Id)
    requires TreeOk(fs) && n in fs.nodes && a in fs.nodes && b in fs.nodes && b != fs.root
    requires Under(fs, n, a) && PathFits(NamesTo(fs, n)) && PathFits(NamesTo(fs, b)) && AbsPath(fs, a) == AbsPath(fs, b)
    ensures a == b
  {
    UnderIsPrefix(fs, n, a);
    assert NamesTo(fs, a) == NamesTo(fs, n)[..|NamesTo(fs, a)|];
    PrefixFits(NamesTo(fs, n), |NamesTo(fs, a)|);
    PrintedJoin(fs, b);
    ComponentsJoin(NamesTo(fs, b));
    SlashAlone();
    if a != fs.root {
      PrintedJoin(fs, a);
      ComponentsJoin(NamesTo(fs, a));
      NamesInjective(fs, a, b);
    }
  }

  // ----- the path a shell command checks

  /** `strrchr(s, '/')`. */
  function LastSlash(s: Str): (k: Option<nat>)
    ensures k.Some? ==> k.value < |s| && s[k.value] == SLASH && SLASH !in s[k.value + 1..]
    ensures k.None? ==> SLASH !in s
    decreases |s|
  {
    if s == [] then None
    else if s[|s| - 1] == SLASH then Some(|s| - 1)
    else
      var k := LastSlash(s[..|s| - 1]);
      assert k.Some? ==> s[k.value + 1..] == s[..|s| - 1][k.value + 1..] + [s[|s| - 1]];
      assert k.None? ==> s == s[..|s| - 1] + [s[|s| - 1]];
      k
  }

  /** Where a path that does not lead anywhere would be made: the directory and the name. */
  function Spot(fs: Fs, path: Str): (Option<Id>, Str) {
    var b := Buffered(path);
    var k := LastSlash(b);
    if k.Some? then (Resolve(fs, if k.value == 0 then [SLASH] else b[..k.value]), b[k.value + 1..])
    else (Some(fs.cwd), b)
  }

  /** `target_abspath`. */
  ghost function TargetAbs(fs: Fs, path: Str): Option<Str>
    requires TreeOk(fs)
  {
    var node := Resolve(fs, path);
    if node.Some? && node.value in fs.nodes then Some(AbsPath(fs, node.value))
    else
      var (parent, name) := Spot(fs, path);
      if parent == None || parent.value !in fs.nodes || fs.nodes[parent.value].kind != Directory || name == [] then None
      else
        var above := AbsPath(fs, parent.value);
        Some(Truncate(if above == [SLASH] then above + name else above + [SLASH] + name, PATH_MAX - 1))
  }

  /** A path that leads nowhere yet is split where the walker of `fs_create` splits it. */
  lemma SpotIsTarget(fs: Fs, path: Str)
    requires path != [] && Spot(fs, path).1 != []
    ensures var cs := Components(Buffered(path));
            && cs != [] && cs[|cs| - 1] == Truncate(Spot(fs, path).1, NAME_MAX - 1)
            && Spot(fs, path).0 == Fold(fs, Start(fs, path), cs[..|cs| - 1])
            && SLASH !in Spot(fs, path).1
  {
    hide Components, Span, Resolve, Join;
    NoComponents();
    var b := Buffered(path);
    var cs := Components(b);
    var name := Spot(fs, path).1;
    assert b[0] == path[0];
    assert name + [] == name;
    if LastSlash(b).Some? {
      var k := LastSlash(b).value;
      var front := b[..k];
      assert b == front + ([SLASH] + name);
      ComponentsConcat(front, [SLASH] + name);
      SlashFirst(name);
      ComponentsWord(name, []);
      assert cs == Components(front) + [Truncate(name, NAME_MAX - 1)];
      assert cs[..|cs| - 1] == Components(front);
      FrontWalk(fs, path, front);
    } else {
      ComponentsWord(name, []);
      assert cs[..|cs| - 1] == [];
    }
  }

  lemma NoComponents()
    ensures Components([]) == []
  {
  }

  lemma FrontWalk(fs: Fs, path: Str, front: Str)
    requires path != [] && front <= Buffered(path) && |front| < |Buffered(path)| && (front == [] ==> path[0] == SLASH)
    ensures Resolve(fs, if front == [] then [SLASH] else front) == Fold(fs, Start(fs, path), Components(front))
  {
    if front != [] {
      assert Buffered(front) == front && front[0] == path[0];
      if front == [SLASH] {
        assert [SLASH][1..] == [];
      }
    }
  }

  /** Joins of words are equal only if the words are. */
  lemma {:induction false} JoinInjective(a: seq<Str>, b: seq<Str>)
    requires Words(a) && Words(b) && Join(a) == Join(b)
    ensures a == b
    decreases |a|
  {
    JoinStart(a);
    JoinStart(b);
    if a != [] {
      WordsPart(a);
      WordsPart(b);
      JoinStart(a[1..]);
      JoinStart(b[1..]);
      SpanOf(a[0], Join(a[1..]));
      SpanOf(b[0], Join(b[1..]));
      var x, y := a[0] + Join(a[1..]), b[0] + Join(b[1..]);
      assert Join(a)[1..] == x && Join(b)[1..] == y;
      assert x[..|a[0]|] == a[0] && y[..|b[0]|] == b[0];
      assert x[|a[0]|..] == Join(a[1..]) && y[|b[0]|..] == Join(b[1..]);
      JoinInjective(a[1..], b[1..]);
      assert a == [a[0]] + a[1..] && b == [b[0]] + b[1..];
    }
  }

  /** A covered directory stays covered when the longer path is cut to what the buffer holds. */
  lemma CoversCut(h: Str, path: Str, n: nat)
    requires Covers(h, Truncate(path, n)) && |h| < n
    ensures Covers(h, path)
  {
  }

  /** `h` spells these names, or the first of them. */
  ghost predicate Inside(h: Str, names: seq<Str>) {
    exists k :: 1 <= k <= |names| && h == Join(names[..k])
  }

  /** A home whose last name could be a node's name, and that is neither empty nor the root. */
  predicate SafeHome(h: Str) {
    h != [] && h != [SLASH] && (LastSlash(h).Some? ==> |h| - LastSlash(h).value - 1 < NAME_MAX)
  }

  lemma {:induction false} LastSlashAt(a: Str, word: Str)
    requires SLASH !in word
    ensures LastSlash(a + [SLASH] + word) == Some(|a|)
    decreases |word|
  {
    var s := a + [SLASH] + word;
    if word != [] {
      var front := word[..|word| - 1];
      assert s[|s| - 1] == word[|word| - 1];
      assert s[..|s| - 1] == a + [SLASH] + front;
      LastSlashAt(a, front);
    } else {
      assert s[|s| - 1] == SLASH;
    }
  }

  lemma SafeWord(a: Str, word: Str)
    requires SLASH !in word
    ensures |a + word| > 0 ==> (SafeHome(a + [SLASH] + word) <==> |word| < NAME_MAX)
  {
    hide LastSlash;
    LastSlashAt(a, word);
    assert |a + [SLASH] + word| > 1 || a + word == [];
  }

  // ----- what `fs_abspath` shows of a path that is not too deep

  lemma {:induction false} FittingStops(parts: seq<Str>, used: nat)
    requires NamesOk(parts) && Fitting(parts, used, PATH_MAX) < |parts|
    ensures used + |Join(parts[..Fitting(parts, used, PATH_MAX)])| + NAME_MAX + 1 >= PATH_MAX
    decreases |parts|
  {
    var k := Fitting(parts, used, PATH_MAX);
    assert NameOk(parts[0]);
    if k == 0 {
      assert parts[..0] == [];
    } else {
      FittingStops(parts[1..], used + 1 + |parts[0]|);
      assert parts[..k][1..] == parts[1..][..k - 1];
    }
  }

  /** Up to 32 levels the first names are shown: all of them, or more characters than any home has. */
  lemma PrintedFront(names: seq<Str>) returns (k: nat)
    requires names != [] && NamesOk(names) && |names| <= DEPTH_MAX
    ensures 1 <= k <= |names| && Printed(names, PATH_MAX) == Join(names[..k])
    ensures k < |names| ==> |Join(names[..k])| >= USER_HOME_MAX
    ensures PathFits(names) ==> k == |names|
  {
    k := Fitting(names, 0, PATH_MAX);
    FittingAll(names, 0, PATH_MAX);
    assert NameOk(names[0]);
    if k < |names| {
      FittingStops(names, 0);
    }
  }

  lemma InsideFront(h: Str, names: seq<Str>, j: nat, k: nat)
    requires 1 <= j <= k <= |names| && h == Join(names[..k][..j])
    ensures Inside(h, names)
  {
    assert names[..k][..j] == names[..j];
  }

  /** If a spelled-out place is covered by `h`, the node made there lies inside what `h` spells. */
  lemma CoveredSpot(h: Str, above: seq<Str>, k: nat, name: Str)
    requires SafeHome(h) && |h| < USER_HOME_MAX && NamesOk(above) && k <= |above|
    requires k < |above| ==> |Join(above[..k])| >= USER_HOME_MAX
    requires name != [] && SLASH !in name && Covers(h, Truncate(Join(above[..k] + [name]), PATH_MAX - 1))
    ensures Inside(h, above + [Truncate(name, NAME_MAX - 1)])
  {
    hide Join, SafeHome, Covers, LastSlash, Inside;
    var ws, made := above[..k] + [name], above + [Truncate(name, NAME_MAX - 1)];
    NamesAreWords(above);
    CoversCut(h, Join(ws), PATH_MAX - 1);
    assert h != [] by { SafeNotEmpty(h); }
    var j := CoversJoin(h, ws);
    JoinSnoc(above[..k], name);
    if j == |ws| {
      assert ws[..j] == ws && above[..k] == above;
      SafeWord(Join(above), name);
      assert Truncate(name, NAME_MAX - 1) == name;
      assert made[..|made|] == ws;
      InsideFront(h, made, |made|, |made|);
    } else {
      assert made[..k][..j] == ws[..j];
      InsideFront(h, made, j, k);
    }
  }

  lemma SafeNotEmpty(h: Str)
    requires SafeHome(h)
    ensures h != [] && h != [SLASH]
  {
  }

  /** Where a creation that the check let through ends up, by names. */
  lemma PermittedSpot(fs: Fs, path: Str, h: Str)
    requires Valid(fs) && NulFree(path) && SafeHome(h) && |h| < USER_HOME_MAX
    requires Target(fs, path).Some? && Target(fs, path).value.0 in fs.nodes
    requires |NamesTo(fs, Target(fs, path).value.0)| <= DEPTH_MAX
    requires TargetAbs(fs, path).Some? && Covers(h, TargetAbs(fs, path).value)
    ensures var (parent, name) := Target(fs, path).value; Inside(h, NamesTo(fs, parent) + [name])
  {
    TargetFacts(fs, path);
    var (parent, name) := Target(fs, path).value;
    var node := Resolve(fs, path);
    hide TreeOk, Target, NamesTo, AbsPath, Inside, SafeHome;
    ParentFacts(fs, parent);
    if node.Some? && node.value in fs.nodes {
      ExistingDots(fs, path);
      FrontNames(fs, parent, node.value);
      CoversNames(fs, node.value, h);
      InsideMore(h, NamesTo(fs, node.value), NamesTo(fs, parent) + [name]);
    } else {
      assert Spot(fs, path).1 != [];
      SpotIsTarget(fs, path);
      var k := SpotPath(fs, parent, Spot(fs, path).1);
      CoveredSpot(h, NamesTo(fs, parent), k, Spot(fs, path).1);
    }
  }

  lemma FrontNames(fs: Fs, parent: Id, n: Id)
    requires TreeOk(fs) && parent in fs.nodes && (n == parent || n == ParentOr(fs, parent))
    ensures n in fs.nodes && NamesTo(fs, n) <= NamesTo(fs, parent)
  {
    hide TreeOk, NamesTo;
    ParentFacts(fs, parent);
    RootHasNoNames(fs, parent);
  }

  lemma InsideMore(h: Str, a: seq<Str>, b: seq<Str>)
    requires Inside(h, a) && a <= b
    ensures Inside(h, b)
  {
    var k :| 1 <= k <= |a| && h == Join(a[..k]);
    assert b[..k] == a[..k];
  }

  /** If a path leads somewhere and `fs_create` makes a node there all the same, it ended in a dot name. */
  lemma ExistingDots(fs: Fs, path: Str)
    requires TreeOk(fs) && NulFree(path) && Target(fs, path).Some? && Resolve(fs, path).Some?
    ensures var parent := Target(fs, path).value.0;
            Resolve(fs, path) == Some(parent) || Resolve(fs, path) == Some(ParentOr(fs, parent))
  {
    TargetFacts(fs, path);
    var (parent, name) := Target(fs, path).value;
    var cs := Components(Buffered(path));
    assert cs == cs[..|cs| - 1] + [name];
    FoldConcat(fs, Start(fs, path), cs[..|cs| - 1], [name]);
    FoldOne(fs, parent, name);
    assert path != [SLASH] by { assert [SLASH][1..] == []; assert Buffered([SLASH]) == [SLASH]; }
  }

  lemma CoversNames(fs: Fs, n: Id, h: Str)
    requires TreeOk(fs) && n in fs.nodes && |NamesTo(fs, n)| <= DEPTH_MAX && SafeHome(h) && Covers(h, AbsPath(fs, n))
    ensures Inside(h, NamesTo(fs, n))
  {
    hide TreeOk, NamesTo, Printed, Inside;
    RootPrinted(fs);
    RootHasNoNames(fs, n);
    SafeNotEmpty(h);
    assert n != fs.root;
    var names := NamesTo(fs, n);
    var k := PrintedFront(names);
    NamesAreWords(names);
    var j := CoversJoin(h, names[..k]);
    InsideFront(h, names, j, k);
  }

  /** The path checked for a new node: its directory as far as it is shown, and the name. */
  lemma SpotPath(fs: Fs, parent: Id, name: Str) returns (k: nat)
    requires TreeOk(fs) && parent in fs.nodes && |NamesTo(fs, parent)| <= DEPTH_MAX
    ensures k <= |NamesTo(fs, parent)|
            && (k < |NamesTo(fs, parent)| ==> |Join(NamesTo(fs, parent)[..k])| >= USER_HOME_MAX)
    ensures (if AbsPath(fs, parent) == [SLASH] then AbsPath(fs, parent) + name
            else AbsPath(fs, parent) + [SLASH] + name)
            == Join(NamesTo(fs, parent)[..k] + [name])
    ensures PathFits(NamesTo(fs, parent)) ==> k == |NamesTo(fs, parent)|
  {
    var names := NamesTo(fs, parent);
    if parent == fs.root {
      k := 0;
      assert AbsPath(fs, parent) == [SLASH];
      JoinSnoc([], name);
      assert names[..0] == [] && [] + [SLASH] + name == [SLASH] + name;
    } else {
      RootHasNoNames(fs, parent);
      k := PrintedFront(names);
      JoinSnoc(names[..k], name);
      assert NameOk(names[..k][0]);
      assert |Join(names[..k])| >= 2;
    }
  }

  /**
   A creation that the write check let through adds its node inside the home or inside "/tmp",
   also when the path wanders through `..`, ends in a dot name, or is too long for its buffer.
   `SafeHome` is what that asks of a home; the homes that `users_add` gives are. The directory must
   not be too deep for `fs_abspath`.
   */
  lemma CreateConfined(fs: Fs, path: Str, kind: Kind, t: Table)
    requires Valid(fs) && NulFree(path) && TableOk(t) && t.current.Some?
    requires var u := t.slots[t.current.value].value; u.uid != 0 && SafeHome(u.home)
    requires Target(fs, path).Some? && Target(fs, path).value.0 in fs.nodes
    requires |NamesTo(fs, Target(fs, path).value.0)| <= DEPTH_MAX
    requires TargetAbs(fs, path).Some? && MayWrite(t, TargetAbs(fs, path).value)
    ensures var (r, id) := Create(fs, path, kind);
            && id.Some? && TreeOk(r) && id.value in r.nodes
            && (Inside(t.slots[t.current.value].value.home, NamesTo(r, id.value)) || Inside(TMP, NamesTo(r, id.value)))
  {
    hide TreeOk, NamesTo, Target, TargetAbs, Covers, SafeHome, Inside;
    CreateKeeps(fs, path, kind);
    HomeShort(t);
    TmpSafe();
    if Covers(t.slots[t.current.value].value.home, TargetAbs(fs, path).value) {
      PermittedSpot(fs, path, t.slots[t.current.value].value.home);
    } else {
      PermittedSpot(fs, path, TMP);
    }
  }

  lemma TmpSafe()
    ensures SafeHome(TMP)
  {
    LastSlashAt([], TMP[1..]);
    assert TMP == [] + [SLASH] + TMP[1..];
  }

  /** The homes that `users_add` gives are safe. */
  lemma GivenHomesAreSafe(name: Str)
    requires ValidName(name)
    ensures SafeHome(HOME_PREFIX + name) && SafeHome(ROOT_HOME)
  {
    assert forall i | 0 <= i < |name| :: NameChar(name[i]) && name[i] != SLASH;
    LastSlashAt(HOME_PREFIX[..5], name);
    assert HOME_PREFIX + name == HOME_PREFIX[..5] + [SLASH] + name;
    LastSlashAt([], ROOT_HOME[1..]);
    assert ROOT_HOME == [] + [SLASH] + ROOT_HOME[1..];
  }

  /** An empty home, which an import may bring, covers every path, and no node lies inside it. */
  lemma EmptyHomeEscapes(fs: Fs, path: Str, kind: Kind)
    requires Valid(fs) && NulFree(path) && Target(fs, path).Some? && TargetAbs(fs, path).Some?
    ensures var (t, code) := Import(Empty(), User([97], [], 1, 1, 1));
            code == 0 && t.slots[0].Some? && t.slots[0].value.home == [] && t.slots[0].value.uid != 0
    ensures var (r, id) := Create(fs, path, kind);
            && Covers([], TargetAbs(fs, path).value)
            && id.Some? && TreeOk(r) && id.value in r.nodes && !Inside([], NamesTo(r, id.value))
  {
    hide TreeOk, NamesTo, Target, Create, Import, Empty, TargetAbs;
    EmptyHomeImported();
    CreateKeeps(fs, path, kind);
    CheckedAbsolute(fs, path);
    var (r, id) := Create(fs, path, kind);
    forall k | 1 <= k <= |NamesTo(r, id.value)| ensures Join(NamesTo(r, id.value)[..k]) != [] {
      JoinStart(NamesTo(r, id.value)[..k]);
    }
  }

  lemma EmptyHomeImported()
    ensures var (t, code) := Import(Empty(), User([97], [], 1, 1, 1));
            code == 0 && t.slots[0].Some? && t.slots[0].value.home == [] && t.slots[0].value.uid != 0
  {
    assert ValidName([97]) && Find(Empty().slots, [97]) == USER_MAX && FreeSlot(Empty().slots) == 0;
  }

  /** The path checked is an absolute one. */
  lemma CheckedAbsolute(fs: Fs, path: Str)
    requires TreeOk(fs) && TargetAbs(fs, path).Some?
    ensures TargetAbs(fs, path).value != [] && TargetAbs(fs, path).value[0] == SLASH
  {
    hide AbsPath, TreeOk;
    var node := Resolve(fs, path);
    if node.Some? && node.value in fs.nodes {
      PathStartsWithSlash(fs, node.value);
    } else {
      PathStartsWithSlash(fs, Spot(fs, path).0.value);
    }
  }

  /** With "/" for a home, which an import may bring, a file "/." can be made in any root that has none. */
  lemma SlashHomeEscapes(fs: Fs, kind: Kind)
    requires Valid(fs) && FindChild(fs, fs.root, SELF) == None
    ensures var path: Str := [SLASH, DOT];
            var (r, id) := Create(fs, path, kind);
            && TargetAbs(fs, path).Some? && Covers([SLASH], TargetAbs(fs, path).value)
            && id.Some? && TreeOk(r) && id.value in r.nodes && NamesTo(r, id.value) == [SELF]
            && !Inside([SLASH], NamesTo(r, id.value)) && !Inside(TMP, NamesTo(r, id.value))
  {
    var path: Str := [SLASH, DOT];
    var cs: seq<Str> := [SELF];
    assert cs[1..] == [] && cs[..0] == [];
    assert Join(cs) == [SLASH] + SELF + [];
    assert path == Join(cs) && Buffered(path) == path;
    assert NameOk(SELF);
    ComponentsJoin(cs);
    RootPrinted(fs);
    assert Target(fs, path) == Some((fs.root, SELF));
    assert Resolve(fs, path) == Some(fs.root);
    hide TreeOk, NamesTo, Target, Create, Resolve;
    CreateKeeps(fs, path, kind);
    RootHasNoNames(fs, fs.root);
    assert [] + cs == cs;
    assert cs[..1] == cs;
  }

  /** With a home whose last name is too long for a node, making just that path lands beside it. */
  lemma LongHomeEscapes(fs: Fs, d: Id, word: Str, kind: Kind)
    requires Valid(fs) && d in fs.nodes && fs.nodes[d].kind == Directory && NoDots(NamesTo(fs, d))
    requires |word| >= NAME_MAX && NulFree(word) && SLASH !in word && |Join(NamesTo(fs, d) + [word])| < USER_HOME_MAX
    requires FindChild(fs, d, Truncate(word, NAME_MAX - 1)) == None && PathFits(NamesTo(fs, d))
    ensures var home := Join(NamesTo(fs, d) + [word]);
            var (r, id) := Create(fs, home, kind);
            && !SafeHome(home) && NulFree(home)
            && TargetAbs(fs, home).Some? && Covers(home, TargetAbs(fs, home).value)
            && id.Some? && TreeOk(r) && id.value in r.nodes && !Inside(home, NamesTo(r, id.value))
  {
    hide TreeOk, NodeOk, NamesTo, Target, Create, FindChild, Components, LastSlash, Join, Inside, NoDots, AbsPath,
         IsDots;
    var above, cut := NamesTo(fs, d), Truncate(word, NAME_MAX - 1);
    var home := Join(above + [word]);
    LongHome(above, word);
    FoldNames(fs, d);
    LongWalk(fs, home, above, cut, d);
    SpotIsTarget(fs, home);
    var k := SpotPath(fs, d, word);
    assert above[..k] == above;
    CreateKeeps(fs, home, kind);
    LongOutside(above, word);
  }

  /** The home's components, and where its last slash is. */
  lemma LongHome(above: seq<Str>, word: Str)
    requires NamesOk(above) && |word| >= NAME_MAX && NulFree(word) && SLASH !in word
             && |Join(above + [word])| < USER_HOME_MAX
    ensures var home := Join(above + [word]);
            && home != [] && home[0] == SLASH && home != [SLASH] && Buffered(home) == home && NulFree(home)
               && !SafeHome(home)
            && Components(home) == above + [Truncate(word, NAME_MAX - 1)]
            && LastSlash(home) == Some(|Join(above)|) && home[|Join(above)| + 1..] == word
    ensures !IsDots(Truncate(word, NAME_MAX - 1))
  {
    hide Join, SafeHome, LastSlash, Components, NameOk, NamesOk;
    var home := Join(above + [word]);
    JoinSnoc(above, word);
    LastSlashAt(Join(above), word);
    SafeWord(Join(above), word);
    JoinStart(above);
    JoinNulFree(above);
    ComponentsJoin(above);
    LongTail(Join(above), word);
    assert home == Join(above) + [SLASH] + word;
    assert home[|Join(above)| + 1..] == word;
  }

  lemma LongTail(front: Str, word: Str)
    requires word != [] && SLASH !in word
    ensures Components(front + [SLASH] + word) == Components(front) + [Truncate(word, NAME_MAX - 1)]
  {
    hide Truncate;
    assert front + [SLASH] + word == front + ([SLASH] + word);
    ComponentsConcat(front, [SLASH] + word);
    assert ([SLASH] + word)[1..] == word && word + [] == word;
    ComponentsWord(word, []);
  }

  lemma LongWalk(fs: Fs, home: Str, above: seq<Str>, cut: Str, d: Id)
    requires home != [] && home[0] == SLASH && home != [SLASH] && Components(Buffered(home)) == above + [cut]
             && cut != [] && !IsDots(cut)
    requires Fold(fs, fs.root, above) == Some(d) && d in fs.nodes && fs.nodes[d].kind == Directory
             && FindChild(fs, d, cut) == None
    ensures Resolve(fs, home) == None && Target(fs, home) == Some((d, cut))
  {
    hide FindChild, Components;
    var cs := above + [cut];
    assert cs[..|cs| - 1] == above;
    FoldConcat(fs, fs.root, above, [cut]);
    FoldOne(fs, d, cut);
  }

  lemma LongOutside(above: seq<Str>, word: Str)
    requires NamesOk(above) && |word| >= NAME_MAX && SLASH !in word
    ensures !Inside(Join(above + [word]), above + [Truncate(word, NAME_MAX - 1)])
  {
    var home, names := Join(above + [word]), above + [Truncate(word, NAME_MAX - 1)];
    JoinSnoc(above, word);
    JoinSnoc(above, Truncate(word, NAME_MAX - 1));
    forall k | 1 <= k <= |names| ensures home != Join(names[..k]) {
      JoinCovers(names, k);
    }
  }

  /**
   Below 32 levels the first name of the directory is not shown: what is made in "/x/tmp/..." then
   passes for something in "/tmp". The same goes for any home `h` that the names behind the first spell.
   */
  lemma DeepParentEscapes(fs: Fs, d: Id, x: Str, rest: seq<Str>, k: nat, name: Str, kind: Kind)
    requires Valid(fs) && d in fs.nodes && fs.nodes[d].kind == Directory && NamesTo(fs, d) == [x] + rest
    requires |rest| == DEPTH_MAX && 1 <= k <= |rest| && x != rest[0] && NoDots([x] + rest)
    requires NameOk(name) && !IsDots(name) && |Join([x] + rest + [name])| <= PATH_MAX - 2
             && FindChild(fs, d, name) == None
    ensures var path := Join([x] + rest + [name]);
            var h := Join(rest[..k]);
            var (r, id) := Create(fs, path, kind);
            && NulFree(path) && TargetAbs(fs, path).Some? && Covers(h, TargetAbs(fs, path).value)
            && id.Some? && TreeOk(r) && id.value in r.nodes && NamesTo(r, id.value) == [x] + rest + [name]
            && !Inside(h, NamesTo(r, id.value))
  {
    hide TreeOk, NodeOk, NamesTo, Target, Create, FindChild, Components, LastSlash, Join, Inside, NoDots, AbsPath,
         IsDots;
    var above := [x] + rest;
    var path, names := Join(above + [name]), above + [name];
    DeepPath(above, name);
    FoldNames(fs, d);
    LongWalk(fs, path, above, name, d);
    SpotIsTarget(fs, path);
    DeepShown(fs, d, x, rest, name, k);
    CreateKeeps(fs, path, kind);
    DeepOutside(x, rest, name, k);
  }

  lemma DeepPath(above: seq<Str>, name: Str)
    requires NamesOk(above) && NameOk(name) && |Join(above + [name])| <= PATH_MAX - 2
    ensures var path := Join(above + [name]);
            && path != [] && path[0] == SLASH && path != [SLASH] && Buffered(path) == path && NulFree(path)
            && Components(path) == above + [name]
            && LastSlash(path) == Some(|Join(above)|) && path[|Join(above)| + 1..] == name
  {
    hide Components, LastSlash;
    var path := Join(above + [name]);
    assert NamesOk(above + [name]);
    JoinNulFree(above + [name]);
    ComponentsJoin(above + [name]);
    JoinSnoc(above, name);
    JoinStart(above + [name]);
    LastSlashAt(Join(above), name);
    assert path[|Join(above)| + 1..] == name;
  }

  /** The path that is checked lacks the first name. */
  lemma DeepShown(fs: Fs, d: Id, x: Str, rest: seq<Str>, name: Str, k: nat)
    requires TreeOk(fs) && d in fs.nodes && NamesTo(fs, d) == [x] + rest && |rest| == DEPTH_MAX && 1 <= k <= |rest|
    requires NameOk(x) && NameOk(name) && NamesOk(rest) && |Join([x] + rest + [name])| <= PATH_MAX - 2
    ensures var checked := AbsPath(fs, d) + [SLASH] + name;
            AbsPath(fs, d) != [SLASH] && |checked| < PATH_MAX && Covers(Join(rest[..k]), checked)
  {
    var names := [x] + rest;
    assert LastParts(names) == rest;
    assert [x] + rest + [name] == [x] + (rest + [name]);
    JoinConcat([x], rest + [name]);
    JoinSnoc(rest, name);
    FittingAll(rest, 0, PATH_MAX);
    assert rest[..|rest|] == rest;
    assert AbsPath(fs, d) == Join(rest);
    assert NameOk(rest[0]);
    var all := rest + [name];
    assert all[..k] == rest[..k];
    JoinCovers(all, k);
  }

  lemma DeepOutside(x: Str, rest: seq<Str>, name: Str, k: nat)
    requires NameOk(x) && NamesOk(rest) && NameOk(name) && 1 <= k <= |rest| && x != rest[0]
    ensures !Inside(Join(rest[..k]), [x] + rest + [name])
  {
    var names := [x] + rest + [name];
    NamesAreWords(rest);
    forall j | 1 <= j <= |names| ensures Join(rest[..k]) != Join(names[..j]) {
      assert NamesOk(names);
      NamesAreWords(names);
      assert rest[..k][0] == rest[0] && names[..j][0] == x;
      if Join(rest[..k]) == Join(names[..j]) {
        JoinInjective(rest[..k], names[..j]);
      }
    }
  }

  lemma HomeShort(t: Table)
    requires TableOk(t) && t.current.Some?
    ensures |t.slots[t.current.value].value.home| < USER_HOME_MAX
  {
  }
}

/** The check as the shell makes it, over the running file system and account table. */
module Permissions {
  import opened Bytes
  import opened Paths
  import opened FsSpec
  import opened RamFs
  import opened AccountSpec
  import opened Accounts
  import opened PermissionSpec

  /** `strrchr` for a slash, from the front as the C library does it. */
  method FindLastSlash(s: Str) returns (k: Option<nat>)
    ensures k == LastSlash(s)
  {
    k := None;
    var i := 0;
    while i < |s|
      invariant i <= |s| && k == LastSlash(s[..i])
    {
      assert s[..i + 1][..i] == s[..i];
      if s[i] == SLASH {
        k := Some(i);
      }
      i := i + 1;
    }
    assert s[..i] == s;
  }

  /** `target_abspath`, into a buffer of `FS_PATH_MAX`. */
  method TargetPath(fs: FileSystem, path: Str) returns (r: Option<Str>)
    requires Valid(fs.State())
    ensures r == TargetAbs(fs.State(), path)
  {
    hide NodeOk, NamesTo, Printed, Resolve, KidsOk, Fold, TreeOk, LastSlash, CwdOk, Truncate;
    var node := fs.ResolvePath(path);
    if node.Some? && node.value in fs.nodes {
      var shown := PrintPath(fs.State(), node.value, PATH_MAX);
      return Some(shown);
    }
    var buffer := Truncate(path, PATH_MAX - 1);
    var slash := FindLastSlash(buffer);
    var name: Str;
    var parent: Option<Id>;
    if slash.Some? {
      name := buffer[slash.value + 1..];
      parent := fs.ResolvePath(if slash.value == 0 then [SLASH] else buffer[..slash.value]);
    } else {
      name := buffer;
      parent := Some(fs.cwd);
    }
    if parent == None || parent.value !in fs.nodes || fs.nodes[parent.value].kind != Directory || name == [] {
      return None;
    }
    var above := PrintPath(fs.State(), parent.value, PATH_MAX);
    return Some(Truncate(if above == [SLASH] then above + name else above + [SLASH] + name, PATH_MAX - 1));
  }

  /** `may_write` without its messages. */
  method MayWriteAt(accounts: AccountTable, fs: FileSystem, path: Str) returns (ok: bool)
    requires Valid(fs.State()) && accounts.Valid()
    ensures ok <==> TargetAbs(fs.State(), path).Some? && MayWrite(accounts.State(), TargetAbs(fs.State(), path).value)
  {
    hide NodeOk, NamesTo, TargetAbs;
    var target := TargetPath(fs, path);
    if target == None {
      return false;
    }
    if accounts.current == None {
      return false;
    }
    var u := accounts.users[accounts.current.value];
    if u.value.uid == 0 {
      return true;
    }
    return Covers(u.value.home, target.value) || Covers(TMP, target.value);
  }
}
