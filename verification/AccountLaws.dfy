/** What happens to the accounts, name by name, and what /etc/passwd and a new home hold. */
module AccountLaws {
  import opened Bytes
  import opened Words
  import opened Paths
  import opened FsSpec
  import opened AccountSpec
  import opened PathNames

  /** The account with this name, if there is one. */
  ghost function Account(t: Table, name: Str): Option<User> {
    if u :| Some(u) in t.slots && u.name == name then Some(u) else None
  }

  lemma AccountIs(t: Table, name: Str, i: nat)
    requires TableOk(t) && i < |t.slots| && t.slots[i].Some? && t.slots[i].value.name == name
    ensures Account(t, name) == t.slots[i] && Find(t.slots, name) == i
  {
    assert t.slots[i] in t.slots;
    var u := Account(t, name).value;
    var j :| 0 <= j < |t.slots| && t.slots[j] == Some(u);
    var k := Find(t.slots, name);
  }

  lemma AccountNone(t: Table, name: Str)
    requires TableOk(t)
    ensures Account(t, name) == None <==> Find(t.slots, name) == |t.slots|
    ensures Account(t, name).Some? ==> t.slots[Find(t.slots, name)] == Account(t, name)
  {
    var i := Find(t.slots, name);
    if i < |t.slots| {
      AccountIs(t, name, i);
    }
    if Account(t, name).Some? {
      var j := AccountSlot(t, name);
      AccountIs(t, name, j);
    }
  }

  lemma AccountSlot(t: Table, name: Str) returns (j: nat)
    requires Account(t, name).Some?
    ensures j < |t.slots| && t.slots[j] == Account(t, name) && Account(t, name).value.name == name
  {
    var u := Account(t, name).value;
    j :| 0 <= j < |t.slots| && t.slots[j] == Some(u);
  }

  /** One slot rewritten changes the account it held or holds, and no other. */
  lemma SlotSet(t: Table, r: Table, i: nat, v: Option<User>, n: Str)
    requires TableOk(t) && TableOk(r) && i < |t.slots| && r.slots == t.slots[i := v]
    requires t.slots[i].Some? ==> t.slots[i].value.name != n
    requires v.Some? ==> v.value.name != n
    ensures Account(r, n) == Account(t, n)
  {
    AccountNone(t, n);
    AccountNone(r, n);
    if Account(t, n).Some? {
      var j := Find(t.slots, n);
      assert r.slots[j] == t.slots[j];
      AccountIs(r, n, j);
    }
    if Account(r, n).Some? {
      var j := Find(r.slots, n);
      assert t.slots[j] == r.slots[j];
      AccountIs(t, n, j);
    }
  }

  ghost predicate Full(t: Table) { forall i | 0 <= i < |t.slots| :: t.slots[i].Some? }

  lemma FullSlot(t: Table)
    ensures Full(t) <==> FreeSlot(t.slots) == |t.slots|
  {
  }

  /**
   `users_add`: the first reason to refuse decides the answer; without one the account is there with
   the name and the password's hash, as administrator with id 0 and "/root", or with the next id as
   user and group and "/home/" and the name, and all other accounts are as they were.
   */
  lemma Added(t: Table, name: Str, passwordLength: nat, hash: nat, admin: bool, n: Str)
    requires TableOk(t) && hash < WORD && t.nextUid < WORD
    ensures var (r, code) := Add(t, name, passwordLength, hash, admin);
            && code == (if !ValidName(name) then -1 else if Account(t, name).Some? then -2
                        else if passwordLength < 4 then -3 else if Full(t) then -4 else 0)
            && (code != 0 ==> r == t)
            && (code == 0 ==>
                  && r.current == t.current
                  && r.nextUid == (if admin then t.nextUid else (t.nextUid + 1) % 0x1_0000_0000)
                  && Account(r, n) ==
                     (if n != name then Account(t, n)
                      else if admin then Some(User(name, [47, 114, 111, 111, 116], 0, 0, hash))
                      else Some(User(name, [47, 104, 111, 109, 101, 47] + name, t.nextUid, t.nextUid, hash))))
  {
    AccountNone(t, name);
    FullSlot(t);
    AddKeeps(t, name, passwordLength, hash, admin);
    var (r, code) := Add(t, name, passwordLength, hash, admin);
    if code == 0 {
      var i := FreeSlot(t.slots);
      AccountIs(r, name, i);
      if n != name {
        SlotSet(t, r, i, r.slots[i], n);
      }
    }
  }

  /** `users_import` takes an account as it was saved, but for a home that is too long, and no other is touched. */
  lemma Imported(t: Table, u: User, n: Str)
    requires TableOk(t) && NulFree(u.home) && u.uid < WORD && u.gid < WORD && u.hash < WORD
    ensures var (r, code) := Import(t, u);
            && code == (if !ValidName(u.name) || Account(t, u.name).Some? then -1 else if Full(t) then -4 else 0)
            && (code != 0 ==> r == t)
            && (code == 0 ==>
                  && r.current == t.current
                  && r.nextUid == (if u.uid >= t.nextUid then (u.uid + 1) % 0x1_0000_0000 else t.nextUid)
                  && Account(r, n) == (if n != u.name then Account(t, n) else Some(u.(home := Truncate(u.home, 63)))))
  {
    AccountNone(t, u.name);
    FullSlot(t);
    ImportKeeps(t, u);
    var (r, code) := Import(t, u);
    if code == 0 {
      var i := FreeSlot(t.slots);
      AccountIs(r, u.name, i);
      if n != u.name {
        SlotSet(t, r, i, r.slots[i], n);
      }
    }
  }

  /** `users_delete`: not an administrator, not the one logged in; otherwise that account goes, and no other. */
  lemma Deleted(t: Table, name: Str, n: Str)
    requires TableOk(t)
    ensures var (r, code) := Delete(t, name);
            && code == (if Account(t, name) == None then -1 else if Account(t, name).value.uid == 0 then -2
                        else if t.current.Some? && t.slots[t.current.value] == Account(t, name) then -3 else 0)
            && (code != 0 ==> r == t)
            && (code == 0 ==>
                  && r.current == t.current && r.nextUid == t.nextUid
                  && Account(r, n) == (if n == name then None else Account(t, n)))
  {
    AccountNone(t, name);
    DeleteKeeps(t, name);
    var (r, code) := Delete(t, name);
    NoEmptyName(t, name);
    if t.current.Some? && t.slots[t.current.value] == Account(t, name) {
      AccountIs(t, name, t.current.value);
    }
    if code == 0 {
      AccountNone(r, name);
      if n != name {
        SlotSet(t, r, Find(t.slots, name), None, n);
      }
    }
  }

  lemma NoEmptyName(t: Table, name: Str)
    requires TableOk(t)
    ensures name == [] ==> Find(t.slots, name) == |t.slots|
  {
  }

  // ----- /etc/passwd

  const ETC_PASSWD: seq<Str> := [[101, 116, 99], [112, 97, 115, 115, 119, 100]]

  /** The tree has a node with these names, of this kind and with these contents. */
  ghost predicate HasNode(fs: Fs, names: seq<Str>, kind: Kind, data: Str)
    requires TreeOk(fs)
  { exists m :: m in fs.nodes && NamesTo(fs, m) == names && fs.nodes[m].kind == kind && fs.nodes[m].data == data }

  lemma PasswdLeads(fs: Fs, m: Id)
    requires Valid(fs)
    ensures Resolve(fs, PasswdPath()) == Some(m) <==> m in fs.nodes && NamesTo(fs, m) == ETC_PASSWD
  {
    PasswdNames();
    ResolveAbsolute(fs, PasswdPath());
    hide TreeOk, NamesTo, Components, Resolve, Fold, PasswdPath;
    RootUnnamed(fs);
    FoldPlain(fs, ETC_PASSWD, m);
  }

  /** Following names that are no dot names from the root leads to the node with these names. */
  lemma FoldPlain(fs: Fs, names: seq<Str>, m: Id)
    requires TreeOk(fs) && NoDots(names) && fs.root in fs.nodes && NamesTo(fs, fs.root) == []
    ensures Fold(fs, fs.root, names) == Some(m) <==> m in fs.nodes && NamesTo(fs, m) == names
  {
    FoldNormal(fs, fs.root, names);
    NormalPlain([], names);
    assert [] + names == names;
    if m in fs.nodes && NamesTo(fs, m) == names {
      FoldNames(fs, m);
    }
  }

  lemma {:induction false} NormalPlain(front: seq<Str>, names: seq<Str>)
    requires NoDots(names)
    ensures Normal(front, names) == front + names
    decreases |names|
  {
    if names == [] {
      assert front + names == front;
    } else {
      assert !IsDots(names[0]);
      NormalPlain(front + [names[0]], names[1..]);
      assert front + names == (front + [names[0]]) + names[1..];
    }
  }

  /** Where /etc is a directory and /etc/passwd no directory, it ends up as a file with a line for every account. */
  lemma PasswdHolds(fs: Fs, slots: seq<Option<User>>, etc: Id)
    requires Valid(fs) && etc in fs.nodes && NamesTo(fs, etc) == [[101, 116, 99]] && fs.nodes[etc].kind == Directory
    requires forall m | m in fs.nodes && NamesTo(fs, m) == ETC_PASSWD :: fs.nodes[m].kind == File
    ensures TreeOk(Sync(fs, slots)) && HasNode(Sync(fs, slots), ETC_PASSWD, File, PasswdText(Listed(slots)))
  {
    SyncKeeps(fs, slots);
    var found := Resolve(fs, PasswdPath());
    var text := PasswdText(Listed(slots));
    if found.Some? {
      PasswdLeads(fs, found.value);
      WriteKeeps(fs, found.value, text, false);
      Written(fs, found.value, text, ETC_PASSWD);
    } else {
      PasswdNames();
      PasswdPlace(fs, etc);
      CreateKeeps(fs, PasswdPath(), File);
      NoPasswd(fs);
      hide TreeOk, NamesTo, Resolve, PasswdPath, PasswdText, Place, Named;
      CreateExactly(fs, PasswdPath(), File);
      var (made, id) := Create(fs, PasswdPath(), File);
      assert [[101, 116, 99]] + [[112, 97, 115, 115, 119, 100]] == ETC_PASSWD;
      assert id.Some?;
      Written(made, id.value, text, ETC_PASSWD);
    }
  }

  lemma Written(fs: Fs, m: Id, text: Str, names: seq<Str>)
    requires TreeOk(fs) && m in fs.nodes && NamesTo(fs, m) == names && fs.nodes[m].kind == File
    ensures TreeOk(Write(fs, m, text, false)) && HasNode(Write(fs, m, text, false), names, File, text)
  {
    WriteKeeps(fs, m, text, false);
    var r := Write(fs, m, text, false);
    assert [] + text == text;
    assert m in r.nodes && NamesTo(r, m) == names && r.nodes[m].data == text && r.nodes[m].kind == File;
  }

  lemma NoPasswd(fs: Fs)
    requires Valid(fs) && Resolve(fs, PasswdPath()) == None
    ensures !Named(fs, ETC_PASSWD)
  {
    forall m | m in fs.nodes ensures NamesTo(fs, m) != ETC_PASSWD {
      PasswdLeads(fs, m);
    }
  }

  lemma PasswdPlace(fs: Fs, etc: Id)
    requires Valid(fs) && etc in fs.nodes && NamesTo(fs, etc) == [[101, 116, 99]]
    ensures Place(fs, PasswdPath(), etc, [112, 97, 115, 115, 119, 100])
  {
    PasswdNames();
    var cs := Components(Truncate(PasswdPath(), PATH_MAX - 1));
    assert Truncate(PasswdPath(), PATH_MAX - 1) == PasswdPath();
    assert cs == ETC_PASSWD && cs[..1] == [ETC];
    hide TreeOk, NamesTo, Components, PasswdPath;
    RootUnnamed(fs);
    assert NoDots([ETC]);
    FoldPlain(fs, [ETC], etc);
    FoldNormal(fs, fs.root, [ETC]);
  }

  // ----- a new home

  const README_NAME: Str := [114, 101, 97, 100, 109, 101, 46, 116, 120, 116]     // "readme.txt"

  lemma ReadmeComponents(name: Str)
    requires ValidName(name)
    ensures var path := HOME_PREFIX + name + README;
            && Components(Truncate(path, PATH_MAX - 1)) == [HOME_DIR, name, README_NAME]
            && NulFree(path) && path[0] == SLASH
  {
    hide Components, NulFree;
    HomePath(name);
    ReadmePath(HOME_PREFIX + name);
    var path := HOME_PREFIX + name + README;
    assert Truncate(path, PATH_MAX - 1) == path;
    ComponentsConcat(HOME_PREFIX + name, README);
    ReadmeAlone();
    assert [HOME_DIR, name] + [README_NAME] == [HOME_DIR, name, README_NAME];
  }

  lemma ReadmeAlone()
    ensures Components(README) == [README_NAME] && NameOk(README_NAME)
  {
    var one: seq<Str> := [README_NAME];
    assert NameOk(README_NAME) && one[1..] == [];
    assert Join(one) == [SLASH] + README_NAME + [] && Join(one) == README;
    ComponentsJoin(one);
  }

  lemma PlainPlace(fs: Fs, path: Str, d: Id, above: seq<Str>, name: Str)
    requires Valid(fs) && path != [] && path[0] == SLASH && Components(Truncate(path, PATH_MAX - 1)) == above + [name]
    requires NoDots(above) && d in fs.nodes && NamesTo(fs, d) == above
    ensures Place(fs, path, d, name)
  {
    hide TreeOk, NamesTo, Components;
    var cs := above + [name];
    assert cs[..|cs| - 1] == above;
    RootUnnamed(fs);
    FoldPlain(fs, above, d);
    FoldNormal(fs, fs.root, above);
  }

  /** Making one node at a place where there is none, by names. */
  lemma MadeThere(fs: Fs, path: Str, kind: Kind, d: Id, above: seq<Str>, name: Str)
    requires Valid(fs) && NulFree(path) && path != [] && path[0] == SLASH
    requires Components(Truncate(path, PATH_MAX - 1)) == above + [name] && NoDots(above)
    requires d in fs.nodes && NamesTo(fs, d) == above && fs.nodes[d].kind == Directory && !Named(fs, above + [name])
    ensures var (r, id) := Create(fs, path, kind);
            && Valid(r) && id.Some? && id.value in r.nodes && NamesTo(r, id.value) == above + [name]
            && r.nodes[id.value].kind == kind && r.nodes[id.value].data == [] && r.nodes[id.value].children == []
            && id.value !in fs.nodes
            && forall m | m in fs.nodes :: m in r.nodes && NamesTo(r, m) == NamesTo(fs, m)
                                           && r.nodes[m].kind == fs.nodes[m].kind && r.nodes[m].data == fs.nodes[m].data
  {
    PlainPlace(fs, path, d, above, name);
    CreateKeeps(fs, path, kind);
    CreateExactly(fs, path, kind);
    hide TreeOk, NamesTo, Place, Named;
    assert Target(fs, path).Some?;
  }

  /** Where /home is a directory that has no such entry, `users_add` makes the home and the note in it. */
  lemma HomeMade(fs: Fs, name: Str, note: Str, d: Id)
    requires Valid(fs) && ValidName(name) && d in fs.nodes && NamesTo(fs, d) == [HOME_DIR]
    requires fs.nodes[d].kind == Directory && !Named(fs, [HOME_DIR, name])
    ensures var r := MakeHome(fs, [47, 104, 111, 109, 101, 47] + name, note);
            && TreeOk(r) && HasNode(r, [HOME_DIR, name], Directory, [])
            && HasNode(r, [HOME_DIR, name, README_NAME], File, note)
  {
    hide TreeOk, NamesTo, Create, Write, Resolve, Components, Named;
    var home := HOME_PREFIX + name;
    HomePath(name);
    ReadmeComponents(name);
    assert [HOME_DIR] + [name] == [HOME_DIR, name] && Truncate(home, PATH_MAX - 1) == home;
    assert NoDots([HOME_DIR]) && NoDots([HOME_DIR, name]);
    NotThere(fs, home, [HOME_DIR, name]);
    MadeThere(fs, home, Directory, d, [HOME_DIR], name);
    var (made, id) := Create(fs, home, Directory);
    assert [HOME_DIR, name] + [README_NAME] == [HOME_DIR, name, README_NAME];
    NothingIn(made, id.value, README_NAME);
    MadeThere(made, home + README, File, id.value, [HOME_DIR, name], README_NAME);
    var (full, file) := Create(made, home + README, File);
    Written(full, file.value, note, [HOME_DIR, name, README_NAME]);
    StillThere(full, file.value, note, id.value, [HOME_DIR, name]);
  }

  lemma NotThere(fs: Fs, path: Str, names: seq<Str>)
    requires Valid(fs) && path != [] && path[0] == SLASH && Components(Truncate(path, PATH_MAX - 1)) == names
    requires NoDots(names) && !Named(fs, names)
    ensures Resolve(fs, path) == None
  {
    NormalPlain([], names);
    assert [] + names == names;
    if Resolve(fs, path).Some? {
      ResolveExactly(fs, path, Resolve(fs, path).value);
    }
  }

  lemma NothingIn(fs: Fs, id: Id, name: Str)
    requires TreeOk(fs) && id in fs.nodes && fs.nodes[id].children == []
    ensures !Named(fs, NamesTo(fs, id) + [name])
  {
    hide TreeOk, NamesTo, Named;
    ChildNamed(fs, id, name);
  }

  lemma StillThere(fs: Fs, m: Id, text: Str, d: Id, names: seq<Str>)
    requires TreeOk(fs) && m in fs.nodes && d in fs.nodes && d != m && NamesTo(fs, d) == names
    requires fs.nodes[d].kind == Directory && fs.nodes[d].data == []
    ensures TreeOk(Write(fs, m, text, false)) && HasNode(Write(fs, m, text, false), names, Directory, [])
  {
    WriteKeeps(fs, m, text, false);
    var r := Write(fs, m, text, false);
    assert d in r.nodes && NamesTo(r, d) == names && r.nodes[d] == fs.nodes[d];
  }
}
