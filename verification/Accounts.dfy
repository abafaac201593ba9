/** The account table (kernel/users.c) and the /etc/passwd file that mirrors it. */
module AccountSpec {
  import opened Bytes
  import opened Paths
  import opened FsSpec
  import opened PrintfSpec
  import opened Words

  const USER_MAX: nat := 8
  const USER_NAME_MAX: nat := 32
  const USER_HOME_MAX: nat := 64
  const PASSWORD_MIN: nat := 4
  const LINE_MAX: nat := 160           // the buffer sync_passwd_file formats into
  const FIRST_UID: nat := 1000

  datatype User = User(name: Str, home: Str, uid: nat, gid: nat, hash: nat)

  /** A slot is `None` while its `active` flag is clear; `current` names the slot logged in. */
  datatype Table = Table(slots: seq<Option<User>>, current: Option<nat>, nextUid: nat)

  /** The accounts in slot order, as `users_at` enumerates them. */
  function Listed(slots: seq<Option<User>>): seq<User> {
    if slots == [] then []
    else if slots[0].Some? then [slots[0].value] + Listed(slots[1..])
    else Listed(slots[1..])
  }

  predicate NameChar(c: byte) {
    (97 <= c <= 122) || (65 <= c <= 90) || (48 <= c <= 57) || c == 95 || c == 45
  }

  predicate ValidName(name: Str) {
    && 0 < |name| < USER_NAME_MAX
    && (forall i | 0 <= i < |name| :: NameChar(name[i]))
    && !(48 <= name[0] <= 57)
  }

  predicate UserOk(u: User) {
    && ValidName(u.name) && |u.home| < USER_HOME_MAX && NulFree(u.home)
    && u.uid < WORD && u.gid < WORD && u.hash < WORD
  }

  /** The slot `users_find` returns, or the table size. */
  function Find(slots: seq<Option<User>>, name: Str): (i: nat)
    ensures i <= |slots|
    ensures i < |slots| ==> slots[i].Some? && slots[i].value.name == name
    ensures forall j | 0 <= j < i :: slots[j].Some? ==> slots[j].value.name != name
  {
    if slots == [] then 0
    else if slots[0].Some? && slots[0].value.name == name then 0
    else 1 + Find(slots[1..], name)
  }

  /** The first inactive slot, or the table size. */
  function FreeSlot(slots: seq<Option<User>>): (i: nat)
    ensures i <= |slots|
    ensures i < |slots| ==> slots[i].None?
    ensures forall j | 0 <= j < i :: slots[j].Some?
  {
    if slots == [] then 0 else if slots[0].None? then 0 else 1 + FreeSlot(slots[1..])
  }

  ghost predicate TableOk(t: Table) {
    && |t.slots| == USER_MAX
    && (forall i | 0 <= i < |t.slots| && t.slots[i].Some? :: UserOk(t.slots[i].value))
    && (forall i, j | 0 <= i < j < |t.slots| && t.slots[i].Some? && t.slots[j].Some? ::
       t.slots[i].value.name != t.slots[j].value.name)
    && (t.current.Some? ==> t.current.value < |t.slots| && t.slots[t.current.value].Some?)
  }

  function Empty(): Table { Table(seq(USER_MAX, _ => None), None, FIRST_UID) }

  /** `users_import`: restores an account as it was saved. */
  function Import(t: Table, u: User): (Table, int) {
    if !ValidName(u.name) || Find(t.slots, u.name) < |t.slots| then (t, -1)
    else
      var i := FreeSlot(t.slots);
      if i == |t.slots| then (t, -4)
      else (t.(slots := t.slots[i := Some(u.(home := Truncate(u.home, USER_HOME_MAX - 1)))],
               nextUid := if u.uid >= t.nextUid then (u.uid + 1) % WORD else t.nextUid), 0)
  }

  /** `users_add`; `hash` stands for what the password hashes to. */
  function Add(t: Table, name: Str, passwordLength: nat, hash: nat, admin: bool): (Table, int) {
    if !ValidName(name) then (t, -1)
    else if Find(t.slots, name) < |t.slots| then (t, -2)
    else if passwordLength < PASSWORD_MIN then (t, -3)
    else
      var i := FreeSlot(t.slots);
      if i == |t.slots| then (t, -4)
      else if admin then (t.(slots := t.slots[i := Some(User(name, ROOT_HOME, 0, 0, hash))]), 0)
      else (t.(slots := t.slots[i := Some(User(name, HOME_PREFIX + name, t.nextUid, t.nextUid, hash))],
               nextUid := (t.nextUid + 1) % WORD), 0)
  }

  const ROOT_HOME: Str := [47, 114, 111, 111, 116]            // "/root"
  const HOME_PREFIX: Str := [47, 104, 111, 109, 101, 47]      // "/home/"

  /** `users_delete`: never an administrator, never the one logged in. */
  function Delete(t: Table, name: Str): (Table, int) {
    var i := Find(t.slots, name);
    if name == [] || i == |t.slots| then (t, -1)
    else if t.slots[i].value.uid == 0 then (t, -2)
    else if t.current == Some(i) then (t, -3)
    else (t.(slots := t.slots[i := None]), 0)
  }

  // ----- the invariant

  /** Importing keeps names unique and every account within its limits. */
  lemma ImportKeeps(t: Table, u: User)
    requires TableOk(t) && NulFree(u.home) && u.uid < WORD && u.gid < WORD && u.hash < WORD
    ensures TableOk(Import(t, u).0)
  {
    var h := Truncate(u.home, USER_HOME_MAX - 1);
    assert forall k | 0 <= k < |h| :: h[k] == u.home[k];
  }

  lemma AddKeeps(t: Table, name: Str, passwordLength: nat, hash: nat, admin: bool)
    requires TableOk(t) && hash < WORD && t.nextUid < WORD
    ensures TableOk(Add(t, name, passwordLength, hash, admin).0)
    ensures Add(t, name, passwordLength, hash, admin).0.nextUid < WORD
  {
    if ValidName(name) {
      var home := HOME_PREFIX + name;
      forall k | 0 <= k < |home| ensures home[k] != 0 {
        assert k >= |HOME_PREFIX| ==> NameChar(home[k]);
      }
    }
  }

  /** A successful addition fills one free slot and touches nothing else; a refused one touches nothing. */
  lemma AddTakes(t: Table, name: Str, passwordLength: nat, hash: nat, admin: bool)
    requires TableOk(t)
    ensures var (r, code) := Add(t, name, passwordLength, hash, admin);
            var i := Find(r.slots, name);
            && (code != 0 ==> r == t)
            && (code == 0 ==>
                  && Find(t.slots, name) == |t.slots| && passwordLength >= PASSWORD_MIN
                  && i < |r.slots| && t.slots[i] == None && r.slots == t.slots[i := r.slots[i]]
                     && r.current == t.current
                  && r.slots[i].value.hash == hash && r.slots[i].value.uid == (if admin then 0 else t.nextUid))
  {
    var (r, code) := Add(t, name, passwordLength, hash, admin);
    if code == 0 {
      var i, j := FreeSlot(t.slots), Find(r.slots, name);
      assert r.slots[i].Some? && r.slots[i].value.name == name;
      assert forall k | 0 <= k < |t.slots| && k != i :: r.slots[k] == t.slots[k];
    }
  }

  /** Every user id handed out so far is below the next one. */
  ghost predicate UidsBelow(t: Table) {
    forall i | 0 <= i < |t.slots| && t.slots[i].Some? :: t.slots[i].value.uid < t.nextUid
  }

  /**
   A new ordinary account gets an id that no account has and that is not the administrator's; and
   the next one will too, exactly until the 32-bit counter is used up.
   */
  lemma AddFresh(t: Table, name: Str, passwordLength: nat, hash: nat)
    requires TableOk(t) && UidsBelow(t) && 0 < t.nextUid < WORD
    requires Add(t, name, passwordLength, hash, false).1 == 0
    ensures var r := Add(t, name, passwordLength, hash, false).0;
            var i := Find(r.slots, name);
            && i < |r.slots| && r.slots[i].value.uid != 0
            && (forall j | 0 <= j < |r.slots| && j != i && r.slots[j].Some? ::
               r.slots[j].value.uid != r.slots[i].value.uid)
            && (UidsBelow(r) && r.nextUid > 0 <==> t.nextUid < WORD - 1)
  {
    AddTakes(t, name, passwordLength, hash, false);
  }

  /** An import keeps later ids fresh exactly unless it brings the largest id there is. */
  lemma ImportFresh(t: Table, u: User)
    requires TableOk(t) && UidsBelow(t) && 0 < t.nextUid < WORD && u.uid < WORD && Import(t, u).1 == 0
    ensures UidsBelow(Import(t, u).0) && Import(t, u).0.nextUid > 0 <==> u.uid < WORD - 1
  {
    var r := Import(t, u).0;
    var i := FreeSlot(t.slots);
    assert r.slots[i].Some? && r.slots[i].value.uid == u.uid;
  }

  lemma DeleteKeeps(t: Table, name: Str)
    requires TableOk(t)
    ensures TableOk(Delete(t, name).0)
    ensures Delete(t, name).1 == 0 ==>
              && Find(t.slots, name) < |t.slots| && t.slots[Find(t.slots, name)].value.uid != 0
              && Find(Delete(t, name).0.slots, name) == |t.slots|
              && Delete(t, name).0.current == t.current
  {
    var i := Find(t.slots, name);
    var r := Delete(t, name).0;
    if Delete(t, name).1 == 0 {
      forall j | 0 <= j < |r.slots| ensures r.slots[j].Some? ==> r.slots[j].value.name != name {
        assert j != i ==> r.slots[j] == t.slots[j];
      }
    }
  }

  // ----- saving and restoring the list

  lemma {:induction false} ListedConcat(a: seq<Option<User>>, b: seq<Option<User>>)
    ensures Listed(a + b) == Listed(a) + Listed(b)
  {
    if a == [] {
      assert a + b == b;
    } else {
      assert (a + b)[1..] == a[1..] + b;
      ListedConcat(a[1..], b);
    }
  }

  lemma {:induction false} ListedFacts(slots: seq<Option<User>>)
    ensures |Listed(slots)| <= |slots|
    ensures forall u :: u in Listed(slots) <==> Some(u) in slots
  {
    if slots != [] {
      ListedFacts(slots[1..]);
      assert slots == [slots[0]] + slots[1..];
    }
  }

  /** The listed names are distinct. */
  lemma {:induction false} ListedDistinct(slots: seq<Option<User>>)
    requires forall i, j | 0 <= i < j < |slots| && slots[i].Some? && slots[j].Some? ::
             slots[i].value.name != slots[j].value.name
    ensures forall i, j | 0 <= i < j < |Listed(slots)| :: Listed(slots)[i].name != Listed(slots)[j].name
  {
    if slots != [] {
      var rest := slots[1..];
      assert forall i | 0 <= i < |rest| :: rest[i] == slots[i + 1];
      ListedDistinct(rest);
      ListedFacts(rest);
      forall j | 0 <= j < |Listed(rest)| ensures slots[0].Some? ==> slots[0].value.name != Listed(rest)[j].name {
        assert Listed(rest)[j] in Listed(rest);
        var k :| 0 <= k < |rest| && rest[k] == Some(Listed(rest)[j]);
        assert slots[k + 1] == rest[k];
      }
    }
  }

  /** A table holding `us` in its first slots and nothing else. */
  ghost predicate Packed(slots: seq<Option<User>>, us: seq<User>) {
    && |slots| == USER_MAX && |us| <= USER_MAX
    && (forall i | 0 <= i < |us| :: slots[i] == Some(us[i]))
    && (forall i | |us| <= i < USER_MAX :: slots[i] == None)
  }

  lemma PackedListed(slots: seq<Option<User>>, us: seq<User>)
    requires Packed(slots, us)
    ensures Listed(slots) == us
  {
    assert slots == slots[..|us|] + slots[|us|..];
    ListedConcat(slots[..|us|], slots[|us|..]);
    ListedSomes(slots[..|us|], us);
    ListedNones(slots[|us|..]);
  }

  lemma {:induction false} ListedSomes(slots: seq<Option<User>>, us: seq<User>)
    requires |slots| == |us| && forall i | 0 <= i < |us| :: slots[i] == Some(us[i])
    ensures Listed(slots) == us
  {
    if us != [] {
      ListedSomes(slots[1..], us[1..]);
    }
  }

  lemma {:induction false} ListedNones(slots: seq<Option<User>>)
    requires forall i | 0 <= i < |slots| :: slots[i] == None
    ensures Listed(slots) == []
  {
    if slots != [] {
      ListedNones(slots[1..]);
    }
  }

  /** Importing the next saved account into a packed table appends it. */
  lemma ImportAppends(t: Table, us: seq<User>, u: User)
    requires Packed(t.slots, us) && |us| < USER_MAX && UserOk(u)
    requires forall i | 0 <= i < |us| :: us[i].name != u.name
    ensures Import(t, u).1 == 0 && Packed(Import(t, u).0.slots, us + [u])
    ensures Import(t, u).0.current == t.current
  {
    assert t.slots[|us|] == None;
    assert FreeSlot(t.slots) == |us|;
    assert Truncate(u.home, USER_HOME_MAX - 1) == u.home;
  }

  // ----- /etc/passwd

  const ETC: Str := [101, 116, 99]
  const PASSWD: Str := [112, 97, 115, 115, 119, 100]

  function PasswdPath(): Str { Join([ETC, PASSWD]) }

  const COLON: byte := 58
  const SHELL: Str := [58, 47, 98, 105, 110, 47, 108, 115, 104, 10]   // ":/bin/lsh\n"

  /** One account's line, cut to the formatting buffer. */
  function PasswdLine(u: User): Str {
    Truncate(u.name + [COLON, 120, COLON] + Digits(u.uid, 10, false) + [COLON] + Digits(u.gid, 10, false) + [COLON]
             + u.name + [COLON] + u.home + SHELL,
             LINE_MAX - 1)
  }

  /** "%s:x:%u:%u:%s:%s:/bin/lsh\n". */
  function PasswdFormat(): Str {
    [37, 115] + ([COLON, 120, COLON]
        + ([37, 117] + ([COLON] + ([37, 117] + ([COLON] + ([37, 115] + ([COLON] + ([37, 115] + SHELL))))))))
  }

  /** The line is what formatting the account with that string gives. */
  lemma PasswdLineFormatted(u: User)
    requires u.uid < WORD && u.gid < WORD
    ensures var args := [Text(Some(u.name)), Word(u.uid), Word(u.gid), Text(Some(u.name)), Text(Some(u.home))];
            && Fed(Items(PasswdFormat()), args)
            && PasswdLine(u) == Truncate(Render(Items(PasswdFormat()), args), LINE_MAX - 1)
  {
    hide Items, Digits, Render, Fed;
    var colon: Str := [COLON];
    var home, name, gid, uid := Text(Some(u.home)), Text(Some(u.name)), Word(u.gid), Word(u.uid);
    var f1 := [37, 115] + SHELL;
    var f2 := [37, 115] + (colon + f1);
    var f3 := [37, 117] + (colon + f2);
    var f4 := [37, 117] + (colon + f3);
    PlainIsItself(SHELL, []);
    RenderField(115, home, SHELL, []);
    RenderPlain(colon, f1, [home] + []);
    RenderField(115, name, colon + f1, [home] + []);
    RenderPlain(colon, f2, [name] + ([home] + []));
    RenderField(117, gid, colon + f2, [name] + ([home] + []));
    RenderPlain(colon, f3, [gid] + ([name] + ([home] + [])));
    RenderField(117, uid, colon + f3, [gid] + ([name] + ([home] + [])));
    RenderPlain([COLON, 120, COLON], f4, [uid] + ([gid] + ([name] + ([home] + []))));
    RenderField(115, name, [COLON, 120, COLON] + f4, [uid] + ([gid] + ([name] + ([home] + []))));
    assert [name, uid, gid, name, home] == [name] + ([uid] + ([gid] + ([name] + ([home] + []))));
    LineParts(u.name, Digits(u.uid, 10, false), Digits(u.gid, 10, false), u.home, colon);
  }

  lemma LineParts(name: Str, uid: Str, gid: Str, home: Str, colon: Str)
    ensures name + ([COLON, 120, COLON] + (uid + (colon + (gid + (colon + (name + (colon + (home + SHELL))))))))
            == name + [COLON, 120, COLON] + uid + colon + gid + colon + name + colon + home + SHELL
  {
  }

  function PasswdText(us: seq<User>): Str {
    if us == [] then [] else PasswdLine(us[0]) + PasswdText(us[1..])
  }

  /** `sync_passwd_file`: the file is rewritten from the table, created first if need be. */
  function Sync(fs: Fs, slots: seq<Option<User>>): Fs {
    var found := Resolve(fs, PasswdPath());
    if found.Some? then Write(fs, found.value, PasswdText(Listed(slots)), false)
    else
      var (made, id) := Create(fs, PasswdPath(), File);
      if id == None then fs else Write(made, id.value, PasswdText(Listed(slots)), false)
  }

  const README: Str := [47, 114, 101, 97, 100, 109, 101, 46, 116, 120, 116]      // "/readme.txt"

  /** What `users_add` makes of a home that is not there: the directory and a note inside. */
  function MakeHome(fs: Fs, home: Str, note: Str): Fs {
    if Resolve(fs, home).Some? then fs
    else
      var made := Create(fs, home, Directory).0;
      var (full, id) := Create(made, home + README, File);
      if id == None then full else Write(full, id.value, note, false)
  }

  lemma MakeHomeKeeps(fs: Fs, home: Str, note: Str)
    requires Valid(fs) && NulFree(home)
    ensures Valid(MakeHome(fs, home, note))
  {
    hide TreeOk, NodeOk, NamesTo, Target, Create, Write;
    CreateKeeps(fs, home, Directory);
    var made := Create(fs, home, Directory).0;
    assert NulFree(home + README);
    CreateKeeps(made, home + README, File);
    var (full, id) := Create(made, home + README, File);
    if id.Some? {
      WriteKeeps(full, id.value, note, false);
    }
  }

  const HOME_DIR: Str := [104, 111, 109, 101]                 // "home"

  lemma HomePath(name: Str)
    requires ValidName(name)
    ensures NulFree(HOME_PREFIX + name) && Buffered(HOME_PREFIX + name) == HOME_PREFIX + name && !IsDots(name)
    ensures Components(HOME_PREFIX + name) == [HOME_DIR, name]
  {
    assert forall i | 0 <= i < |name| :: NameChar(name[i]) && name[i] != SLASH && name[i] != DOT && name[i] != 0;
    assert NameOk(name) && NameOk(HOME_DIR);
    ComponentsJoin([HOME_DIR, name]);
    assert [HOME_DIR, name][1..] == [name] && [name][1..] == [];
    assert Join([name]) == [SLASH] + name + [];
    assert Join([HOME_DIR, name]) == HOME_PREFIX + name;
  }

  /** If /home is a directory, a new ordinary account ends up with a home that its path leads to. */
  lemma HomeIsThere(fs: Fs, name: Str, note: Str, dir: Id)
    requires Valid(fs) && ValidName(name)
    requires FindChild(fs, fs.root, HOME_DIR) == Some(dir) && dir in fs.nodes && fs.nodes[dir].kind == Directory
    ensures Resolve(MakeHome(fs, HOME_PREFIX + name, note), HOME_PREFIX + name).Some?
  {
    hide TreeOk, NodeOk, FindChild, Components, NulFree, Target, Create, Write;
    var home := HOME_PREFIX + name;
    if Resolve(fs, home).None? {
      HomePath(name);
      HomeFree(fs, home, name, dir);
      HomeWalk(fs, home, name, dir);
      hide *;
      CreateResolves(fs, home, Directory);
      CreateKeeps(fs, home, Directory);
      var made := Create(fs, home, Directory).0;
      ReadmePath(home);
      CreateFrame(made, home + README, File, home);
      var (full, id) := Create(made, home + README, File);
      if id.Some? {
        WriteResolves(full, id.value, note, false, home);
      }
    }
  }

  lemma ReadmePath(home: Str)
    requires NulFree(home)
    ensures NulFree(home + README)
  {
  }

  lemma HomeFree(fs: Fs, home: Str, name: Str, dir: Id)
    requires home != [] && home[0] == SLASH && Components(Buffered(home)) == [HOME_DIR, name] && home != [SLASH]
             && !IsDots(name)
    requires FindChild(fs, fs.root, HOME_DIR) == Some(dir) && Resolve(fs, home) == None
    ensures FindChild(fs, dir, name) == None
  {
    hide FindChild, Components;
    var cs := [HOME_DIR, name];
    assert cs[1..] == [name] && [name][1..] == [];
    assert Fold(fs, dir, [name]) == FindChild(fs, dir, name);
    assert Fold(fs, fs.root, cs) == Fold(fs, dir, [name]);
  }

  lemma HomeWalk(fs: Fs, home: Str, name: Str, dir: Id)
    requires home != [] && home[0] == SLASH && Components(Buffered(home)) == [HOME_DIR, name] && name != []
    requires Hop(fs, fs.root, HOME_DIR) == Some(dir) && dir in fs.nodes && fs.nodes[dir].kind == Directory
    requires FindChild(fs, dir, name) == None
    ensures Target(fs, home) == Some((dir, name))
  {
    var cs := [HOME_DIR, name];
    assert cs[..1] == [HOME_DIR] && [HOME_DIR][1..] == [];
    assert Fold(fs, fs.root, [HOME_DIR]) == Some(dir);
  }

  lemma PasswdNames()
    ensures NamesOk([ETC, PASSWD]) && NoDots([ETC, PASSWD])
    ensures Components(PasswdPath()) == [ETC, PASSWD]
    ensures NulFree(PasswdPath()) && |PasswdPath()| == 11 && PasswdPath()[0] == SLASH
  {
    assert NameOk(ETC) && NameOk(PASSWD);
    ComponentsJoin([ETC, PASSWD]);
    assert [ETC, PASSWD][1..] == [PASSWD] && [PASSWD][1..] == [];
    assert Join([PASSWD]) == [SLASH] + PASSWD + [];
    assert PasswdPath() == [SLASH] + ETC + ([SLASH] + PASSWD);
  }

  lemma SyncKeeps(fs: Fs, slots: seq<Option<User>>)
    requires Valid(fs)
    ensures Valid(Sync(fs, slots))
  {
    PasswdNames();
    CreateKeeps(fs, PasswdPath(), File);
    var found := Resolve(fs, PasswdPath());
    if found.Some? {
      WriteKeeps(fs, found.value, PasswdText(Listed(slots)), false);
    } else {
      var (made, id) := Create(fs, PasswdPath(), File);
      if id.Some? {
        WriteKeeps(made, id.value, PasswdText(Listed(slots)), false);
      }
    }
  }

  /** While a snapshot is being restored the tree is bare: there is no /etc to put the file in,
      so importing accounts leaves no trace in the tree. */
  lemma SyncOnBareTree(fs: Fs, slots: seq<Option<User>>)
    requires Valid(fs) && fs.nodes[fs.root].children == []
    ensures Sync(fs, slots) == fs
  {
    PasswdNames();
    var path := PasswdPath();
    ResolveAbsolute(fs, path);
    assert Buffered(path) == path;
    assert FindChild(fs, fs.root, ETC) == None;
    assert !IsDots(ETC);
    assert Fold(fs, fs.root, [ETC, PASSWD]) == None;
    assert [ETC, PASSWD][..1] == [ETC];
    assert Fold(fs, fs.root, [ETC]) == None;
  }

  /** Rewriting and then extending a file is rewriting it once. */
  lemma WriteThenAppend(fs: Fs, id: Id, a: Str, b: Str)
    ensures Write(Write(fs, id, a, false), id, b, true) == Write(fs, id, a + b, false)
  {
    if id in fs.nodes && fs.nodes[id].kind == File {
      var once := Write(fs, id, a, false);
      assert [] + a == a && [] + (a + b) == a + b;
      assert Write(once, id, b, true).nodes == Write(fs, id, a + b, false).nodes;
    }
  }

  lemma {:induction false} PasswdTextConcat(a: seq<User>, b: seq<User>)
    ensures PasswdText(a + b) == PasswdText(a) + PasswdText(b)
  {
    if a == [] {
      assert a + b == b;
    } else {
      assert (a + b)[1..] == a[1..] + b;
      PasswdTextConcat(a[1..], b);
    }
  }

  lemma PasswdTextOne(u: User)
    ensures PasswdText([u]) == PasswdLine(u)
  {
    assert [u][1..] == [];
  }

  /** The next slot's contribution to the listing. */
  lemma ListedSnoc(slots: seq<Option<User>>, i: nat)
    requires i < |slots|
    ensures Listed(slots[..i + 1]) == if slots[i].Some? then Listed(slots[..i]) + [slots[i].value]
            else Listed(slots[..i])
  {
    assert slots[..i + 1] == slots[..i] + [slots[i]];
    ListedConcat(slots[..i], [slots[i]]);
    assert [slots[i]][1..] == [];
  }
}

/** The table as the kernel keeps it: a fixed array of slots. */
module Accounts {
  import opened Bytes
  import opened Paths
  import opened FsSpec
  import opened AccountSpec
  import opened RamFs
  import opened Words

  class AccountTable {
    const users: array<Option<User>>
    var current: Option<nat>
    var nextUid: nat

    ghost function State(): Table
      reads this, users
    { Table(users[..], current, nextUid) }

    ghost predicate Valid()
      reads this, users
    { users.Length == USER_MAX && TableOk(State()) }

    /** `users_init`. */
    constructor ()
      ensures Valid() && State() == Empty() && fresh(users)
    {
      users := new Option<User>[USER_MAX](_ => None);
      current := None;
      nextUid := FIRST_UID;
      new;
      assert users[..] == Empty().slots;
    }

    /** `users_find`, by slot. */
    method FindUser(name: Str) returns (i: nat)
      ensures i == Find(users[..], name)
    {
      i := 0;
      while i < users.Length && !(users[i].Some? && users[i].value.name == name)
        invariant i <= users.Length
        invariant forall j | 0 <= j < i :: users[j].Some? ==> users[j].value.name != name
      {
        i := i + 1;
      }
    }

    method FirstFree() returns (i: nat)
      ensures i == AccountSpec.FreeSlot(users[..])
    {
      i := 0;
      while i < users.Length && users[i].Some?
        invariant i <= users.Length
        invariant forall j | 0 <= j < i :: users[j].Some?
      {
        i := i + 1;
      }
    }

    /** `users_count`. */
    method Count() returns (count: nat)
      ensures count == |Listed(users[..])|
    {
      count := 0;
      assert users[..0] == [];
      for i := 0 to users.Length
        invariant count == |Listed(users[..i])|
      {
        ListedSnoc(users[..], i);
        assert users[..i + 1] == users[..][..i + 1] && users[..i] == users[..][..i];
        if users[i].Some? {
          count := count + 1;
        }
      }
      assert users[..users.Length] == users[..];
    }

    /** `users_at`: the account with this index in the listing. */
    method At(index: nat) returns (u: Option<User>)
      ensures u == if index < |Listed(users[..])| then Some(Listed(users[..])[index]) else None
    {
      var seen := 0;
      assert users[..0] == [];
      for i := 0 to users.Length
        invariant seen == |Listed(users[..i])| <= index
      {
        ListedSnoc(users[..], i);
        assert users[..i + 1] == users[..][..i + 1] && users[..i] == users[..][..i];
        if users[i].Some? {
          if seen == index {
            assert users[..] == users[..i + 1] + users[i + 1..];
            ListedConcat(users[..i + 1], users[i + 1..]);
            return Some(users[i].value);
          }
          seen := seen + 1;
        }
      }
      assert users[..users.Length] == users[..];
      return None;
    }

    /** `sync_passwd_file`. */
    method SyncPasswd(fs: FileSystem)
      requires FsSpec.Valid(fs.State())
      modifies fs
      ensures FsSpec.Valid(fs.State()) && fs.State() == Sync(old(fs.State()), users[..])
    {
      hide FsSpec.Valid, Listed, PasswdText, Write, Target, NodeNew, Resolve;
      SyncKeeps(fs.State(), users[..]);
      PasswdNames();
      var file := fs.ResolvePath(PasswdPath());
      if file == None {
        file := fs.CreateNode(PasswdPath(), File, true);
      }
      if file == None {
        return;
      }
      WriteLines(fs, file.value);
    }

    /** The line loop: the first line replaces the contents, the others are appended. */
    method WriteLines(fs: FileSystem, id: Id)
      requires FsSpec.Valid(fs.State())
      modifies fs
      ensures FsSpec.Valid(fs.State())
      ensures fs.State() == Write(old(fs.State()), id, PasswdText(Listed(users[..])), false)
    {
      hide FsSpec.Valid, Write, PasswdLine;
      ghost var start, slots := fs.State(), users[..];
      var first := true;
      assert slots[..0] == [];
      for i := 0 to users.Length
        invariant users[..] == slots && FsSpec.Valid(fs.State())
        invariant fs.State() == if first then start else Write(start, id, PasswdText(Listed(slots[..i])), false)
        invariant first ==> Listed(slots[..i]) == []
      {
        ListedSnoc(slots, i);
        if users[i].Some? {
          var u := users[i].value;
          ghost var before := PasswdText(Listed(slots[..i]));
          PasswdTextConcat(Listed(slots[..i]), [u]);
          PasswdTextOne(u);
          assert PasswdText(Listed(slots[..i + 1])) == before + PasswdLine(u);
          assert first ==> before + PasswdLine(u) == PasswdLine(u);
          WriteThenAppend(start, id, before, PasswdLine(u));
          var ok := fs.WriteFile(id, PasswdLine(u), !first, true);
          first := false;
        }
      }
      assert slots[..users.Length] == slots;
      if first {
        var ok := fs.WriteFile(id, [], false, true);
      }
    }

    /** `users_import`. */
    method ImportUser(u: User, fs: FileSystem) returns (code: int)
      requires Valid() && FsSpec.Valid(fs.State())
      requires NulFree(u.home) && u.uid < WORD && u.gid < WORD && u.hash < WORD
      modifies this`nextUid, users, fs
      ensures Valid() && FsSpec.Valid(fs.State())
      ensures (State(), code) == Import(old(State()), u)
      ensures fs.State() == if code == 0 then Sync(old(fs.State()), users[..]) else old(fs.State())
    {
      hide FsSpec.Valid, Sync, TableOk;
      ImportKeeps(State(), u);
      if !ValidName(u.name) {
        return -1;
      }
      var twin := FindUser(u.name);
      if twin < users.Length {
        return -1;
      }
      var slot := FirstFree();
      if slot == users.Length {
        return -4;
      }
      users[slot] := Some(u.(home := Truncate(u.home, USER_HOME_MAX - 1)));
      if u.uid >= nextUid {
        nextUid := (u.uid + 1) % WORD;
      }
      assert users[..] == old(users[..])[slot := users[slot]];
      SyncPasswd(fs);
      return 0;
    }

    /** `users_add`, with what the password hashes to and the note for a new home. */
    method AddUser(name: Str, passwordLength: nat, hash: nat, admin: bool, note: Str, fs: FileSystem)
            returns (code: int)
      requires Valid() && FsSpec.Valid(fs.State()) && hash < WORD && nextUid < WORD
      modifies this`nextUid, users, fs
      ensures Valid() && FsSpec.Valid(fs.State()) && nextUid < WORD
      ensures (State(), code) == Add(old(State()), name, passwordLength, hash, admin)
      ensures var home := if admin then ROOT_HOME else HOME_PREFIX + name;
              fs.State() == if code == 0 then Sync(MakeHome(old(fs.State()), home, note), users[..])
                  else old(fs.State())
    {
      hide FsSpec.Valid, Sync, TableOk, Create, Resolve, Write;
      AddKeeps(State(), name, passwordLength, hash, admin);
      if !ValidName(name) {
        return -1;
      }
      var twin := FindUser(name);
      if twin < users.Length {
        return -2;
      }
      if passwordLength < PASSWORD_MIN {
        return -3;
      }
      var slot := FirstFree();
      if slot == users.Length {
        return -4;
      }
      var home := if admin then ROOT_HOME else HOME_PREFIX + name;
      if admin {
        users[slot] := Some(User(name, home, 0, 0, hash));
      } else {
        users[slot] := Some(User(name, home, nextUid, nextUid, hash));
        nextUid := (nextUid + 1) % WORD;
      }
      assert users[..] == old(users[..])[slot := users[slot]];
      HomePath(name);
      FurnishHome(home, note, fs);
      SyncPasswd(fs);
      return 0;
    }

    /** The home directory and its note, unless the path already leads somewhere. */
    method FurnishHome(home: Str, note: Str, fs: FileSystem)
      requires FsSpec.Valid(fs.State()) && NulFree(home)
      modifies fs
      ensures FsSpec.Valid(fs.State()) && fs.State() == MakeHome(old(fs.State()), home, note)
    {
      hide FsSpec.Valid, Create, Resolve, Write;
      var there := fs.ResolvePath(home);
      if there == None {
        var dir := fs.CreateNode(home, Directory, true);
        assert NulFree(home + README);
        var file := fs.CreateNode(home + README, File, true);
        if file.Some? {
          var ok := fs.WriteFile(file.value, note, false, true);
        }
      }
    }

    /** `users_delete`. */
    method DeleteUser(name: Str, fs: FileSystem) returns (code: int)
      requires Valid() && FsSpec.Valid(fs.State())
      modifies users, fs
      ensures Valid() && FsSpec.Valid(fs.State())
      ensures (State(), code) == Delete(old(State()), name)
      ensures fs.State() == if code == 0 then Sync(old(fs.State()), users[..]) else old(fs.State())
    {
      hide FsSpec.Valid, Sync, TableOk;
      DeleteKeeps(State(), name);
      var i := FindUser(name);
      if name == [] || i == users.Length {
        return -1;
      }
      if users[i].value.uid == 0 {
        return -2;
      }
      if current == Some(i) {
        return -3;
      }
      users[i] := None;
      assert users[..] == old(users[..])[i := None];
      SyncPasswd(fs);
      return 0;
    }
  }
}
