/** Path strings: splitting at slashes, as the walker of fs/ramfs.c does, and joining again. */
module Paths {
  import opened Bytes

  const NAME_MAX: nat := 32            // FS_NAME_MAX
  const PATH_MAX: nat := 256           // FS_PATH_MAX
  const DEPTH_MAX: nat := 32           // parts[] in fs_abspath

  const SELF: Str := [DOT]
  const UP: Str := [DOT, DOT]

  /** A name that can be a node's name: it survives the splitting. */
  predicate NameOk(name: Str) {
    0 < |name| < NAME_MAX && NulFree(name) && SLASH !in name
  }

  predicate NamesOk(names: seq<Str>) { forall i | 0 <= i < |names| :: NameOk(names[i]) }

  predicate IsDots(name: Str) { name == SELF || name == UP }

  predicate NoDots(names: seq<Str>) { forall i | 0 <= i < |names| :: !IsDots(names[i]) }

  /** The names on the way to a node's directory. */
  function Above(names: seq<Str>): seq<Str> { if names == [] then [] else names[..|names| - 1] }

  /** Index of the first slash, or the length. */
  function Span(s: Str): (k: nat)
    ensures k <= |s|
    ensures SLASH !in s[..k]
    ensures k < |s| ==> s[k] == SLASH
  {
    if s == [] || s[0] == SLASH then 0
    else
      var k := 1 + Span(s[1..]);
      assert s[..k] == [s[0]] + s[1..][..k - 1];
      k
  }

  /** The slash-separated components, each cut to what a name buffer holds. */
  function Components(s: Str): seq<Str>
    decreases |s|
  {
    if s == [] then []
    else if s[0] == SLASH then Components(s[1..])
    else [Truncate(s[..Span(s)], NAME_MAX - 1)] + Components(s[Span(s)..])
  }

  /** Every name behind its own slash. */
  function Join(names: seq<Str>): Str {
    if names == [] then [] else [SLASH] + names[0] + Join(names[1..])
  }

  // ----- splitting undoes joining

  lemma {:induction false} SpanOf(word: Str, rest: Str)
    requires SLASH !in word && (rest != [] ==> rest[0] == SLASH)
    ensures Span(word + rest) == |word|
  {
    if word == [] {
      assert word + rest == rest;
    } else {
      assert (word + rest)[1..] == word[1..] + rest;
      SpanOf(word[1..], rest);
    }
  }

  /** A word in front of a slash, or at the end, is one component. */
  lemma ComponentsWord(word: Str, rest: Str)
    requires word != [] && SLASH !in word && (rest != [] ==> rest[0] == SLASH)
    ensures Components(word + rest) == [Truncate(word, NAME_MAX - 1)] + Components(rest)
  {
    SpanOf(word, rest);
    var s := word + rest;
    assert s[0] == word[0];
    assert s[..|word|] == word && s[|word|..] == rest;
  }

  lemma ComponentsCons(name: Str, rest: Str)
    requires NameOk(name) && (rest != [] ==> rest[0] == SLASH)
    ensures Components([SLASH] + name + rest) == [name] + Components(rest)
  {
    hide Components, Span;
    SlashFirst(name + rest);
    ComponentsWord(name, rest);
    assert Truncate(name, NAME_MAX - 1) == name;
    assert [SLASH] + (name + rest) == [SLASH] + name + rest;
  }

  lemma SlashFirst(s: Str)
    ensures Components([SLASH] + s) == Components(s)
  {
    assert ([SLASH] + s)[1..] == s;
  }

  lemma JoinStart(names: seq<Str>)
    ensures Join(names) != [] ==> Join(names)[0] == SLASH
    ensures Join(names) == [] <==> names == []
  {
  }

  lemma {:induction false} ComponentsJoin(names: seq<Str>)
    requires NamesOk(names)
    ensures Components(Join(names)) == names
  {
    if names != [] {
      var rest := names[1..];
      ComponentsJoin(rest);
      JoinStart(rest);
      ComponentsCons(names[0], Join(rest));
      assert names == [names[0]] + rest;
    }
  }

  lemma {:induction false} JoinConcat(a: seq<Str>, b: seq<Str>)
    ensures Join(a + b) == Join(a) + Join(b)
  {
    if a == [] {
      assert a + b == b;
    } else {
      assert (a + b)[1..] == a[1..] + b;
      JoinConcat(a[1..], b);
    }
  }

  lemma JoinSnoc(a: seq<Str>, name: Str)
    ensures Join(a + [name]) == Join(a) + [SLASH] + name
  {
    JoinConcat(a, [name]);
    assert [name][1..] == [];
    assert Join([name]) == [SLASH] + name + [];
  }

  lemma Cut(a: Str, b: Str, k: nat)
    requires k <= |a|
    ensures a == a[..k] + a[k..] && a + b == a[..k] + (a[k..] + b)
  {
  }

  lemma ComponentsSplit(a: Str, b: Str, k: nat)
    requires a != [] && 0 < k <= |a| && SLASH !in a[..k] && (k < |a| ==> a[k] == SLASH) && (b != [] ==> b[0] == SLASH)
    ensures Components(a) == [Truncate(a[..k], NAME_MAX - 1)] + Components(a[k..])
    ensures Components(a + b) == [Truncate(a[..k], NAME_MAX - 1)] + Components(a[k..] + b)
  {
    hide *;
    Cut(a, b, k);
    ComponentsWord(a[..k], a[k..]);
    ComponentsWord(a[..k], a[k..] + b);
  }

  /** Components of a string cut at a slash: each side splits on its own. */
  lemma {:induction false} ComponentsConcat(a: Str, b: Str)
    requires b != [] ==> b[0] == SLASH
    ensures Components(a + b) == Components(a) + Components(b)
    decreases |a|
  {
    if a == [] {
      assert a + b == b;
    } else if a[0] == SLASH {
      assert (a + b)[1..] == a[1..] + b;
      ComponentsConcat(a[1..], b);
    } else {
      var k := Span(a);
      assert k > 0;
      hide Components, Span, Truncate;
      ComponentsSplit(a, b, k);
      ComponentsConcat(a[k..], b);
      Regroup(Truncate(a[..k], NAME_MAX - 1), Components(a[k..]), Components(b));
    }
  }

  lemma Regroup(first: Str, a: seq<Str>, b: seq<Str>)
    ensures [first] + (a + b) == [first] + a + b
  {
  }

  /** Every component could be a name, provided the string holds no NUL. */
  lemma {:induction false} ComponentsAreNames(s: Str)
    requires NulFree(s)
    ensures NamesOk(Components(s))
    decreases |s|
  {
    if s != [] {
      if s[0] == SLASH {
        ComponentsAreNames(s[1..]);
      } else {
        var k := Span(s);
        assert k > 0;
        ComponentsAreNames(s[k..]);
        var c := Truncate(s[..k], NAME_MAX - 1);
        assert NameOk(c) by { assert forall i | 0 <= i < |c| :: c[i] == s[..k][i]; }
      }
    }
  }

  /** What `walk` copies into its own buffer. */
  function Buffered(path: Str): Str { Truncate(path, PATH_MAX - 1) }

  lemma {:induction false} JoinNulFree(names: seq<Str>)
    requires NamesOk(names)
    ensures NulFree(Join(names))
  {
    if names != [] {
      JoinNulFree(names[1..]);
      assert NameOk(names[0]);
    }
  }

  lemma SlashAlone()
    ensures Components([SLASH]) == [] && Buffered([SLASH]) == [SLASH]
  {
    assert [SLASH][1..] == [];
  }
}
