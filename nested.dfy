/**
  The nested dictionaries of the download history (`history[name][time]
  ['download_count']`) and what `make_path` does to them, as values.
*/
module Nested {
  import opened Wrappers

  /** A value stored in the history: a download count or a dictionary. */
  datatype Node = Leaf(count: int) | Dict(entries: map<string, Node>)

  type Table = map<string, Node>

  /**
    `n[q[0]][q[1]]...`: None where Python would raise, because a key is
    missing or a count is indexed.
  */
  function Find(n: Node, q: seq<string>): Option<Node>
    decreases |q|
  {
    if q == [] then Some(n)
    else match n
      case Leaf(_) => None
      case Dict(m) => if q[0] in m then Find(m[q[0]], q[1..]) else None
  }

  /** Lookup from the top-level dictionary. */
  function Get(t: Table, q: seq<string>): Option<Node>
  {
    Find(Dict(t), q)
  }

  /**
    Every node that already exists along `path` is a dictionary, so the
    chain of `setdefault` calls never lands on a count.
  */
  predicate Walkable(t: Table, path: seq<string>)
    decreases |path|
  {
    path == [] ||
    (path[0] in t ==> t[path[0]].Dict? && Walkable(t[path[0]].entries, path[1..]))
  }

  /** The dictionary that `t.setdefault(key, {})` returns. */
  function Child(t: Table, key: string): Table
    requires key in t ==> t[key].Dict?
  {
    if key in t then t[key].entries else map[]
  }

  /** The dictionary `make_path(t, *path)` returns. */
  function Reached(t: Table, path: seq<string>): Table
    requires Walkable(t, path)
    decreases |path|
  {
    if path == [] then t else Reached(Child(t, path[0]), path[1..])
  }

  /**
    `t` with the dictionary at `path` replaced by `inner`, every dictionary
    missing on the way created.
  */
  function Graft(t: Table, path: seq<string>, inner: Table): Table
    requires Walkable(t, path)
    decreases |path|
  {
    if path == [] then inner
    else t[path[0] := Dict(Graft(Child(t, path[0]), path[1..], inner))]
  }

  /** The top-level dictionary after `make_path(t, *path)`. */
  function EnsurePath(t: Table, path: seq<string>): Table
    requires Walkable(t, path)
  {
    Graft(t, path, Reached(t, path))
  }

  /** The top-level dictionary after `make_path(t, *path)[key] = v`. */
  function AssignAt(t: Table, path: seq<string>, key: string, v: Node): Table
    requires Walkable(t, path)
  {
    Graft(t, path, Reached(t, path)[key := v])
  }

  /** One step of the descent: the dictionary left and the key taken. */
  datatype Frame = Frame(parent: Table, key: string)

  /** The top-level dictionary rebuilt around `inner`, innermost frame last. */
  function Plug(at: seq<Frame>, inner: Table): Table
    decreases |at|
  {
    if at == [] then inner
    else
      var f := at[|at| - 1];
      Plug(at[..|at| - 1], f.parent[f.key := Dict(inner)])
  }

  lemma {:induction false} FindAppend(n: Node, a: seq<string>, b: seq<string>)
    ensures Find(n, a + b) == if Find(n, a).Some? then Find(Find(n, a).value, b) else None
    decreases |a|
  {
    if a == [] {
      assert a + b == b;
    } else {
      assert (a + b)[0] == a[0] && (a + b)[1..] == a[1..] + b;
      if n.Dict? && a[0] in n.entries {
        FindAppend(n.entries[a[0]], a[1..], b);
      }
    }
  }

  /**
    The dictionary `make_path` returns is the one already at `path`, or a
    new empty one when the path did not exist. (That a path never ends on a
    count is part of `Walkable`.)
  */
  lemma {:induction false} ReachedIsExistingOrEmpty(t: Table, path: seq<string>)
    requires Walkable(t, path)
    ensures Get(t, path).Some? ==> Get(t, path).value.Dict?
    ensures Reached(t, path) == if Get(t, path).Some? then Get(t, path).value.entries else map[]
    decreases |path|
  {
    if path != [] {
      var k := path[0];
      ReachedIsExistingOrEmpty(Child(t, k), path[1..]);
      if k !in t && path[1..] != [] {
        assert Get(map[], path[1..]) == None;
      }
    }
  }

  /** After a graft the path exists, every prefix of it names a dictionary, and `inner` is at its end. */
  lemma {:induction false} GraftReaches(t: Table, path: seq<string>, inner: Table)
    requires Walkable(t, path)
    ensures Get(Graft(t, path, inner), path) == Some(Dict(inner))
    ensures forall j :: 0 <= j <= |path| ==>
              Get(Graft(t, path, inner), path[..j]).Some? && Get(Graft(t, path, inner), path[..j]).value.Dict?
    decreases |path|
  {
    if path != [] {
      var k := path[0];
      var sub := Graft(Child(t, k), path[1..], inner);
      GraftReaches(Child(t, k), path[1..], inner);
      forall j | 0 <= j <= |path|
        ensures Get(Graft(t, path, inner), path[..j]).Some? && Get(Graft(t, path, inner), path[..j]).value.Dict?
      {
        if j > 0 {
          assert path[..j][0] == k && path[..j][1..] == path[1..][..j - 1];
        }
      }
    }
  }

  /** Paths diverging from `path` see the same node before and after a graft. */
  lemma {:induction false} GraftFrame(t: Table, path: seq<string>, inner: Table, q: seq<string>)
    requires Walkable(t, path)
    requires !(q <= path) && !(path <= q)
    ensures Get(Graft(t, path, inner), q) == Get(t, q)
    decreases |path|
  {
    var k := path[0];
    if q[0] == k {
      GraftFrame(Child(t, k), path[1..], inner, q[1..]);
      if k !in t {
        assert Get(map[], q[1..]) == None;
      }
    }
  }

  /** Paths through `path` continue inside `inner` after a graft. */
  lemma {:induction false} GraftBelow(t: Table, path: seq<string>, inner: Table, q: seq<string>)
    requires Walkable(t, path)
    requires path <= q
    ensures Get(Graft(t, path, inner), q) == Get(inner, q[|path|..])
    decreases |path|
  {
    if path != [] {
      GraftBelow(Child(t, path[0]), path[1..], inner, q[1..]);
      assert q[1..][|path| - 1..] == q[|path|..];
    }
  }

  /** `make_path(t)` with no keys leaves `t` as it was and returns it. */
  lemma EnsurePathEmpty(t: Table)
    ensures Walkable(t, [])
    ensures EnsurePath(t, []) == t && Reached(t, []) == t
  {
  }

  /**
    After `make_path(t, *path)` every prefix of `path` names a dictionary,
    and the one at `path` is what the call returned.
  */
  lemma EnsurePathReaches(t: Table, path: seq<string>)
    requires Walkable(t, path)
    ensures Get(EnsurePath(t, path), path) == Some(Dict(Reached(t, path)))
    ensures forall j :: 0 <= j <= |path| ==>
              Get(EnsurePath(t, path), path[..j]).Some? && Get(EnsurePath(t, path), path[..j]).value.Dict?
  {
    GraftReaches(t, path, Reached(t, path));
  }

  /**
    `make_path` changes nothing off the path: every lookup that is not a
    prefix of `path` gives the same result before and after.
  */
  lemma EnsurePathFrame(t: Table, path: seq<string>, q: seq<string>)
    requires Walkable(t, path)
    requires !(q <= path)
    ensures Get(EnsurePath(t, path), q) == Get(t, q)
  {
    var inner := Reached(t, path);
    if path <= q {
      GraftBelow(t, path, inner, q);
      ReachedIsExistingOrEmpty(t, path);
      assert q == path + q[|path|..];
      FindAppend(Dict(t), path, q[|path|..]);
      if Get(t, path).None? {
        assert Get(map[], q[|path|..]) == None;
      }
    } else {
      GraftFrame(t, path, inner, q);
    }
  }

  /**
    `make_path` only adds: whatever existed before still exists, and every
    count in the history keeps its value.
  */
  lemma {:induction false} EnsurePathKeeps(t: Table, path: seq<string>, q: seq<string>)
    requires Walkable(t, path)
    ensures Get(t, q).Some? ==> Get(EnsurePath(t, path), q).Some?
    ensures Get(t, q).Some? && Get(t, q).value.Leaf? ==> Get(EnsurePath(t, path), q) == Get(t, q)
  {
    if q <= path {
      EnsurePathReaches(t, path);
      assert path[..|q|] == q;
      assert Walkable(t, q) by { WalkablePrefix(t, path, |q|); }
      ReachedIsExistingOrEmpty(t, q);
    } else {
      EnsurePathFrame(t, path, q);
    }
  }

  lemma {:induction false} WalkablePrefix(t: Table, path: seq<string>, j: nat)
    requires Walkable(t, path) && j <= |path|
    ensures Walkable(t, path[..j])
    decreases |path|
  {
    if j > 0 {
      WalkablePrefix(Child(t, path[0]), path[1..], j - 1);
      assert path[..j][1..] == path[1..][..j - 1];
    }
  }

  /** After `make_path(t, *path)[key] = v` the value is found under `path + [key]`. */
  lemma AssignAtFound(t: Table, path: seq<string>, key: string, v: Node)
    requires Walkable(t, path)
    ensures Get(AssignAt(t, path, key, v), path + [key]) == Some(v)
  {
    var inner := Reached(t, path)[key := v];
    GraftReaches(t, path, inner);
    FindAppend(Dict(AssignAt(t, path, key, v)), path, [key]);
  }

  /**
    `make_path(t, *path)[key] = v` changes no lookup that neither leads to
    nor passes through `path + [key]`.
  */
  lemma AssignAtFrame(t: Table, path: seq<string>, key: string, v: Node, q: seq<string>)
    requires Walkable(t, path)
    requires !(q <= path + [key]) && !(path + [key] <= q)
    ensures Get(AssignAt(t, path, key, v), q) == Get(t, q)
  {
    var old_inner := Reached(t, path);
    var inner := old_inner[key := v];
    if path <= q {
      GraftBelow(t, path, inner, q);
      var rest := q[|path|..];
      assert q == path + rest;
      PrefixStep(path, key, q);
      ReachedIsExistingOrEmpty(t, path);
      assert q == path + rest;
      FindAppend(Dict(t), path, rest);
      if Get(t, path).None? {
        assert Get(map[], rest) == None;
      }
    } else {
      PrefixStep(path, key, q);
      GraftFrame(t, path, inner, q);
    }
  }

  lemma PrefixStep(path: seq<string>, key: string, q: seq<string>)
    ensures q <= path ==> q <= path + [key]
    ensures path <= q && |q| == |path| ==> q <= path + [key]
    ensures path <= q && |q| > |path| && q[|path|] == key ==> path + [key] <= q
  {
    if q <= path {
      assert (path + [key])[..|q|] == path[..|q|];
    }
    if path <= q && |q| > |path| && q[|path|] == key {
      assert q[..|path| + 1] == q[..|path|] + [key];
    }
  }
}
