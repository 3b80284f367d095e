/**
  The download history that the `record` command updates in place:
  `history[name][time]['download_count'] = downloads` for every release,
  written through the dictionary `make_path` returns.
*/
module HistoryStore {
  import opened Wrappers
  import opened Nested
  import opened Releases

  const DownloadCountKey: string := "download_count"

  /**
    The layout of the history file: release names map to dictionaries of
    timestamps, and each timestamp maps to a dictionary.
  */
  predicate HistoryShape(t: Table)
  {
    forall name :: name in t ==>
      t[name].Dict? && forall time :: time in t[name].entries ==> t[name].entries[time].Dict?
  }

  lemma ShapeWalkable(t: Table, name: string, time: string)
    requires HistoryShape(t)
    ensures Walkable(t, [name, time])
  {
    assert [name, time][1..] == [time];
    if name in t {
      assert Walkable(t[name].entries, [time]) by {
        assert [time][1..] == [];
      }
    }
  }

  /** The assignment through a two-key path, spelled out level by level. */
  lemma AssignAtTwo(t: Table, name: string, time: string, key: string, v: Node)
    requires Walkable(t, [name, time])
    ensures Walkable(Child(t, name), [time])
    ensures AssignAt(t, [name, time], key, v)
            == t[name := Dict(Child(t, name)[time := Dict(Child(Child(t, name), time)[key := v])])]
  {
    assert [name, time][1..] == [time] && [time][1..] == [];
    var c := Child(t, name);
    var inner := Child(c, time);
    assert Reached(t, [name, time]) == Reached(c, [time]) == Reached(inner, []) == inner;
    var x := inner[key := v];
    assert Graft(c, [time], x) == c[time := Dict(Graft(inner, [], x))] == c[time := Dict(x)];
  }

  /** The history after one `make_path(history, name, time)['download_count'] = count`. */
  function RecordOne(t: Table, name: string, time: string, count: int): (r: Table)
    requires HistoryShape(t)
    ensures HistoryShape(r)
  {
    ShapeWalkable(t, name, time);
    AssignAtTwo(t, name, time, DownloadCountKey, Leaf(count));
    AssignAt(t, [name, time], DownloadCountKey, Leaf(count))
  }

  /** Lookups that differ from a written path in the version or the time are untouched. */
  lemma DivergesFromTarget(q: seq<string>, name: string, time: string)
    requires (|q| >= 1 && q[0] != name) || (|q| >= 2 && q[1] != time)
    ensures Untouched(q, name, time)
  {
    var p := Target(name, time);
    if |q| >= 1 && q[0] != name {
      assert p[0] == name;
      assert |q| <= |p| ==> p[..|q|][0] == name;
      assert |p| <= |q| ==> q[..|p|][0] != name;
    } else {
      assert p[1] == time;
      assert |q| <= |p| ==> p[..|q|][1] == time;
      assert |p| <= |q| ==> q[..|p|][1] != time;
    }
  }

  /** The history after the `record` loop over `releases` (in their order) at `time`. */
  function RecordAll(t: Table, releases: seq<Release>, time: string): (r: Table)
    requires HistoryShape(t) && AllWellFormed(releases)
    ensures HistoryShape(r)
    decreases |releases|
  {
    if releases == [] then t
    else
      var last := releases[|releases| - 1];
      WellFormedSlice(releases, 0, |releases| - 1);
      RecordOne(RecordAll(t, releases[..|releases| - 1], time), Name(last), time, Downloads(last))
  }

  /** The path the `record` assignment writes for a release named `name`. */
  function Target(name: string, time: string): seq<string>
  {
    [name, time, DownloadCountKey]
  }

  /** `q` neither leads to nor passes through the written path. */
  predicate Untouched(q: seq<string>, name: string, time: string)
  {
    !(q <= Target(name, time)) && !(Target(name, time) <= q)
  }

  lemma RecordOneSets(t: Table, name: string, time: string, count: int)
    requires HistoryShape(t)
    ensures Get(RecordOne(t, name, time, count), Target(name, time)) == Some(Leaf(count))
  {
    ShapeWalkable(t, name, time);
    AssignAtFound(t, [name, time], DownloadCountKey, Leaf(count));
    assert [name, time] + [DownloadCountKey] == Target(name, time);
  }

  lemma RecordOneFrame(t: Table, name: string, time: string, count: int, q: seq<string>)
    requires HistoryShape(t) && Untouched(q, name, time)
    ensures Get(RecordOne(t, name, time, count), q) == Get(t, q)
  {
    ShapeWalkable(t, name, time);
    assert [name, time] + [DownloadCountKey] == Target(name, time);
    AssignAtFrame(t, [name, time], DownloadCountKey, Leaf(count), q);
  }

  /**
    After recording, `history[name][time]['download_count']` holds the
    download count of the last release with that name.
  */
  lemma {:induction false} RecordAllSets(t: Table, releases: seq<Release>, time: string, i: nat)
    requires HistoryShape(t) && AllWellFormed(releases)
    requires i < |releases|
    requires forall j :: i < j < |releases| ==> Name(releases[j]) != Name(releases[i])
    ensures Get(RecordAll(t, releases, time), Target(Name(releases[i]), time))
            == Some(Leaf(Downloads(releases[i])))
    decreases |releases|
  {
    var n := |releases| - 1;
    var front := releases[..n];
    WellFormedSlice(releases, 0, n);
    var before := RecordAll(t, front, time);
    var last := releases[n];
    if i == n {
      RecordOneSets(before, Name(last), time, Downloads(last));
    } else {
      assert front[i] == releases[i];
      RecordAllSets(t, front, time, i);
      DivergesFromTarget(Target(Name(releases[i]), time), Name(last), time);
      RecordOneFrame(before, Name(last), time, Downloads(last), Target(Name(releases[i]), time));
    }
  }

  /** Recording changes no lookup that avoids every written path. */
  lemma {:induction false} RecordAllFrame(t: Table, releases: seq<Release>, time: string, q: seq<string>)
    requires HistoryShape(t) && AllWellFormed(releases)
    requires forall j :: 0 <= j < |releases| ==> Untouched(q, Name(releases[j]), time)
    ensures Get(RecordAll(t, releases, time), q) == Get(t, q)
    decreases |releases|
  {
    if releases != [] {
      var n := |releases| - 1;
      WellFormedSlice(releases, 0, n);
      RecordAllFrame(t, releases[..n], time, q);
      RecordOneFrame(RecordAll(t, releases[..n], time), Name(releases[n]), time, Downloads(releases[n]), q);
    }
  }

  /** The entries of a version no release is named after are left alone. */
  lemma RecordAllOtherNames(t: Table, releases: seq<Release>, time: string, name: string)
    requires HistoryShape(t) && AllWellFormed(releases)
    requires forall j :: 0 <= j < |releases| ==> Name(releases[j]) != name
    ensures Get(RecordAll(t, releases, time), [name]) == Get(t, [name])
  {
    forall j | 0 <= j < |releases| ensures Untouched([name], Name(releases[j]), time) {
      DivergesFromTarget([name], Name(releases[j]), time);
    }
    RecordAllFrame(t, releases, time, [name]);
  }

  /** The data points recorded at other times are left alone. */
  lemma RecordAllOtherTimes(t: Table, releases: seq<Release>, time: string, name: string, other: string)
    requires HistoryShape(t) && AllWellFormed(releases)
    requires other != time
    ensures Get(RecordAll(t, releases, time), [name, other]) == Get(t, [name, other])
  {
    forall j | 0 <= j < |releases| ensures Untouched([name, other], Name(releases[j]), time) {
      DivergesFromTarget([name, other], Name(releases[j]), time);
    }
    RecordAllFrame(t, releases, time, [name, other]);
  }

  /** The parsed history file, owned by the `record` command while it runs. */
  class History {
    var root: Table

    constructor (loaded: Table)
      ensures root == loaded
    {
      root := loaded;
    }

    /**
      `make_path(root, *path)`: walks `path`, creating an empty dictionary
      for each missing key, and returns the innermost dictionary together
      with its location `at`; writing through `at` is writing into the
      returned dictionary.
    */
    method MakePath(path: seq<string>) returns (inner: Table, at: seq<Frame>)
      requires Walkable(root, path)
      modifies this
      ensures root == EnsurePath(old(root), path)
      ensures inner == Reached(old(root), path)
      ensures root == Plug(at, inner)
      ensures forall x :: Plug(at, x) == Graft(old(root), path, x)
      ensures path == [] ==> root == old(root) && inner == old(root)
    {
      ghost var start := root;
      var rest := path;
      var cur := root;
      at := [];
      while rest != []
        invariant Walkable(cur, rest)
        invariant root == Plug(at, cur)
        invariant forall x :: Plug(at, Graft(cur, rest, x)) == Graft(start, path, x)
        invariant Reached(cur, rest) == Reached(start, path)
        decreases |rest|
      {
        var key := rest[0];
        ghost var before := cur;
        if key !in cur {
          cur := cur[key := Dict(map[])];
          root := Plug(at, cur);
        }
        assert cur == before[key := Dict(Child(before, key))];
        ghost var at0 := at;
        at := at + [Frame(cur, key)];
        assert at[..|at| - 1] == at0;
        forall x ensures Plug(at, Graft(cur[key].entries, rest[1..], x)) == Graft(start, path, x) {
          assert cur[key := Dict(Graft(cur[key].entries, rest[1..], x))] == Graft(before, rest, x);
        }
        assert cur[key := Dict(cur[key].entries)] == cur;
        cur := cur[key].entries;
        rest := rest[1..];
      }
      inner := cur;
    }

    /** `make_path(root, name, time)['download_count'] = downloads`. */
    method RecordRelease(name: string, time: string, downloads: int)
      requires HistoryShape(root)
      modifies this
      ensures root == RecordOne(old(root), name, time, downloads)
    {
      ShapeWalkable(root, name, time);
      var inner, at := MakePath([name, time]);
      root := Plug(at, inner[DownloadCountKey := Leaf(downloads)]);
    }

    /**
      The `record` loop: one data point per release, all at `time`
      (`str(datetime.utcnow())`).
    */
    method Record(releases: seq<Release>, time: string)
      requires HistoryShape(root) && AllWellFormed(releases)
      modifies this
      ensures root == RecordAll(old(root), releases, time)
    {
      for i := 0 to |releases|
        invariant HistoryShape(root)
        invariant root == RecordAll(old(root), releases[..i], time)
      {
        var r := releases[i];
        var shortVersion := r.fields["name"];
        var downloads := r.assets[0].downloadCount;
        RecordRelease(shortVersion, time, downloads);
        assert releases[..i + 1][..i] == releases[..i];
      }
      assert releases[..|releases|] == releases;
    }
  }
}
