/**
  `sorted_by_release(arg, key)`: a list of releases is sorted by the field
  `key`, a dictionary by its keys (with `key` unused), anything else raises.
*/
module ReleaseSort {
  import opened Wrappers
  import opened Nested
  import opened Releases
  import opened Ordering

  /** The argument, by its Python type; a dictionary is given as `arg.items()` in its order. */
  datatype Arg =
    | ListArg(releases: seq<Release>)
    | DictArg(items: seq<(string, Node)>)
    | OtherArg

  /** A sorted list, or an `OrderedDict` given as its items in order. */
  datatype Sorted =
    | SortedList(releases: seq<Release>)
    | SortedDict(items: seq<(string, Node)>)

  datatype SortError =
    | UnexpectedArgumentType   // the `raise Exception('Unexpected argument type')`
    | MissingField(key: string) // the KeyError of `i[key]`

  /**
    `lambda i: i[key]`. The `""` for a missing field is never observed: every
    sort by `FieldOf(key)` happens only once `HasField` holds, and a missing
    field is the `MissingField` error instead.
  */
  function FieldOf(key: string): Release -> string
  {
    (r: Release) => if key in r.fields then r.fields[key] else ""
  }

  /** Sorting `(key, value)` pairs looks at the keys only, which are distinct. */
  const ItemKey: ((string, Node)) -> string := (item: (string, Node)) => item.0

  predicate HasField(rs: seq<Release>, key: string)
  {
    forall i :: 0 <= i < |rs| ==> key in rs[i].fields
  }

  function SortedByRelease(arg: Arg, key: string): (r: Result<Sorted, SortError>)
    ensures arg.OtherArg? <==> r == Err(UnexpectedArgumentType)
    ensures arg.ListArg? ==> (r.Ok? <==> HasField(arg.releases, key))
    ensures arg.ListArg? && r.Ok? ==>
              r.value.SortedList? && StableSortOf(r.value.releases, arg.releases, FieldOf(key))
    ensures arg.ListArg? && r.Err? ==> r.error == MissingField(key)
    ensures arg.DictArg? ==>
              r.Ok? && r.value.SortedDict? && StableSortOf(r.value.items, arg.items, ItemKey)
  {
    match arg
    case ListArg(rs) =>
      if HasField(rs, key) then
        SortByIsStable(rs, FieldOf(key));
        Ok(SortedList(SortBy(rs, FieldOf(key))))
      else
        Err(MissingField(key))
    case DictArg(items) =>
      SortByIsStable(items, ItemKey);
      Ok(SortedDict(SortBy(items, ItemKey)))
    case OtherArg =>
      Err(UnexpectedArgumentType)
  }

  /** `items` lists the entries of `m`, each once. */
  ghost predicate ItemsOf(items: seq<(string, Node)>, m: Table)
  {
    && DistinctKeys(items, ItemKey)
    && (forall i :: 0 <= i < |items| ==> items[i].0 in m && m[items[i].0] == items[i].1)
    && (forall k :: k in m ==> exists i :: 0 <= i < |items| && items[i].0 == k)
  }

  lemma PermutedItems(items: seq<(string, Node)>, s: seq<(string, Node)>, m: Table)
    requires ItemsOf(items, m) && DistinctKeys(s, ItemKey)
    requires multiset(s) == multiset(items)
    ensures ItemsOf(s, m)
  {
    forall i | 0 <= i < |s| ensures s[i].0 in m && m[s[i].0] == s[i].1 {
      assert s[i] in multiset(items);
    }
    forall k | k in m ensures exists i :: 0 <= i < |s| && s[i].0 == k {
      var p :| 0 <= p < |items| && items[p].0 == k;
      assert items[p] in multiset(s);
    }
  }

  /** A sequence stably sorted by distinct keys is strictly increasing. */
  lemma DistinctSortedStrictly(items: seq<(string, Node)>, s: seq<(string, Node)>)
    requires DistinctKeys(items, ItemKey) && StableSortOf(s, items, ItemKey)
    ensures DistinctKeys(s, ItemKey)
    ensures forall i, j :: 0 <= i < j < |s| ==> StrLe(s[i].0, s[j].0) && s[i].0 != s[j].0
  {
    forall k ensures |WithKey(s, ItemKey, k)| <= 1 {
      DistinctKeysSelectOne(items, ItemKey, k);
      assert WithKey(s, ItemKey, k) == WithKey(items, ItemKey, k);
    }
    DistinctKeysByCount(s, ItemKey);
    forall i, j | 0 <= i < j < |s| ensures StrLe(s[i].0, s[j].0) && s[i].0 != s[j].0 {
      assert StrLe(ItemKey(s[i]), ItemKey(s[j]));
      assert ItemKey(s[i]) != ItemKey(s[j]);
    }
  }

  /**
    A dictionary comes back as the same key/value pairs in strictly
    increasing key order, whatever `key` is passed.
  */
  lemma SortedByReleaseDict(items: seq<(string, Node)>, m: Table, key: string, otherKey: string)
    requires ItemsOf(items, m)
    ensures SortedByRelease(DictArg(items), key) == SortedByRelease(DictArg(items), otherKey)
    ensures SortedByRelease(DictArg(items), key).Ok?
    ensures var s := SortedByRelease(DictArg(items), key).value.items;
            && ItemsOf(s, m)
            && forall i, j :: 0 <= i < j < |s| ==> StrLe(s[i].0, s[j].0) && s[i].0 != s[j].0
  {
    var s := SortedByRelease(DictArg(items), key).value.items;
    DistinctSortedStrictly(items, s);
    PermutedItems(items, s, m);
  }

  /** Inserting a release into a sorted list adds its count to the total. */
  lemma {:induction false} TotalOfInsert(x: Release, t: seq<Release>, key: Release -> string)
    requires WellFormed(x) && AllWellFormed(t)
    ensures AllWellFormed(Insert(x, t, key))
    ensures TotalOf(Insert(x, t, key)) == Downloads(x) + TotalOf(t)
    decreases |t|
  {
    var r := Insert(x, t, key);
    if t == [] {
      assert r == [x] && r[1..] == [];
    } else if StrLe(key(x), key(t[0])) {
      assert r == [x] + t && r[1..] == t;
    } else {
      WellFormedSlice(t, 1, |t|);
      TotalOfInsert(x, t[1..], key);
      assert r == [t[0]] + Insert(x, t[1..], key);
      assert r[1..] == Insert(x, t[1..], key);
      forall i | 0 <= i < |r| ensures WellFormed(r[i]) {
        if i > 0 { assert r[i] == r[1..][i - 1]; }
      }
    }
  }

  /** Sorting the releases leaves their total unchanged. */
  lemma {:induction false} TotalOfSortBy(s: seq<Release>, key: Release -> string)
    requires AllWellFormed(s)
    ensures AllWellFormed(SortBy(s, key))
    ensures TotalOf(SortBy(s, key)) == TotalOf(s)
    decreases |s|
  {
    if s != [] {
      WellFormedSlice(s, 1, |s|);
      TotalOfSortBy(s[1..], key);
      TotalOfInsert(s[0], SortBy(s[1..], key), key);
    }
  }

  /**
    The default command: the releases sorted by `published_at`, then the
    sum of their first-asset download counts.
  */
  method CurrentDownloads(releases: seq<Release>) returns (result: Result<int, SortError>)
    requires AllWellFormed(releases)
    ensures result.Ok? <==> HasField(releases, "published_at")
    ensures result.Ok? ==> result.value == TotalOf(releases)
    ensures result.Err? ==> result.error == MissingField("published_at")
  {
    var sorted := SortedByRelease(ListArg(releases), "published_at");
    if sorted.Err? {
      return Err(sorted.error);
    }
    var inOrder := sorted.value.releases;
    StableSortIsSortBy(inOrder, releases, FieldOf("published_at"));
    TotalOfSortBy(releases, FieldOf("published_at"));
    var total := TotalDownloads(inOrder);
    result := Ok(total);
  }
}
