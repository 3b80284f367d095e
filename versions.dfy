/**
  Which versions `plot` draws. Stable releases are titled like "2.0.0";
  prereleases carry a suffix after a space ("2.0.0 Beta 5").
*/
module Versions {

  /** `filter(lambda version_string: ' ' not in version_string, versions)`. */
  function StableVersions(names: seq<string>): (r: seq<string>)
    ensures forall v :: v in r <==> v in names && ' ' !in v
    ensures |r| <= |names|
    decreases |names|
  {
    if names == [] then []
    else (if ' ' in names[0] then [] else [names[0]]) + StableVersions(names[1..])
  }

  /** `a` is `b` with some elements left out, the rest in their order. */
  predicate IsSubsequence(a: seq<string>, b: seq<string>)
    decreases |b|
  {
    a == [] || (b != [] && ((a[0] == b[0] && IsSubsequence(a[1..], b[1..])) || IsSubsequence(a, b[1..])))
  }

  /** The filter keeps the original order of the names it keeps. */
  lemma {:induction false} StableVersionsInOrder(names: seq<string>)
    ensures IsSubsequence(StableVersions(names), names)
    decreases |names|
  {
    if names != [] {
      StableVersionsInOrder(names[1..]);
      var r := StableVersions(names);
      if ' ' !in names[0] {
        assert r == [names[0]] + StableVersions(names[1..]);
        assert r[0] == names[0] && r[1..] == StableVersions(names[1..]);
      } else {
        assert r == StableVersions(names[1..]);
      }
    }
  }

  /** The filter works name by name: filtering a concatenation concatenates the results. */
  lemma {:induction false} StableVersionsAppend(a: seq<string>, b: seq<string>)
    ensures StableVersions(a + b) == StableVersions(a) + StableVersions(b)
    decreases |a|
  {
    if a == [] {
      assert a + b == b;
    } else {
      assert (a + b)[0] == a[0] && (a + b)[1..] == a[1..] + b;
      StableVersionsAppend(a[1..], b);
    }
  }

  /** Filtering twice keeps the same names as filtering once. */
  lemma {:induction false} StableVersionsIdempotent(names: seq<string>)
    ensures StableVersions(StableVersions(names)) == StableVersions(names)
    decreases |names|
  {
    if names != [] {
      var head := if ' ' in names[0] then [] else [names[0]];
      StableVersionsAppend(head, StableVersions(names[1..]));
      StableVersionsIdempotent(names[1..]);
      if head != [] {
        assert StableVersions(head) == head by {
          assert head[1..] == [];
        }
      }
    }
  }

  /**
    The names `plot` goes through: `subArgs` is `sys.argv[2:]` (the
    sub-command, "total" when absent), `keys` are the history's version
    names in the file's order, `latest` is the latest release's name.
  */
  function SelectVersions(subArgs: seq<string>, keys: seq<string>, latest: string): (r: seq<string>)
    ensures subArgs == [] || subArgs[0] in ["all", "total"] ==> r == keys
    ensures subArgs != [] && subArgs[0] == "all-stable" ==>
              IsSubsequence(r, keys) && forall v :: v in r <==> v in keys && ' ' !in v
    ensures subArgs != [] && subArgs[0] == "latest" ==> r == [latest]
    ensures subArgs != [] && subArgs[0] !in ["all", "total", "all-stable", "latest"] ==> r == subArgs
  {
    var sArg := if subArgs == [] then "total" else subArgs[0];
    if sArg == "all" || sArg == "total" then keys
    else if sArg == "all-stable" then (StableVersionsInOrder(keys); StableVersions(keys))
    else if sArg == "latest" then [latest]
    else subArgs
  }
}
