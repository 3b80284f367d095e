/**
  Releases as the GitHub releases API describes them, reduced to what the
  tool reads: string fields such as `name` and `published_at`, and the
  assets, of which only the first one's `download_count` is used.
*/
module Releases {

  datatype Asset = Asset(downloadCount: int)

  datatype Release = Release(fields: map<string, string>, assets: seq<Asset>)

  /** `r['name']` and `r['assets'][0]['download_count']` do not raise. */
  predicate WellFormed(r: Release)
  {
    "name" in r.fields && |r.assets| > 0
  }

  predicate AllWellFormed(rs: seq<Release>)
  {
    forall i :: 0 <= i < |rs| ==> WellFormed(rs[i])
  }

  function Name(r: Release): string
    requires WellFormed(r)
  {
    r.fields["name"]
  }

  /** `r['assets'][0]['download_count']`. */
  function Downloads(r: Release): int
    requires WellFormed(r)
  {
    r.assets[0].downloadCount
  }

  /** The sum of the first-asset download counts of `rs`. */
  function TotalOf(rs: seq<Release>): int
    requires AllWellFormed(rs)
    decreases |rs|
  {
    if rs == [] then 0 else Downloads(rs[0]) + TotalOf(rs[1..])
  }

  /** The total of a concatenation is the sum of the totals. */
  lemma {:induction false} TotalOfAppend(a: seq<Release>, b: seq<Release>)
    requires AllWellFormed(a) && AllWellFormed(b)
    ensures AllWellFormed(a + b)
    ensures TotalOf(a + b) == TotalOf(a) + TotalOf(b)
    decreases |a|
  {
    assert AllWellFormed(a + b) by {
      forall i | 0 <= i < |a + b| ensures WellFormed((a + b)[i]) {
        if i >= |a| { assert (a + b)[i] == b[i - |a|]; }
      }
    }
    if a == [] {
      assert a + b == b;
    } else {
      WellFormedSlice(a, 1, |a|);
      TotalOfAppend(a[1..], b);
      assert (a + b)[1..] == a[1..] + b;
    }
  }

  lemma WellFormedSlice(s: seq<Release>, lo: nat, hi: nat)
    requires AllWellFormed(s) && lo <= hi <= |s|
    ensures AllWellFormed(s[lo..hi])
  {
    forall i | 0 <= i < hi - lo ensures WellFormed(s[lo..hi][i]) {
      assert s[lo..hi][i] == s[lo + i];
    }
  }

  /**
    The accumulation loop of the default command: it sums the first-asset
    download count of every release (the per-release lines it prints are
    not modelled).
  */
  method TotalDownloads(releases: seq<Release>) returns (total: int)
    requires AllWellFormed(releases)
    ensures total == TotalOf(releases)
  {
    total := 0;
    for i := 0 to |releases|
      invariant total == TotalOf(releases[..i])
    {
      var r := releases[i];
      var downloads := r.assets[0].downloadCount;
      total := total + downloads;
      WellFormedSlice(releases, 0, i);
      TotalOfAppend(releases[..i], [r]);
      assert releases[..i + 1] == releases[..i] + [r];
    }
    assert releases[..|releases|] == releases;
  }
}
