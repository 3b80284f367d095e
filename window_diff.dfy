/**
  `cool_diff(array, n)`: a windowed difference over the values, exactly as
  written, including Python's negative indexing.
*/
module WindowDiff {

  /** `a[i]` in Python: a negative index counts from the end. */
  function PyIndex(a: seq<int>, i: int): int
    requires -|a| <= i < |a|
  {
    if i < 0 then a[|a| + i] else a[i]
  }

  /** Where Python puts a slice bound `i` on a sequence of length `len`. */
  function SliceBound(len: nat, i: int): (b: nat)
    ensures b <= len
  {
    if i < 0 then (if len + i < 0 then 0 else len + i)
    else if i > len then len
    else i
  }

  /** `a[start:stop]`. */
  function PySlice(a: seq<int>, start: int, stop: int): seq<int>
  {
    var lo, hi := SliceBound(|a|, start), SliceBound(|a|, stop);
    if lo < hi then a[lo..hi] else []
  }

  /** For n > 0 the loop runs over `array[n:-n]`, which holds `len - 2n` values or none. */
  lemma {:induction false} WindowLength(a: seq<int>, n: nat)
    requires n > 0
    ensures |PySlice(a, n, -(n as int))| == if |a| > 2 * n then |a| - 2 * n else 0
  {
  }

  /** What `cool_diff(a, n)` returns, element by element. */
  function CoolDiffOf(a: seq<int>, n: nat): seq<int>
  {
    if n == 0 then a
    else
      var window := PySlice(a, n, -(n as int));
      WindowLength(a, n);
      seq(|window|, i requires 0 <= i < |window| => PyIndex(a, i + n) - PyIndex(a, i - n))
  }

  /**
    With n == 0 the values come back unchanged; otherwise there are
    max(0, len - 2n) of them and element i is `a[i + n] - a[i - n]`, where
    for i < n the second index wraps around to `a[len + i - n]`.
  */
  lemma CoolDiffShape(a: seq<int>, n: nat)
    ensures n == 0 ==> CoolDiffOf(a, n) == a
    ensures n > 0 ==> |CoolDiffOf(a, n)| == if |a| > 2 * n then |a| - 2 * n else 0
    ensures n > 0 ==> forall i :: 0 <= i < |CoolDiffOf(a, n)| ==>
              CoolDiffOf(a, n)[i] == a[i + n] - (if i < n then a[|a| + i - n] else a[i - n])
  {
    if n > 0 {
      WindowLength(a, n);
      var r := CoolDiffOf(a, n);
      forall i | 0 <= i < |r|
        ensures r[i] == a[i + n] - (if i < n then a[|a| + i - n] else a[i - n])
      {
        assert r[i] == PyIndex(a, i + n) - PyIndex(a, i - n);
      }
    }
  }

  /** The loop of `cool_diff`, appending one difference per window element. */
  method CoolDiff(a: seq<int>, n: nat) returns (out: seq<int>)
    ensures out == CoolDiffOf(a, n)
  {
    if n == 0 {
      return a;
    }
    out := [];
    var window := PySlice(a, n, -(n as int));
    WindowLength(a, n);
    for i := 0 to |window|
      invariant out == CoolDiffOf(a, n)[..i]
    {
      var diff := PyIndex(a, i + n) - PyIndex(a, i - n);
      out := out + [diff];
    }
  }

  /** The values grow by `c` per step. */
  ghost predicate Linear(a: seq<int>, c: int)
  {
    forall j :: 0 <= j < |a| - 1 ==> a[j + 1] - a[j] == c
  }

  lemma {:induction false} LinearSpan(a: seq<int>, c: int, i: nat, j: nat)
    requires Linear(a, c) && i <= j < |a|
    ensures a[j] - a[i] == (j - i) * c
    decreases j - i
  {
    if i < j {
      LinearSpan(a, c, i, j - 1);
    }
  }

  /** One element of `cool_diff` on values growing by `c` per step. */
  lemma CoolDiffOnLinearAt(a: seq<int>, c: int, n: nat, i: nat)
    requires n > 0 && Linear(a, c) && i < |CoolDiffOf(a, n)|
    ensures i >= n ==> CoolDiffOf(a, n)[i] == (2 * n) * c
    ensures i < n ==> CoolDiffOf(a, n)[i] == (2 * n - |a|) * c
  {
    CoolDiffShape(a, n);
    if i >= n {
      LinearSpan(a, c, i - n, i + n);
      assert i + n - (i - n) == 2 * n;
    } else {
      var span := |a| - 2 * n;
      LinearSpan(a, c, i + n, |a| + i - n);
      assert |a| + i - n - (i + n) == span;
      NegateProduct(span, c);
    }
  }

  lemma NegateProduct(x: int, c: int)
    ensures -(x * c) == (-x) * c
  {
  }

  /**
    On values growing by `c` per step, the elements from index n on are the
    centred difference 2nc, but the first n wrap around to (2n - len) * c.
  */
  lemma CoolDiffOnLinear(a: seq<int>, c: int, n: nat)
    requires n > 0 && Linear(a, c)
    ensures forall i :: n <= i < |CoolDiffOf(a, n)| ==> CoolDiffOf(a, n)[i] == (2 * n) * c
    ensures forall i :: 0 <= i < n && i < |CoolDiffOf(a, n)| ==>
              CoolDiffOf(a, n)[i] == (2 * n - |a|) * c
  {
    forall i | 0 <= i < |CoolDiffOf(a, n)|
      ensures i >= n ==> CoolDiffOf(a, n)[i] == (2 * n) * c
      ensures i < n ==> CoolDiffOf(a, n)[i] == (2 * n - |a|) * c
    {
      CoolDiffOnLinearAt(a, c, n, i);
    }
  }

  /** A concrete input: on 0, 1, 2, 3, 4 with n = 1 the first element is -3, not 2. */
  lemma CoolDiffWrapsAround()
    ensures CoolDiffOf([0, 1, 2, 3, 4], 1) == [-3, 2, 2]
    ensures CentredDiffOf([0, 1, 2, 3, 4], 1) == [2, 2, 2]
  {
    CoolDiffShape([0, 1, 2, 3, 4], 1);
  }

  /**
    The centred difference the comments describe: for the window element
    at index i + n, the value n steps ahead minus the value n steps back.
  */
  function CentredDiffOf(a: seq<int>, n: nat): seq<int>
  {
    if n == 0 then a
    else seq(if |a| > 2 * n then |a| - 2 * n else 0, i requires 0 <= i < |a| - 2 * n => a[i + 2 * n] - a[i])
  }

  /** One element of the centred difference on values growing by `c` per step. */
  lemma CentredDiffOnLinearAt(a: seq<int>, c: int, n: nat, i: nat)
    requires n > 0 && Linear(a, c) && i < |CentredDiffOf(a, n)|
    ensures CentredDiffOf(a, n)[i] == (2 * n) * c
  {
    LinearSpan(a, c, i, i + 2 * n);
    assert i + 2 * n - i == 2 * n;
  }

  /** On values growing by `c` per step every element is 2nc, and the length is as documented. */
  lemma CentredDiffOnLinear(a: seq<int>, c: int, n: nat)
    requires n > 0 && Linear(a, c)
    ensures |CentredDiffOf(a, n)| == if |a| > 2 * n then |a| - 2 * n else 0
    ensures forall i :: 0 <= i < |CentredDiffOf(a, n)| ==> CentredDiffOf(a, n)[i] == (2 * n) * c
  {
    forall i | 0 <= i < |CentredDiffOf(a, n)| ensures CentredDiffOf(a, n)[i] == (2 * n) * c {
      CentredDiffOnLinearAt(a, c, n, i);
    }
  }
}
