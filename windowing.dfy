/** Cutting a sequence into consecutive windows of a fixed size, the last one
    possibly shorter: the reference definition both chunkers are proved
    against. */
module Windowing {
  import opened PyCore
  import opened Seqs

  function Windows<T>(s: seq<T>, k: nat): seq<seq<T>>
    requires k > 0
    decreases |s|
  {
    if |s| <= k then (if s == [] then [] else [s])
    else [s[..k]] + Windows(s[k..], k)
  }

  /** The windows cover `s` and no more: all but the last are full. */
  lemma {:induction false} WindowsCover<T>(s: seq<T>, k: nat)
    requires k > 0
    ensures |Windows(s, k)| == 0 <==> s == []
    ensures s != [] ==> (|Windows(s, k)| - 1) * k < |s| <= |Windows(s, k)| * k
    decreases |s|
  {
    if |s| > k {
      var n := |Windows(s[k..], k)|;
      WindowsCover(s[k..], k);
      assert |Windows(s, k)| == n + 1;
      assert (n - 1) * k < |s| - k <= n * k;
      assert (n + 1) * k == n * k + k;
    }
  }

  /** There are ceil(|s| / k) windows, written as Python computes it. */
  lemma WindowsCount<T>(s: seq<T>, k: nat)
    requires k > 0
    ensures |Windows(s, k)| == (|s| + k - 1) / k
  {
    var n := |Windows(s, k)|;
    WindowsCover(s, k);
    if s == [] {
      DivUnique(k - 1, k, 0);
    } else {
      assert (n - 1) * k == n * k - k;
      DivUnique(|s| + k - 1, k, n);
    }
  }

  /** Window `j` is the run of `s` from `j * k` to `(j + 1) * k`, cut short
      at the end of `s`; it is never empty. */
  lemma {:induction false} WindowsAt<T>(s: seq<T>, k: nat, j: nat)
    requires k > 0
    requires j < |Windows(s, k)|
    ensures j * k < |s|
    ensures Windows(s, k)[j] == s[j * k .. Min(j * k + k, |s|)]
    decreases |s|
  {
    if |s| > k && j > 0 {
      var rest := s[k..];
      WindowsAt(rest, k, j - 1);
      MulSucc(j - 1, k);
      var lo, hi := (j - 1) * k, Min(j * k, |rest|);
      assert lo + k == j * k && hi + k == Min(j * k + k, |s|);
      SliceOfSuffix(s, k, lo, hi);
      assert Windows(s, k)[j] == Windows(rest, k)[j - 1];
    } else if |s| <= k {
      assert s[0..Min(k, |s|)] == s;
    }
  }

  /** Every window but the last holds exactly `k` elements, and the last holds
      between 1 and `k`. */
  lemma WindowSizes<T>(s: seq<T>, k: nat, j: nat)
    requires k > 0
    requires j < |Windows(s, k)|
    ensures j < |Windows(s, k)| - 1 ==> |Windows(s, k)[j]| == k
    ensures j == |Windows(s, k)| - 1 ==> 1 <= |Windows(s, k)[j]| <= k
  {
    WindowsAt(s, k, j);
    if j < |Windows(s, k)| - 1 {
      WindowsAt(s, k, j + 1);
      MulSucc(j, k);
    }
  }

  /** No element is lost, duplicated or moved: the windows concatenate back
      to `s`. */
  lemma {:induction false} WindowsFlatten<T>(s: seq<T>, k: nat)
    requires k > 0
    ensures Flatten(Windows(s, k)) == s
    decreases |s|
  {
    if |s| <= k {
      if s != [] {
        FlattenSingleton(s);
      }
    } else {
      var first, rest := s[..k], Windows(s[k..], k);
      assert Windows(s, k) == [first] + rest;
      WindowsFlatten(s[k..], k);
      FlattenConcat([first], rest);
      FlattenSingleton(first);
      assert first + s[k..] == s;
    }
  }

  /** Window `j` is the slice `s[j*k : j*k + k]`. */
  lemma WindowIsSlice<T>(s: seq<T>, k: nat, j: nat)
    requires k > 0
    requires j < |Windows(s, k)|
    ensures Windows(s, k)[j] == Slice(s, j * k, j * k + k)
  {
    WindowsAt(s, k, j);
    MulMonotone(0, j, k);
    var lo := j * k;
    var w := Windows(s, k)[j];
    SliceCases(s, lo, lo + k);
    if lo + k <= |s| {
      assert w == s[lo..lo + k] == Slice(s, lo, lo + k);
    } else {
      assert w == s[lo..] == Slice(s, lo, lo + k);
    }
  }

  /** The windows are the slices `s[i:i+k]` for `i` in `range(0, len(s), k)`. */
  lemma WindowsAreSlices<T>(s: seq<T>, k: nat)
    requires k > 0
    ensures |Windows(s, k)| == |Steps(0, |s|, k)|
    ensures forall j :: 0 <= j < |Windows(s, k)| ==>
      Windows(s, k)[j] == Slice(s, Steps(0, |s|, k)[j], Steps(0, |s|, k)[j] + k)
  {
    var ws, starts := Windows(s, k), Steps(0, |s|, k);
    WindowsCount(s, k);
    StepsAscending(0, |s|, k);
    if s == [] {
      DivUnique(k - 1, k, 0);
    }
    assert |ws| == |starts|;
    forall j | 0 <= j < |ws|
      ensures ws[j] == Slice(s, starts[j], starts[j] + k)
    {
      WindowIsSlice(s, k, j);
      assert starts[j] == j * k;
    }
  }
}
