/** The parts of the Python runtime that both scripts lean on: the exceptions
    they can raise, integer floor division, slicing and `range`. */
module PyCore {

  /** The exceptions the modelled code can raise. */
  datatype PyError =
    | ValueError         // `range()` called with a zero step
    | ZeroDivisionError  // `//` by zero
    | TypeError          // `None + str`

  /** The value of a Python expression, or the exception it raises. */
  datatype Result<+T> = Success(value: T) | Failure(error: PyError)

  /** A Python value that may be `None`. */
  datatype Option<+T> = None | Some(value: T)

  function Min(a: int, b: int): int { if a <= b then a else b }

  function Max(a: int, b: int): int { if a <= b then b else a }

  lemma MulMonotone(x: int, y: int, b: int)
    requires x <= y && b >= 0
    ensures x * b <= y * b
  {
    assert y * b - x * b == (y - x) * b;
  }

  lemma MulSucc(j: int, k: int)
    ensures (j + 1) * k == j * k + k
  {
  }

  /** Euclidean division by a positive `b` is the one quotient `q` with
      `q * b <= a < q * b + b`. */
  lemma DivUnique(a: int, b: int, q: int)
    requires b > 0
    requires q * b <= a < q * b + b
    ensures a / b == q
  {
    var q' := a / b;
    assert q' * b <= a < q' * b + b;
    if q' < q {
      MulMonotone(q' + 1, q, b);
      assert false;
    } else if q' > q {
      MulMonotone(q + 1, q', b);
      assert false;
    }
  }

  /** Python's `a // b`: the quotient rounded towards negative infinity. */
  function FloorDiv(a: int, b: int): (q: int)
    requires b != 0
    ensures b > 0 ==> q * b <= a < q * b + b
    ensures b < 0 ==> q * b + b < a <= q * b
  {
    if b > 0 then a / b else (-a) / (-b)
  }

  /** Clamps `x` into `0..n`. */
  function Clamp(x: int, n: nat): (r: nat)
    ensures r <= n
    ensures 0 <= x <= n ==> r == x
  {
    if x < 0 then 0 else if x > n then n else x
  }

  /** Python's `s[lo:hi]` with step 1: a negative bound counts from the end,
      both bounds are then clamped to the sequence, and crossed bounds give
      the empty slice. */
  function Slice<T>(s: seq<T>, lo: int, hi: int): seq<T>
  {
    var i := Clamp(if lo < 0 then lo + |s| else lo, |s|);
    var j := Clamp(if hi < 0 then hi + |s| else hi, |s|);
    if i <= j then s[i..j] else []
  }

  /** In-range bounds select that run; a stop past the end is cut at the end;
      a stop at or before the start gives nothing. */
  lemma SliceCases<T>(s: seq<T>, lo: int, hi: int)
    ensures |Slice(s, lo, hi)| <= |s|
    ensures 0 <= lo <= hi <= |s| ==> Slice(s, lo, hi) == s[lo..hi]
    ensures 0 <= lo <= |s| <= hi ==> Slice(s, lo, hi) == s[lo..]
    ensures 0 <= hi <= lo ==> Slice(s, lo, hi) == []
  {
  }

  /** The values `range(start, stop, step)` yields, for a nonzero step. */
  function Steps(start: int, stop: int, step: int): (r: seq<int>)
    requires step != 0
    ensures step < 0 && start <= stop ==> r == []
    decreases if step > 0 then stop - start else start - stop
  {
    if (step > 0 && start < stop) || (step < 0 && start > stop) then
      [start] + Steps(start + step, stop, step)
    else
      []
  }

  /** Python's `range(start, stop, step)`, which rejects a zero step. */
  function Range(start: int, stop: int, step: int): (r: Result<seq<int>>)
    ensures r.Failure? <==> step == 0
    ensures r.Failure? ==> r.error == ValueError
  {
    if step == 0 then Failure(ValueError) else Success(Steps(start, stop, step))
  }

  /** An ascending range holds ceil((stop - start) / step) values, the j-th
      of which is `start + j * step`. */
  lemma {:induction false} StepsAscending(start: int, stop: int, step: int)
    requires step > 0
    ensures |Steps(start, stop, step)| == if start < stop then (stop - start + step - 1) / step else 0
    ensures forall j :: 0 <= j < |Steps(start, stop, step)| ==> Steps(start, stop, step)[j] == start + j * step
    decreases stop - start
  {
    var r := Steps(start, stop, step);
    if start < stop {
      var rest := Steps(start + step, stop, step);
      assert r == [start] + rest;
      StepsAscending(start + step, stop, step);
      if start + step < stop {
        DivUnique(stop - start + step - 1, step, |rest| + 1) by {
          var n := stop - start - 1;
          assert |rest| == n / step;
          assert |rest| * step <= n < |rest| * step + step;
          assert (|rest| + 1) * step == |rest| * step + step;
        }
      } else {
        DivUnique(stop - start + step - 1, step, 1);
      }
      forall j | 0 <= j < |r|
        ensures r[j] == start + j * step
      {
        if j > 0 {
          assert r[j] == rest[j - 1] == start + step + (j - 1) * step;
          assert (j - 1) * step + step == j * step;
        }
      }
    }
  }
}
