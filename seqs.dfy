/** Concatenation of a sequence of pieces, built the way the scripts build
    their strings: a left fold of `acc += piece`. */
module Seqs {

  /** The pieces concatenated in order. */
  function Flatten<T>(ss: seq<seq<T>>): seq<T>
  {
    if ss == [] then [] else Flatten(ss[..|ss| - 1]) + ss[|ss| - 1]
  }

  /** The total length of the pieces. */
  function SumLengths<T>(ss: seq<seq<T>>): nat
  {
    if ss == [] then 0 else SumLengths(ss[..|ss| - 1]) + |ss[|ss| - 1]|
  }

  /** Each piece followed by the terminator `t`, as in `piece + t`. */
  function Terminated(ps: seq<string>, t: string): seq<string>
  {
    seq(|ps|, i requires 0 <= i < |ps| => ps[i] + t)
  }

  lemma FlattenSnoc<T>(ss: seq<seq<T>>, x: seq<T>)
    ensures Flatten(ss + [x]) == Flatten(ss) + x
  {
    assert (ss + [x])[..|ss|] == ss;
  }

  /** Appending one more piece appends it, terminated, to the flattened text. */
  lemma TerminatedSnoc(ps: seq<string>, p: string, t: string)
    ensures Flatten(Terminated(ps + [p], t)) == Flatten(Terminated(ps, t)) + (p + t)
  {
    assert Terminated(ps + [p], t) == Terminated(ps, t) + [p + t];
    FlattenSnoc(Terminated(ps, t), p + t);
  }

  lemma AppendAssoc<T>(a: seq<T>, b: seq<T>, c: seq<T>)
    ensures a + (b + c) == (a + b) + c
  {
  }

  /** A slice of a suffix is a slice of the whole sequence. */
  lemma SliceOfSuffix<T>(s: seq<T>, k: nat, lo: nat, hi: nat)
    requires k <= |s| && lo <= hi <= |s| - k
    ensures s[k..][lo..hi] == s[k + lo..k + hi]
  {
  }

  lemma FlattenSingleton<T>(x: seq<T>)
    ensures Flatten([x]) == x
  {
    FlattenSnoc([], x);
    assert [] + [x] == [x];
  }

  /** Concatenation is a homomorphism from sequences of pieces. */
  lemma {:induction false} FlattenConcat<T>(a: seq<seq<T>>, b: seq<seq<T>>)
    ensures Flatten(a + b) == Flatten(a) + Flatten(b)
    decreases |b|
  {
    if b == [] {
      assert a + b == a;
    } else {
      var b' := b[..|b| - 1];
      assert a + b == (a + b') + [b[|b| - 1]];
      FlattenSnoc(a + b', b[|b| - 1]);
      FlattenConcat(a, b');
      FlattenSnoc(b', b[|b| - 1]);
      assert b == b' + [b[|b| - 1]];
    }
  }

  lemma {:induction false} FlattenLength<T>(ss: seq<seq<T>>)
    ensures |Flatten(ss)| == SumLengths(ss)
  {
    if ss != [] {
      FlattenLength(ss[..|ss| - 1]);
    }
  }

  /** Piece `i` sits in the concatenation right after the pieces before it. */
  lemma FlattenAt<T>(ss: seq<seq<T>>, i: nat)
    requires i < |ss|
    ensures SumLengths(ss[..i]) + |ss[i]| <= |Flatten(ss)|
    ensures Flatten(ss)[SumLengths(ss[..i]) .. SumLengths(ss[..i]) + |ss[i]|] == ss[i]
  {
    var before, after := ss[..i], ss[i + 1..];
    assert ss == before + [ss[i]] + after;
    FlattenConcat(before + [ss[i]], after);
    FlattenSnoc(before, ss[i]);
    FlattenLength(before);
    FlattenLength(ss);
  }

  /** Terminating every piece adds `|t|` per piece to the total length. */
  lemma {:induction false} TerminatedLengths(ps: seq<string>, t: string)
    ensures SumLengths(Terminated(ps, t)) == SumLengths(ps) + |ps| * |t|
  {
    if ps != [] {
      var ps' := ps[..|ps| - 1];
      assert Terminated(ps, t)[..|ps| - 1] == Terminated(ps', t);
      TerminatedLengths(ps', t);
      assert (|ps| - 1) * |t| + |t| == |ps| * |t|;
    }
  }

  /** In the concatenation of `p + t` over the pieces, piece `i` and its
      terminator start after the earlier pieces and their terminators. */
  lemma TerminatedAt(ps: seq<string>, t: string, i: nat)
    requires i < |ps|
    ensures var at := SumLengths(ps[..i]) + i * |t|;
      && at + |ps[i]| + |t| <= |Flatten(Terminated(ps, t))|
      && Flatten(Terminated(ps, t))[at .. at + |ps[i]| + |t|] == ps[i] + t
  {
    FlattenAt(Terminated(ps, t), i);
    assert Terminated(ps, t)[..i] == Terminated(ps[..i], t);
    TerminatedLengths(ps[..i], t);
  }
}
