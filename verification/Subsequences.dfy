/** Sequences obtained from others by dropping entries. */
module Subsequences {

  /** xs is ys with some entries dropped; the order is kept. */
  ghost predicate Subsequence<T>(xs: seq<T>, ys: seq<T>) {
    if xs == [] then true
    else if ys == [] then false
    else (xs[0] == ys[0] && Subsequence(xs[1..], ys[1..])) || Subsequence(xs, ys[1..])
  }

  lemma {:induction false} SubsequenceReflexive<T>(xs: seq<T>)
    ensures Subsequence(xs, xs)
  {
    if xs != [] {
      SubsequenceReflexive(xs[1..]);
    }
  }

  lemma {:induction false} SubsequenceMembers<T>(xs: seq<T>, ys: seq<T>)
    requires Subsequence(xs, ys)
    ensures forall x :: x in xs ==> x in ys
  {
    if xs != [] {
      if xs[0] == ys[0] && Subsequence(xs[1..], ys[1..]) {
        SubsequenceMembers(xs[1..], ys[1..]);
      } else {
        SubsequenceMembers(xs, ys[1..]);
      }
      assert xs == [xs[0]] + xs[1..] && ys == [ys[0]] + ys[1..];
    }
  }

  lemma SubsequenceSkips<T>(xs: seq<T>, ys: seq<T>)
    requires ys != [] && Subsequence(xs, ys[1..])
    ensures Subsequence(xs, ys)
  {
  }

  lemma {:induction false} SubsequenceTransitive<T>(xs: seq<T>, ys: seq<T>, zs: seq<T>)
    requires Subsequence(xs, ys) && Subsequence(ys, zs)
    ensures Subsequence(xs, zs)
    decreases |ys| + |zs|
  {
    if xs != [] {
      if ys[0] == zs[0] && Subsequence(ys[1..], zs[1..]) {
        if xs[0] == ys[0] && Subsequence(xs[1..], ys[1..]) {
          SubsequenceTransitive(xs[1..], ys[1..], zs[1..]);
        } else {
          SubsequenceTransitive(xs, ys[1..], zs[1..]);
        }
      } else {
        SubsequenceTransitive(xs, ys, zs[1..]);
      }
    }
  }

  lemma {:induction false} SubsequenceAppend<T>(xs: seq<T>, ys: seq<T>, t: T)
    requires Subsequence(xs, ys)
    ensures Subsequence(xs + [t], ys + [t])
  {
    if xs == [] {
      if ys != [] {
        SubsequenceAppend(xs, ys[1..], t);
        assert (ys + [t])[1..] == ys[1..] + [t];
      }
    } else {
      assert (ys + [t])[1..] == ys[1..] + [t] && (xs + [t])[1..] == xs[1..] + [t];
      if xs[0] == ys[0] && Subsequence(xs[1..], ys[1..]) {
        SubsequenceAppend(xs[1..], ys[1..], t);
      } else {
        SubsequenceAppend(xs, ys[1..], t);
      }
    }
  }

  lemma {:induction false} SubsequenceOfLonger<T>(xs: seq<T>, ys: seq<T>, t: T)
    requires Subsequence(xs, ys)
    ensures Subsequence(xs, ys + [t])
  {
    if xs != [] {
      assert (ys + [t])[1..] == ys[1..] + [t];
      if xs[0] == ys[0] && Subsequence(xs[1..], ys[1..]) {
        SubsequenceOfLonger(xs[1..], ys[1..], t);
      } else {
        SubsequenceOfLonger(xs, ys[1..], t);
      }
    }
  }

  /** A subsequence is no longer than the whole, and of the same length only if nothing was dropped. */
  lemma {:induction false} SubsequenceLength<T>(xs: seq<T>, ys: seq<T>)
    requires Subsequence(xs, ys)
    ensures |xs| <= |ys|
    ensures |xs| == |ys| ==> xs == ys
  {
    if xs != [] {
      if xs[0] == ys[0] && Subsequence(xs[1..], ys[1..]) {
        SubsequenceLength(xs[1..], ys[1..]);
        assert |xs| == |ys| ==> xs == [xs[0]] + xs[1..] == [ys[0]] + ys[1..] == ys;
      } else {
        SubsequenceLength(xs, ys[1..]);
      }
    }
  }
}
