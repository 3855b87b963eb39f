/** Finite sums over the reals, in the row-major order in which the filters accumulate them. */
module Sums {

  ghost function RowSum(f: (int, int) -> real, i: int, m: nat): real {
    if m == 0 then 0.0 else RowSum(f, i, m - 1) + f(i, m - 1)
  }

  ghost function DoubleSum(f: (int, int) -> real, n: nat, m: nat): real {
    if n == 0 then 0.0 else DoubleSum(f, n - 1, m) + RowSum(f, n - 1, m)
  }

  ghost function Scaled(c: real, f: (int, int) -> real): (int, int) -> real {
    (i: int, j: int) => c * f(i, j)
  }

  lemma AddScaled(c: real, x: real, y: real, sum: real)
    requires sum == x + y
    ensures c * sum == c * x + c * y
  {
  }

  lemma {:induction false} RowSumScaled(f: (int, int) -> real, c: real, i: int, m: nat)
    ensures RowSum(Scaled(c, f), i, m) == c * RowSum(f, i, m)
  {
    if m > 0 {
      RowSumScaled(f, c, i, m - 1);
      AddScaled(c, RowSum(f, i, m - 1), f(i, m - 1), RowSum(f, i, m));
    }
  }

  lemma {:induction false} DoubleSumScaled(f: (int, int) -> real, c: real, n: nat, m: nat)
    ensures DoubleSum(Scaled(c, f), n, m) == c * DoubleSum(f, n, m)
  {
    if n > 0 {
      DoubleSumScaled(f, c, n - 1, m);
      RowSumScaled(f, c, n - 1, m);
      AddScaled(c, DoubleSum(f, n - 1, m), RowSum(f, n - 1, m), DoubleSum(f, n, m));
    }
  }

  lemma {:induction false} RowSumEqual(f: (int, int) -> real, g: (int, int) -> real, i: int, m: nat)
    requires forall j :: 0 <= j < m ==> f(i, j) == g(i, j)
    ensures RowSum(f, i, m) == RowSum(g, i, m)
  {
    if m > 0 {
      RowSumEqual(f, g, i, m - 1);
    }
  }

  lemma {:induction false} DoubleSumEqual(f: (int, int) -> real, g: (int, int) -> real, n: nat, m: nat)
    requires forall i, j :: 0 <= i < n && 0 <= j < m ==> f(i, j) == g(i, j)
    ensures DoubleSum(f, n, m) == DoubleSum(g, n, m)
  {
    if n > 0 {
      DoubleSumEqual(f, g, n - 1, m);
      RowSumEqual(f, g, n - 1, m);
    }
  }

  lemma {:induction false} RowSumMonotone(f: (int, int) -> real, g: (int, int) -> real, i: int, m: nat)
    requires forall j :: 0 <= j < m ==> f(i, j) <= g(i, j)
    ensures RowSum(f, i, m) <= RowSum(g, i, m)
  {
    if m > 0 {
      RowSumMonotone(f, g, i, m - 1);
    }
  }

  lemma {:induction false} DoubleSumMonotone(f: (int, int) -> real, g: (int, int) -> real, n: nat, m: nat)
    requires forall i, j :: 0 <= i < n && 0 <= j < m ==> f(i, j) <= g(i, j)
    ensures DoubleSum(f, n, m) <= DoubleSum(g, n, m)
  {
    if n > 0 {
      DoubleSumMonotone(f, g, n - 1, m);
      RowSumMonotone(f, g, n - 1, m);
    }
  }

  lemma ScaledBounds(f: (int, int) -> real, i: int, j: int, lo: real, v: real, hi: real, t: real)
    requires lo <= v <= hi && f(i, j) > 0.0 && t == v * f(i, j)
    ensures Scaled(lo, f)(i, j) <= t <= Scaled(hi, f)(i, j)
  {
    ScaleMonotone(lo, v, f(i, j));
    ScaleMonotone(v, hi, f(i, j));
  }

  lemma ScaleMonotone(u: real, v: real, w: real)
    requires u <= v && w > 0.0
    ensures u * w <= v * w
  {
  }

  /** Values of at least (at most) c, summed with weights w, are at least (at most) c times the weight. */
  lemma DoubleSumAtLeast(w: (int, int) -> real, t: (int, int) -> real, c: real, n: nat, m: nat)
    requires forall i, j :: 0 <= i < n && 0 <= j < m ==> Scaled(c, w)(i, j) <= t(i, j)
    ensures c * DoubleSum(w, n, m) <= DoubleSum(t, n, m)
  {
    DoubleSumScaled(w, c, n, m);
    DoubleSumMonotone(Scaled(c, w), t, n, m);
  }

  lemma DoubleSumAtMost(w: (int, int) -> real, t: (int, int) -> real, c: real, n: nat, m: nat)
    requires forall i, j :: 0 <= i < n && 0 <= j < m ==> t(i, j) <= Scaled(c, w)(i, j)
    ensures DoubleSum(t, n, m) <= c * DoubleSum(w, n, m)
  {
    DoubleSumScaled(w, c, n, m);
    DoubleSumMonotone(t, Scaled(c, w), n, m);
  }

  lemma {:induction false} RowSumPositive(f: (int, int) -> real, i: int, m: nat)
    requires forall j :: 0 <= j < m ==> f(i, j) > 0.0
    ensures RowSum(f, i, m) >= 0.0 && (m > 0 ==> RowSum(f, i, m) > 0.0)
  {
    if m > 0 {
      RowSumPositive(f, i, m - 1);
    }
  }

  lemma {:induction false} DoubleSumPositive(f: (int, int) -> real, n: nat, m: nat)
    requires forall i, j :: 0 <= i < n && 0 <= j < m ==> f(i, j) > 0.0
    ensures DoubleSum(f, n, m) >= 0.0 && (n > 0 && m > 0 ==> DoubleSum(f, n, m) > 0.0)
  {
    if n > 0 {
      DoubleSumPositive(f, n - 1, m);
      RowSumPositive(f, n - 1, m);
    }
  }

  /** A column added to every row adds the column's sum. */
  lemma {:induction false} LastColumn(f: (int, int) -> real, g: (int, int) -> real, n: nat, m: nat)
    requires m > 0
    requires forall i, j :: 0 <= i < n && 0 <= j < m ==> g(j, i) == f(i, j)
    ensures DoubleSum(f, n, m) == DoubleSum(f, n, m - 1) + RowSum(g, m - 1, n)
  {
    if n > 0 {
      LastColumn(f, g, n - 1, m);
    }
  }

  /** Summing row by row and column by column gives the same total. */
  lemma {:induction false} DoubleSumTransposed(f: (int, int) -> real, g: (int, int) -> real, n: nat, m: nat)
    requires forall i, j :: 0 <= i < n && 0 <= j < m ==> g(j, i) == f(i, j)
    ensures DoubleSum(f, n, m) == DoubleSum(g, m, n)
    decreases m
  {
    if m > 0 {
      LastColumn(f, g, n, m);
      DoubleSumTransposed(f, g, n, m - 1);
    } else {
      EmptyRows(f, n);
    }
  }

  lemma {:induction false} EmptyRows(f: (int, int) -> real, n: nat)
    ensures DoubleSum(f, n, 0) == 0.0
  {
    if n > 0 {
      EmptyRows(f, n - 1);
    }
  }

  lemma {:induction false} RowSumEqualAt(f: (int, int) -> real, i: int, g: (int, int) -> real, k: int, m: nat)
    requires forall j :: 0 <= j < m ==> f(i, j) == g(k, j)
    ensures RowSum(f, i, m) == RowSum(g, k, m)
  {
    if m > 0 {
      RowSumEqualAt(f, i, g, k, m - 1);
    }
  }

  /** The first row split off; rest holds the others. */
  lemma {:induction false} FirstRow(f: (int, int) -> real, rest: (int, int) -> real, n: nat, m: nat)
    requires n > 0
    requires forall i, j :: 0 <= i < n - 1 && 0 <= j < m ==> rest(i, j) == f(i + 1, j)
    ensures DoubleSum(f, n, m) == RowSum(f, 0, m) + DoubleSum(rest, n - 1, m)
  {
    if n > 1 {
      FirstRow(f, rest, n - 1, m);
      RowSumEqualAt(f, n - 1, rest, n - 2, m);
    } else {
      assert DoubleSum(f, 1, m) == DoubleSum(f, 0, m) + RowSum(f, 0, m);
    }
  }

  /** The order of the rows does not matter. */
  lemma {:induction false} DoubleSumReversedRows(f: (int, int) -> real, g: (int, int) -> real, n: nat, m: nat)
    requires forall i, j :: 0 <= i < n && 0 <= j < m ==> g(n - 1 - i, j) == f(i, j)
    ensures DoubleSum(f, n, m) == DoubleSum(g, n, m)
  {
    if n > 0 {
      var rest := (i: int, j: int) => g(i + 1, j);
      FirstRow(g, rest, n, m);
      forall i, j | 0 <= i < n - 1 && 0 <= j < m
        ensures rest(n - 2 - i, j) == f(i, j)
      {
        assert g(n - 1 - i, j) == f(i, j);
      }
      DoubleSumReversedRows(f, rest, n - 1, m);
      forall j | 0 <= j < m
        ensures f(n - 1, j) == g(0, j)
      {
        assert g(n - 1 - (n - 1), j) == f(n - 1, j);
      }
      RowSumEqualAt(f, n - 1, g, 0, m);
    }
  }

  /** A sum of which at most the cell (a, b) is not zero. */
  lemma {:induction false} RowSumSingle(f: (int, int) -> real, i: int, m: nat, b: int)
    requires forall j :: 0 <= j < m && j != b ==> f(i, j) == 0.0
    ensures RowSum(f, i, m) == if 0 <= b < m then f(i, b) else 0.0
  {
    if m > 0 {
      RowSumSingle(f, i, m - 1, b);
    }
  }

  lemma {:induction false} DoubleSumSingle(f: (int, int) -> real, n: nat, m: nat, a: int, b: int)
    requires forall i, j :: 0 <= i < n && 0 <= j < m && !(i == a && j == b) ==> f(i, j) == 0.0
    ensures DoubleSum(f, n, m) == if 0 <= a < n && 0 <= b < m then f(a, b) else 0.0
  {
    if n > 0 {
      DoubleSumSingle(f, n - 1, m, a, b);
      RowSumSingle(f, n - 1, m, if n - 1 == a then b else -1);
    }
  }

  lemma {:induction false} RowSumAdds(f: (int, int) -> real, g: (int, int) -> real, h: (int, int) -> real, i: int, m: nat)
    requires forall j :: 0 <= j < m ==> h(i, j) == f(i, j) + g(i, j)
    ensures RowSum(h, i, m) == RowSum(f, i, m) + RowSum(g, i, m)
  {
    if m > 0 {
      RowSumAdds(f, g, h, i, m - 1);
    }
  }

  lemma {:induction false} DoubleSumAdds(f: (int, int) -> real, g: (int, int) -> real, h: (int, int) -> real, n: nat, m: nat)
    requires forall i, j :: 0 <= i < n && 0 <= j < m ==> h(i, j) == f(i, j) + g(i, j)
    ensures DoubleSum(h, n, m) == DoubleSum(f, n, m) + DoubleSum(g, n, m)
  {
    if n > 0 {
      DoubleSumAdds(f, g, h, n - 1, m);
      RowSumAdds(f, g, h, n - 1, m);
    }
  }
}
