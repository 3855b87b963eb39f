/** Whole-row and whole-column assignment to a matrix, as the image library offers it. */
module Matrices {

  method SetRow<T>(m: array2<T>, row: nat, value: T)
    requires row < m.Length0
    modifies m
    ensures forall r, c :: 0 <= r < m.Length0 && 0 <= c < m.Length1 ==>
                             m[r, c] == if r == row then value else old(m[r, c])
  {
    for col := 0 to m.Length1
      invariant forall r, c :: 0 <= r < m.Length0 && 0 <= c < m.Length1 ==>
                                 m[r, c] == if r == row && c < col then value else old(m[r, c])
    {
      m[row, col] := value;
    }
  }

  method SetColumn<T>(m: array2<T>, col: nat, value: T)
    requires col < m.Length1
    modifies m
    ensures forall r, c :: 0 <= r < m.Length0 && 0 <= c < m.Length1 ==>
                             m[r, c] == if c == col then value else old(m[r, c])
  {
    for row := 0 to m.Length0
      invariant forall r, c :: 0 <= r < m.Length0 && 0 <= c < m.Length1 ==>
                                 m[r, c] == if c == col && r < row then value else old(m[r, c])
    {
      m[row, col] := value;
    }
  }

  /** The four assignments that end the gradient and the suppression stage. */
  method SetBorder<T>(m: array2<T>, value: T)
    requires m.Length0 > 0 && m.Length1 > 0
    modifies m
    ensures forall r, c :: 0 <= r < m.Length0 && 0 <= c < m.Length1 ==>
                             m[r, c] == if 1 <= r < m.Length0 - 1 && 1 <= c < m.Length1 - 1 then old(m[r, c]) else value
  {
    SetRow(m, 0, value);
    SetRow(m, m.Length0 - 1, value);
    SetColumn(m, 0, value);
    SetColumn(m, m.Length1 - 1, value);
  }
}
