/** The values held in a table cell, tagged by kind, and the two notions of
    equality pandas applies to them. */
module Cells {

  /** A cell after parsing: missing (NaN or None), a number (int or float), or text. */
  datatype Cell = Missing | Number(n: real) | Text(s: string)

  /** `pd.isna`: true exactly for missing cells, the cells that compare
      unequal to themselves. */
  predicate IsNa(c: Cell)
    ensures IsNa(c) <==> !Equal(c, c)
  {
    c.Missing?
  }

  /** Element test of `series == scalar`: a missing value compares unequal to
      everything, itself included (NaN != NaN); values of different kinds are
      unequal; numbers compare by value, text by content.
      Element test of `series.isin(values)` is plain `==` on cells instead:
      there a missing value is found among values that hold a missing value. */
  predicate Equal(a: Cell, b: Cell)
    ensures Equal(a, b) <==> a == b && !a.Missing?
  {
    match (a, b)
    case (Number(x), Number(y)) => x == y
    case (Text(s), Text(t)) => s == t
    case _ => false
  }

  /** Python's `abs` on numbers. */
  function Abs(x: real): (r: real)
    ensures r >= 0.0 && (r == x || r == -x)
  {
    if x < 0.0 then -x else x
  }
}
