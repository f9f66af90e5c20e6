/**
  The comparison counts of the quadratic sorts: `Tri(n)` is the number of
  pairs among `n` elements, `(n - 1) + (n - 2) + ... + 1`.
 */
module Counts {

  function Tri(n: nat): nat
  {
    if n == 0 then 0 else Tri(n - 1) + (n - 1)
  }

  /** The closed form `n * (n - 1) / 2`. */
  lemma {:induction false} TriClosedForm(n: nat)
    ensures 2 * Tri(n) == n * (n - 1)
  {
    if n > 0 {
      TriClosedForm(n - 1);
    }
  }
}
