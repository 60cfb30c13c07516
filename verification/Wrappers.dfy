/** What several modules need and the driver has no name for. */
module Wrappers {

  datatype Option<+T> = None | Some(value: T)

  // Whatever holds of some number holds of a least one.
  lemma {:induction false} Least(p: nat -> bool, n: nat) returns (m: nat)
    requires p(n)
    ensures m <= n && p(m) && forall k :: 0 <= k < m ==> !p(k)
  {
    if k :| 0 <= k < n && p(k) {
      m := Least(p, k);
    } else {
      m := n;
    }
  }
}
