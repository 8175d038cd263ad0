/** Interleaved nonce lanes, as csolver.py hands them to its processes and
    solver_mp.py to its workers. */
module Lanes {
  import B = BigEndian

  // The k-th nonce of lane i of `lanes` lanes: start + i, then one step of `lanes` after the other.
  function LaneNonce(start: nat, lanes: nat, i: nat, k: nat): nat {
    start + i + k * lanes
  }

  lemma NextNonce(start: nat, lanes: nat, i: nat, k: nat)
    ensures LaneNonce(start, lanes, i, k) + lanes == LaneNonce(start, lanes, i, k + 1)
  {
  }

  // Every nonce from start on lies on exactly one lane, at exactly one place.
  lemma LanesPartition(start: nat, lanes: nat, n: nat)
    requires lanes > 0 && start <= n
    ensures (n - start) % lanes < lanes
    ensures LaneNonce(start, lanes, (n - start) % lanes, (n - start) / lanes) == n
    ensures forall i: nat, k: nat | i < lanes && LaneNonce(start, lanes, i, k) == n ::
              i == (n - start) % lanes && k == (n - start) / lanes
  {
    var d := n - start;
    assert d == lanes * (d / lanes) + d % lanes;
    forall i: nat, k: nat | i < lanes && LaneNonce(start, lanes, i, k) == n
      ensures i == (n - start) % lanes && k == (n - start) / lanes
    {
      B.QuotientUnique(d, lanes, k, i);
    }
  }

  lemma LaneBelow(start: nat, lanes: nat, i: nat, k: nat, q: nat)
    requires k <= q
    ensures LaneNonce(start, lanes, i, k) <= LaneNonce(start, lanes, i, q)
  {
    assert (q - k) * lanes >= 0;
  }
}
