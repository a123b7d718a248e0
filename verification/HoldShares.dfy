/** How connhold's main splits connections over processes, and run_child over addresses. */
module HoldShares {
  import opened Arithmetic

  /** Connections given to process p. */
  function Share(conns: nat, procs: nat, p: nat): (r: nat)
    requires procs > 0
  {
    conns / procs + if p < conns % procs then 1 else 0
  }

  function SumShares(conns: nat, procs: nat, p: nat): (r: nat)
    requires procs > 0
  {
    if p == 0 then 0 else SumShares(conns, procs, p - 1) + Share(conns, procs, p - 1)
  }

  lemma {:induction false} SumSharesIs(conns: nat, procs: nat, p: nat)
    requires 0 < procs && p <= procs
    ensures SumShares(conns, procs, p) == p * (conns / procs) + if p < conns % procs then p else conns % procs
  {
    if p > 0 {
      SumSharesIs(conns, procs, p - 1);
      assert p * (conns / procs) == (p - 1) * (conns / procs) + conns / procs;
    }
  }

  lemma SharesSumToAll(conns: nat, procs: nat)
    requires procs > 0
    ensures SumShares(conns, procs, procs) == conns
  {
    SumSharesIs(conns, procs, procs);
  }

  /** The number a child gives its attempt, which picks the address. */
  function Number(procs: nat, id: nat, next: nat): (r: nat) {
    next * procs + id
  }

  /** A slot index lies inside its process's share exactly when its number is below conns ... */
  lemma NumberInRangeIffInShare(conns: nat, procs: nat, id: nat, next: nat)
    requires id < procs
    ensures Number(procs, id, next) < conns <==> next < Share(conns, procs, id)
  {
    var q, r := conns / procs, conns % procs;
    assert conns == q * procs + r;
    if next < q {
      MulLess(next, q, procs);
    } else if next > q {
      MulLess(q, next, procs);
    }
  }

  /** ... so numbering is a bijection from all slots of all children onto 0 .. conns - 1. */
  lemma NumberingIsBijection(conns: nat, procs: nat, k: nat)
    requires procs > 0 && k < conns
    ensures k % procs < procs && k / procs < Share(conns, procs, k % procs)
    ensures Number(procs, k % procs, k / procs) == k
    ensures forall id: nat, next: nat :: id < procs && Number(procs, id, next) == k ==> id == k % procs && next == k / procs
  {
    assert k / procs * procs + k % procs == k;
    NumberInRangeIffInShare(conns, procs, k % procs, k / procs);
    forall id: nat, next: nat | id < procs && Number(procs, id, next) == k
      ensures id == k % procs && next == k / procs
    {
      QuotientRemainder(procs, next, id);
    }
  }

  /** Connections among the first n numbers that go to address v. */
  function Load(vips: nat, n: nat, v: nat): (r: nat)
    requires vips > 0
  {
    if n == 0 then 0 else Load(vips, n - 1, v) + if (n - 1) % vips == v then 1 else 0
  }

  /** Numbers are dealt to addresses in turn: this is again a fair share. */
  lemma {:induction false} LoadIsShare(vips: nat, n: nat, v: nat)
    requires v < vips
    ensures Load(vips, n, v) == Share(n, vips, v)
  {
    if n == 0 {
      assert 0 / vips == 0 && 0 % vips == 0;
    } else {
      LoadIsShare(vips, n - 1, v);
      NextNumber(vips, n - 1);
    }
  }

  lemma NextNumber(vips: nat, m: nat)
    requires vips > 0
    ensures if m % vips + 1 < vips then (m + 1) / vips == m / vips && (m + 1) % vips == m % vips + 1
      else (m + 1) / vips == m / vips + 1 && (m + 1) % vips == 0
  {
    var q, r := m / vips, m % vips;
    assert m == q * vips + r;
    if r + 1 < vips {
      QuotientRemainder(vips, q, r + 1);
    } else {
      assert (q + 1) * vips == q * vips + vips;
      QuotientRemainder(vips, q + 1, 0);
    }
  }

  /** When every slot is attempted, no address carries two connections more than another. */
  lemma LoadsDifferByAtMostOne(vips: nat, conns: nat, v: nat, w: nat)
    requires v < vips && w < vips
    ensures -1 <= Load(vips, conns, v) - Load(vips, conns, w) <= 1
  {
    LoadIsShare(vips, conns, v);
    LoadIsShare(vips, conns, w);
  }
}
