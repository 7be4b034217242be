/** Division with remainder: q * p + r determines q and r. */
module Division {

  lemma Remainder(q: int, p: nat, r: nat)
    requires r < p
    ensures (q * p + r) % p == r
  {
    var x := q * p + r;
    var d := q - x / p;
    assert d * p == x % p - r;
    assert d >= 1 ==> d * p >= p;
  }

  lemma Quotient(q: int, p: nat, r: nat)
    requires r < p
    ensures (q * p + r) / p == q
  {
    Remainder(q, p, r);
    var x := q * p + r;
    assert (q - x / p) * p == 0;
  }
}
