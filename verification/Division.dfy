/** Facts about division and multiplication that the solver needs spelled out when the divisor is not a literal. */
module Division {

  lemma MultipleGrows(d: int, m: int)
    requires m >= 0
    ensures d > 0 ==> d * m >= m
    ensures d < 0 ==> d * m <= -m
  {
    if d > 0 {
      assert d * m >= m;
    } else if d < 0 {
      assert d * m <= -m;
    }
  }

  lemma Split(q: nat, r: nat, m: nat)
    requires r < m
    ensures (q * m + r) / m == q && (q * m + r) % m == r
  {
    var x := q * m + r;
    var d := q - x / m;
    assert d * m == x % m - r by {
      assert x == x / m * m + x % m;
      assert d * m == q * m - x / m * m;
    }
    MultipleGrows(d, m);
  }
}
