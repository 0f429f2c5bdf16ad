/** Facts about division that the solver does not find by itself. */
module Arithmetic {
  lemma MultipleIsFar(d: nat, k: int)
    ensures 1 <= k ==> d <= d * k
    ensures k <= 0 ==> d * k <= 0
    ensures k <= -1 ==> d * k + d <= 0
  {
  }

  lemma RemainderIsUnique(v: nat, d: nat, q: nat, r: nat)
    requires 0 < d && v == d * q + r && r < d
    ensures v % d == r && v / d == q
  {
    var q', r' := v / d, v % d;
    assert v == d * q' + r';
    assert d * (q - q') == d * q - d * q';
    MultipleIsFar(d, q - q');
  }

  lemma DivTwice(v: nat, a: nat, b: nat)
    requires 0 < a && 0 < b
    ensures 0 < a * b && (v / a) / b == v / (a * b)
  {
    var q, r := (v / a) / b, (v / a) % b;
    assert v / a == b * q + r;
    assert v == a * (b * q + r) + v % a;
    assert a * (b * q) == (a * b) * q;
    assert a * r + v % a < a * b by {
      assert a * r <= a * (b - 1);
    }
    assert v == (a * b) * q + (a * r + v % a);
    RemainderIsUnique(v, a * b, q, a * r + v % a);
  }
}
