/** The few facts about division the index and layout arithmetic rests on. */
module Division {

  lemma DivUnique(a: int, b: int, q: int, r: int)
    requires 0 < b && 0 <= r < b && a == q * b + r
    ensures a / b == q && a % b == r
  {
    var p, m := a / b, a % b;
    assert (p - q) * b == r - m;
    AtLeast(p - q, b);
    AtLeast(q - p, b);
  }

  lemma DivIs(i: nat, unit: nat, q: nat)
    requires 0 < unit
    ensures i / unit == q <==> q * unit <= i < q * unit + unit
  {
    if q * unit <= i < q * unit + unit {
      DivUnique(i, unit, q, i - q * unit);
    } else {
      Divided(i, unit);
    }
  }

  lemma DivMono(a: nat, b: nat, c: nat)
    requires a <= b && 0 < c
    ensures a / c <= b / c
  {
    var d := a / c - b / c;
    assert d * c == (a - a % c) - (b - b % c);
    AtLeast(d, c);
  }

  lemma AtLeast(k: int, b: int)
    requires 0 < b
    ensures k >= 1 ==> k * b >= b
  {
  }

  lemma TimesMono(a: int, b: int, k: int)
    requires a <= b && 0 <= k
    ensures a * k <= b * k
  {
  }

  lemma CeilStep(n: nat, k: nat)
    requires 0 < k
    ensures n == 0 ==> (n + k - 1) / k == 0
    ensures 0 < n <= k ==> (n + k - 1) / k == 1
    ensures n > k ==> (n + k - 1) / k == 1 + (n - k + k - 1) / k
  {
    if n == 0 {
      DivUnique(k - 1, k, 0, k - 1);
    } else if n <= k {
      DivUnique(n + k - 1, k, 1, n - 1);
    } else {
      var q, r := (n - 1) / k, (n - 1) % k;
      DivUnique(n + k - 1, k, q + 1, r);
    }
  }

  lemma CeilBound(n: nat, k: nat, m: nat)
    requires 0 < k && n <= m * k
    ensures (n + k - 1) / k <= m
  {
    var q, r := (n + k - 1) / k, (n + k - 1) % k;
    assert q * k + r == n + k - 1;
    if q > m {
      TimesMono(m + 1, q, k);
    }
  }

  lemma Divided(b: nat, a: nat)
    requires 0 < a
    ensures b == (b / a) * a + b % a
  {
  }

  lemma SamePlace(n: nat, a: nat, b: nat)
    requires 0 < n
    ensures a == b <==> a / n == b / n && a % n == b % n
  {
    Divided(a, n);
    Divided(b, n);
  }
}
