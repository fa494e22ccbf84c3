/** Powers of two, and the multiplication and division facts the bit-level proofs need. */
module Powers {
  function Pow2(n: nat): (r: nat)
    ensures r >= 1
  {
    if n == 0 then 1 else 2 * Pow2(n - 1)
  }

  lemma {:induction false} Pow2Add(a: nat, b: nat)
    ensures Pow2(a + b) == Pow2(a) * Pow2(b)
  {
    if a > 0 {
      Pow2Add(a - 1, b);
      assert Pow2(a) * Pow2(b) == 2 * (Pow2(a - 1) * Pow2(b));
    } else {
      assert Pow2(0) == 1;
    }
  }

  lemma {:induction false} Pow2Monotone(a: nat, b: nat)
    requires a <= b
    ensures Pow2(a) <= Pow2(b)
    ensures a < b ==> 2 * Pow2(a) <= Pow2(b)
    decreases b - a
  {
    if a < b {
      Pow2Monotone(a, b - 1);
    }
  }

  lemma MulNonNegative(a: nat, b: nat)
    ensures a * b >= 0
  {
  }

  lemma MulMonotone(a: int, b: int, c: int)
    requires a <= b && 0 <= c
    ensures a * c <= b * c
  {
  }

  lemma MulStrict(a: int, b: int, c: int)
    requires a < b && 0 < c
    ensures a * c + c <= b * c
  {
    MulMonotone(a + 1, b, c);
    assert (a + 1) * c == a * c + c;
  }

  lemma MulAssociates(a: int, b: int, c: int)
    ensures (a * b) * c == a * (b * c)
  {
  }

  lemma MulSuccessor(a: int, b: int)
    ensures (a + 1) * b == a * b + b
  {
  }

  /** Quotient and remainder are determined by the division equation. */
  lemma DivUnique(x: int, d: int, q: int, r: int)
    requires d > 0 && x == q * d + r && 0 <= r < d
    ensures x / d == q && x % d == r
  {
    var q', r' := x / d, x % d;
    assert x == q' * d + r';
    if q < q' { MulStrict(q, q', d); }
    if q' < q { MulStrict(q', q, d); }
  }

  /** Floor division in two steps, and what each step loses. */
  lemma DivTwice(x: int, a: int, b: int)
    requires a > 0 && b > 0
    ensures a * b > 0
    ensures x / (a * b) == (x / a) / b
    ensures x % (a * b) == 0 <==> x % a == 0 && (x / a) % b == 0
  {
    var q, r := x / a, x % a;
    var q2, r2 := q / b, q % b;
    assert a * b > 0 by { MulStrict(0, a, b); }
    assert x == q2 * (a * b) + (r2 * a + r) by {
      assert x == q * a + r;
      assert q == q2 * b + r2;
      assert q * a == (q2 * b) * a + r2 * a;
      assert (q2 * b) * a == q2 * (a * b);
    }
    assert 0 <= r2 * a + r < a * b by {
      MulMonotone(0, r2, a);
      MulStrict(r2, b, a);
      assert b * a == a * b;
    }
    DivUnique(x, a * b, q2, r2 * a + r);
    if r2 * a + r == 0 {
      if r2 > 0 { MulStrict(0, r2, a); }
    }
  }

  /** A multiple of d between two consecutive multiples of d is one of them. */
  lemma NoMultipleBetween(k: int, m: int, d: int)
    requires d > 0
    ensures !(k * d < m * d < k * d + d)
  {
    if m <= k { MulMonotone(m, k, d); } else { MulStrict(k, m, d); }
  }

  lemma NextMultiple(q: int, top: int, d: int)
    requires d > 0 && q * d < top * d
    ensures q * d + d <= top * d
  {
    if q >= top { MulMonotone(top, q, d); } else { MulStrict(q, top, d); }
  }

  lemma DivMod(x: int, d: int) returns (q: int, r: int)
    requires d > 0
    ensures q == x / d && r == x % d && x == q * d + r && 0 <= r < d
  {
    q, r := x / d, x % d;
  }

  lemma ModBounds(x: nat, d: nat)
    requires d > 0
    ensures 0 <= x % d <= x && 0 <= x / d <= x
  {
    var q, r := DivMod(x, d);
    if q < 0 { MulStrict(q, 0, d); } else { MulMonotone(0, q, d); MulMonotone(1, d, q); }
  }

  /** x with its remainder modulo d removed. */
  function Cleared(x: nat, d: nat): (r: nat)
    requires d > 0
    ensures r == x - x % d && r <= x
    ensures r % d == 0 && r / d == x / d
  {
    ModBounds(x, d);
    ClearLow(x, d);
    x - x % d
  }

  /** Clearing the low part leaves a multiple with the same quotient. */
  lemma ClearLow(x: int, d: int)
    requires d > 0
    ensures (x - x % d) % d == 0 && (x - x % d) / d == x / d
  {
    var q, r := DivMod(x, d);
    DivUnique(x - r, d, q, 0);
  }

  lemma Pow2Scale(n: nat, k: nat, c: nat)
    requires Pow2(k) == c
    ensures Pow2(n + k) == c * Pow2(n)
  {
    Pow2Add(k, n);
  }
}
