/** Powers of two and the machine-word forms the C code uses for them. */
module Bits {

  function Pow2(n: nat): (p: nat)
    ensures p > 0
  {
    if n == 0 then 1 else 2 * Pow2(n - 1)
  }

  /** The number of doublings that take 1 to n or beyond. */
  function CeilLog2(n: nat): nat {
    if n <= 1 then 0 else 1 + CeilLog2((n + 1) / 2)
  }

  lemma {:induction false} CeilLog2Bounds(n: nat)
    requires n > 0
    ensures n <= Pow2(CeilLog2(n))
    ensures n > 1 ==> Pow2(CeilLog2(n) - 1) < n
  {
    if n > 1 {
      CeilLog2Bounds((n + 1) / 2);
    }
  }

  lemma {:induction false} Pow2Monotone(a: nat, b: nat)
    requires a <= b
    ensures Pow2(a) <= Pow2(b)
  {
    if a < b {
      Pow2Monotone(a, b - 1);
    }
  }

  lemma BelowLog(k: nat, n: nat)
    requires Pow2(k) < n
    ensures k + 1 <= CeilLog2(n)
  {
    CeilLog2Bounds(n);
    if CeilLog2(n) <= k {
      Pow2Monotone(CeilLog2(n), k);
    }
  }

  // ---------------------------------------------------------------- words

  /** Bitwise `a & b`, one bit at a time. */
  function And(a: nat, b: nat): nat {
    if a == 0 || b == 0 then 0 else (a % 2) * (b % 2) + 2 * And(a / 2, b / 2)
  }

  /** Logical right shift. */
  function Shr(a: nat, k: nat): nat {
    if k == 0 then a else Shr(a / 2, k - 1)
  }

  /** Masking with 2^k - 1 takes the remainder modulo 2^k. */
  lemma {:induction false} MaskIsRemainder(a: nat, k: nat)
    ensures And(a, Pow2(k) - 1) == a % Pow2(k)
  {
    if k == 0 {
      QuotientUnique(a, Pow2(k), a, 0);
    } else if a == 0 {
      QuotientUnique(a, Pow2(k), 0, 0);
    } else {
      hide And;
      var p := Pow2(k - 1);
      MaskIsRemainder(a / 2, k - 1);
      AllOnes(a, p, Pow2(k) - 1);
      HalfRemainder(a, p, Pow2(k));
    }
  }

  lemma AllOnes(a: nat, p: nat, mask: nat)
    requires p > 0 && a > 0 && mask == 2 * p - 1
    ensures And(a, mask) == a % 2 + 2 * And(a / 2, p - 1)
  {
    assert mask % 2 == 1 && mask / 2 == p - 1;
  }

  lemma HalfRemainder(a: nat, p: nat, d: nat)
    requires p > 0 && d == 2 * p
    ensures a % d == a % 2 + 2 * (a / 2 % p)
  {
    var q, r := a / 2 / p, a / 2 % p;
    assert a / 2 == q * p + r;
    assert a == q * d + (a % 2 + 2 * r);
    QuotientUnique(a, d, q, a % 2 + 2 * r);
  }

  lemma ProductMonotone(a: nat, b: nat, n: nat)
    requires a <= b
    ensures a * n <= b * n
  {
  }

  lemma QuotientAtMost(d: nat, q: nat, r: nat, q': nat, r': nat)
    requires r < d && q * d + r == q' * d + r'
    ensures q' <= q
  {
    assert (q + 1) * d == q * d + d;
    if q < q' {
      ProductMonotone(q + 1, q', d);
    }
  }

  lemma QuotientUnique(a: nat, d: nat, q: nat, r: nat)
    requires d > 0 && r < d && a == q * d + r
    ensures a / d == q && a % d == r
  {
    QuotientAtMost(d, q, r, a / d, a % d);
    QuotientAtMost(d, a / d, a % d, q, r);
  }

  function Rem(a: nat, d: nat): nat
    requires d > 0
  {
    a % d
  }

  lemma Division(a: nat, d: nat) returns (q: nat, r: nat)
    requires d > 0
    ensures r == Rem(a, d) && r < d && a == q * d + r
  {
    q, r := a / d, a % d;
  }

  lemma TwiceProduct(q: nat, n: nat, d: nat)
    requires d == 2 * n
    ensures q * d == 2 * (q * n)
  {
  }

  lemma SplitRemainder(a: nat, n: nat, q: nat, r: nat)
    requires n > 0 && r < 2 * n && a == 2 * (q * n) + r
    ensures Rem(a, n) == if r < n then r else r - n
  {
    assert (2 * q) * n == 2 * (q * n) && (2 * q + 1) * n == (2 * q) * n + n;
    if r < n {
      QuotientUnique(a, n, 2 * q, r);
    } else {
      QuotientUnique(a, n, 2 * q + 1, r - n);
    }
  }

  lemma DoubledRemainder(a: nat, n: nat, d: nat)
    requires n > 0 && d == 2 * n
    ensures Rem(a, d) == Rem(a, n) || Rem(a, d) == Rem(a, n) + n
  {
    hide Rem;
    var q, r := Division(a, d);
    TwiceProduct(q, n, d);
    SplitRemainder(a, n, q, r);
  }

  lemma {:induction false} ShrIsQuotient(a: nat, k: nat)
    ensures Shr(a, k) == a / Pow2(k)
  {
    hide Pow2;
    if k == 0 {
      NoDoubling();
      QuotientUnique(a, 1, a, 0);
    } else {
      ShrIsQuotient(a / 2, k - 1);
      OneDoubling(k);
      HalfQuotient(a, Pow2(k - 1), Pow2(k));
    }
  }

  lemma NoDoubling()
    ensures Pow2(0) == 1
  {
  }

  lemma OneDoubling(k: nat)
    requires k > 0
    ensures Pow2(k) == 2 * Pow2(k - 1)
  {
  }

  lemma HalfQuotient(a: nat, p: nat, d: nat)
    requires p > 0 && d == 2 * p
    ensures a / d == a / 2 / p
  {
    var q, r := Division(a / 2, p);
    var half, bit := Division(a, 2);
    TwiceProduct(q, p, d);
    QuotientUnique(a, d, q, 2 * r + bit);
    QuotientUnique(a / 2, p, q, r);
  }

  function CeilDiv(a: nat, d: nat): nat
    requires d > 0
  {
    (a + d - 1) / d
  }

  /** The shift-and-mask form of rounding a quotient up. */
  lemma ShiftMaskCeil(a: nat, k: nat)
    ensures Shr(a, k) + (if And(a, Pow2(k) - 1) != 0 then 1 else 0) == CeilDiv(a, Pow2(k))
  {
    hide Pow2, And, Shr;
    var d := Pow2(k);
    MaskIsRemainder(a, k);
    ShrIsQuotient(a, k);
    CeilFromRemainder(a, d, a / d, a % d);
  }

  lemma CeilFromRemainder(a: nat, d: nat, q: nat, r: nat)
    requires r < d && a == d * q + r
    ensures CeilDiv(a, d) == q + if r != 0 then 1 else 0
  {
    if r == 0 {
      QuotientUnique(a + d - 1, d, q, d - 1);
    } else {
      assert (q + 1) * d == d * q + d;
      QuotientUnique(a + d - 1, d, q + 1, r - 1);
    }
  }
}
