/** Powers of two and the few facts about Euclidean division the subnet
    arithmetic relies on. Python's `**`, `//` and `%` on the non-negative
    values of the script agree with Dafny's `*`, `/` and `%`. */
module Arith {

  /** 2 ** n */
  function Pow2(n: nat): (r: nat)
    ensures r >= 1
    ensures n >= 1 ==> r >= 2
    ensures n >= 1 ==> r % 2 == 0
  {
    if n == 0 then 1 else 2 * Pow2(n - 1)
  }

  /** The exponent law that every count in the script rests on. */
  lemma {:induction false} Pow2Add(a: nat, b: nat)
    ensures Pow2(a + b) == Pow2(a) * Pow2(b)
  {
    if a > 0 {
      Pow2Add(a - 1, b);
      assert Pow2(a + b) == 2 * Pow2(a - 1 + b);
      MulTwice(Pow2(a - 1), Pow2(b));
    }
  }

  /** The powers the octet arithmetic meets. */
  lemma Pow2Octet()
    ensures Pow2(0) == 1 && Pow2(7) == 128 && Pow2(8) == 256
  {
  }

  /** Eight more bits: 2^(b + 8) == 2^b * 256. */
  lemma Pow2Octets(b: nat)
    ensures Pow2(b + 8) == Pow2(b) * 256
  {
    Pow2Add(b, 8);
    Pow2Octet();
  }

  lemma MulTwice(x: int, y: int)
    ensures 2 * (x * y) == (2 * x) * y
  {
  }

  /** A larger exponent gives a larger power. */
  lemma {:induction false} Pow2Monotone(a: nat, b: nat)
    requires a <= b
    ensures Pow2(a) <= Pow2(b)
  {
    if a < b {
      Pow2Monotone(a, b - 1);
    }
  }

  /** One Horner step: shifting `a * p + r` left by one digit of base `b`. */
  lemma HornerStep(a: int, p: int, r: int, b: int, x: int)
    ensures (a * p + r) * b + x == a * (p * b) + (r * b + x)
  {
  }

  /** Scaling a number one below `a`. */
  lemma MulSubOne(v: int, a: int, p: int)
    requires v == a - 1
    ensures v * p == a * p - p
  {
  }

  lemma MulAddOne(a: int, b: int)
    ensures (a + 1) * b == a * b + b
  {
  }

  lemma MulStrict(a: int, b: int, p: int)
    requires a < b && p > 0
    ensures a * p < b * p
  {
    MulLeft(a + 1, b, p);
  }

  lemma MulLeft(a: int, b: int, p: nat)
    requires a <= b
    ensures a * p <= b * p
  {
  }

  /** A quotient is pinned down by the interval the dividend lies in. */
  lemma DivUnique(x: int, d: int, q: int)
    requires d > 0
    requires q * d <= x < q * d + d
    ensures x / d == q && x % d == x - q * d
  {
    var q' := x / d;
    assert x == q' * d + x % d;
    if q' < q {
      MulLeft(q' + 1, q, d);
      assert false;
    } else if q' > q {
      MulLeft(q + 1, q', d);
      assert false;
    }
  }

  /** The interval a dividend lies in, given its quotient. */
  lemma DivBounds(x: int, d: int)
    requires d > 0
    ensures (x / d) * d <= x < (x / d) * d + d
    ensures x >= 0 ==> x / d >= 0
  {
  }
}
