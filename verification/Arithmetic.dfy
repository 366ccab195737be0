// Numbers of 32 bits, and facts about powers and floor division.
module Arithmetic {
  const WORD: int := 0x1_0000_0000

  // A number of 32 bits, read without a sign.
  type Word = w: int | 0 <= w < 0x1_0000_0000 witness 0

  const INT_END: int := 0x8000_0000

  // A number cut to 32 bits and read with a sign.
  function AsInt(v: int): (r: int)
    ensures -INT_END <= r < INT_END && (-INT_END <= v < INT_END ==> r == v)
  {
    var w := v % WORD;
    if w < INT_END then w else w - WORD
  }

  lemma AsIntIff(v: int, r: int)
    ensures r == AsInt(v) <==> -INT_END <= r < INT_END && (r - v) % WORD == 0
  {
  }

  // b to the power e.
  function Pow(b: nat, e: nat): (p: nat)
    ensures b >= 1 ==> p >= 1
  {
    if e == 0 then 1 else
      var q := Pow(b, e - 1);
      assert b >= 1 ==> b * q >= 1;
      b * q
  }

  lemma MulAtLeast(x: int, d: int)
    requires x >= 1 && d > 0
    ensures x * d >= d
  {
    assert (x - 1) * d >= 0;
    assert x * d == (x - 1) * d + d;
  }

  // A multiple of d that lies strictly between -d and d is zero.
  lemma SmallMultiple(x: int, d: int)
    requires d > 0 && -d < x * d < d
    ensures x == 0
  {
    if x >= 1 {
      MulAtLeast(x, d);
    } else if x <= -1 {
      Distribute(0, x, d);
      MulAtLeast(0 - x, d);
    }
  }

  lemma Distribute(x: int, y: int, d: int)
    ensures (x - y) * d == x * d - y * d
    ensures (x + y) * d == x * d + y * d
  {
  }

  lemma Assoc(x: int, y: int, z: int)
    ensures x * y * z == x * (y * z)
  {
  }

  // Division with remainder determines the quotient.
  lemma QuotientIs(a: int, d: int, q: int, r: int)
    requires d > 0 && 0 <= r < d && a == q * d + r
    ensures a / d == q && a % d == r
  {
    var q', r' := DivMod(a, d);
    Distribute(q', q, d);
    SmallMultiple(q' - q, d);
  }

  lemma DivMod(a: int, d: int) returns (q: int, r: int)
    requires d > 0
    ensures q == a / d && r == a % d && a == q * d + r && 0 <= r < d
  {
    q, r := a / d, a % d;
  }

  lemma DivBounds(a: int, d: int)
    requires d > 0
    ensures a / d * d <= a < a / d * d + d
  {
    var _, _ := DivMod(a, d);
  }

  lemma DivMono(a: int, b: int, d: int)
    requires d > 0 && a <= b
    ensures a / d <= b / d
  {
    var x, r := DivMod(a, d);
    var y, t := DivMod(b, d);
    if x > y {
      Distribute(x, y, d);
      MulAtLeast(x - y, d);
    }
  }

  // Dividing by a product is dividing twice.
  lemma DivDiv(a: int, p: int, s: int)
    requires p > 0 && s > 0
    ensures p * s > 0 && a / (p * s) == a / p / s
  {
    var x, r1 := DivMod(a, p);
    var y, r2 := DivMod(x, s);
    Distribute(y * s, r2, p);
    Assoc(y, s, p);
    MulAtLeast(p, s);
    assert r2 * p <= (s - 1) * p by { DivMonoMul(r2, s - 1, p); }
    Distribute(s, 1, p);
    QuotientIs(a, p * s, y, r2 * p + r1);
  }

  lemma DivMonoMul(x: int, y: int, d: int)
    requires x <= y && d > 0
    ensures x * d <= y * d
  {
    Distribute(y, x, d);
  }

  lemma DivAddMultiple(a: int, k: int, d: int)
    requires d > 0
    ensures (a + k * d) / d == a / d + k
    ensures (a + k * d) % d == a % d
  {
    assert a + k * d == (a / d + k) * d + a % d;
    QuotientIs(a + k * d, d, a / d + k, a % d);
  }

  // Two numbers less than d apart with the same residue are equal.
  lemma ModApart(a: int, b: int, d: int)
    requires d > 0 && a <= b < a + d && a % d == b % d
    ensures a == b
  {
    var x, r := DivMod(a, d);
    var y, t := DivMod(b, d);
    Distribute(y, x, d);
    SmallMultiple(y - x, d);
  }

  // Adding one either leaves the quotient alone or lands on a multiple of the divisor.
  lemma DivSucc(a: int, d: int)
    requires d > 0
    ensures if (a + 1) % d == 0 then (a + 1) / d == a / d + 1 else (a + 1) / d == a / d
  {
    var q, r := a / d, a % d;
    assert a == q * d + r;
    if r + 1 == d {
      assert a + 1 == (q + 1) * d + 0;
      QuotientIs(a + 1, d, q + 1, 0);
    } else {
      QuotientIs(a + 1, d, q, r + 1);
    }
  }

  // A multiple of p * s is a multiple of p whose quotient is a multiple of s, and conversely.
  lemma ModProduct(a: int, p: int, s: int)
    requires p > 0 && s > 0
    ensures p * s > 0
    ensures a % (p * s) == 0 <==> a % p == 0 && a / p % s == 0
  {
    DivDiv(a, p, s);
    var x := a / p;
    if a % p == 0 && x % s == 0 {
      assert a == x * p;
      assert x == x / s * s;
      assert a == x / s * s * p;
      assert x / s * s * p == x / s * (p * s);
      QuotientIs(a, p * s, x / s, 0);
    }
    if a % (p * s) == 0 {
      var y := a / (p * s);
      assert a == y * (p * s);
      assert y * (p * s) == y * s * p;
      QuotientIs(a, p, y * s, 0);
      QuotientIs(x, s, y, 0);
    }
  }
}
