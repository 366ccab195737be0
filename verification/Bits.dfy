// Numbers by their bits.
module Bits {
  import opened Arithmetic

  // Bit i; of a negative number, that of its two's complement.
  function Bit(v: int, i: nat): (b: nat)
    ensures b <= 1
  {
    v / Pow(2, i) % 2
  }

  lemma BitZero(v: int)
    ensures Bit(v, 0) == v % 2
  {
  }

  lemma BitHalf(v: int, i: nat)
    requires i > 0
    ensures Bit(v, i) == Bit(v / 2, i - 1)
  {
    DivDiv(v, 2, Pow(2, i - 1));
  }

  lemma BitDouble(v: int, i: nat)
    ensures Bit(2 * v, i) == if i == 0 then 0 else Bit(v, i - 1)
  {
    if i == 0 { BitZero(2 * v); } else { BitHalf(2 * v, i); }
  }

  // Cutting off the higher bits leaves the others alone.
  lemma {:induction false} BitCut(v: int, n: nat, i: nat)
    requires i < n
    ensures Bit(v % Pow(2, n), i) == Bit(v, i)
    decreases n
  {
    var q := Pow(2, n - 1);
    assert Pow(2, n) == 2 * q;
    HalfMod(v, q);
    var w := v % Pow(2, n);
    assert w % 2 == v % 2 && w / 2 == v / 2 % q;
    if i == 0 {
      BitZero(w);
      BitZero(v);
    } else {
      BitHalf(w, i);
      BitHalf(v, i);
      BitCut(v / 2, n - 1, i - 1);
    }
  }

  lemma {:induction false} BitUp(v: int, n: nat, i: nat)
    ensures Bit(v * Pow(2, n), i) == if i < n then 0 else Bit(v, i - n)
    decreases n
  {
    if n > 0 {
      var q := Pow(2, n - 1);
      assert v * Pow(2, n) == 2 * (v * q) by { Assoc(v, 2, q); Assoc(2, v, q); }
      BitDouble(v * q, i);
      if i > 0 { BitUp(v, n - 1, i - 1); }
    }
  }

  lemma {:induction false} BitDown(v: int, n: nat, i: nat)
    ensures Bit(v / Pow(2, n), i) == Bit(v, i + n)
    decreases n
  {
    if n > 0 {
      DivDiv(v, 2, Pow(2, n - 1));
      BitHalf(v, i + n);
      BitDown(v / 2, n - 1, i);
    }
  }

  // A number of n bits is determined by them.
  lemma {:induction false} SameBits(v: nat, w: nat, n: nat)
    requires v < Pow(2, n) && w < Pow(2, n) && forall i: nat :: i < n ==> Bit(v, i) == Bit(w, i)
    ensures v == w
    decreases n
  {
    if n > 0 {
      BitZero(v);
      BitZero(w);
      assert Bit(v, 0) == Bit(w, 0);
      forall i: nat | i < n - 1 ensures Bit(v / 2, i) == Bit(w / 2, i) {
        BitHalf(v, i + 1);
        BitHalf(w, i + 1);
        assert Bit(v, i + 1) == Bit(w, i + 1);
      }
      SameBits(v / 2, w / 2, n - 1);
    }
  }

  // Exclusive or of the low n bits.
  function XorBits(a: nat, b: nat, n: nat): (r: nat)
    ensures r < Pow(2, n)
  {
    if n == 0 then 0 else (if a % 2 == b % 2 then 0 else 1) + 2 * XorBits(a / 2, b / 2, n - 1)
  }

  lemma {:induction false} BitXor(a: nat, b: nat, n: nat, i: nat)
    requires i < n
    ensures Bit(XorBits(a, b, n), i) == (Bit(a, i) + Bit(b, i)) % 2
    decreases n
  {
    hide XorBits, Bit;
    var x := XorBits(a, b, n);
    XorHalf(a, b, n);
    if i == 0 {
      BitZero(x);
      BitZero(a);
      BitZero(b);
    } else {
      BitHalf(x, i);
      BitHalf(a, i);
      BitHalf(b, i);
      BitXor(a / 2, b / 2, n - 1, i - 1);
    }
  }

  lemma XorHalf(a: nat, b: nat, n: nat)
    requires n > 0
    ensures XorBits(a, b, n) % 2 == (a % 2 + b % 2) % 2 && XorBits(a, b, n) / 2 == XorBits(a / 2, b / 2, n - 1)
  {
    var low, high: nat := if a % 2 == b % 2 then 0 else 1, XorBits(a / 2, b / 2, n - 1);
    LowBit(low, high);
  }

  lemma LowBit(low: nat, high: nat)
    requires low < 2
    ensures (low + 2 * high) % 2 == low && (low + 2 * high) / 2 == high
  {
  }

  // Bitwise and.
  function And(a: nat, b: nat): (r: nat)
    ensures r <= a && r <= b
    decreases a
  {
    if a == 0 then 0 else (if a % 2 == 1 && b % 2 == 1 then 1 else 0) + 2 * And(a / 2, b / 2)
  }

  lemma {:induction false} BitAnd(a: nat, b: nat, i: nat)
    ensures Bit(And(a, b), i) == if Bit(a, i) == 1 && Bit(b, i) == 1 then 1 else 0
    decreases a
  {
    hide And, Bit;
    var x := And(a, b);
    if a == 0 {
      NoBits(i);
      NoneAnd(b);
    } else {
      AndHalf(a, b);
      if i == 0 {
        BitZero(x);
        BitZero(a);
        BitZero(b);
      } else {
        BitHalf(x, i);
        BitHalf(a, i);
        BitHalf(b, i);
        BitAnd(a / 2, b / 2, i - 1);
      }
    }
  }

  lemma NoBits(i: nat)
    ensures Bit(0, i) == 0
  {
    QuotientIs(0, Pow(2, i), 0, 0);
  }

  lemma AndHalf(a: nat, b: nat)
    requires a > 0
    ensures And(a, b) % 2 == (if a % 2 == 1 && b % 2 == 1 then 1 else 0) && And(a, b) / 2 == And(a / 2, b / 2)
  {
    LowBit(if a % 2 == 1 && b % 2 == 1 then 1 else 0, And(a / 2, b / 2));
  }

  ghost predicate PowerOfTwo(n: nat) {
    exists e: nat :: n == Pow(2, e)
  }

  lemma HalfMod(a: int, q: nat)
    requires q >= 1
    ensures a % (2 * q) == 2 * (a / 2 % q) + a % 2
  {
    var x, r := DivMod(a / 2, q);
    Assoc(2, x, q);
    Assoc(x, 2, q);
    QuotientIs(a, 2 * q, x, 2 * r + a % 2);
  }

  // Masking by one less than a power of two is the remainder by that power.
  lemma {:induction false} MaskIsMod(a: nat, e: nat)
    ensures And(a, Pow(2, e) - 1) == a % Pow(2, e)
    decreases a
  {
    hide And;
    if a == 0 || e == 0 {
      AndZero(a);
      NoneAnd(Pow(2, e) - 1);
    } else {
      var q := Pow(2, e - 1);
      assert Pow(2, e) == 2 * q && Pow(2, e) - 1 == 2 * q - 1;
      MaskIsMod(a / 2, e - 1);
      HalfMod(a, q);
      AndOdd(a, q);
    }
  }

  lemma NoneAnd(b: nat)
    ensures And(0, b) == 0
  {
  }

  lemma AndOdd(a: nat, q: nat)
    requires a > 0 && q >= 1
    ensures And(a, 2 * q - 1) == a % 2 + 2 * And(a / 2, q - 1)
  {
    assert (2 * q - 1) % 2 == 1 && (2 * q - 1) / 2 == q - 1;
  }

  lemma {:induction false} AndZero(a: nat)
    ensures And(a, 0) == 0
    decreases a
  {
    if a > 0 { AndZero(a / 2); }
  }

  lemma {:induction false} PowersApart(d: nat, e: nat)
    requires d < e
    ensures 2 * Pow(2, d) <= Pow(2, e)
  {
    if d + 1 < e {
      PowersApart(d, e - 1);
      assert Pow(2, e) == 2 * Pow(2, e - 1);
    } else {
      assert Pow(2, d + 1) == 2 * Pow(2, d);
    }
  }

  lemma PowersOfTwo()
    ensures Pow(2, 2) == 4 && Pow(2, 31) == INT_END && Pow(2, 32) == WORD
  {
    assert Pow(2, 4) == 16 && Pow(2, 8) == 256;
    assert Pow(2, 12) == 4096 && Pow(2, 16) == 65536;
    assert Pow(2, 20) == 0x10_0000 && Pow(2, 24) == 0x100_0000;
    assert Pow(2, 28) == 0x1000_0000;
  }

  // Between a power of two and its double there is no other, and below 2 to the 31st there is room to double.
  lemma PowerDoubles(n: nat, r: nat)
    requires PowerOfTwo(n) && PowerOfTwo(r) && n < INT_END && 2 * n <= r && (r == 4 || r < 4 * n)
    ensures r <= INT_END
  {
    if r != 4 {
      var d: nat :| n == Pow(2, d);
      var e: nat :| r == Pow(2, e);
      PowersOfTwo();
      if d > 31 { PowersApart(31, d); }
      PowersApart(d, 31);
      assert Pow(2, d + 1) == 2 * n;
      if e > d + 1 { PowersApart(d + 1, e); }
      if e < d + 1 { PowersApart(e, d + 1); }
    }
  }

  // A greater power is a multiple of a smaller one.
  lemma {:induction false} PowerOfPower(d: nat, e: nat)
    requires d <= e
    ensures Pow(2, e) % Pow(2, d) == 0
  {
    if d < e {
      PowerOfPower(d, e - 1);
      assert Pow(2, e) == 2 * Pow(2, e - 1);
      var x, r := DivMod(Pow(2, e - 1), Pow(2, d));
      Assoc(2, x, Pow(2, d));
      QuotientIs(Pow(2, e), Pow(2, d), 2 * x, 0);
    } else {
      QuotientIs(Pow(2, e), Pow(2, d), 1, 0);
    }
  }

  // A number of buckets survives as a signed number just below 2 to the 31st; from there on it comes out as
  // zero or less.
  lemma SizeFits(n: nat)
    requires PowerOfTwo(n)
    ensures n < INT_END ==> AsInt(n) == n
    ensures n >= INT_END ==> AsInt(n) <= 0
  {
    if n >= INT_END {
      var e: nat :| n == Pow(2, e);
      PowersOfTwo();
      if e < 31 { PowersApart(e, 31); }
      if e > 31 {
        PowerOfPower(32, e);
      }
    }
  }
}
