// Base64 by its table and by digits: which character stands where in a code, and which byte it comes to.
module Base64Digits {
  import opened Arithmetic
  import opened Base64
  import opened Octets

  const CAPITALS := "ABCDEFGHIJKLMNOPQRSTUVWXYZ"
  const SMALL := "abcdefghijklmnopqrstuvwxyz"
  const REST := "0123456789+/"
  const ALPHABET := CAPITALS + SMALL + REST

  // Table 1 of RFC 4648; and a letter stands for the place it has there.
  lemma LetterIs(v: Sextet)
    ensures |ALPHABET| == 64 && Letter(v) == ALPHABET[v] as int
  {
    hide CAPITALS, SMALL, REST;
    CapitalAt(if v < 26 then v else 0);
    SmallAt(if 26 <= v < 52 then v - 26 else 0);
    RestAt(if v >= 52 then v - 52 else 0);
    Thirds(CAPITALS, SMALL, REST, v);
  }

  lemma Thirds(a: string, b: string, c: string, v: nat)
    requires v < |a| + |b| + |c|
    ensures (a + b + c)[v] == if v < |a| then a[v] else if v < |a| + |b| then b[v - |a|] else c[v - |a| - |b|]
  {
  }

  lemma CapitalAt(v: nat)
    requires v < 26
    ensures |CAPITALS| == 26 && CAPITALS[v] as int == 65 + v
  {
  }

  lemma SmallAt(v: nat)
    requires v < 26
    ensures |SMALL| == 26 && SMALL[v] as int == 97 + v
  {
  }

  lemma RestAt(v: nat)
    requires v < 12
    ensures |REST| == 12 && REST[v] as int == if v < 10 then 48 + v else if v == 10 then 43 else 47
  {
  }

  lemma ValueIff(c: Byte, v: Sextet)
    ensures Value(c) == Some(v) <==> c == ALPHABET[v] as int
  {
    LetterIs(v);
  }

  // Byte k of a text; behind its end, zero. Three bytes from 3 * g on are a number of 24 bits.
  function ByteAt(b: seq<Byte>, k: nat): Byte {
    if k < |b| then b[k] else 0
  }

  function Three(b: seq<Byte>, g: nat): nat {
    ByteAt(b, 3 * g) * 0x1_0000 + ByteAt(b, 3 * g + 1) * 0x100 + ByteAt(b, 3 * g + 2)
  }

  // Every four characters are the digits to the base 64 of three bytes; where a digit is all of missing bytes, there
  // is a pad instead.
  lemma {:induction false} EncodedAt(b: seq<Byte>, g: nat, j: nat)
    requires 3 * g < |b| && j < 4
    ensures 4 * g + j < |Encoded(b)|
    ensures Encoded(b)[4 * g + j] ==
      if 3 * g + j > |b| then '=' as int else ALPHABET[Three(b, g) / Pow(64, 3 - j) % 64] as int
  {
    hide Group, Three, ALPHABET;
    EncodedLength(b);
    if g == 0 {
      var head := if |b| <= 3 then b else b[..3];
      GroupAt(head, j);
      FirstThree(b, head);
    } else {
      EncodedAt(b[3..], g - 1, j);
      LaterThree(b, g);
    }
  }

  lemma FirstThree(b: seq<Byte>, head: seq<Byte>)
    requires head == if |b| <= 3 then b else b[..3]
    ensures Three(head, 0) == Three(b, 0)
  {
  }

  lemma LaterThree(b: seq<Byte>, g: nat)
    requires g > 0 && |b| > 3
    ensures Three(b[3..], g - 1) == Three(b, g)
  {
    assert forall k: nat :: ByteAt(b[3..], k) == ByteAt(b, k + 3);
  }

  lemma GroupAt(b: seq<Byte>, j: nat)
    requires 1 <= |b| <= 3 && j < 4
    ensures Group(b)[j] == if j > |b| then '=' as int else ALPHABET[Three(b, 0) / Pow(64, 3 - j) % 64] as int
  {
    hide Letter, Letters, GroupSextets, Three;
    if j <= |b| {
      LettersAt(GroupSextets(b), j);
      SextetAt(b, j);
      LetterIs(GroupSextets(b)[j]);
    }
  }

  lemma SextetAt(b: seq<Byte>, j: nat)
    requires 1 <= |b| <= 3 && j <= |b|
    ensures GroupSextets(b)[j] == Three(b, 0) / Pow(64, 3 - j) % 64
  {
    hide First, Second, Third, Fourth;
    assert Pow(64, 0) == 1 && Pow(64, 1) == 64 && Pow(64, 2) == 0x1000 && Pow(64, 3) == 0x4_0000;
    ThreeDigits(ByteAt(b, 0), ByteAt(b, 1), ByteAt(b, 2));
  }

  lemma {:induction false} LettersAt(v: seq<Sextet>, j: nat)
    requires j < |v|
    ensures Letters(v)[j] == Letter(v[j])
  {
    if j > 0 { LettersAt(v[1..], j - 1); }
  }

  lemma ThreeDigits(a: Byte, b: Byte, c: Byte)
    ensures var n := a * 0x1_0000 + b * 0x100 + c;
            && n / 0x4_0000 % 64 == First(a) && n / 0x1000 % 64 == Second(a, b)
            && n / 64 % 64 == Third(b, c) && n % 64 == Fourth(c)
  {
    var n: int := a * 0x1_0000 + b * 0x100 + c;
    var third: int, second: int, first: int := Third(b, c), Second(a, b), First(a);
    QuotientIs(n, 64, a * 0x400 + b * 4 + c / 64, c % 64);
    QuotientIs(n / 64, 64, a * 16 + b / 16, third);
    QuotientIs(n / 64 / 64, 64, first, second);
    DivDiv(n, 64, 64);
    DivDiv(n, 64 * 64, 64);
  }

  // The values are the places of the letters up to the first pad, all of which have to be in the alphabet.
  lemma {:induction false} SextetsIff(t: seq<Byte>, v: seq<Sextet>)
    ensures Sextets(t) == Some(v) <==>
      && |v| <= |t| && (|v| < |t| ==> t[|v|] == '=' as int)
      && forall i :: 0 <= i < |v| ==> t[i] == ALPHABET[v[i]] as int
    decreases |t|
  {
    forall i | 0 <= i < |v| ensures ALPHABET[v[i]] as int == Letter(v[i]) != PAD {
      LetterIs(v[i]);
      ValueOfLetter(v[i]);
    }
    if t != [] && t[0] != PAD && v != [] {
      SextetsIff(t[1..], v[1..]);
      ValueIff(t[0], v[0]);
      assert v == [v[0]] + v[1..];
    }
  }

  // Every three bytes are those of the number of 24 bits that four values are the digits of.
  function ValueAt(v: seq<Sextet>, k: nat): Sextet {
    if k < |v| then v[k] else 0
  }

  function Four(v: seq<Sextet>, g: nat): nat {
    ValueAt(v, 4 * g) * 0x4_0000 + ValueAt(v, 4 * g + 1) * 0x1000 + ValueAt(v, 4 * g + 2) * 64 + ValueAt(v, 4 * g + 3)
  }

  lemma {:induction false} FromSextetsAt(v: seq<Sextet>, g: nat, j: nat)
    requires j < 3 && 4 * g + j + 1 < |v|
    ensures 3 * g + j < |FromSextets(v)|
    ensures FromSextets(v)[3 * g + j] == Four(v, g) / Pow(0x100, 2 - j) % 0x100
  {
    hide Octets3, Four;
    if g == 0 {
      var head := if |v| <= 4 then v else v[..4];
      OctetAt(head, j);
      FirstFour(v, head);
    } else {
      FromSextetsAt(v[4..], g - 1, j);
      LaterFour(v, g);
    }
  }

  lemma FirstFour(v: seq<Sextet>, head: seq<Sextet>)
    requires head == if |v| <= 4 then v else v[..4]
    ensures Four(head, 0) == Four(v, 0)
  {
  }

  lemma LaterFour(v: seq<Sextet>, g: nat)
    requires g > 0 && |v| > 4
    ensures Four(v[4..], g - 1) == Four(v, g)
  {
    assert forall k: nat :: ValueAt(v[4..], k) == ValueAt(v, k + 4);
  }

  lemma OctetAt(v: seq<Sextet>, j: nat)
    requires |v| <= 4 && j < 3 && j + 1 < |v|
    ensures Octets3(v)[j] == Four(v, 0) / Pow(0x100, 2 - j) % 0x100
  {
    hide Byte0, Byte1, Byte2;
    assert Pow(0x100, 0) == 1 && Pow(0x100, 1) == 0x100 && Pow(0x100, 2) == 0x1_0000;
    FourDigits(ValueAt(v, 0), ValueAt(v, 1), ValueAt(v, 2), ValueAt(v, 3));
  }

  lemma FourDigits(v: Sextet, w: Sextet, x: Sextet, y: Sextet)
    ensures var n := v * 0x4_0000 + w * 0x1000 + x * 64 + y;
            n / 0x1_0000 % 0x100 == Byte0(v, w) && n / 0x100 % 0x100 == Byte1(w, x) && n % 0x100 == Byte2(x, y)
  {
    var w1, w0 := DivMod(w, 16);
    var x1, x0 := DivMod(x, 4);
    Joined(v, w1, w0, x1, x0, y, v * 0x4_0000 + w * 0x1000 + x * 64 + y);
  }

  lemma Joined(v: int, w1: int, w0: int, x1: int, x0: int, y: int, n: int)
    requires 0 <= v < 64 && 0 <= w1 < 4 && 0 <= w0 < 16 && 0 <= x1 < 16 && 0 <= x0 < 4 && 0 <= y < 64
    requires n == v * 0x4_0000 + (w1 * 16 + w0) * 0x1000 + (x1 * 4 + x0) * 64 + y
    ensures n / 0x1_0000 % 0x100 == v * 4 + w1 && n / 0x100 % 0x100 == w0 * 16 + x1 && n % 0x100 == x0 * 64 + y
  {
    DigitsBack(n, v * 4 + w1, w0 * 16 + x1, x0 * 64 + y);
  }

  lemma DigitsBack(n: int, b0: Byte, b1: Byte, b2: Byte)
    requires n == (b0 * 0x100 + b1) * 0x100 + b2
    ensures n / 0x1_0000 % 0x100 == b0 && n / 0x100 % 0x100 == b1 && n % 0x100 == b2
  {
    QuotientIs(n, 0x100, b0 * 0x100 + b1, b2);
    QuotientIs(n / 0x100, 0x100, b0, b1);
    DivDiv(n, 0x100, 0x100);
  }
}
