// UTF-8, UTF-16 and UTF-32 strings and the conversions between them.
module Utf {
  import opened Arithmetic
  import opened Octets

  const UNICODE_END := 0x110000

  type Unit = u: int | 0 <= u < 0x1_0000 witness 0
  type Char32 = c: int | 0 <= c < 0x1_0000_0000 witness 0

  datatype Code = Success | ErrorInvalidUtf8 | ErrorInvalidUtf16 | ErrorInvalidUtf32

  // What a conversion comes to; on an error the text is what was converted before it.
  datatype Result<T> = Text(text: seq<T>) | Bad(code: Code, text: seq<T>)

  function WordSize(b: Byte): nat {
    if b < 0x80 then 1 else if 0xC2 <= b < 0xE0 then 2 else if 0xE0 <= b < 0xF0 then 3
    else if 0xF0 <= b < 0xF8 then 4 else 0
  }

  predicate IsLow8(b: Byte) {
    0x80 <= b < 0xC0
  }

  predicate IsHigh16(u: int) {
    0xD800 <= u < 0xDC00
  }

  predicate IsLow16(u: int) {
    0xDC00 <= u < 0xE000
  }

  datatype MaybeChar = Char(c: Char32) | NoChar

  // The six bits a following byte carries.
  function Six(b: Byte): int {
    b % 0x40
  }

  // One character of UTF-8. Longer forms than needed are refused.
  function Char8(b: seq<Byte>): (r: MaybeChar)
    requires b != []
  {
    var n := WordSize(b[0]);
    var b0: int := b[0];
    if n == 1 then Char(b0)
    else if n == 2 then
      if |b| < 2 || !IsLow8(b[1]) || b0 % 0x20 / 2 == 0 then NoChar
      else Char(b0 % 0x20 * 0x40 + Six(b[1]))
    else if n == 3 then
      if |b| < 3 || !IsLow8(b[1]) || !IsLow8(b[2]) || (b0 % 0x10 == 0 && b[1] / 0x20 % 2 == 0) then NoChar
      else Char(b0 % 0x10 * 0x1000 + Six(b[1]) * 0x40 + Six(b[2]))
    else if n == 4 then
      if |b| < 4 || !IsLow8(b[1]) || !IsLow8(b[2]) || !IsLow8(b[3]) || (b0 % 8 == 0 && b[1] / 0x10 % 4 == 0) then NoChar
      else Char(b0 % 8 * 0x4_0000 + Six(b[1]) * 0x1000 + Six(b[2]) * 0x40 + Six(b[3]))
    else NoChar
  }

  // The bytes of a character; of NUL none, because the string loops leave out zero bytes.
  function Bytes8(c: Char32): (b: seq<Byte>)
    requires c < UNICODE_END
    ensures |b| <= 4
  {
    if c == 0 then []
    else if c < 0x80 then [c]
    else if c < 0x800 then [0xC0 + c / 0x40, 0x80 + c % 0x40]
    else if c < 0x1_0000 then [0xE0 + c / 0x1000, 0x80 + c / 0x40 % 0x40, 0x80 + c % 0x40]
    else [0xF0 + c / 0x4_0000, 0x80 + c / 0x1000 % 0x40, 0x80 + c / 0x40 % 0x40, 0x80 + c % 0x40]
  }

  // Numbers to the base 64 by their digits.
  lemma Digits(a: int, x: int, y: int, z: int)
    requires 0 <= x < 0x40 && 0 <= y < 0x40 && 0 <= z < 0x40
    ensures var c := a * 0x4_0000 + x * 0x1000 + y * 0x40 + z;
            && c / 0x4_0000 == a && c / 0x1000 == a * 0x40 + x && c / 0x1000 % 0x40 == x
            && c / 0x40 % 0x40 == y && c % 0x40 == z
  {
    var c := a * 0x4_0000 + x * 0x1000 + y * 0x40 + z;
    var d := a * 0x1000 + x * 0x40 + y;
    var e := a * 0x40 + x;
    assert c == d * 0x40 + z && d == e * 0x40 + y;
    assert c / 0x40 == d && d / 0x40 == e && e / 0x40 == a;
    assert c / 0x1000 == d / 0x40 && c / 0x4_0000 == e / 0x40;
  }

  lemma DigitsOf(c: int)
    ensures c == c / 0x4_0000 * 0x4_0000 + c / 0x1000 % 0x40 * 0x1000 + c / 0x40 % 0x40 * 0x40 + c % 0x40
    ensures c / 0x1000 == c / 0x4_0000 * 0x40 + c / 0x1000 % 0x40
  {
  }

  // Section 3 of RFC 3629: the bytes of a character are read as that character.
  lemma CharOfBytes(c: Char32)
    requires 0 < c < UNICODE_END
    ensures var b := Bytes8(c); b != [] && WordSize(b[0]) == |b| && Char8(b) == Char(c)
  {
    DigitsOf(c);
    if 0x80 <= c < 0x800 { TwoBytes(c); }
    else if 0x800 <= c < 0x1_0000 { ThreeBytes(c); }
    else if 0x1_0000 <= c { FourBytes(c); }
  }

  lemma TwoBytes(c: int)
    requires 0x80 <= c < 0x800
    ensures Char8(Bytes8(c)) == Char(c) && WordSize(Bytes8(c)[0]) == 2
  {
    assert c / 0x40 < 0x20 && (0xC0 + c / 0x40) % 0x20 == c / 0x40 && (0x80 + c % 0x40) % 0x40 == c % 0x40;
  }

  lemma ThreeBytes(c: int)
    requires 0x800 <= c < 0x1_0000
    ensures Char8(Bytes8(c)) == Char(c) && WordSize(Bytes8(c)[0]) == 3
  {
    DigitsOf(c);
    var a, x, y := c / 0x1000, c / 0x40 % 0x40, c % 0x40;
    assert c == a * 0x1000 + x * 0x40 + y && 0 <= a < 0x10;
    assert (0xE0 + a) % 0x10 == a && (0x80 + x) % 0x40 == x && (0x80 + y) % 0x40 == y;
    assert a == 0 ==> x >= 0x20;
  }

  lemma FourBytes(c: int)
    requires 0x1_0000 <= c < UNICODE_END
    ensures Char8(Bytes8(c)) == Char(c) && WordSize(Bytes8(c)[0]) == 4
  {
    DigitsOf(c);
    var a, x, y, z := c / 0x4_0000, c / 0x1000 % 0x40, c / 0x40 % 0x40, c % 0x40;
    assert 0 <= a < 8 && (0xF0 + a) % 8 == a;
    assert (0x80 + x) % 0x40 == x && (0x80 + y) % 0x40 == y && (0x80 + z) % 0x40 == z;
    assert a == 0 ==> x >= 0x10;
  }

  // And what is read as a character of Unicode are its bytes: only the shortest form is taken.
  lemma BytesOfChar(b: seq<Byte>)
    requires b != [] && Char8(b).Char? && 0 < Char8(b).c < UNICODE_END
    ensures |b| >= WordSize(b[0]) && Bytes8(Char8(b).c) == b[..WordSize(b[0])]
  {
    var n := WordSize(b[0]);
    if n == 1 { assert b[..1] == [b[0]]; }
    else if n == 2 { OfTwo(b[0], b[1]); assert b[..2] == [b[0], b[1]]; }
    else if n == 3 { OfThree(b[0], b[1], b[2]); assert b[..3] == [b[0], b[1], b[2]]; }
    else { OfFour(b[0], b[1], b[2], b[3]); assert b[..4] == [b[0], b[1], b[2], b[3]]; }
  }

  lemma OfTwo(b0: Byte, b1: Byte)
    requires 0xC2 <= b0 < 0xE0 && IsLow8(b1)
    ensures Bytes8(b0 % 0x20 * 0x40 + Six(b1)) == [b0, b1]
  {
    Digits(0, 0, b0 % 0x20, Six(b1));
    assert b0 == 0xC0 + b0 % 0x20 && b1 == 0x80 + Six(b1);
    assert (b0 % 0x20 * 0x40 + Six(b1)) / 0x40 == b0 % 0x20;
  }

  lemma OfThree(b0: Byte, b1: Byte, b2: Byte)
    requires 0xE0 <= b0 < 0xF0 && IsLow8(b1) && IsLow8(b2) && (b0 % 0x10 != 0 || b1 / 0x20 % 2 != 0)
    ensures Bytes8(b0 % 0x10 * 0x1000 + Six(b1) * 0x40 + Six(b2)) == [b0, b1, b2]
  {
    var a, x, y := b0 % 0x10, Six(b1), Six(b2);
    Digits(0, a, x, y);
    assert b0 == 0xE0 + a && b1 == 0x80 + x && b2 == 0x80 + y;
    assert a == 0 ==> x >= 0x20;
  }

  lemma OfFour(b0: Byte, b1: Byte, b2: Byte, b3: Byte)
    requires 0xF0 <= b0 < 0xF8 && IsLow8(b1) && IsLow8(b2) && IsLow8(b3) && (b0 % 8 != 0 || b1 / 0x10 % 4 != 0)
    requires b0 % 8 * 0x4_0000 + Six(b1) * 0x1000 + Six(b2) * 0x40 + Six(b3) < UNICODE_END
    ensures Bytes8(b0 % 8 * 0x4_0000 + Six(b1) * 0x1000 + Six(b2) * 0x40 + Six(b3)) == [b0, b1, b2, b3]
  {
    var a, x, y, z := b0 % 8, Six(b1), Six(b2), Six(b3);
    Digits(a, x, y, z);
    assert b0 == 0xF0 + a && b1 == 0x80 + x && b2 == 0x80 + y && b3 == 0x80 + z;
    assert a == 0 ==> x >= 0x10;
  }

  // The least number that takes n bytes, and what the first of them starts from.
  function Least(n: nat): int {
    match n case 1 => 0 case 2 => 0x80 case 3 => 0x800 case 4 => 0x1_0000 case _ => 0x20_0000
  }

  function Lead(n: nat): int {
    match n case 1 => 0 case 2 => 0xC0 case 3 => 0xE0 case _ => 0xF0
  }

  // Section 3 of RFC 3629, by the digits to the base 64: in the shortest form that holds it, a number has its
  // highest digits in the first byte and one in every following byte.
  ghost predicate Spells(b: seq<Byte>, c: int, n: nat) {
    && 1 <= n <= 4 && n <= |b| && Least(n) <= c < Least(n + 1)
    && b[0] == Lead(n) + c / Pow(0x40, n - 1)
    && forall i :: 1 <= i < n ==> b[i] == 0x80 + c / Pow(0x40, n - 1 - i) % 0x40
  }

  lemma PowersOf64()
    ensures Pow(0x40, 0) == 1 && Pow(0x40, 1) == 0x40 && Pow(0x40, 2) == 0x1000 && Pow(0x40, 3) == 0x4_0000
  {
  }

  lemma SpellsOut(b: seq<Byte>, c: int, n: nat)
    requires 1 <= n <= 4 && n <= |b|
    ensures Spells(b, c, n) <==>
      && Least(n) <= c < Least(n + 1)
      && (n == 1 ==> b[0] == c) && (n == 2 ==> b[0] == 0xC0 + c / 0x40 && b[1] == 0x80 + c % 0x40)
      && (n == 3 ==> b[0] == 0xE0 + c / 0x1000 && b[1] == 0x80 + c / 0x40 % 0x40 && b[2] == 0x80 + c % 0x40)
      && (n == 4 ==>
            && b[0] == 0xF0 + c / 0x4_0000 && b[1] == 0x80 + c / 0x1000 % 0x40
            && b[2] == 0x80 + c / 0x40 % 0x40 && b[3] == 0x80 + c % 0x40)
  {
    PowersOf64();
    assert c / 1 == c;
    if Spells(b, c, n) {
      assert n >= 2 ==> b[1] == 0x80 + c / Pow(0x40, n - 2) % 0x40;
      assert n >= 3 ==> b[2] == 0x80 + c / Pow(0x40, n - 3) % 0x40;
      assert n >= 4 ==> b[3] == 0x80 + c / Pow(0x40, n - 4) % 0x40;
    }
  }

  // A character is read just where it is spelled.
  lemma Char8Iff(b: seq<Byte>, c: Char32)
    requires b != []
    ensures Char8(b) == Char(c) <==> exists n: nat :: Spells(b, c, n)
  {
    var n := WordSize(b[0]);
    forall m: nat | Spells(b, c, m) ensures m == n { SizeSpelled(b, c, m); }
    Char8Spells(b, c);
  }

  lemma SizeSpelled(b: seq<Byte>, c: int, n: nat)
    requires Spells(b, c, n)
    ensures WordSize(b[0]) == n
  {
    SpellsOut(b, c, n);
  }

  lemma Char8Spells(b: seq<Byte>, c: Char32)
    requires b != []
    ensures Char8(b) == Char(c) <==> Spells(b, c, WordSize(b[0]))
  {
    var n := WordSize(b[0]);
    if 1 <= n <= |b| {
      hide Spells;
      SpellsOut(b, c, n);
      if n == 2 { TwoSpelled(b[0], b[1], c); }
      if n == 3 { ThreeSpelled(b[0], b[1], b[2], c); }
      if n == 4 { FourSpelled(b[0], b[1], b[2], b[3], c); }
    }
  }

  lemma TwoSpelled(b0: Byte, b1: Byte, c: int)
    requires 0xC2 <= b0 < 0xE0
    ensures 0x80 <= c < 0x800 && b0 == 0xC0 + c / 0x40 && b1 == 0x80 + c % 0x40 <==>
      IsLow8(b1) && c == b0 % 0x20 * 0x40 + Six(b1)
  {
    assert b0 % 0x20 == b0 - 0xC0;
    assert IsLow8(b1) ==> Six(b1) == b1 - 0x80;
    DigitsOf(c);
    if IsLow8(b1) { Digits(0, 0, b0 % 0x20, Six(b1)); }
  }

  lemma ThreeSpelled(b0: Byte, b1: Byte, b2: Byte, c: int)
    requires 0xE0 <= b0 < 0xF0
    ensures 0x800 <= c < 0x1_0000 && b0 == 0xE0 + c / 0x1000 && b1 == 0x80 + c / 0x40 % 0x40 && b2 == 0x80 + c % 0x40
       <==> IsLow8(b1) && IsLow8(b2) && !(b0 % 0x10 == 0 && b1 / 0x20 % 2 == 0) &&
            c == b0 % 0x10 * 0x1000 + Six(b1) * 0x40 + Six(b2)
  {
    assert b0 % 0x10 == b0 - 0xE0;
    assert IsLow8(b1) ==> Six(b1) == b1 - 0x80;
    assert IsLow8(b2) ==> Six(b2) == b2 - 0x80;
    DigitsOf(c);
    if IsLow8(b1) && IsLow8(b2) { Digits(0, b0 % 0x10, Six(b1), Six(b2)); }
  }

  lemma FourSpelled(b0: Byte, b1: Byte, b2: Byte, b3: Byte, c: int)
    requires 0xF0 <= b0 < 0xF8
    ensures 0x1_0000 <= c < 0x20_0000 && b0 == 0xF0 + c / 0x4_0000 && b1 == 0x80 + c / 0x1000 % 0x40 &&
            b2 == 0x80 + c / 0x40 % 0x40 && b3 == 0x80 + c % 0x40
       <==> IsLow8(b1) && IsLow8(b2) && IsLow8(b3) && !(b0 % 8 == 0 && b1 / 0x10 % 4 == 0) &&
            c == b0 % 8 * 0x4_0000 + Six(b1) * 0x1000 + Six(b2) * 0x40 + Six(b3)
  {
    assert b0 % 8 == b0 - 0xF0;
    assert IsLow8(b1) ==> Six(b1) == b1 - 0x80;
    assert IsLow8(b2) ==> Six(b2) == b2 - 0x80;
    assert IsLow8(b3) ==> Six(b3) == b3 - 0x80;
    DigitsOf(c);
    if IsLow8(b1) && IsLow8(b2) && IsLow8(b3) { Digits(b0 % 8, Six(b1), Six(b2), Six(b3)); }
  }

  // The bytes of a character spell it.
  lemma Bytes8Spell(c: Char32)
    requires 0 < c < UNICODE_END
    ensures Spells(Bytes8(c), c, |Bytes8(c)|)
  {
    hide Spells;
    SpellsOut(Bytes8(c), c, |Bytes8(c)|);
  }

  function Join<T>(first: seq<T>, rest: Result<T>): Result<T> {
    match rest case Text(t) => Text(first + t) case Bad(c, t) => Bad(c, first + t)
  }

  function Utf8To32(b: seq<Byte>): (r: Result<Char32>) {
    if b == [] then Text([])
    else
      var n := WordSize(b[0]);
      if n == 0 || n > |b| then Bad(ErrorInvalidUtf8, [])
      else match Char8(b[..n])
        case NoChar => Bad(ErrorInvalidUtf8, [])
        case Char(c) => Join([c], Utf8To32(b[n..]))
  }

  function Utf32To8(s: seq<Char32>): (r: Result<Byte>) {
    if s == [] then Text([])
    else if s[0] >= UNICODE_END then Bad(ErrorInvalidUtf32, [])
    else Join(Bytes8(s[0]), Utf32To8(s[1..]))
  }

  predicate Unicode(s: seq<Char32>) {
    forall c :: c in s ==> c < UNICODE_END
  }

  function NonZero<T(==)>(s: seq<T>, zero: T): (r: seq<T>)
    ensures zero !in s ==> r == s
    ensures zero in s ==> |r| < |s|
    ensures |r| <= |s|
  {
    if s == [] then [] else
      assert s == [s[0]] + s[1..];
      if s[0] == zero then NonZero(s[1..], zero) else [s[0]] + NonZero(s[1..], zero)
  }

  // A text spells a string if it is the spellings of its characters one after another; and just that text is
  // decoded to the string.
  ghost predicate SpellsAll(b: seq<Byte>, s: seq<Char32>) {
    if s == [] then b == [] else exists n: nat :: Spells(b, s[0], n) && SpellsAll(b[n..], s[1..])
  }

  lemma {:induction false} Utf8To32Iff(b: seq<Byte>, s: seq<Char32>)
    ensures Utf8To32(b) == Text(s) <==> SpellsAll(b, s)
    decreases |s|
  {
    hide Spells, Char8, WordSize;
    if b != [] && s != [] {
      var n := WordSize(b[0]);
      forall m: nat | Spells(b, s[0], m) ensures m == n { SizeSpelled(b, s[0], m); }
      if 0 < n <= |b| {
        Char8Spells(b[..n], s[0]);
        SpellsHead(b, s[0], n);
        Utf8To32Iff(b[n..], s[1..]);
        Utf8To32Head(b, s);
      } else {
        SpellsFits(b, s[0], n);
      }
    } else if b == [] && s != [] {
      forall m: nat ensures !Spells(b, s[0], m) { SpellsFits(b, s[0], m); }
    }
  }

  lemma SpellsFits(b: seq<Byte>, c: int, n: nat)
    ensures Spells(b, c, n) ==> 0 < n <= |b|
  {
  }

  lemma SpellsHead(b: seq<Byte>, c: int, n: nat)
    requires n <= |b|
    ensures Spells(b[..n], c, n) == Spells(b, c, n)
  {
    if 1 <= n <= 4 {
      hide Spells;
      SpellsOut(b, c, n);
      SpellsOut(b[..n], c, n);
    }
  }

  lemma Utf8To32Head(b: seq<Byte>, s: seq<Char32>)
    requires b != [] && s != [] && 0 < WordSize(b[0]) <= |b|
    ensures Utf8To32(b) == Text(s) <==>
      Char8(b[..WordSize(b[0])]) == Char(s[0]) && Utf8To32(b[WordSize(b[0])..]) == Text(s[1..])
  {
    hide Char8;
    assert s == [s[0]] + s[1..];
    var r := Utf8To32(b[WordSize(b[0])..]);
    if Char8(b[..WordSize(b[0])]).Char? && r.Text? {
      var c := Char8(b[..WordSize(b[0])]).c;
      assert ([c] + r.text)[0] == c && ([c] + r.text)[1..] == r.text;
    }
  }

  // UTF-32 to UTF-8 and back gives the string without its NULs.
  lemma {:induction false} Utf32Via8(s: seq<Char32>)
    requires Unicode(s)
    ensures Utf32To8(s).Text? && Utf8To32(Utf32To8(s).text) == Text(NonZero(s, 0))
  {
    if s != [] {
      assert s[0] in s && forall c :: c in s[1..] ==> c in s;
      Utf32Via8(s[1..]);
      var b, rest := Bytes8(s[0]), Utf32To8(s[1..]).text;
      if s[0] == 0 {
        assert b + rest == rest;
      } else {
        CharOfBytes(s[0]);
        assert (b + rest)[..|b|] == b && (b + rest)[|b|..] == rest && (b + rest)[0] == b[0];
      }
    }
  }

  // So it is the identity just on the strings without NUL.
  lemma Utf32Via8Identity(s: seq<Char32>)
    requires Unicode(s)
    ensures Utf32To8(s).Text? && (Utf8To32(Utf32To8(s).text) == Text(s) <==> 0 !in s)
  {
    Utf32Via8(s);
  }

  lemma CharZero(b: seq<Byte>)
    requires b != [] && Char8(b) == Char(0)
    ensures b[0] == 0 && WordSize(b[0]) == 1
  {
  }

  // Every UTF-8 text the decoder takes, within Unicode and without NUL, is encoded as the same bytes.
  lemma {:induction false} Utf8Via32(b: seq<Byte>)
    requires Utf8To32(b).Text? && Unicode(Utf8To32(b).text) && 0 !in b
    ensures Utf32To8(Utf8To32(b).text) == Text(b)
  {
    if b != [] {
      var n, c, tail := FirstChar(b);
      FirstIsUnicode(Utf8To32(b).text, c, tail);
      Apart(b, n);
      Utf8Via32(b[n..]);
      FirstBack(b[..n], c);
      EncodeFirst(c, tail, b[..n], b[n..]);
    }
  }

  lemma Apart(b: seq<Byte>, n: nat)
    requires n <= |b| && 0 !in b
    ensures b == b[..n] + b[n..] && 0 !in b[..n] && 0 !in b[n..]
  {
    assert forall x :: x in b[..n] || x in b[n..] ==> x in b;
  }

  lemma FirstBack(head: seq<Byte>, c: Char32)
    requires head != [] && WordSize(head[0]) == |head| && Char8(head) == Char(c) && c < UNICODE_END && 0 !in head
    ensures Bytes8(c) == head
  {
    if c == 0 { CharZero(head); }
    BytesOfChar(head);
    assert head[..|head|] == head;
  }

  lemma FirstIsUnicode(s: seq<Char32>, c: Char32, tail: seq<Char32>)
    requires Unicode(s) && s == [c] + tail
    ensures c < UNICODE_END && Unicode(tail)
  {
    assert s[0] in s && forall x :: x in tail ==> x in s;
  }

  lemma FirstChar(b: seq<Byte>) returns (n: nat, c: Char32, tail: seq<Char32>)
    requires b != [] && Utf8To32(b).Text?
    ensures 0 < n == WordSize(b[0]) <= |b| && Char8(b[..n]) == Char(c)
    ensures Utf8To32(b[n..]) == Text(tail) && Utf8To32(b).text == [c] + tail
  {
    n := WordSize(b[0]);
    c, tail := Char8(b[..n]).c, Utf8To32(b[n..]).text;
  }

  lemma EncodeFirst(c: Char32, tail: seq<Char32>, head: seq<Byte>, rest: seq<Byte>)
    requires c < UNICODE_END && Bytes8(c) == head && Utf32To8(tail) == Text(rest)
    ensures Utf32To8([c] + tail) == Text(head + rest)
  {
    assert ([c] + tail)[1..] == tail;
  }

  // Two texts the decoder takes for the same string are the same.
  lemma Utf8Injective(a: seq<Byte>, b: seq<Byte>)
    requires Utf8To32(a).Text? && Utf8To32(a) == Utf8To32(b) && Unicode(Utf8To32(a).text) && 0 !in a && 0 !in b
    ensures a == b
  {
    Utf8Via32(a);
    Utf8Via32(b);
  }

  // One character of UTF-16 (section 2.2 of RFC 2781, but a low surrogate by itself is taken).
  function Char16(u: seq<Unit>): (r: MaybeChar)
    requires u != []
  {
    var u0: int := u[0];
    if IsHigh16(u0) then
      if |u| < 2 || !IsLow16(u[1]) then NoChar else Char(0x1_0000 + (u0 - 0xD800) * 0x400 + (u[1] - 0xDC00))
    else Char(u0)
  }

  // The units of a character (section 2.1 of RFC 2781); of NUL none.
  function Units16(c: Char32): (u: seq<Unit>)
    requires c < UNICODE_END
  {
    if c == 0 then [] else if c < 0x1_0000 then [c]
    else [(c - 0x1_0000) / 0x400 + 0xD800, (c - 0x1_0000) % 0x400 + 0xDC00]
  }

  // Section 2.1 of RFC 2781, by bits: above 16 bits the higher ten of the twenty that are left go into a high
  // surrogate, the lower ten into a low one.
  ghost predicate Spells16(u: seq<Unit>, c: int) {
    if c < 0x1_0000 then u != [] && u[0] == c && !IsHigh16(c)
    else
      && |u| >= 2 && c < UNICODE_END && IsHigh16(u[0]) && IsLow16(u[1])
      && c == 0x1_0000 + (u[0] - 0xD800) * Pow(2, 10) + (u[1] - 0xDC00)
  }

  lemma Char16Iff(u: seq<Unit>, c: Char32)
    requires u != []
    ensures Char16(u) == Char(c) <==> Spells16(u, c)
  {
    assert Pow(2, 5) == 32;
  }

  lemma Units16Spell(c: Char32)
    requires 0 < c < UNICODE_END && !IsHigh16(c)
    ensures Spells16(Units16(c), c) && |Units16(c)| == if c < 0x1_0000 then 1 else 2
  {
    CharOfUnits(c);
    Char16Iff(Units16(c), c);
  }

  function UnitCount(u: Unit): nat {
    if IsHigh16(u) then 2 else 1
  }

  function Utf16To32(u: seq<Unit>): (r: Result<Char32>) {
    if u == [] then Text([])
    else
      var n := UnitCount(u[0]);
      if n > |u| then Bad(ErrorInvalidUtf16, [])
      else match Char16(u[..n])
        case NoChar => Bad(ErrorInvalidUtf16, [])
        case Char(c) => Join([c], Utf16To32(u[n..]))
  }

  function Utf32To16(s: seq<Char32>): (r: Result<Unit>) {
    if s == [] then Text([])
    else if s[0] >= UNICODE_END then Bad(ErrorInvalidUtf32, [])
    else Join(Units16(s[0]), Utf32To16(s[1..]))
  }

  ghost predicate SpellsAll16(u: seq<Unit>, s: seq<Char32>) {
    if s == [] then u == []
    else Spells16(u, s[0]) && SpellsAll16(u[if s[0] < 0x1_0000 then 1 else 2..], s[1..])
  }

  lemma {:induction false} Utf16To32Iff(u: seq<Unit>, s: seq<Char32>)
    ensures Utf16To32(u) == Text(s) <==> SpellsAll16(u, s)
    decreases |s|
  {
    hide Char16;
    if u != [] && s != [] {
      var n := UnitCount(u[0]);
      if n <= |u| {
        Char16Iff(u[..n], s[0]);
        Utf16To32Iff(u[n..], s[1..]);
        Utf16To32Head(u, s);
      }
    }
  }

  lemma Utf16To32Head(u: seq<Unit>, s: seq<Char32>)
    requires u != [] && s != [] && UnitCount(u[0]) <= |u|
    ensures Utf16To32(u) == Text(s) <==>
      Char16(u[..UnitCount(u[0])]) == Char(s[0]) && Utf16To32(u[UnitCount(u[0])..]) == Text(s[1..])
  {
    hide Char16;
    assert s == [s[0]] + s[1..];
    var r := Utf16To32(u[UnitCount(u[0])..]);
    if Char16(u[..UnitCount(u[0])]).Char? && r.Text? {
      var c := Char16(u[..UnitCount(u[0])]).c;
      assert ([c] + r.text)[0] == c && ([c] + r.text)[1..] == r.text;
    }
  }

  lemma CharOfUnits(c: Char32)
    requires 0 < c < UNICODE_END && !IsHigh16(c)
    ensures var u := Units16(c); u != [] && UnitCount(u[0]) == |u| && Char16(u) == Char(c)
  {
  }

  lemma {:induction false} Utf32Encodes(s: seq<Char32>)
    requires Unicode(s)
    ensures Utf32To16(s).Text?
  {
    if s != [] {
      assert s[0] in s && forall c :: c in s[1..] ==> c in s;
      Utf32Encodes(s[1..]);
    }
  }

  // A character in front, its units in front.
  lemma DecodeFirst16(head: seq<Unit>, c: Char32, rest: seq<Unit>)
    requires head != [] && UnitCount(head[0]) == |head| && Char16(head) == Char(c)
    ensures Utf16To32(head + rest) == Join([c], Utf16To32(rest))
  {
    assert (head + rest)[..|head|] == head && (head + rest)[|head|..] == rest;
  }

  // UTF-32 without high surrogates to UTF-16 and back gives the string without its NULs.
  lemma {:induction false} Utf32Via16(s: seq<Char32>)
    requires Unicode(s) && forall c :: c in s ==> !IsHigh16(c)
    ensures Utf32To16(s).Text? && Utf16To32(Utf32To16(s).text) == Text(NonZero(s, 0))
  {
    if s != [] {
      assert s[0] in s && forall c :: c in s[1..] ==> c in s;
      Utf32Via16(s[1..]);
      var rest := Utf32To16(s[1..]).text;
      if s[0] == 0 {
        assert Units16(s[0]) + rest == rest;
      } else {
        FirstVia16(s[0], rest);
      }
    }
  }

  lemma FirstVia16(c: Char32, rest: seq<Unit>)
    requires c < UNICODE_END && c != 0 && !IsHigh16(c)
    ensures Utf16To32(Units16(c) + rest) == Join([c], Utf16To32(rest))
  {
    CharOfUnits(c);
    DecodeFirst16(Units16(c), c, rest);
  }

  // A high surrogate takes the next unit with it or is refused: never more characters come back than
  // went in, and NULs do not come back at all.
  lemma {:induction false} NoMoreBack(s: seq<Char32>)
    requires Unicode(s)
    ensures Utf32To16(s).Text? &&
            (Utf16To32(Utf32To16(s).text).Text? ==> |Utf16To32(Utf32To16(s).text).text| <= |NonZero(s, 0)|)
  {
    if s != [] {
      assert s[0] in s && forall c :: c in s[1..] ==> c in s;
      NoMoreBack(s[1..]);
      var rest := Utf32To16(s[1..]).text;
      if s[0] == 0 {
        assert Units16(s[0]) + rest == rest;
      } else if IsHigh16(s[0]) {
        HighInFront(s[0], rest);
      } else {
        CharOfUnits(s[0]);
        DecodeFirst16(Units16(s[0]), s[0], rest);
      }
    }
  }

  // After a high surrogate comes a low one, and the two are one character; or the text is refused.
  lemma HighInFront(h: Char32, rest: seq<Unit>)
    requires IsHigh16(h)
    ensures var r := Utf16To32([h] + rest);
            r.Text? ==>
              && r.text != [] && r.text[0] >= 0x1_0000
              && Utf16To32(rest).Text? && |r.text| <= |Utf16To32(rest).text|
  {
    var u := [h] + rest;
    if rest != [] {
      assert u[..2] == [h, rest[0]] && u[2..] == rest[1..];
      if IsLow16(rest[0]) {
        assert rest[..1] == [rest[0]];
        DecodeFirst16([rest[0]], rest[0], rest[1..]);
        assert [rest[0]] + rest[1..] == rest;
      }
    }
  }

  // UTF-32 to UTF-16 and back is the identity just on the strings without NUL and without high surrogates.
  lemma {:induction false} Utf32Via16Identity(s: seq<Char32>)
    requires Unicode(s)
    ensures Utf32To16(s).Text?
    ensures Utf16To32(Utf32To16(s).text) == Text(s) <==> 0 !in s && forall c :: c in s ==> !IsHigh16(c)
  {
    Utf32Encodes(s);
    if 0 !in s && forall c :: c in s ==> !IsHigh16(c) {
      Utf32Via16(s);
    } else if Utf16To32(Utf32To16(s).text) == Text(s) {
      BackUnchanged(s);
    }
  }

  lemma {:induction false} BackUnchanged(s: seq<Char32>)
    requires Unicode(s) && Utf32To16(s).Text? && Utf16To32(Utf32To16(s).text) == Text(s)
    ensures 0 !in s && forall c :: c in s ==> !IsHigh16(c)
  {
    if s != [] {
      NoMoreBack(s);
      assert s[0] in s && forall c :: c in s[1..] ==> c in s;
      Utf32Encodes(s[1..]);
      var rest := Utf32To16(s[1..]).text;
      if IsHigh16(s[0]) { HighInFront(s[0], rest); }
      CharOfUnits(s[0]);
      DecodeFirst16(Units16(s[0]), s[0], rest);
      assert ([s[0]] + Utf16To32(rest).text)[1..] == Utf16To32(rest).text;
      BackUnchanged(s[1..]);
    }
  }

  ghost predicate Agrees<T>(r: Result<T>, code: Code, text: seq<T>) {
    text == r.text && match r case Text(_) => code == Success case Bad(c, _) => code == c != Success
  }

  lemma JoinTwice<T>(a: seq<T>, b: seq<T>, r: Result<T>)
    ensures Join(a, Join(b, r)) == Join(a + b, r)
  {
    assert a + (b + r.text) == a + b + r.text;
  }

  // The bytes of a character in four slots, filled up with zeros.
  function Slots(c: Char32): (b: seq<Byte>)
    requires c < UNICODE_END
    ensures |b| == 4
  {
    Bytes8(c) + seq(4 - |Bytes8(c)|, _ => 0)
  }

  method CharUtf32ToUtf8(c: Char32, utf8: array<Byte>) returns (code: Code)
    requires utf8.Length == 4
    modifies utf8
    ensures code == if c < UNICODE_END then Success else ErrorInvalidUtf32
    ensures code == Success ==> utf8[..] == Slots(c)
  {
    if c > 0x10FFFF { return ErrorInvalidUtf32; }
    if c < 0x80 {
      utf8[0], utf8[1], utf8[2], utf8[3] := c, 0, 0, 0;
    } else if c < 0x800 {
      utf8[0], utf8[1], utf8[2], utf8[3] := 0xC0 + c / 0x40, 0x80 + c % 0x40, 0, 0;
    } else if c < 0x1_0000 {
      utf8[0], utf8[1], utf8[2], utf8[3] := 0xE0 + c / 0x1000, 0x80 + c / 0x40 % 0x40, 0x80 + c % 0x40, 0;
    } else {
      utf8[0], utf8[1], utf8[2], utf8[3] := 0xF0 + c / 0x4_0000, 0x80 + c / 0x1000 % 0x40, 0x80 + c / 0x40 % 0x40,
        0x80 + c % 0x40;
    }
    assert utf8[..] == [utf8[0], utf8[1], utf8[2], utf8[3]];
    return Success;
  }

  lemma SlotsBack(c: Char32)
    requires c < UNICODE_END
    ensures NonZero(Slots(c), 0) == Bytes8(c)
  {
    NonZeroFilled(Bytes8(c), 4 - |Bytes8(c)|);
  }

  lemma {:induction false} NonZeroFilled(b: seq<Byte>, n: nat)
    requires 0 !in b
    ensures NonZero(b + seq(n, _ => 0), 0) == b
    decreases |b| + n
  {
    var t := b + seq(n, _ => 0);
    if b != [] {
      assert t[1..] == b[1..] + seq(n, _ => 0) && b == [b[0]] + b[1..];
      NonZeroFilled(b[1..], n);
    } else if n > 0 {
      assert t[1..] == b + seq(n - 1, _ => 0);
      NonZeroFilled(b, n - 1);
    }
  }

  // The first i bytes have been converted.
  ghost predicate Reached8(b: seq<Byte>, i: nat, done: seq<Char32>)
    requires i <= |b|
  {
    Utf8To32(b) == Join(done, Utf8To32(b[i..]))
  }

  lemma Starts8(b: seq<Byte>)
    ensures Reached8(b, 0, [])
  {
    assert b[0..] == b && [] + Utf8To32(b).text == Utf8To32(b).text;
  }

  lemma SliceOfRest<T>(b: seq<T>, i: nat, n: nat)
    requires i + n <= |b|
    ensures b[i..][..n] == b[i..i + n] && b[i..][n..] == b[i + n..]
  {
  }

  // One character is taken, or none can be.
  lemma Takes8(rest: seq<Byte>, head: seq<Byte>, tail: seq<Byte>)
    requires rest != [] && 0 < WordSize(rest[0]) <= |rest|
    requires rest[..WordSize(rest[0])] == head && rest[WordSize(rest[0])..] == tail
    ensures Char8(head).Char? ==> Utf8To32(rest) == Join([Char8(head).c], Utf8To32(tail))
    ensures Char8(head).NoChar? ==> Utf8To32(rest) == Bad(ErrorInvalidUtf8, [])
  {
  }

  lemma GoesOn8(b: seq<Byte>, i: nat, done: seq<Char32>)
    requires i < |b| && Reached8(b, i, done) && 0 < WordSize(b[i]) <= |b| - i && Char8(b[i..i + WordSize(b[i])]).Char?
    ensures Reached8(b, i + WordSize(b[i]), done + [Char8(b[i..i + WordSize(b[i])]).c])
  {
    var n := WordSize(b[i]);
    SliceOfRest(b, i, n);
    Takes8(b[i..], b[i..i + n], b[i + n..]);
    JoinTwice(done, [Char8(b[i..i + n]).c], Utf8To32(b[i + n..]));
  }

  lemma Stops8(b: seq<Byte>, i: nat, done: seq<Char32>)
    requires i < |b| && Reached8(b, i, done)
    requires !(0 < WordSize(b[i]) <= |b| - i) || Char8(b[i..i + WordSize(b[i])]).NoChar?
    ensures Utf8To32(b) == Bad(ErrorInvalidUtf8, done)
  {
    var n := WordSize(b[i]);
    if 0 < n <= |b| - i {
      SliceOfRest(b, i, n);
      Takes8(b[i..], b[i..i + n], b[i + n..]);
    }
    JoinNothing<Char32>(done, ErrorInvalidUtf8);
  }

  lemma JoinNothing<T>(done: seq<T>, code: Code)
    ensures Join(done, Bad(code, [])) == Bad(code, done)
  {
    assert done + [] == done;
  }

  lemma Ends8(b: seq<Byte>, done: seq<Char32>)
    requires Reached8(b, |b|, done)
    ensures Utf8To32(b) == Text(done)
  {
    assert b[|b|..] == [] && done + [] == done;
  }

  method ConvertUtf8To32(utf8: seq<Byte>) returns (code: Code, utf32: seq<Char32>)
    ensures Agrees(Utf8To32(utf8), code, utf32)
  {
    utf32 := [];
    var i := 0;
    Starts8(utf8);
    while i < |utf8|
      invariant 0 <= i <= |utf8| && Reached8(utf8, i, utf32)
    {
      var size := WordSize(utf8[i]);
      if size == 0 || i + size > |utf8| { Stops8(utf8, i, utf32); return ErrorInvalidUtf8, utf32; }
      var c := Char8(utf8[i..i + size]);
      if c.NoChar? { Stops8(utf8, i, utf32); return ErrorInvalidUtf8, utf32; }
      GoesOn8(utf8, i, utf32);
      utf32 := utf32 + [c.c];
      i := i + size;
    }
    Ends8(utf8, utf32);
    return Success, utf32;
  }

  method ConvertUtf32To8(utf32: seq<Char32>) returns (code: Code, utf8: seq<Byte>)
    ensures Agrees(Utf32To8(utf32), code, utf8)
  {
    utf8 := [];
    var i := 0;
    var slots := new Byte[4](_ => 0);
    assert utf32[0..] == utf32;
    while i < |utf32|
      modifies slots
      invariant 0 <= i <= |utf32| && Utf32To8(utf32) == Join(utf8, Utf32To8(utf32[i..]))
    {
      assert utf32[i..][1..] == utf32[i + 1..];
      code := CharUtf32ToUtf8(utf32[i], slots);
      if code != Success { return; }
      SlotsBack(utf32[i]);
      JoinTwice(utf8, Bytes8(utf32[i]), Utf32To8(utf32[i + 1..]));
      utf8 := PushNonZero(slots[..], utf8);
      i := i + 1;
    }
    return Success, utf8;
  }

  // Appends what is not zero.
  method PushNonZero(slots: seq<Byte>, text: seq<Byte>) returns (r: seq<Byte>)
    ensures r == text + NonZero(slots, 0)
  {
    r := text;
    var i := 0;
    assert slots[0..] == slots;
    while i < |slots|
      invariant 0 <= i <= |slots| && text + NonZero(slots, 0) == r + NonZero(slots[i..], 0)
    {
      assert slots[i..][1..] == slots[i + 1..];
      if slots[i] != 0 {
        assert r + ([slots[i]] + NonZero(slots[i + 1..], 0)) == r + [slots[i]] + NonZero(slots[i + 1..], 0);
        r := r + [slots[i]];
      }
      i := i + 1;
    }
    assert NonZero(slots[i..], 0) == [];
  }

  // The first i units have been converted.
  ghost predicate Reached16(u: seq<Unit>, i: nat, done: seq<Char32>)
    requires i <= |u|
  {
    Utf16To32(u) == Join(done, Utf16To32(u[i..]))
  }

  lemma Starts16(u: seq<Unit>)
    ensures Reached16(u, 0, [])
  {
    assert u[0..] == u && [] + Utf16To32(u).text == Utf16To32(u).text;
  }

  lemma GoesOn16(u: seq<Unit>, i: nat, done: seq<Char32>)
    requires i < |u| && Reached16(u, i, done) && UnitCount(u[i]) <= |u| - i && Char16(u[i..i + UnitCount(u[i])]).Char?
    ensures Reached16(u, i + UnitCount(u[i]), done + [Char16(u[i..i + UnitCount(u[i])]).c])
  {
    var n, rest := UnitCount(u[i]), u[i..];
    assert rest[..n] == u[i..i + n] && rest[n..] == u[i + n..];
    JoinTwice(done, [Char16(u[i..i + n]).c], Utf16To32(u[i + n..]));
  }

  lemma Stops16(u: seq<Unit>, i: nat, done: seq<Char32>)
    requires i < |u| && Reached16(u, i, done)
    requires UnitCount(u[i]) > |u| - i || Char16(u[i..i + UnitCount(u[i])]).NoChar?
    ensures Utf16To32(u) == Bad(ErrorInvalidUtf16, done)
  {
    var n, rest := UnitCount(u[i]), u[i..];
    if n <= |u| - i { assert rest[..n] == u[i..i + n]; }
    assert Utf16To32(rest) == Bad(ErrorInvalidUtf16, []) && done + [] == done;
  }

  lemma Ends16(u: seq<Unit>, done: seq<Char32>)
    requires Reached16(u, |u|, done)
    ensures Utf16To32(u) == Text(done)
  {
    assert u[|u|..] == [] && done + [] == done;
  }

  method ConvertUtf16To32(utf16: seq<Unit>) returns (code: Code, utf32: seq<Char32>)
    ensures Agrees(Utf16To32(utf16), code, utf32)
  {
    utf32 := [];
    var i := 0;
    Starts16(utf16);
    while i < |utf16|
      invariant 0 <= i <= |utf16| && Reached16(utf16, i, utf32)
    {
      var n := 1;
      if IsHigh16(utf16[i]) {
        if i + 1 == |utf16| { Stops16(utf16, i, utf32); return ErrorInvalidUtf16, utf32; }
        n := 2;
      }
      var c := Char16(utf16[i..i + n]);
      if c.NoChar? { Stops16(utf16, i, utf32); return ErrorInvalidUtf16, utf32; }
      GoesOn16(utf16, i, utf32);
      utf32 := utf32 + [c.c];
      i := i + n;
    }
    Ends16(utf16, utf32);
    return Success, utf32;
  }

  method ConvertUtf32To16(utf32: seq<Char32>) returns (code: Code, utf16: seq<Unit>)
    ensures Agrees(Utf32To16(utf32), code, utf16)
  {
    utf16 := [];
    var i := 0;
    assert utf32[0..] == utf32;
    while i < |utf32|
      invariant 0 <= i <= |utf32| && Utf32To16(utf32) == Join(utf16, Utf32To16(utf32[i..]))
    {
      assert utf32[i..][1..] == utf32[i + 1..];
      if utf32[i] > 0x10FFFF { return ErrorInvalidUtf32, utf16; }
      JoinTwice(utf16, Units16(utf32[i]), Utf32To16(utf32[i + 1..]));
      utf16 := PushChar16(utf32[i], utf16);
      i := i + 1;
    }
    return Success, utf16;
  }

  method PushChar16(c: Char32, text: seq<Unit>) returns (r: seq<Unit>)
    requires c < UNICODE_END
    ensures r == text + Units16(c)
  {
    var unit0, unit1: Unit;
    if c < 0x1_0000 {
      unit0, unit1 := c, 0;
    } else {
      unit0, unit1 := (c - 0x1_0000) / 0x400 + 0xD800, (c - 0x1_0000) % 0x400 + 0xDC00;
    }
    r := text;
    if unit0 != 0 { r := r + [unit0]; }
    if unit1 != 0 { r := r + [unit1]; }
  }

  // What a second conversion makes of what a first one came to: the error that comes first counts.
  ghost function Then<A, B>(first: Result<A>, second: Result<B>): Result<B> {
    if first.Bad? && second.Text? then Bad(first.code, second.text) else second
  }

  // The direct conversion is the one by way of UTF-32, errors included.
  method ConvertUtf8To16(utf8: seq<Byte>) returns (code: Code, utf16: seq<Unit>)
    ensures Agrees(Then(Utf8To32(utf8), Utf32To16(Utf8To32(utf8).text)), code, utf16)
  {
    utf16 := [];
    var i := 0;
    ghost var done: seq<Char32> := [];
    Starts8(utf8);
    while i < |utf8|
      invariant 0 <= i <= |utf8| && Reached8(utf8, i, done) && Utf32To16(done) == Text(utf16)
    {
      var size := WordSize(utf8[i]);
      if size == 0 || i + size > |utf8| { Stops8(utf8, i, done); return ErrorInvalidUtf8, utf16; }
      var c := Char8(utf8[i..i + size]);
      if c.NoChar? { Stops8(utf8, i, done); return ErrorInvalidUtf8, utf16; }
      GoesOn8(utf8, i, done);
      if c.c > 0x10FFFF {
        TooGreat(utf8, i + size, done, c.c);
        return ErrorInvalidUtf32, utf16;
      }
      EncodeLast16(done, c.c);
      done := done + [c.c];
      utf16 := PushChar16(c.c, utf16);
      i := i + size;
    }
    Ends8(utf8, done);
    return Success, utf16;
  }

  // A character beyond Unicode ends the direct conversion, whatever comes after it.
  lemma TooGreat(b: seq<Byte>, i: nat, done: seq<Char32>, c: Char32)
    requires i <= |b| && Reached8(b, i, done + [c]) && Utf32To16(done).Text? && c >= UNICODE_END
    ensures Then(Utf8To32(b), Utf32To16(Utf8To32(b).text)) == Bad(ErrorInvalidUtf32, Utf32To16(done).text)
  {
    EncodeStops16(done, c, Utf8To32(b[i..]).text);
  }

  lemma {:induction false} EncodeStops16(s: seq<Char32>, c: Char32, more: seq<Char32>)
    requires Utf32To16(s).Text? && c >= UNICODE_END
    ensures Utf32To16(s + [c] + more) == Bad(ErrorInvalidUtf32, Utf32To16(s).text)
  {
    if s == [] {
      assert ([] + [c] + more)[0] == c;
    } else {
      EncodeStops16(s[1..], c, more);
      assert (s + [c] + more)[1..] == s[1..] + [c] + more;
    }
  }

  lemma {:induction false} EncodeLast16(s: seq<Char32>, c: Char32)
    requires Utf32To16(s).Text? && c < UNICODE_END
    ensures Utf32To16(s + [c]) == Text(Utf32To16(s).text + Units16(c))
  {
    if s == [] {
      assert [c][1..] == [] && s + [c] == [c];
    } else {
      EncodeLast16(s[1..], c);
      assert (s + [c])[1..] == s[1..] + [c];
      JoinTwice(Units16(s[0]), Utf32To16(s[1..]).text, Text(Units16(c)));
    }
  }

  lemma {:induction false} EncodeLast8(s: seq<Char32>, c: Char32)
    requires Utf32To8(s).Text? && c < UNICODE_END
    ensures Utf32To8(s + [c]) == Text(Utf32To8(s).text + Bytes8(c))
  {
    if s == [] {
      assert [c][1..] == [] && s + [c] == [c] && Bytes8(c) + [] == Bytes8(c);
    } else {
      EncodeLast8(s[1..], c);
      assert (s + [c])[1..] == s[1..] + [c];
      JoinTwice(Bytes8(s[0]), Utf32To8(s[1..]).text, Text(Bytes8(c)));
    }
  }

  method ConvertUtf16To8(utf16: seq<Unit>) returns (code: Code, utf8: seq<Byte>)
    ensures Agrees(Then(Utf16To32(utf16), Utf32To8(Utf16To32(utf16).text)), code, utf8)
  {
    utf8 := [];
    var i := 0;
    var slots := new Byte[4](_ => 0);
    ghost var done: seq<Char32> := [];
    Starts16(utf16);
    while i < |utf16|
      modifies slots
      invariant 0 <= i <= |utf16| && Reached16(utf16, i, done) && Utf32To8(done) == Text(utf8)
    {
      var n := 1;
      if IsHigh16(utf16[i]) {
        if i + 1 == |utf16| { Stops16(utf16, i, done); return ErrorInvalidUtf16, utf8; }
        n := 2;
      }
      var c := Char16(utf16[i..i + n]);
      if c.NoChar? { Stops16(utf16, i, done); return ErrorInvalidUtf16, utf8; }
      GoesOn16(utf16, i, done);
      EncodeLast8(done, c.c);
      code := CharUtf32ToUtf8(c.c, slots);
      SlotsBack(c.c);
      done := done + [c.c];
      utf8 := PushNonZero(slots[..], utf8);
      i := i + n;
    }
    Ends16(utf16, done);
    return Success, utf8;
  }
}
