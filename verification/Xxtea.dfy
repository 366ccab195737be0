// The XXTEA block cipher and its byte interface.
module Xxtea {
  import opened Arithmetic
  import opened Bits
  import opened Octets

  const DELTA: Word := 0x9e3779b9

  // A word stands for its bits; the source's words are signed, and wrap around.
  function Plus(a: Word, b: Word): Word { (a + b) % WORD }

  function Minus(a: Word, b: Word): Word { (a - b) % WORD }

  function Xor(a: Word, b: Word): Word {
    PowersOfTwo();
    XorBits(a, b, 32)
  }

  function Shl(a: Word, n: nat): Word { a * Pow(2, n) % WORD }

  // The right shift of a signed word rounds down.
  function Shr(a: Word, n: nat): Word {
    (if a < WORD / 2 then a / Pow(2, n) else (a - WORD) / Pow(2, n)) % WORD
  }

  function Mx(z: Word, y: Word, sum: Word, k: Word): Word {
    Xor(Plus(Xor(Shr(z, 5), Shl(y, 2)), Xor(Shr(y, 3), Shl(z, 4))), Plus(Xor(sum, y), Xor(k, z)))
  }

  // Bit j of a word shifted up or down by n; the sign bit fills up from above.
  function Up(w: Word, n: nat, j: nat): nat {
    if j < n then 0 else Bit(w, j - n)
  }

  function Down(w: Word, n: nat, j: nat): nat {
    Bit(w, if j + n < 31 then j + n else 31)
  }

  lemma BitShl(w: Word, n: nat, j: nat)
    requires j < 32
    ensures Bit(Shl(w, n), j) == Up(w, n, j)
  {
    PowersOfTwo();
    BitCut(w * Pow(2, n), 32, j);
    BitUp(w, n, j);
  }

  lemma BitShr(w: Word, n: nat, j: nat)
    requires j < 32
    ensures Bit(Shr(w, n), j) == Down(w, n, j)
  {
    PowersOfTwo();
    var v := if w < INT_END then w else w - WORD;
    BitCut(v / Pow(2, n), 32, j);
    BitDown(v, n, j);
    SignBits(w, v, j + n);
  }

  // A signed number and its word have the same bits, and above them there is its sign.
  lemma SignBits(w: Word, v: int, j: nat)
    requires v == if w < INT_END then w else w - WORD
    ensures Bit(v, j) == Bit(w, if j < 31 then j else 31)
  {
    PowersOfTwo();
    if j < 31 {
      assert v % WORD == w;
      BitCut(v, 32, j);
    } else {
      if j > 31 { PowersApart(31, j); }
      assert INT_END <= Pow(2, j);
      QuotientIs(v, Pow(2, j), if w < INT_END then 0 else -1, if w < INT_END then v else v + Pow(2, j));
      QuotientIs(w, INT_END, if w < INT_END then 0 else 1, if w < INT_END then w else w - INT_END);
    }
  }

  lemma BitWordXor(a: Word, b: Word, j: nat)
    requires j < 32
    ensures Bit(Xor(a, b), j) == (Bit(a, j) + Bit(b, j)) % 2
  {
    PowersOfTwo();
    BitXor(a, b, 32, j);
  }

  // Word w is a and b added bit by bit without carry; or so the one shifted down and the other shifted up.
  ghost predicate Crosses(w: Word, a: Word, b: Word) {
    forall j: nat :: j < 32 ==> Bit(w, j) == (Bit(a, j) + Bit(b, j)) % 2
  }

  ghost predicate ShiftsCross(w: Word, a: Word, m: nat, b: Word, n: nat) {
    forall j: nat :: j < 32 ==> Bit(w, j) == (Down(a, m, j) + Up(b, n, j)) % 2
  }

  lemma CrossesIff(w: Word, a: Word, b: Word)
    ensures Crosses(w, a, b) <==> w == Xor(a, b)
  {
    forall j: nat | j < 32 ensures Bit(Xor(a, b), j) == (Bit(a, j) + Bit(b, j)) % 2 { BitWordXor(a, b, j); }
    PowersOfTwo();
    if Crosses(w, a, b) { SameBits(w, Xor(a, b), 32); }
  }

  lemma ShiftsCrossIff(w: Word, a: Word, m: nat, b: Word, n: nat)
    ensures ShiftsCross(w, a, m, b, n) <==> w == Xor(Shr(a, m), Shl(b, n))
  {
    hide Bit, Shr, Shl, Down, Up, Xor;
    CrossesIff(w, Shr(a, m), Shl(b, n));
    forall j: nat | j < 32 ensures Bit(Shr(a, m), j) == Down(a, m, j) && Bit(Shl(b, n), j) == Up(b, n, j) {
      BitShr(a, m, j);
      BitShl(b, n, j);
    }
  }

  // The mixing function by bits: of the neighbours, shifted, and of the sum, the key and the neighbours two words
  // each are formed without carry; the sums of two of them, which wrap around, are added without carry.
  lemma MxBits(z: Word, y: Word, sum: Word, k: Word, s: Word, t: Word, u: Word, v: Word, i: nat)
    requires ShiftsCross(s, z, 5, y, 2) && ShiftsCross(t, y, 3, z, 4) && Crosses(u, sum, y) && Crosses(v, k, z)
    requires i < 32
    ensures Bit(Mx(z, y, sum, k), i) == (Bit((s + t) % WORD, i) + Bit((u + v) % WORD, i)) % 2
  {
    hide Bit, Shr, Shl, Xor, Crosses, ShiftsCross;
    ShiftsCrossIff(s, z, 5, y, 2);
    ShiftsCrossIff(t, y, 3, z, 4);
    CrossesIff(u, sum, y);
    CrossesIff(v, k, z);
    BitWordXor(Plus(s, t), Plus(u, v), i);
  }

  lemma XorCancel(a: Word, b: Word, c: Word)
    requires Xor(a, b) == Xor(a, c)
    ensures b == c
  {
    hide Xor, Bit;
    forall j: nat | j < 32 ensures Bit(b, j) == Bit(c, j) {
      BitWordXor(a, b, j);
      BitWordXor(a, c, j);
    }
    PowersOfTwo();
    SameBits(b, c, 32);
  }

  lemma XorSwap(a: Word, b: Word)
    ensures Xor(a, b) == Xor(b, a)
  {
    CrossesIff(Xor(a, b), a, b);
    CrossesIff(Xor(a, b), b, a);
  }

  lemma PlusCancel(a: Word, b: Word, c: Word)
    requires Plus(a, b) == Plus(a, c)
    ensures b == c
  {
  }

  // Different words of the key never mix alike.
  lemma MxTellsKeys(z: Word, y: Word, sum: Word, k: Word, l: Word)
    ensures Mx(z, y, sum, k) == Mx(z, y, sum, l) <==> k == l
  {
    hide Xor, Shr, Shl, Plus;
    if Mx(z, y, sum, k) == Mx(z, y, sum, l) {
      XorCancel(Plus(Xor(Shr(z, 5), Shl(y, 2)), Xor(Shr(y, 3), Shl(z, 4))),
        Plus(Xor(sum, y), Xor(k, z)), Plus(Xor(sum, y), Xor(l, z)));
      PlusCancel(Xor(sum, y), Xor(k, z), Xor(l, z));
      XorSwap(k, z);
      XorSwap(l, z);
      XorCancel(z, k, l);
    }
  }

  // Which word of the key: the low two bits of p, crossed with two bits of the sum.
  function KeyIndex(p: nat, sum: Word): (i: nat)
    ensures i < 4
  {
    PowersOfTwo();
    XorBits(p % 4, sum / 4 % 4, 2)
  }

  lemma KeyIndexBits(p: nat, sum: Word)
    ensures Bit(KeyIndex(p, sum), 0) == (Bit(p, 0) + Bit(sum, 2)) % 2
    ensures Bit(KeyIndex(p, sum), 1) == (Bit(p, 1) + Bit(sum, 3)) % 2
  {
    hide Bit, XorBits;
    PowersOfTwo();
    forall i: nat | i < 2 ensures Bit(KeyIndex(p, sum), i) == (Bit(p, i) + Bit(sum, i + 2)) % 2 {
      BitXor(p % 4, sum / 4 % 4, 2, i);
      BitCut(p, 2, i);
      BitCut(sum / 4, 2, i);
      BitDown(sum, 2, i);
    }
    assert Bit(KeyIndex(p, sum), 0) == (Bit(p, 0) + Bit(sum, 0 + 2)) % 2;
    assert Bit(KeyIndex(p, sum), 1) == (Bit(p, 1) + Bit(sum, 1 + 2)) % 2;
  }

  type Key = k: seq<Word> | |k| == 4 witness [0, 0, 0, 0]

  // The neighbours of a word, in a ring.
  function Left(d: seq<Word>, p: nat): Word
    requires p < |d|
  {
    d[if p == 0 then |d| - 1 else p - 1]
  }

  function Right(d: seq<Word>, p: nat): Word
    requires p < |d|
  {
    d[if p == |d| - 1 then 0 else p + 1]
  }

  // What is added to word p.
  function Mix(d: seq<Word>, p: nat, sum: Word, key: Key): Word
    requires p < |d|
  {
    Mx(Left(d, p), Right(d, p), sum, key[KeyIndex(p, sum)])
  }

  function Stir(d: seq<Word>, p: nat, sum: Word, key: Key): (r: seq<Word>)
    requires p < |d|
    ensures |r| == |d|
  {
    d[p := Plus(d[p], Mix(d, p, sum, key))]
  }

  function Unstir(d: seq<Word>, p: nat, sum: Word, key: Key): (r: seq<Word>)
    requires p < |d|
    ensures |r| == |d|
  {
    d[p := Minus(d[p], Mix(d, p, sum, key))]
  }

  // The first n words stirred, in order; and n words from the end restored, in reverse order.
  function StirFirst(d: seq<Word>, n: nat, sum: Word, key: Key): (r: seq<Word>)
    requires n <= |d|
    ensures |r| == |d|
  {
    if n == 0 then d else Stir(StirFirst(d, n - 1, sum, key), n - 1, sum, key)
  }

  function UnstirFrom(d: seq<Word>, n: nat, sum: Word, key: Key): (r: seq<Word>)
    requires n <= |d|
    ensures |r| == |d|
    decreases |d| - n
  {
    if n == |d| then d else Unstir(UnstirFrom(d, n + 1, sum, key), n, sum, key)
  }

  function Sum(r: nat): Word {
    if r == 0 then 0 else Plus(Sum(r - 1), DELTA)
  }

  // r rounds.
  function Rounds(d: seq<Word>, r: nat, key: Key): (e: seq<Word>)
    ensures |e| == |d|
  {
    if r == 0 then d else var x := Rounds(d, r - 1, key); StirFirst(x, |x|, Sum(r), key)
  }

  // Undoing rounds q down to r + 1.
  function Unrounds(d: seq<Word>, q: nat, r: nat, key: Key): (e: seq<Word>)
    requires r <= q
    ensures |e| == |d|
    decreases q - r
  {
    if r == q then d else UnstirFrom(Unrounds(d, q, r + 1, key), 0, Sum(r + 1), key)
  }

  function RoundCount(len: nat): nat
    requires len > 0
  {
    6 + 52 / len
  }

  lemma RoundCountIs(len: nat)
    requires len > 0
    ensures var q: int := RoundCount(len); (q - 6) * len <= 52 < (q - 5) * len
  {
    DivBounds(52, len);
    Distribute(52 / len, -1, len);
  }

  lemma FewRounds(len: nat)
    requires len > 0
    ensures 6 <= RoundCount(len) <= 58
  {
    DivBounds(52, len);
    if 52 / len > 52 { MulAtLeast(52 / len - 52, len); Distribute(52 / len, 52, len); }
  }

  function Encoded(d: seq<Word>, key: Key): (e: seq<Word>)
    ensures |e| == |d|
  {
    if |d| <= 1 then d else Rounds(d, RoundCount(|d|), key)
  }

  function Decoded(d: seq<Word>, key: Key): (e: seq<Word>)
    ensures |e| == |d|
  {
    if |d| <= 1 then d else Unrounds(d, RoundCount(|d|), 0, key)
  }

  // One round over a ring of words, all at once: every word is mixed with the new word on its left and the old one
  // on its right; but on the first's left is the old last, and on the last's right the new first.
  ghost predicate IsRound(d: seq<Word>, e: seq<Word>, sum: Word, key: Key) {
    |d| == |e| >= 2 && forall p :: 0 <= p < |d| ==> e[p] == Renewed(d, e, p, sum, key)
  }

  function Renewed(d: seq<Word>, e: seq<Word>, p: nat, sum: Word, key: Key): Word
    requires |d| == |e| && p < |d|
  {
    var z, y := if p == 0 then d[|d| - 1] else e[p - 1], if p == |d| - 1 then e[0] else d[p + 1];
    (d[p] + Mx(z, y, sum, key[KeyIndex(p, sum)])) % WORD
  }

  lemma {:induction false} StirFirstAt(d: seq<Word>, n: nat, p: nat, sum: Word, key: Key)
    requires n <= |d| && p < |d|
    ensures StirFirst(d, n, sum, key)[p] == if p < n then StirFirst(d, p + 1, sum, key)[p] else d[p]
    decreases n
  {
    if n > 0 && p != n - 1 { StirFirstAt(d, n - 1, p, sum, key); }
  }

  lemma RoundIs(d: seq<Word>, sum: Word, key: Key)
    requires |d| >= 2
    ensures IsRound(d, StirFirst(d, |d|, sum, key), sum, key)
  {
    hide Mx, KeyIndex;
    var e := StirFirst(d, |d|, sum, key);
    forall p | 0 <= p < |d| ensures e[p] == Renewed(d, e, p, sum, key) {
      var x := StirFirst(d, p, sum, key);
      StirFirstAt(d, |d|, p, sum, key);
      StirFirstAt(d, p, p, sum, key);
      assert e[p] == Plus(d[p], Mix(x, p, sum, key));
      assert Left(x, p) == if p == 0 then d[|d| - 1] else e[p - 1] by {
        if p > 0 { StirFirstAt(d, |d|, p - 1, sum, key); }
      }
      assert Right(x, p) == if p == |d| - 1 then e[0] else d[p + 1] by {
        if p == |d| - 1 {
          StirFirstAt(d, p, 0, sum, key);
          StirFirstAt(d, |d|, 0, sum, key);
        } else {
          StirFirstAt(d, p, p + 1, sum, key);
        }
      }
    }
  }

  // There is just one such round.
  lemma {:induction false} OneRoundOnly(d: seq<Word>, e: seq<Word>, f: seq<Word>, sum: Word, key: Key, n: nat)
    requires IsRound(d, e, sum, key) && IsRound(d, f, sum, key) && n <= |d|
    ensures e[..n] == f[..n]
  {
    hide Renewed;
    if n > 0 {
      OneRoundOnly(d, e, f, sum, key, n - 1);
      RenewedAlike(d, e, f, n - 1, sum, key);
      assert e[..n] == e[..n - 1] + [e[n - 1]] && f[..n] == f[..n - 1] + [f[n - 1]];
    }
  }

  lemma RenewedAlike(d: seq<Word>, e: seq<Word>, f: seq<Word>, p: nat, sum: Word, key: Key)
    requires |d| == |e| == |f| >= 2 && p < |d| && e[..p] == f[..p]
    ensures Renewed(d, e, p, sum, key) == Renewed(d, f, p, sum, key)
  {
    hide Mx, KeyIndex;
    if p > 0 {
      assert e[p - 1] == e[..p][p - 1] && f[p - 1] == f[..p][p - 1];
      assert e[0] == e[..p][0] && f[0] == f[..p][0];
    }
  }

  // Rounds one after another, the r-th with r times the step as its sum.
  ghost predicate IsRun(xs: seq<seq<Word>>, key: Key) {
    xs != [] && forall r :: 0 < r < |xs| ==> IsRound(xs[r - 1], xs[r], r * DELTA % WORD, key)
  }

  // The code is what such a run of as many rounds as there have to be ends with.
  lemma EncodedIs(xs: seq<seq<Word>>, key: Key)
    requires IsRun(xs, key) && |xs[0]| >= 2 && |xs| == RoundCount(|xs[0]|) + 1
    ensures xs[|xs| - 1] == Encoded(xs[0], key)
  {
    RunIs(xs, key, |xs| - 1);
  }

  lemma {:induction false} RunIs(xs: seq<seq<Word>>, key: Key, r: nat)
    requires IsRun(xs, key) && |xs[0]| >= 2 && r < |xs|
    ensures xs[r] == Rounds(xs[0], r, key)
  {
    hide IsRound;
    if r > 0 {
      RunIs(xs, key, r - 1);
      SumIsMultiple(r);
      var d, e := xs[r - 1], StirFirst(xs[r - 1], |xs[r - 1]|, Sum(r), key);
      RoundIs(d, Sum(r), key);
      assert IsRound(d, xs[r], Sum(r), key);
      assert xs[r] == e by { SameRound(d, xs[r], e, Sum(r), key); }
    }
  }

  lemma SameRound(d: seq<Word>, e: seq<Word>, f: seq<Word>, sum: Word, key: Key)
    requires IsRound(d, e, sum, key) && IsRound(d, f, sum, key)
    ensures e == f
  {
    OneRoundOnly(d, e, f, sum, key, |d|);
    assert e[..|d|] == e && f[..|d|] == f;
  }

  // The step of the sum is the greater part of 2^32 in the golden section, rounded down.
  lemma GoldenStep()
    ensures var d: int := DELTA; d * (d + WORD) <= WORD * WORD < (d + 1) * (d + 1 + WORD)
  {
  }

  // A word is not its own neighbour.
  lemma MixKept(d: seq<Word>, p: nat, v: Word, sum: Word, key: Key)
    requires |d| >= 2 && p < |d|
    ensures Mix(d[p := v], p, sum, key) == Mix(d, p, sum, key)
  {
    NeighboursKept(d, p, v);
  }

  lemma NeighboursKept(d: seq<Word>, p: nat, v: Word)
    requires |d| >= 2 && p < |d|
    ensures Left(d[p := v], p) == Left(d, p) && Right(d[p := v], p) == Right(d, p)
  {
  }

  lemma Cancel(a: Word, m: Word)
    ensures Minus(Plus(a, m), m) == a && Plus(Minus(a, m), m) == a
  {
  }

  lemma UnstirStir(d: seq<Word>, p: nat, sum: Word, key: Key)
    requires |d| >= 2 && p < |d|
    ensures Unstir(Stir(d, p, sum, key), p, sum, key) == d
  {
    MixKept(d, p, Plus(d[p], Mix(d, p, sum, key)), sum, key);
    Cancel(d[p], Mix(d, p, sum, key));
  }

  lemma StirUnstir(d: seq<Word>, p: nat, sum: Word, key: Key)
    requires |d| >= 2 && p < |d|
    ensures Stir(Unstir(d, p, sum, key), p, sum, key) == d
  {
    MixKept(d, p, Minus(d[p], Mix(d, p, sum, key)), sum, key);
    Cancel(d[p], Mix(d, p, sum, key));
  }

  // Restoring from the end undoes stirring from the start.
  lemma {:induction false} RoundUndone(d: seq<Word>, e: seq<Word>, n: nat, sum: Word, key: Key)
    requires |d| == |e| >= 2 && n <= |d| && e == StirFirst(d, |d|, sum, key)
    ensures UnstirFrom(e, n, sum, key) == StirFirst(d, n, sum, key)
    decreases |d| - n
  {
    if n == |d| {
      assert UnstirFrom(e, n, sum, key) == e;
    } else {
      RoundUndone(d, e, n + 1, sum, key);
      assert UnstirFrom(e, n, sum, key) == StirFirst(d, n, sum, key) by { WordUndone(d, e, n, sum, key); }
    }
  }

  lemma WordUndone(d: seq<Word>, e: seq<Word>, n: nat, sum: Word, key: Key)
    requires |d| == |e| >= 2 && n < |d| && UnstirFrom(e, n + 1, sum, key) == StirFirst(d, n + 1, sum, key)
    ensures UnstirFrom(e, n, sum, key) == StirFirst(d, n, sum, key)
  {
    UnstirLast(e, StirFirst(d, n, sum, key), n, sum, key);
  }

  lemma UnstirLast(e: seq<Word>, x: seq<Word>, n: nat, sum: Word, key: Key)
    requires |e| == |x| >= 2 && n < |e| && UnstirFrom(e, n + 1, sum, key) == Stir(x, n, sum, key)
    ensures UnstirFrom(e, n, sum, key) == x
  {
    UnstirStir(x, n, sum, key);
  }

  lemma {:induction false} RoundRedone(d: seq<Word>, n: nat, sum: Word, key: Key)
    requires |d| >= 2 && n <= |d|
    ensures StirFirst(UnstirFrom(d, 0, sum, key), n, sum, key) == UnstirFrom(d, n, sum, key)
  {
    if n > 0 {
      RoundRedone(d, n - 1, sum, key);
      StirUnstir(UnstirFrom(d, n, sum, key), n - 1, sum, key);
    }
  }

  lemma {:induction false} RoundsUndone(d: seq<Word>, q: nat, r: nat, key: Key)
    requires |d| >= 2 && r <= q
    ensures Unrounds(Rounds(d, q, key), q, r, key) == Rounds(d, r, key)
    decreases q - r
  {
    if r < q {
      RoundsUndone(d, q, r + 1, key);
      RoundUndone(Rounds(d, r, key), Rounds(d, r + 1, key), 0, Sum(r + 1), key);
    }
  }

  lemma {:induction false} RoundsRedone(d: seq<Word>, q: nat, r: nat, key: Key)
    requires |d| >= 2 && r <= q
    ensures Rounds(Unrounds(d, q, 0, key), r, key) == Unrounds(d, q, r, key)
  {
    if r > 0 {
      RoundsRedone(d, q, r - 1, key);
      var x := Unrounds(d, q, r, key);
      RoundRedone(x, |x|, Sum(r), key);
    }
  }

  // Decoding undoes encoding, and the other way round, whatever the words and the key.
  lemma DecodeEncode(d: seq<Word>, key: Key)
    ensures Decoded(Encoded(d, key), key) == d
    ensures Encoded(Decoded(d, key), key) == d
  {
    if |d| > 1 {
      RoundsUndone(d, RoundCount(|d|), 0, key);
      RoundsRedone(d, RoundCount(|d|), RoundCount(|d|), key);
    }
  }

  // An odd factor takes no power of two away.
  lemma {:induction false} OddFactor(r: nat, d: nat, k: nat)
    requires d % 2 == 1 && r * d % Pow(2, k) == 0
    ensures r % Pow(2, k) == 0
  {
    if k > 0 {
      var h := Pow(2, k - 1);
      var m, rest := DivMod(r * d, 2 * h);
      assert r * d == 2 * (m * h) by { Assoc(m, 2, h); Assoc(2, m, h); }
      EvenFactor(r, d);
      var s := r / 2;
      assert r * d == 2 * (s * d) by { Assoc(2, s, d); }
      QuotientIs(s * d, h, m, 0);
      OddFactor(s, d, k - 1);
      var n, none := DivMod(s, h);
      assert r == n * (2 * h) by { Assoc(n, 2, h); Assoc(2, n, h); }
      QuotientIs(r, 2 * h, n, 0);
    }
  }

  lemma EvenFactor(r: nat, d: nat)
    requires d % 2 == 1 && r * d % 2 == 0
    ensures r % 2 == 0
  {
    var q := d / 2;
    assert r * d == 2 * (r * q) + r by { Assoc(r, 2, q); Assoc(2, r, q); Distribute(2 * q, 1, r); }
  }

  lemma {:induction false} SumIsMultiple(r: nat)
    ensures Sum(r) == r * DELTA % WORD
  {
    if r > 0 {
      SumIsMultiple(r - 1);
      Distribute(r - 1, -1, DELTA);
      WrapPlus((r - 1) * DELTA, DELTA);
    }
  }

  lemma WrapPlus(a: nat, b: Word)
    ensures Plus(a % WORD, b) == (a + b) % WORD
  {
  }

  // The sum does not come back to zero before as many rounds as there are words: its step is odd.
  lemma SumNotZero(r: nat)
    requires 0 < r < WORD
    ensures Sum(r) != 0
  {
    SumIsMultiple(r);
    PowersOfTwo();
    if r * DELTA % WORD == 0 { OddFactor(r, DELTA, 32); }
  }

  // Encodes in place: z and y run along with p and are always the neighbours of data[p].
  method XxteaEncode(data: array<Word>, key: Key)
    modifies data
    ensures data[..] == Encoded(old(data[..]), key)
  {
    hide StirFirst;
    if data.Length <= 1 { return; }
    var n := data.Length - 1;
    var z, y, q, sum := data[n], data[0], RoundCount(data.Length), 0;
    ghost var r, rounds, start := 0, q, data[..];
    FewRounds(data.Length);
    while 0 < q
      invariant 0 <= q && 0 <= r && q + r == rounds <= 58 && sum == Sum(r)
      invariant data[..] == Rounds(start, r, key) && z == data[n]
      decreases q
    {
      q := q - 1;
      sum := Plus(sum, DELTA);
      r := r + 1;
      OneRound(start, r, key);
      z := EncodeRound(data, key, z, sum);
    }
  }

  lemma OneRound(d: seq<Word>, r: nat, key: Key)
    requires r > 0
    ensures Rounds(d, r, key) == StirFirst(Rounds(d, r - 1, key), |d|, Sum(r), key)
  {
  }

  method EncodeRound(data: array<Word>, key: Key, last: Word, sum: Word) returns (z: Word)
    requires data.Length >= 2 && last == data[data.Length - 1]
    modifies data
    ensures data[..] == StirFirst(old(data[..]), data.Length, sum, key) && z == data[data.Length - 1]
  {
    var n := data.Length - 1;
    var p, y := 0, data[0];
    ghost var start := data[..];
    z := last;
    while p < n
      invariant 0 <= p <= n && data[..] == StirFirst(start, p, sum, key) && z == Left(data[..], p)
    {
      y := data[p + 1];
      z := StirWord(data, p, key, z, y, sum);
      p := p + 1;
      assert StirFirst(start, p, sum, key) == Stir(StirFirst(start, p - 1, sum, key), p - 1, sum, key);
    }
    y := data[0];
    z := StirWord(data, n, key, z, y, sum);
  }

  method StirWord(data: array<Word>, p: nat, key: Key, z: Word, y: Word, sum: Word) returns (w: Word)
    requires p < data.Length && z == Left(data[..], p) && y == Right(data[..], p)
    modifies data
    ensures data[..] == Stir(old(data[..]), p, sum, key) && w == data[p]
  {
    w := Plus(data[p], Mx(z, y, sum, key[KeyIndex(p, sum)]));
    data[p] := w;
  }

  // Decodes in place; the loop ends when the sum has come back to zero, that is after as many rounds as
  // the encoder made.
  method XxteaDecode(data: array<Word>, key: Key)
    modifies data
    ensures data[..] == Decoded(old(data[..]), key)
  {
    if data.Length <= 1 { return; }
    var q := RoundCount(data.Length);
    var y, sum := data[0], q * DELTA % WORD;
    ghost var r := q;
    SumIsMultiple(q);
    FewRounds(data.Length);
    while sum != 0
      invariant 0 <= r <= q <= 58 && sum == Sum(r) && data[..] == Unrounds(old(data[..]), q, r, key) && y == data[0]
      decreases r
    {
      y := DecodeRound(data, key, y, sum);
      Cancel(Sum(r - 1), DELTA);
      sum := Minus(sum, DELTA);
      r := r - 1;
    }
    if r > 0 { SumNotZero(r); }
  }

  method DecodeRound(data: array<Word>, key: Key, first: Word, sum: Word) returns (y: Word)
    requires data.Length >= 2 && first == data[0]
    modifies data
    ensures data[..] == UnstirFrom(old(data[..]), 0, sum, key) && y == data[0]
  {
    var n := data.Length - 1;
    var p, z := n, data[n];
    y := first;
    while p > 0
      invariant 0 <= p <= n && data[..] == UnstirFrom(old(data[..]), p + 1, sum, key) && y == Right(data[..], p)
    {
      z := data[p - 1];
      y := UnstirWord(data, p, key, z, y, sum);
      p := p - 1;
    }
    z := data[n];
    y := UnstirWord(data, 0, key, z, y, sum);
  }

  method UnstirWord(data: array<Word>, p: nat, key: Key, z: Word, y: Word, sum: Word) returns (w: Word)
    requires p < data.Length && z == Left(data[..], p) && y == Right(data[..], p)
    modifies data
    ensures data[..] == Unstir(old(data[..]), p, sum, key) && w == data[p]
  {
    w := Minus(data[p], Mx(z, y, sum, key[KeyIndex(p, sum)]));
    data[p] := w;
  }

  // A word is four bytes, the lowest first.
  function Load(b: seq<Byte>): Word
    requires |b| == 4
  {
    var b0: int, b1: int, b2: int, b3: int := b[0], b[1], b[2], b[3];
    b0 + 0x100 * b1 + 0x1_0000 * b2 + 0x100_0000 * b3
  }

  function Store(w: Word): (b: seq<Byte>)
    ensures |b| == 4
  {
    [w % 0x100, w / 0x100 % 0x100, w / 0x1_0000 % 0x100, w / 0x100_0000]
  }

  // A number by its lowest byte and the rest.
  lemma LowByte(q: int, r: int)
    requires 0 <= r < 0x100
    ensures (r + 0x100 * q) / 0x100 == q && (r + 0x100 * q) % 0x100 == r
  {
  }

  lemma ByteByByte(w: int)
    ensures w / 0x1_0000 == w / 0x100 / 0x100 && w / 0x100_0000 == w / 0x100 / 0x100 / 0x100
  {
  }

  lemma LoadStore(w: Word)
    ensures Load(Store(w)) == w
  {
    ByteByByte(w);
    var x := w / 0x100;
    assert w == w % 0x100 + 0x100 * x && x == x % 0x100 + 0x100 * (x / 0x100);
    assert x / 0x100 == x / 0x100 % 0x100 + 0x100 * (x / 0x100 / 0x100);
  }

  lemma StoreLoad(b: seq<Byte>)
    requires |b| == 4
    ensures Store(Load(b)) == b
  {
    var b0: int, b1: int, b2: int, b3: int := b[0], b[1], b[2], b[3];
    var w := Load(b);
    assert w == b0 + 0x100 * (b1 + 0x100 * (b2 + 0x100 * b3));
    LowByte(b1 + 0x100 * (b2 + 0x100 * b3), b0);
    LowByte(b2 + 0x100 * b3, b1);
    LowByte(b3, b2);
    ByteByByte(w);
  }

  function Words(b: seq<Byte>): (d: seq<Word>)
    ensures 4 * |d| <= |b| < 4 * |d| + 4
  {
    if |b| < 4 then [] else Words(b[..|b| - 4]) + [Load(b[|b| - 4..])]
  }

  function Bytes(d: seq<Word>): (b: seq<Byte>)
    ensures |b| == 4 * |d|
  {
    if d == [] then [] else Bytes(d[..|d| - 1]) + Store(d[|d| - 1])
  }

  // Whole words come without a remainder.
  lemma WordByWord(n: nat, words: nat)
    requires n % 4 == 0
    ensures 4 * words <= n < 4 * words + 4 ==> n == 4 * words
  {
    assert n == n / 4 * 4;
  }

  lemma {:induction false} BytesWords(b: seq<Byte>)
    requires |b| % 4 == 0
    ensures Bytes(Words(b)) == b
  {
    if b != [] {
      var init, last := b[..|b| - 4], b[|b| - 4..];
      BytesWords(init);
      StoreLoad(last);
      BytesLast(Words(init), Load(last));
      assert b == init + last;
    }
  }

  lemma BytesLast(d: seq<Word>, w: Word)
    ensures Bytes(d + [w]) == Bytes(d) + Store(w)
  {
    assert (d + [w])[..|d|] == d;
  }

  lemma {:induction false} WordsBytes(d: seq<Word>)
    ensures Words(Bytes(d)) == d
  {
    if d != [] {
      WordsBytes(d[..|d| - 1]);
      WordsLast(Bytes(d[..|d| - 1]), d[|d| - 1]);
      LastWord(d);
    }
  }

  lemma LastWord(d: seq<Word>)
    requires d != []
    ensures d == d[..|d| - 1] + [d[|d| - 1]]
  {
  }

  lemma WordsLast(b: seq<Byte>, w: Word)
    ensures Words(b + Store(w)) == Words(b) + [w]
  {
    var c := b + Store(w);
    assert c[..|c| - 4] == b && c[|c| - 4..] == Store(w);
    LoadStore(w);
  }

  // The bytes of a word are its digits, the lowest first, and the words of a text follow one another.
  lemma {:induction false} BytesAt(d: seq<Word>, i: nat, j: nat)
    requires i < |d| && j < 4
    ensures Bytes(d)[4 * i + j] == d[i] / Pow(0x100, j) % 0x100
  {
    if i < |d| - 1 {
      BytesAt(d[..|d| - 1], i, j);
    } else {
      assert Pow(0x100, 0) == 1 && Pow(0x100, 1) == 0x100 && Pow(0x100, 2) == 0x1_0000 && Pow(0x100, 3) == 0x100_0000;
    }
  }

  lemma WordsAt(b: seq<Byte>, i: nat, j: nat)
    requires |b| % 4 == 0 && 4 * i < |b| && j < 4
    ensures |Words(b)| == |b| / 4 && Words(b)[i] / Pow(0x100, j) % 0x100 == b[4 * i + j]
  {
    WordByWord(|b|, |Words(b)|);
    BytesWords(b);
    BytesAt(Words(b), i, j);
  }

  const KEY_LENGTH := 16

  datatype Code = Success | ErrorXxteaKeyError | ErrorXxteaDecodeFailed

  // The last block: what is left over of the text, filled up with the number of bytes missing.
  function Trailer(left: seq<Byte>): (t: seq<Byte>)
    requires |left| < 4
    ensures |t| == 4
  {
    left + seq(4 - |left|, _ => 4 - |left|)
  }

  function WithTrailer(body: seq<Byte>, left: seq<Byte>): (t: seq<Byte>)
    requires |body| % 4 == 0 && |left| < 4
    ensures |t| == |body| + 4 && |t| % 4 == 0
  {
    body + Trailer(left)
  }

  function Whole(n: nat): (w: nat)
    ensures w <= n < w + 4 && w % 4 == 0 && (w == 0 <==> n < 4)
  {
    n - n % 4
  }

  // The text of whole words goes through the cipher; the trailer follows as it is.
  function EncodedText(src: seq<Byte>, key: Key): (t: seq<Byte>)
    ensures |t| % 4 == 0
  {
    if src == [] then []
    else var w := Whole(|src|); WithTrailer(Enciphered(src[..w], key), src[w..])
  }

  function Enciphered(b: seq<Byte>, key: Key): (c: seq<Byte>)
    requires |b| % 4 == 0
    ensures |c| == |b|
  {
    WordByWord(|b|, |Words(b)|);
    Bytes(Encoded(Words(b), key))
  }

  function DecodedText(src: seq<Byte>, key: Key): seq<Byte>
    requires |src| % 4 == 0
  {
    if |src| <= 4 then src else Deciphered(src[..|src| - 4], key) + Remnant(src[|src| - 4..])
  }

  function Deciphered(b: seq<Byte>, key: Key): seq<Byte>
    requires |b| % 4 == 0
  {
    Bytes(Decoded(Words(b), key))
  }

  // What the last block adds to the text.
  function Remnant(t: seq<Byte>): seq<Byte>
    requires |t| == 4
  {
    if t[3] >= 4 then [] else t[..4 - t[3]]
  }

  // The last byte of the trailer says how much of it is filling.
  lemma TrailerCut(left: seq<Byte>)
    requires |left| < 4
    ensures Remnant(Trailer(left)) == left
  {
  }

  // Behind the enciphered words stands what is left of the text, filled up to four bytes with how many are missing.
  lemma EncodedTextIs(src: seq<Byte>, key: Key)
    requires src != []
    ensures var t, w := EncodedText(src, key), |src| / 4 * 4;
            && |t| == w + 4 && Words(t[..w]) == Encoded(Words(src[..w]), key)
            && forall i :: w <= i < w + 4 ==> t[i] == if i < |src| then src[i] else w + 4 - |src|
  {
    var w := Whole(|src|);
    assert w == |src| / 4 * 4;
    var body, left := Enciphered(src[..w], key), src[w..];
    WordsBytes(Encoded(Words(src[..w]), key));
    assert EncodedText(src, key)[..w] == body;
  }

  lemma DecipherEncipher(b: seq<Byte>, key: Key)
    requires |b| % 4 == 0
    ensures Deciphered(Enciphered(b, key), key) == b
  {
    WordsBytes(Encoded(Words(b), key));
    DecodeEncode(Words(b), key);
    BytesWords(b);
  }

  lemma DecodedParts(body: seq<Byte>, t: seq<Byte>, key: Key)
    requires |body| % 4 == 0 && body != [] && |t| == 4
    ensures DecodedText(body + t, key) == Deciphered(body, key) + Remnant(t)
  {
    var src := body + t;
    assert src[..|src| - 4] == body && src[|src| - 4..] == t;
  }

  // Decoding gives the text back just if it is not of one to three bytes; of those it gives the trailer.
  lemma TextRoundTrip(src: seq<Byte>, key: Key)
    ensures DecodedText(EncodedText(src, key), key) == src <==> |src| == 0 || |src| >= 4
  {
    if |src| >= 4 { LongRoundTrip(src, key); } else { ShortText(src, key); }
  }

  lemma ShortText(src: seq<Byte>, key: Key)
    requires |src| < 4
    ensures EncodedText(src, key) == if src == [] then [] else Trailer(src)
  {
    if src != [] {
      assert Enciphered(src[..0], key) == [] && src[0..] == src;
      assert [] + Trailer(src) == Trailer(src);
    }
  }

  lemma LongRoundTrip(src: seq<Byte>, key: Key)
    requires |src| >= 4
    ensures DecodedText(EncodedText(src, key), key) == src
  {
    var w := Whole(|src|);
    var b, left := src[..w], src[w..];
    assert src == b + left;
    assert EncodedText(src, key) == WithTrailer(Enciphered(b, key), left);
    WholeRoundTrip(b, left, key);
  }

  lemma WholeRoundTrip(b: seq<Byte>, left: seq<Byte>, key: Key)
    requires |b| % 4 == 0 && b != [] && |left| < 4
    ensures DecodedText(WithTrailer(Enciphered(b, key), left), key) == b + left
  {
    DecodedParts(Enciphered(b, key), Trailer(left), key);
    DecipherEncipher(b, key);
    TrailerCut(left);
  }

  class PureXxtea {
    var output: seq<Byte>

    constructor ()
      ensures output == []
    {
      output := [];
    }

    method Encode(src: seq<Byte>, key: seq<Byte>) returns (r: Code)
      modifies this
      ensures r == if |key| == KEY_LENGTH then Success else ErrorXxteaKeyError
      ensures output == if |key| == KEY_LENGTH then EncodedText(src, Words(key)) else old(output)
    {
      if |key| != KEY_LENGTH { return ErrorXxteaKeyError; }
      var pass := LoadWords(key, 4);
      output := [];
      if |src| == 0 { return Success; }
      var alignData, whole := Align(src);
      var words := LoadWords(src[..whole], whole / 4);
      var buffer := new Word[|words|](i requires 0 <= i < |words| => words[i]);
      assert buffer[..] == words;
      XxteaEncode(buffer, pass);
      var text := StoreWords(buffer[..]);
      output := text + alignData[..];
      return Success;
    }

    method Decode(src: seq<Byte>, key: seq<Byte>) returns (r: Code)
      modifies this
      ensures r == if |key| != KEY_LENGTH then ErrorXxteaKeyError else if |src| % 4 != 0 then ErrorXxteaDecodeFailed
        else Success
      ensures output == if r == Success then DecodedText(src, Words(key)) else old(output)
    {
      if |key| != KEY_LENGTH { return ErrorXxteaKeyError; }
      var pass := LoadWords(key, 4);
      if |src| % 4 != 0 { return ErrorXxteaDecodeFailed; }
      if |src| <= 4 {
        output := src;
        return Success;
      }
      var words := LoadWords(src[..|src| - 4], (|src| - 4) / 4);
      var buffer := new Word[|words|](i requires 0 <= i < |words| => words[i]);
      assert buffer[..] == words;
      XxteaDecode(buffer, pass);
      output := StoreWords(buffer[..]);
      var alignData := src[|src| - 4..];
      var align := alignData[3];
      if align >= 4 { return Success; }
      output := output + alignData[..4 - align];
      return Success;
    }
  }

  // Splits off the trailer.
  method Align(src: seq<Byte>) returns (alignData: array<Byte>, whole: nat)
    ensures whole == Whole(|src|) && fresh(alignData) && alignData[..] == Trailer(src[whole..])
  {
    var leftSize := |src| % 4;
    whole := |src| - leftSize;
    alignData := new Byte[4](_ => 4);
    ghost var t := Trailer(src[whole..]);
    if leftSize != 0 {
      var i := 0;
      while i < 4
        modifies alignData
        invariant 0 <= i <= 4 && forall k :: 0 <= k < i ==> alignData[k] == t[k]
      {
        alignData[i] := if i < leftSize then src[whole + i] else 4 - leftSize;
        i := i + 1;
      }
    }
    assert alignData[..] == t;
  }

  method LoadWords(b: seq<Byte>, n: nat) returns (d: seq<Word>)
    requires |b| == 4 * n
    ensures d == Words(b)
  {
    d := [];
    var i := 0;
    assert b[..0] == [];
    while i < n
      invariant 0 <= i <= n && d == Words(b[..4 * i])
    {
      NextWord(b, 4 * i);
      d := d + [Load(b[4 * i..4 * i + 4])];
      i := i + 1;
    }
    assert b[..4 * i] == b;
  }

  lemma NextWord(b: seq<Byte>, i: nat)
    requires i + 4 <= |b|
    ensures Words(b[..i + 4]) == Words(b[..i]) + [Load(b[i..i + 4])]
  {
    assert b[..i + 4][..i] == b[..i] && b[..i + 4][i..] == b[i..i + 4];
  }

  method StoreWords(d: seq<Word>) returns (b: seq<Byte>)
    ensures b == Bytes(d)
  {
    b := [];
    var i := 0;
    while i < |d|
      invariant 0 <= i <= |d| && b == Bytes(d[..i])
    {
      assert d[..i + 1][..i] == d[..i];
      b := b + Store(d[i]);
      i := i + 1;
    }
    assert d[..i] == d;
  }
}
