// MessagePack integers: the forms of the format, the shortest one for each value, and how a reader of any
// width takes them.
module MsgPackInts {
  import opened Arithmetic
  import opened Octets

  // Header bytes.
  const POSITIVE_FIXINT_TO := 0x7f
  const FIXMAP_FROM := 0x80
  const FIXMAP_TO := 0x8f
  const FIXARRAY_FROM := 0x90
  const FIXARRAY_TO := 0x9f
  const FIXSTR_FROM := 0xa0
  const FIXSTR_TO := 0xbf
  const NIL := 0xc0
  const INVALID := 0xc1
  const FALSE := 0xc2
  const TRUE := 0xc3
  const BIN8 := 0xc4
  const BIN16 := 0xc5
  const BIN32 := 0xc6
  const OBJ8 := 0xc7
  const OBJ16 := 0xc8
  const OBJ32 := 0xc9
  const FLOAT32 := 0xca
  const FLOAT64 := 0xcb
  const UINT8 := 0xcc
  const UINT16 := 0xcd
  const UINT32 := 0xce
  const UINT64 := 0xcf
  const INT8 := 0xd0
  const INT16 := 0xd1
  const INT32 := 0xd2
  const INT64 := 0xd3
  const STR8 := 0xd9
  const STR16 := 0xda
  const STR32 := 0xdb
  const ARRAY16 := 0xdc
  const ARRAY32 := 0xdd
  const MAP16 := 0xde
  const MAP32 := 0xdf
  const NEGATIVE_FIXINT_FROM := 0xe0

  // The values of n bytes.
  function Span(n: nat): (m: int)
    ensures m >= 1
  {
    if n == 0 then 1 else 0x100 * Span(n - 1)
  }

  // Big-endian, in n bytes; what does not fit is cut off.
  function Store(v: int, n: nat): (b: seq<Byte>)
    ensures |b| == n
    decreases n
  {
    if n == 0 then [] else Store(v / 0x100, n - 1) + [v % 0x100]
  }

  function Load(b: seq<Byte>): (v: int)
    ensures 0 <= v < Span(|b|)
  {
    if b == [] then 0 else Load(b[..|b| - 1]) * 0x100 + b[|b| - 1]
  }

  lemma {:induction false} StoreLoad(b: seq<Byte>)
    ensures Store(Load(b), |b|) == b
  {
    if b != [] {
      var init, last := b[..|b| - 1], b[|b| - 1];
      StoreLoad(init);
      var high, low: int := Load(init), last;
      assert (high * 0x100 + low) / 0x100 == high && (high * 0x100 + low) % 0x100 == low;
      assert b == init + [last];
    }
  }

  // The bytes are the digits, the highest first.
  lemma {:induction false} StoreDigit(v: int, n: nat, i: nat)
    requires i < n
    ensures Store(v, n)[i] == v / Span(n - 1 - i) % 0x100
    decreases n
  {
    if i < n - 1 {
      StoreDigit(v / 0x100, n - 1, i);
      DivDiv(v, 0x100, Span(n - 2 - i));
    }
  }

  lemma LoadDigit(b: seq<Byte>, i: nat)
    requires i < |b|
    ensures Load(b) / Span(|b| - 1 - i) % 0x100 == b[i]
  {
    StoreLoad(b);
    StoreDigit(Load(b), |b|, i);
  }

  // Storing a negative number stores its two's complement.
  lemma {:induction false} StoreWraps(v: int, n: nat)
    ensures Store(v + Span(n), n) == Store(v, n)
    decreases n
  {
    if n > 0 {
      StoreWraps(v / 0x100, n - 1);
      assert (v + 0x100 * Span(n - 1)) / 0x100 == v / 0x100 + Span(n - 1);
    }
  }

  lemma Spans()
    ensures Span(1) == 0x100 && Span(2) == 0x1_0000 && Span(4) == 0x1_0000_0000 && Span(8) == 0x1_0000_0000_0000_0000
  {
    assert Span(3) == 0x100_0000;
    assert Span(6) == 0x1_0000_0000_0000;
  }

  // The integer types of the interface.
  datatype Width = U8 | U16 | U32 | U64 | I8 | I16 | I32 | I64

  function Size(w: Width): (n: nat)
    ensures n == 1 || n == 2 || n == 4 || n == 8
  {
    match w case U8 => 1 case U16 => 2 case U32 => 4 case U64 => 8 case I8 => 1 case I16 => 2 case I32 => 4
    case I64 => 8
  }

  predicate Signed(w: Width) {
    w.I8? || w.I16? || w.I32? || w.I64?
  }

  predicate InRange(w: Width, v: int) {
    if Signed(w) then -(Span(Size(w)) / 2) <= v < Span(Size(w)) / 2 else 0 <= v < Span(Size(w))
  }

  // What a cast to the type makes of a number.
  function Cast(w: Width, v: int): (r: int)
  {
    var m := v % Span(Size(w));
    if Signed(w) && m >= Span(Size(w)) / 2 then m - Span(Size(w)) else m
  }

  lemma CastFits(w: Width, v: int)
    ensures InRange(w, Cast(w, v)) && (InRange(w, v) ==> Cast(w, v) == v)
  {
    Spans();
    ModNear(v, Span(Size(w)));
  }

  lemma ModNear(v: int, n: int)
    requires n > 0
    ensures 0 <= v % n < n && (0 <= v < n ==> v % n == v) && (-n <= v < 0 ==> v % n == v + n)
  {
    if 0 <= v < n { QuotientIs(v, n, 0, v); }
    if -n <= v < 0 { QuotientIs(v, n, -1, v + n); }
  }

  // The forms an integer can have on the wire: in the header itself, or after a header that names a type.
  datatype Form = Fix | After(w: Width)

  function Header(w: Width): Byte {
    match w
    case U8 => UINT8 case U16 => UINT16 case U32 => UINT32 case U64 => UINT64
    case I8 => INT8 case I16 => INT16 case I32 => INT32 case I64 => INT64
  }

  predicate Holds(f: Form, v: int) {
    match f case Fix => -0x20 <= v < 0x80 case After(w) => InRange(w, v)
  }

  function Wire(f: Form, v: int): (b: seq<Byte>)
    requires Holds(f, v)
  {
    match f case Fix => [v % 0x100] case After(w) => [Header(w)] + Store(v, Size(w))
  }

  // The form the packer uses.
  function Choose(v: int): (f: Form)
    requires -0x8000_0000_0000_0000 <= v < 0x1_0000_0000_0000_0000
  {
    if -0x20 <= v < 0x80 then Fix
    else After(
      if 0 <= v < 0x100 then U8 else if 0 <= v < 0x1_0000 then U16 else if 0 <= v < 0x1_0000_0000 then U32
      else if 0 <= v then U64
      else if -0x80 <= v then I8 else if -0x8000 <= v then I16 else if -0x8000_0000 <= v then I32 else I64)
  }

  predicate Packable(v: int) {
    -0x8000_0000_0000_0000 <= v < 0x1_0000_0000_0000_0000
  }

  function Packed(v: int): (b: seq<Byte>)
    requires Packable(v)
    ensures 1 <= |b| <= 9
  {
    ChooseHolds(v);
    Wire(Choose(v), v)
  }

  lemma ChooseHolds(v: int)
    requires Packable(v)
    ensures Holds(Choose(v), v)
  {
    Spans();
  }

  // The header of the packed form and its length, by the value; behind the header, the digits of the number or
  // its two's complement.
  lemma PackedIs(v: int)
    requires Packable(v)
    ensures var b := Packed(v);
            && (b[0], |b|) ==
                 (if -0x20 <= v < 0x80 then (v % 0x100, 1) else if 0 <= v < 0x100 then (0xcc, 2)
                  else if 0 <= v < 0x1_0000 then (0xcd, 3) else if 0 <= v < 0x1_0000_0000 then (0xce, 5)
                  else if 0 <= v then (0xcf, 9) else if -0x80 <= v then (0xd0, 2) else if -0x8000 <= v then (0xd1, 3)
                  else if -0x8000_0000 <= v then (0xd2, 5) else (0xd3, 9))
            && forall i :: 1 <= i < |b| ==> b[i] == v / Span(|b| - 1 - i) % 0x100
  {
    hide Store;
    Spans();
    var f := Choose(v);
    if f.After? {
      var n := Size(f.w);
      forall i | 1 <= i < |Packed(v)| ensures Packed(v)[i] == v / Span(|Packed(v)| - 1 - i) % 0x100 {
        StoreDigit(v, n, i - 1);
      }
    }
  }

  // No form of the format that can hold the value is shorter.
  lemma PackedIsShortest(v: int, f: Form)
    requires Packable(v) && Holds(f, v)
    ensures |Packed(v)| <= |Wire(f, v)|
  {
    Spans();
    ChooseHolds(v);
  }

  datatype Code = Success | ErrorMsgTypeError | ErrorReadBufferFailed

  // What a read gives: a value, or an error; and how many bytes it has gone on by.
  datatype Read<T> = Got(value: T, used: nat) | Failed(code: Code, used: nat)

  // The bytes of a number that follow the first ones.
  function TakeInt(t: Width, s: seq<Byte>, at: nat): (r: Read<int>)
    ensures r.Failed? ==> r.code != Success
  {
    if |s| < at + Size(t) then Failed(ErrorReadBufferFailed, at)
    else Got(Cast(t, Load(s[at..at + Size(t)])), at + Size(t))
  }

  function CastRead(w: Width, r: Read<int>): Read<int> {
    match r case Got(v, used) => Got(Cast(w, v), used) case Failed(_, _) => r
  }

  // The headers every reader but those of single bytes takes.
  function CheckInt(w: Width, h: Byte, s: seq<Byte>): Read<int> {
    if h == INT32 then CastRead(w, TakeInt(I32, s, 1))
    else if h == UINT32 then CastRead(w, TakeInt(U32, s, 1))
    else if h == INT16 then CastRead(w, TakeInt(I16, s, 1))
    else if h == UINT16 then CastRead(w, TakeInt(U16, s, 1))
    else if h == INT8 then CastRead(w, TakeInt(I8, s, 1))
    else if h == UINT8 then CastRead(w, TakeInt(U8, s, 1))
    else if h >= NEGATIVE_FIXINT_FROM || h <= POSITIVE_FIXINT_TO then Got(Cast(w, Cast(I8, h)), 1)
    else Failed(ErrorMsgTypeError, 1)
  }

  function ReadInt(w: Width, s: seq<Byte>): Read<int> {
    if s == [] then Failed(ErrorMsgTypeError, 0)
    else if s[0] == INVALID then Failed(ErrorMsgTypeError, 1)
    else
      match w
      case U8 => if s[0] == UINT8 then TakeInt(U8, s, 1) else if s[0] <= POSITIVE_FIXINT_TO then Got(s[0], 1)
      else Failed(ErrorMsgTypeError, 1)
      case I8 =>
        if s[0] == INT8 then TakeInt(I8, s, 1)
        else if s[0] >= NEGATIVE_FIXINT_FROM || s[0] <= POSITIVE_FIXINT_TO then Got(Cast(I8, s[0]), 1)
        else Failed(ErrorMsgTypeError, 1)
      case U16 => if s[0] == UINT16 then TakeInt(U16, s, 1) else CheckInt(w, s[0], s)
      case U32 => if s[0] == UINT32 then TakeInt(U32, s, 1) else CheckInt(w, s[0], s)
      case U64 => if s[0] == UINT64 then TakeInt(U64, s, 1) else CheckInt(w, s[0], s)
      case I16 => if s[0] == INT16 || s[0] == UINT16 then TakeInt(I16, s, 1) else CheckInt(w, s[0], s)
      case I32 => if s[0] == INT32 || s[0] == UINT32 then TakeInt(I32, s, 1) else CheckInt(w, s[0], s)
      case I64 => if s[0] == INT64 || s[0] == UINT64 then TakeInt(I64, s, 1) else CheckInt(w, s[0], s)
  }

  // The bytes of a number read back as that number, under the type they were stored for or one that casts
  // to the same.
  lemma TakeStored(t: Width, v: int, h: Byte, rest: seq<Byte>)
    ensures TakeInt(t, [h] + Store(v, Size(t)) + rest, 1) == Got(Cast(t, v), 1 + Size(t))
  {
    var n := Size(t);
    var s := [h] + Store(v, n) + rest;
    assert s[1..1 + n] == Store(v, n);
    LoadStored(v, n);
    CastOfModulus(t, v);
  }

  lemma {:induction false} LoadStored(v: int, n: nat)
    ensures Load(Store(v, n)) == v % Span(n)
    decreases n
  {
    if n > 0 {
      LoadStored(v / 0x100, n - 1);
      var b := Store(v, n);
      assert b[..n - 1] == Store(v / 0x100, n - 1) && b[n - 1] == v % 0x100;
      ModSpan(v, n);
    }
  }

  lemma ModSpan(v: int, n: nat)
    requires n > 0
    ensures v % Span(n) == v / 0x100 % Span(n - 1) * 0x100 + v % 0x100
  {
    var m := Span(n - 1);
    var q, r := v / 0x100, v % 0x100;
    var a, b := q / m, q % m;
    assert v == (a * m + b) * 0x100 + r;
    assert v == a * (0x100 * m) + (b * 0x100 + r);
    QuotientIs(v, 0x100 * m, a, b * 0x100 + r);
  }

  lemma CastOfModulus(w: Width, v: int)
    ensures Cast(w, v % Span(Size(w))) == Cast(w, v)
  {
    Spans();
  }

  // The number of the type that differs from the other by a multiple of how many values the type has.
  lemma CastIff(w: Width, v: int, r: int)
    ensures r == Cast(w, v) <==> InRange(w, r) && (r - v) % Span(Size(w)) == 0
  {
    var n, lo := Span(Size(w)), if Signed(w) then -(Span(Size(w)) / 2) else 0;
    CastFits(w, v);
    RangeIs(w, r, n, lo);
    RangeIs(w, Cast(w, v), n, lo);
    CastResidue(w, v);
    if lo <= r < lo + n && (r - v) % n == 0 { OneResidue(v, Cast(w, v), r, lo, n); }
  }

  lemma RangeIs(w: Width, v: int, n: int, lo: int)
    requires n == Span(Size(w)) && lo == if Signed(w) then -(n / 2) else 0
    ensures InRange(w, v) <==> lo <= v < lo + n
  {
    Spans();
  }

  lemma CastResidue(w: Width, v: int)
    ensures (Cast(w, v) - v) % Span(Size(w)) == 0
  {
    hide Span;
    var n := Span(Size(w));
    var q, m := DivMod(v, n);
    Distribute(-q, 1, n);
    assert (0 - q) * n == -(q * n) by { Distribute(0, q, n); }
    QuotientIs(Cast(w, v) - v, n, if Cast(w, v) == m then -q else -q - 1, 0);
  }

  lemma OneResidue(v: int, a: int, b: int, lo: int, n: int)
    requires n > 0 && lo <= a < lo + n && lo <= b < lo + n && (a - v) % n == 0 && (b - v) % n == 0
    ensures a == b
  {
    var x, _ := DivMod(a - v, n);
    var y, _ := DivMod(b - v, n);
    Distribute(x, y, n);
    SmallMultiple(x - y, n);
  }

  // Which types a reader takes: that of its own width; readers of more than a byte also all up to 32 bits; and
  // the readers of signed numbers of more than a byte the unsigned ones of their width. A number in the header
  // itself is refused only by the reader of unsigned bytes, and only when it is negative.
  predicate Takes(w: Width, f: Form, v: int) {
    match f
    case Fix => w != U8 || v >= 0
    case After(t) => w == t || (Size(w) > 1 && Size(t) <= 4) || (w.I64? && t.U64?)
  }

  // Whatever form a number has, shortest or not, a reader takes it just if it takes the type, and makes of it
  // what a cast to its own type does.
  lemma AnyFormRead(w: Width, f: Form, v: int, rest: seq<Byte>)
    requires Holds(f, v)
    ensures ReadInt(w, Wire(f, v) + rest) ==
      if Takes(w, f, v) then Got(Cast(w, v), |Wire(f, v)|) else Failed(ErrorMsgTypeError, 1)
  {
    hide Store, TakeInt, CheckInt, InRange, Cast;
    var s := Wire(f, v) + rest;
    if f.After? {
      var t := f.w;
      assert s[0] == Header(t) && s == [Header(t)] + Store(v, Size(t)) + rest;
      TakeStored(t, v, Header(t), rest);
      if Size(w) == Size(t) { TakeStored(w, v, Header(t), rest); }
      CastFits(t, v);
      CheckTakes(w, t, v, s);
    } else {
      FixTaken(w, v, s);
    }
  }

  lemma FixTaken(w: Width, v: int, s: seq<Byte>)
    requires -0x20 <= v < 0x80 && s != [] && s[0] == v % 0x100
    ensures ReadInt(w, s) == if w != U8 || v >= 0 then Got(Cast(w, v), 1) else Failed(ErrorMsgTypeError, 1)
  {
    Spans();
    assert v % 0x100 == if v < 0 then v + 0x100 else v;
    assert Cast(I8, s[0]) == v;
  }

  lemma CheckTakes(w: Width, t: Width, v: int, s: seq<Byte>)
    requires TakeInt(t, s, 1) == Got(v, 1 + Size(t))
    ensures CheckInt(w, Header(t), s) ==
      if Size(t) <= 4 then Got(Cast(w, v), 1 + Size(t)) else Failed(ErrorMsgTypeError, 1)
  {
    hide TakeInt, Cast;
  }

  // Other headers are refused, and numbers that are cut short.
  lemma OthersRefused(w: Width, s: seq<Byte>)
    requires s != []
    ensures 0x80 <= s[0] < 0xcc || 0xd4 <= s[0] < 0xe0 ==> ReadInt(w, s) == Failed(ErrorMsgTypeError, 1)
    ensures forall t :: s[0] == Header(t) && Takes(w, After(t), 0) && |s| < 1 + Size(t) ==>
      ReadInt(w, s) == Failed(ErrorReadBufferFailed, 1)
  {
    hide Load, Cast;
  }

  // A packed value is read back by every type whose range contains it, and by no other.
  lemma CrossWidth(w: Width, v: int, rest: seq<Byte>)
    requires Packable(v)
    ensures ReadInt(w, Packed(v) + rest) == Got(v, |Packed(v)|) <==> InRange(w, v)
  {
    ChooseHolds(v);
    CastFits(w, v);
    AnyFormRead(w, Choose(v), v, rest);
    if InRange(w, v) { ChosenTaken(w, v); }
  }

  lemma ChosenTaken(w: Width, v: int)
    requires Packable(v) && InRange(w, v)
    ensures Takes(w, Choose(v), v)
  {
    Spans();
  }
}
