// MessagePack values as trees: packing, skipping and unpacking them.
module MsgPack {
  import opened MsgPackInts
  import opened Octets
  import opened Sequences

  // What has a count in its header.
  datatype Kind = KArray | KMap | KStr | KBin | KObj

  function FixFrom(k: Kind): Byte {
    match k case KArray => FIXARRAY_FROM case KMap => FIXMAP_FROM case KStr => FIXSTR_FROM case KBin => 0 case KObj => 0
  }

  // How many counts fit in the header itself.
  function FixCount(k: Kind): Byte {
    match k case KArray => 16 case KMap => 16 case KStr => 32 case KBin => 0 case KObj => 0
  }

  predicate Has8(k: Kind) {
    k.KStr? || k.KBin? || k.KObj?
  }

  function Head8(k: Kind): Byte {
    match k case KStr => STR8 case KBin => BIN8 case KObj => OBJ8 case _ => INVALID
  }

  function Head16(k: Kind): Byte {
    match k case KArray => ARRAY16 case KMap => MAP16 case KStr => STR16 case KBin => BIN16 case KObj => OBJ16
  }

  function Head32(k: Kind): Byte {
    match k case KArray => ARRAY32 case KMap => MAP32 case KStr => STR32 case KBin => BIN32 case KObj => OBJ32
  }

  const COUNTS: int := 0x1_0000_0000

  // The header of a count, in the shortest form of its kind.
  function CountHead(k: Kind, n: nat): (b: seq<Byte>)
    requires n < COUNTS
    ensures b != []
  {
    if n < FixCount(k) then [FixFrom(k) + n]
    else if n < 0x100 && Has8(k) then [Head8(k)] + Store(n, 1)
    else if n < 0x1_0000 then [Head16(k)] + Store(n, 2)
    else [Head32(k)] + Store(n, 4)
  }

  function ReadCount(k: Kind, s: seq<Byte>): (r: Read<int>)
    ensures r.Got? ==> r.value >= 0 && 1 <= r.used <= |s|
    ensures r.Failed? ==> r.code != Success && r.used <= |s| && (s != [] ==> r.used == 1)
  {
    if s == [] then Failed(ErrorMsgTypeError, 0)
    else if s[0] == INVALID then Failed(ErrorMsgTypeError, 1)
    else if FixFrom(k) <= s[0] < FixFrom(k) + FixCount(k) then Got(s[0] - FixFrom(k), 1)
    else if Has8(k) && s[0] == Head8(k) then TakeCount(U8, s)
    else if s[0] == Head16(k) then TakeCount(U16, s)
    else if s[0] == Head32(k) then TakeCount(U32, s)
    else Failed(ErrorMsgTypeError, 1)
  }

  function TakeCount(t: Width, s: seq<Byte>): (r: Read<int>)
    requires !Signed(t) && s != []
    ensures r.Got? ==> r.value >= 0 && 1 <= r.used <= |s|
    ensures r.Failed? ==> r.code != Success && r.used == 1
  {
    CastFits(t, if |s| < 1 + Size(t) then 0 else Load(s[1..1 + Size(t)]));
    TakeInt(t, s, 1)
  }

  lemma CountReadsBack(k: Kind, n: nat, rest: seq<Byte>)
    requires n < COUNTS
    ensures ReadCount(k, CountHead(k, n) + rest) == Got(n, |CountHead(k, n)|)
  {
    hide TakeCount, Store;
    Spans();
    if n >= FixCount(k) {
      var t := if n < 0x100 && Has8(k) then U8 else if n < 0x1_0000 then U16 else U32;
      CountTaken(t, n, HeadFor(k, t), rest);
      HeadDecides(k, t, CountHead(k, n) + rest);
    }
  }

  function HeadFor(k: Kind, t: Width): Byte {
    if t.U8? then Head8(k) else if t.U16? then Head16(k) else Head32(k)
  }

  lemma HeadDecides(k: Kind, t: Width, s: seq<Byte>)
    requires (t.U8? && Has8(k)) || t.U16? || t.U32?
    requires s != [] && s[0] == HeadFor(k, t)
    ensures ReadCount(k, s) == TakeCount(t, s)
  {
  }

  lemma CountTaken(t: Width, n: nat, h: Byte, rest: seq<Byte>)
    requires !Signed(t) && InRange(t, n)
    ensures var s := [h] + Store(n, Size(t)) + rest; s[0] == h && TakeCount(t, s) == Got(n, 1 + Size(t))
  {
    TakeStored(t, n, h, rest);
    CastFits(t, n);
  }

  // The headers of other kinds are refused, and counts that are cut short.
  lemma OtherKindsRefused(k: Kind, s: seq<Byte>)
    requires s != []
    ensures KindOf(s[0]) != Some(k) ==> ReadCount(k, s) == Failed(ErrorMsgTypeError, 1)
    ensures forall t: Width ::
      ((t.U8? && Has8(k)) || t.U16? || t.U32?) && s[0] == HeadFor(k, t) && |s| < 1 + Size(t) ==>
        ReadCount(k, s) == Failed(ErrorReadBufferFailed, 1)
  {
    hide Load, Cast;
  }

  // A count is read from any of its headers, also from a longer one than it needs.
  lemma AnyCountRead(k: Kind, t: Width, n: nat, rest: seq<Byte>)
    requires InRange(t, n) && ((t.U8? && Has8(k)) || t.U16? || t.U32?)
    ensures ReadCount(k, [HeadFor(k, t)] + Store(n, Size(t)) + rest) == Got(n, 1 + Size(t))
  {
    CountTaken(t, n, HeadFor(k, t), rest);
    HeadDecides(k, t, [HeadFor(k, t)] + Store(n, Size(t)) + rest);
  }

  // The headers of the format, and how long they are; behind the first byte, the digits of the count.
  lemma CountHeadIs(k: Kind, n: nat)
    requires n < COUNTS
    ensures var b := CountHead(k, n);
            && (b[0], |b|) ==
                 (match k
                  case KArray => if n < 16 then (0x90 + n, 1) else if n < 0x1_0000 then (0xdc, 3) else (0xdd, 5)
                  case KMap => if n < 16 then (0x80 + n, 1) else if n < 0x1_0000 then (0xde, 3) else (0xdf, 5)
                  case KStr => if n < 32 then (0xa0 + n, 1) else if n < 0x100 then (0xd9, 2)
                  else if n < 0x1_0000 then (0xda, 3) else (0xdb, 5)
                  case KBin => if n < 0x100 then (0xc4, 2) else if n < 0x1_0000 then (0xc5, 3) else (0xc6, 5)
                  case KObj => if n < 0x100 then (0xc7, 2) else if n < 0x1_0000 then (0xc8, 3) else (0xc9, 5))
            && forall i :: 1 <= i < |b| ==> b[i] == n / Span(|b| - 1 - i) % 0x100
  {
    hide Store;
    var b := CountHead(k, n);
    forall i | 1 <= i < |b| ensures b[i] == n / Span(|b| - 1 - i) % 0x100 { StoreDigit(n, |b| - 1, i - 1); }
  }

  // A tree of values. The keys and values of a map alternate.
  datatype Value =
    | Nil | Bool(b: bool) | Int(v: int) | Float(bits: int) | Double(bits: int)
    | Str(bytes: seq<Byte>) | Bin(bytes: seq<Byte>)
    | Array(items: seq<Value>) | Map(pairs: seq<Value>) | Obj(fields: seq<Value>)

  // Values there is a packed form for.
  predicate Well(v: Value)
    decreases v
  {
    match v
    case Nil => true
    case Bool(_) => true
    case Int(i) => Packable(i)
    case Float(bits) => 0 <= bits < COUNTS
    case Double(bits) => 0 <= bits < COUNTS * COUNTS
    case Str(bytes) => |bytes| < COUNTS
    case Bin(bytes) => |bytes| < COUNTS
    case Array(items) => |items| < COUNTS && forall x :: x in items ==> Well(x)
    case Map(pairs) => |pairs| % 2 == 0 && |pairs| < 2 * COUNTS && forall x :: x in pairs ==> Well(x)
    case Obj(fields) => |fields| < COUNTS && forall x :: x in fields ==> Well(x)
  }

  // Values a reader can count its way through: no map in them has 2 to the 31st entries or more, so that
  // the number of things it makes a reader skip, twice its count, fits 32 bits.
  predicate Countable(v: Value)
    decreases v
  {
    match v
    case Array(items) => forall x :: x in items ==> Countable(x)
    case Map(pairs) => |pairs| / 2 < COUNTS / 2 && forall x :: x in pairs ==> Countable(x)
    case Obj(fields) => forall x :: x in fields ==> Countable(x)
    case _ => true
  }

  function Pack(v: Value): (b: seq<Byte>)
    requires Well(v)
    ensures b != []
    decreases v, 0
  {
    match v
    case Nil => [NIL]
    case Bool(b) => [if b then TRUE else FALSE]
    case Int(i) => Packed(i)
    case Float(bits) => [FLOAT32] + Store(bits, 4)
    case Double(bits) => [FLOAT64] + Store(bits, 8)
    case Str(bytes) => CountHead(KStr, |bytes|) + bytes
    case Bin(bytes) => CountHead(KBin, |bytes|) + bytes
    case Array(items) => CountHead(KArray, |items|) + PackAll(items)
    case Map(pairs) => CountHead(KMap, |pairs| / 2) + PackAll(pairs)
    case Obj(fields) => CountHead(KObj, |fields|) + PackAll(fields)
  }

  function PackAll(vs: seq<Value>): seq<Byte>
    requires forall x :: x in vs ==> Well(x)
    decreases vs, 0
  {
    if vs == [] then [] else Pack(vs[0]) + PackAll(vs[1..])
  }

  // The values without parts, byte by byte.
  lemma PlainIs(v: Value)
    requires Well(v)
    ensures v.Nil? ==> Pack(v) == [0xc0]
    ensures v.Bool? ==> Pack(v) == if v.b then [0xc3] else [0xc2]
    ensures v.Float? ==> |Pack(v)| == 5 && Pack(v)[0] == 0xca &&
                         forall i :: 1 <= i < 5 ==> Pack(v)[i] == v.bits / Span(4 - i) % 0x100
    ensures v.Str? ==> Pack(v) == CountHead(KStr, |v.bytes|) + v.bytes
    ensures v.Bin? ==> Pack(v) == CountHead(KBin, |v.bytes|) + v.bytes
    ensures v.Double? ==> |Pack(v)| == 9 && Pack(v)[0] == 0xcb &&
                          forall i :: 1 <= i < 9 ==> Pack(v)[i] == v.bits / Span(8 - i) % 0x100
  {
    hide Store;
    if v.Float? || v.Double? {
      var n := if v.Float? then 4 else 8;
      forall i | 1 <= i < n + 1 ensures Pack(v)[i] == v.bits / Span(n - i) % 0x100 { StoreDigit(v.bits, n, i - 1); }
    }
  }

  predicate Immediate(h: Byte) {
    h == NIL || h == TRUE || h == FALSE || h <= POSITIVE_FIXINT_TO || h >= NEGATIVE_FIXINT_FROM
  }

  // The bytes after the header of a number; none for other headers.
  function NumberSize(h: Byte): nat {
    if h == UINT8 || h == INT8 then 1
    else if h == UINT16 || h == INT16 then 2
    else if h == UINT32 || h == INT32 || h == FLOAT32 then 4
    else if h == UINT64 || h == INT64 || h == FLOAT64 then 8
    else 0
  }

  datatype MaybeKind = None | Some(kind: Kind)

  function KindOf(h: Byte): MaybeKind {
    if FIXSTR_FROM <= h <= FIXSTR_TO || h == STR8 || h == STR16 || h == STR32 then Some(KStr)
    else if h == BIN8 || h == BIN16 || h == BIN32 then Some(KBin)
    else if FIXARRAY_FROM <= h <= FIXARRAY_TO || h == ARRAY16 || h == ARRAY32 then Some(KArray)
    else if FIXMAP_FROM <= h <= FIXMAP_TO || h == MAP16 || h == MAP32 then Some(KMap)
    else if h == OBJ8 || h == OBJ16 || h == OBJ32 then Some(KObj)
    else None
  }

  // What the first byte says, by the table of the format; five bytes there and one that is never used say nothing.
  lemma HeaderClasses(h: Byte)
    ensures Immediate(h) <==> h <= 0x7f || 0xe0 <= h || h == 0xc0 || h == 0xc2 || h == 0xc3
    ensures NumberSize(h) == if h == 0xcc || h == 0xd0 then 1 else if h == 0xcd || h == 0xd1 then 2
      else if h == 0xca || h == 0xce || h == 0xd2 then 4 else if h == 0xcb || h == 0xcf || h == 0xd3 then 8 else 0
    ensures KindOf(h) == if 0x80 <= h <= 0x8f || 0xde <= h <= 0xdf then Some(KMap)
      else if 0x90 <= h <= 0x9f || 0xdc <= h <= 0xdd then Some(KArray)
      else if 0xa0 <= h <= 0xbf || 0xd9 <= h <= 0xdb then Some(KStr)
      else if 0xc4 <= h <= 0xc6 then Some(KBin) else if 0xc7 <= h <= 0xc9 then Some(KObj) else None
    ensures !Immediate(h) && NumberSize(h) == 0 && KindOf(h).None? <==> h == 0xc1 || 0xd4 <= h <= 0xd8
  {
  }

  datatype Skipped = Skipped(code: Code, used: nat)

  // Moving on stops at the end of the bytes written.
  function Ahead(s: seq<Byte>, n: nat): (r: nat)
    ensures r <= |s| && r <= n
  {
    if n <= |s| then n else |s|
  }

  // How many values a count makes the reader skip: those of a map twice, in 32 bits.
  function Subs(k: Kind, n: nat): nat {
    if k.KMap? then 2 * n % COUNTS else n
  }

  function Skip(s: seq<Byte>): (r: Skipped)
    ensures r.used <= |s| && (r.code == Success ==> r.used > 0)
    decreases |s|, 0
  {
    if s == [] then Skipped(ErrorMsgTypeError, 0)
    else if s[0] == INVALID then Skipped(ErrorMsgTypeError, 1)
    else if Immediate(s[0]) then Skipped(Success, 1)
    else if NumberSize(s[0]) > 0 then Skipped(Success, Ahead(s, 1 + NumberSize(s[0])))
    else if KindOf(s[0]).None? then Skipped(ErrorMsgTypeError, 1)
    else
      var k := KindOf(s[0]).kind;
      match ReadCount(k, s)
      case Failed(code, used) => Skipped(code, used)
      case Got(n, used) =>
        if k.KStr? || k.KBin? then Skipped(Success, Ahead(s, used + n))
        else var r := SkipMany(s[used..], Subs(k, n)); Skipped(r.code, used + r.used)
  }

  function SkipMany(s: seq<Byte>, n: nat): (r: Skipped)
    ensures r.used <= |s|
    decreases |s|, 1
  {
    if n == 0 then Skipped(Success, 0)
    else
      var r := Skip(s);
      if r.code != Success then r
      else var q := SkipMany(s[r.used..], n - 1); Skipped(q.code, r.used + q.used)
  }

  lemma HeadKind(k: Kind, n: nat)
    requires n < COUNTS
    ensures var h := CountHead(k, n)[0]; h != INVALID && !Immediate(h) && NumberSize(h) == 0 && KindOf(h) == Some(k)
  {
  }

  lemma SkipCounted(k: Kind, n: nat, rest: seq<Byte>)
    requires n < COUNTS
    ensures var head := CountHead(k, n); var s := head + rest;
            Skip(s) == if k.KStr? || k.KBin? then Skipped(Success, Ahead(s, |head| + n))
                       else var r := SkipMany(rest, Subs(k, n)); Skipped(r.code, |head| + r.used)
  {
    var head := CountHead(k, n);
    var s := head + rest;
    HeadKind(k, n);
    CountReadsBack(k, n, rest);
    assert s[0] == head[0] && s[|head|..] == rest;
  }

  // Skipping consumes exactly the bytes of a countable value, whatever follows.
  lemma {:induction false} SkipPacked(v: Value, rest: seq<Byte>)
    requires Well(v) && Countable(v)
    ensures Skip(Pack(v) + rest) == Skipped(Success, |Pack(v)|)
    decreases v, 0
  {
    hide SkipMany, PackAll, ReadCount;
    match v
    case Nil =>
    case Bool(b) =>
    case Int(i) => SkipInt(i, rest);
    case Float(bits) => assert ([FLOAT32] + Store(bits, 4) + rest)[0] == FLOAT32;
    case Double(bits) => assert ([FLOAT64] + Store(bits, 8) + rest)[0] == FLOAT64;
    case Str(bytes) => SkipString(KStr, bytes, rest);
    case Bin(bytes) => SkipString(KBin, bytes, rest);
    case Array(items) =>
      SkipAll(items, rest);
      SkipGroup(KArray, |items|, PackAll(items), rest, |items|);
    case Map(pairs) =>
      SkipAll(pairs, rest);
      SkipGroup(KMap, |pairs| / 2, PackAll(pairs), rest, |pairs|);
    case Obj(fields) =>
      SkipAll(fields, rest);
      SkipGroup(KObj, |fields|, PackAll(fields), rest, |fields|);
  }

  lemma {:induction false} SkipAll(vs: seq<Value>, rest: seq<Byte>)
    requires forall x :: x in vs ==> Well(x) && Countable(x)
    ensures SkipMany(PackAll(vs) + rest, |vs|) == Skipped(Success, |PackAll(vs)|)
    decreases vs, 0
  {
    if vs != [] {
      var a, b := Pack(vs[0]), PackAll(vs[1..]);
      SkipPacked(vs[0], b + rest);
      SkipAll(vs[1..], rest);
      var s := PackAll(vs) + rest;
      Regroup(a, b, rest);
      SkipOneMore(s, a, b + rest, |vs| - 1, |b|);
    }
  }

  lemma SkipOneMore(s: seq<Byte>, a: seq<Byte>, rest: seq<Byte>, n: nat, used: nat)
    requires s == a + rest && Skip(s) == Skipped(Success, |a|) && SkipMany(rest, n) == Skipped(Success, used)
    ensures SkipMany(s, n + 1) == Skipped(Success, |a| + used)
  {
    assert s[|a|..] == rest;
  }

  lemma SkipInt(i: int, rest: seq<Byte>)
    requires Packable(i)
    ensures Skip(Packed(i) + rest) == Skipped(Success, |Packed(i)|)
  {
    assert (Packed(i) + rest)[0] == Packed(i)[0];
    IntHead(i);
  }

  lemma IntHead(i: int)
    requires Packable(i)
    ensures Packed(i)[0] != INVALID
    ensures Immediate(Packed(i)[0]) ==> |Packed(i)| == 1
    ensures !Immediate(Packed(i)[0]) ==> NumberSize(Packed(i)[0]) > 0 && |Packed(i)| == 1 + NumberSize(Packed(i)[0])
  {
    ChooseHolds(i);
  }

  lemma SkipString(k: Kind, bytes: seq<Byte>, rest: seq<Byte>)
    requires (k.KStr? || k.KBin?) && |bytes| < COUNTS
    ensures var b := CountHead(k, |bytes|) + bytes; Skip(b + rest) == Skipped(Success, |b|)
  {
    SkipCounted(k, |bytes|, bytes + rest);
    Regroup(CountHead(k, |bytes|), bytes, rest);
  }

  lemma SkipGroup(k: Kind, n: nat, body: seq<Byte>, rest: seq<Byte>, subs: nat)
    requires !k.KStr? && !k.KBin? && n < COUNTS && Subs(k, n) == subs
    requires SkipMany(body + rest, subs) == Skipped(Success, |body|)
    ensures var b := CountHead(k, n) + body; Skip(b + rest) == Skipped(Success, |b|)
  {
    SkipCounted(k, n, body + rest);
    Regroup(CountHead(k, n), body, rest);
  }

  // The kind of a container, its count, and the values in it.
  function Contents(v: Value): (r: (Kind, nat, seq<Value>))
    requires Well(v) && (v.Array? || v.Map? || v.Obj?)
    ensures r.1 < COUNTS && Subs(r.0, r.1) <= |r.2| && (forall x :: x in r.2 ==> Well(x))
    ensures Countable(v) <==> Subs(r.0, r.1) == |r.2| && forall x :: x in r.2 ==> Countable(x)
    ensures Pack(v) == CountHead(r.0, r.1) + PackAll(r.2) && !r.0.KStr? && !r.0.KBin?
  {
    match v
    case Array(items) => (KArray, |items|, items)
    case Map(pairs) => (KMap, |pairs| / 2, pairs)
    case Obj(fields) => (KObj, |fields|, fields)
  }

  ghost predicate AllWell(vs: seq<Value>) {
    forall i :: 0 <= i < |vs| ==> Well(vs[i])
  }

  // The first n values are countable.
  ghost predicate CountableTo(vs: seq<Value>, n: nat)
    requires n <= |vs|
  {
    forall i :: 0 <= i < n ==> Countable(vs[i])
  }

  // The bytes of some values, and what follows.
  ghost function Line(vs: seq<Value>, rest: seq<Byte>): seq<Byte>
    requires AllWell(vs)
  {
    PackAll(vs) + rest
  }

  // Skipping one value, or n of them, succeeds, and these bytes are left.
  ghost predicate StopsAfter(s: seq<Byte>, left: seq<Byte>) {
    Skip(s).code == Success && s[Skip(s).used..] == left
  }

  ghost predicate StopsAt(s: seq<Byte>, n: nat, left: seq<Byte>) {
    SkipMany(s, n).code == Success && s[SkipMany(s, n).used..] == left
  }

  // Skipping n of several values stops in front of values again, those left over. Where one of the n is not
  // countable it stops too early: more are left than there should be.
  lemma {:induction false} SkipSome(vs: seq<Value>, n: nat, rest: seq<Byte>) returns (left: seq<Value>)
    requires n <= |vs| && AllWell(vs)
    ensures AllWell(left) && |PackAll(left)| <= |PackAll(vs)| && |left| >= |vs| - n
    ensures !CountableTo(vs, n) ==> |left| > |vs| - n
    ensures StopsAt(Line(vs, rest), n, Line(left, rest))
    decreases |PackAll(vs)|, 1
  {
    hide StopsAt, StopsAfter, CountableTo, Line, PackAll;
    if n == 0 {
      left := vs;
      SkipNone(vs, rest);
    } else {
      var us := SkipFirst(vs, rest);
      left := SkipSome(us, n - 1, rest);
      StopsOneMore(Line(vs, rest), Line(us, rest), n - 1, Line(left, rest));
      ManyLeft(vs, n, us, left);
    }
  }

  lemma SkipNone(vs: seq<Value>, rest: seq<Byte>)
    requires AllWell(vs)
    ensures CountableTo(vs, 0) && StopsAt(Line(vs, rest), 0, Line(vs, rest))
  {
  }

  // Too many are left over if the first value or one of the others is not countable.
  lemma ManyLeft(vs: seq<Value>, n: nat, us: seq<Value>, left: seq<Value>)
    requires 0 < n <= |vs| && if Countable(vs[0]) then us == vs[1..] else |us| >= |vs|
    requires |left| >= |us| - (n - 1) && (!CountableTo(us, n - 1) ==> |left| > |us| - (n - 1))
    ensures |left| >= |vs| - n && (!CountableTo(vs, n) ==> |left| > |vs| - n)
  {
    if us == vs[1..] && Countable(vs[0]) { CountableRest(vs, n); }
  }

  // Skipping one value stops behind it if it is countable, and otherwise in front of some of what is in it.
  lemma {:induction false} SkipFirst(vs: seq<Value>, rest: seq<Byte>) returns (left: seq<Value>)
    requires vs != [] && AllWell(vs)
    ensures AllWell(left) && |PackAll(left)| < |PackAll(vs)|
    ensures if Countable(vs[0]) then left == vs[1..] else |left| >= |vs|
    ensures StopsAfter(Line(vs, rest), Line(left, rest))
    decreases |PackAll(vs)|, 0
  {
    var v, ws := vs[0], vs[1..];
    Regroup(Pack(v), PackAll(ws), rest);
    if Countable(v) {
      left := ws;
      SkipPacked(v, PackAll(ws) + rest);
      TailJoined(Pack(v), PackAll(ws) + rest, 0);
    } else {
      var (k, n, cs) := Contents(v);
      PackJoined(cs, ws);
      left := SkipSome(cs + ws, Subs(k, n), rest);
      if Subs(k, n) == |cs| { CountableIn(cs, ws); }
      SkipInto(k, n, Line(cs + ws, rest), Line(left, rest));
      HeadJoined(v, ws, rest);
    }
  }

  lemma CountableRest(vs: seq<Value>, n: nat)
    requires 0 < n <= |vs| && Countable(vs[0])
    ensures CountableTo(vs, n) <==> CountableTo(vs[1..], n - 1)
  {
    assert CountableTo(vs[1..], n - 1) ==> forall i :: 1 <= i < n ==> vs[i] == vs[1..][i - 1] && Countable(vs[i]);
  }

  lemma CountableIn(cs: seq<Value>, ws: seq<Value>)
    ensures CountableTo(cs + ws, |cs|) ==> forall x :: x in cs ==> Countable(x)
  {
    assert forall i :: 0 <= i < |cs| ==> (cs + ws)[i] == cs[i];
  }

  // A container in front of values, and its header in front of its own values and those.
  lemma HeadJoined(v: Value, ws: seq<Value>, rest: seq<Byte>)
    requires Well(v) && AllWell(ws) && (v.Array? || v.Map? || v.Obj?)
    requires AllWell(Contents(v).2 + ws) && PackAll(Contents(v).2 + ws) == PackAll(Contents(v).2) + PackAll(ws)
    ensures Pack(v) + (PackAll(ws) + rest) == CountHead(Contents(v).0, Contents(v).1) + Line(Contents(v).2 + ws, rest)
  {
    var head, a, b := CountHead(Contents(v).0, Contents(v).1), PackAll(Contents(v).2), PackAll(ws);
    Regroup(head, a, b + rest);
    Regroup(a, b, rest);
  }

  lemma SkipInto(k: Kind, n: nat, s: seq<Byte>, left: seq<Byte>)
    requires n < COUNTS && !k.KStr? && !k.KBin? && StopsAt(s, Subs(k, n), left)
    ensures StopsAfter(CountHead(k, n) + s, left)
  {
    SkipCounted(k, n, s);
    TailJoined(CountHead(k, n), s, SkipMany(s, Subs(k, n)).used);
  }

  lemma StopsOneMore(s: seq<Byte>, t: seq<Byte>, n: nat, left: seq<Byte>)
    requires StopsAfter(s, t) && StopsAt(t, n, left)
    ensures StopsAt(s, n + 1, left)
  {
    var u, w := Skip(s).used, SkipMany(t, n).used;
    assert s[u + w..] == s[u..][w..];
  }

  lemma TailJoined(a: seq<Byte>, b: seq<Byte>, n: nat)
    requires n <= |b|
    ensures (a + b)[|a| + n..] == b[n..]
  {
  }

  lemma {:induction false} PackJoined(a: seq<Value>, b: seq<Value>)
    requires AllWell(a) && AllWell(b)
    ensures AllWell(a + b) && PackAll(a + b) == PackAll(a) + PackAll(b)
  {
    if a == [] {
      assert a + b == b;
    } else {
      PackJoined(a[1..], b);
      assert (a + b)[1..] == a[1..] + b;
      Regroup(Pack(a[0]), PackAll(a[1..]), PackAll(b));
    }
  }

  // A packed value is skipped whole, whatever follows, just if no map in it has 2 to the 31st entries or more.
  lemma SkippedIffCountable(v: Value, rest: seq<Byte>)
    requires Well(v)
    ensures Skip(Pack(v) + rest) == Skipped(Success, |Pack(v)|) <==> Countable(v)
  {
    if Countable(v) {
      SkipPacked(v, rest);
    } else {
      var left := SkipFirst([v], rest);
      assert PackAll([v]) == Pack(v) && PackAll(left) != [];
    }
  }

  // A map is skipped whole just if it has fewer entries than 2 to the 31st, when what is in it can be skipped.
  lemma MapSkippedIff(pairs: seq<Value>, rest: seq<Byte>)
    requires |pairs| % 2 == 0 && |pairs| < 2 * COUNTS && forall x :: x in pairs ==> Well(x) && Countable(x)
    ensures var b := CountHead(KMap, |pairs| / 2) + PackAll(pairs);
            Skip(b + rest) == Skipped(Success, |b|) <==> |pairs| / 2 < COUNTS / 2
  {
    SkippedIffCountable(Map(pairs), rest);
  }

  // At that count the reader takes the header for the whole map.
  lemma LargestMapsNotSkipped(rest: seq<Byte>)
    ensures var head := CountHead(KMap, COUNTS / 2); Skip(head + rest) == Skipped(Success, |head|)
  {
    hide Skip;
    SkipCounted(KMap, COUNTS / 2, rest);
    assert Subs(KMap, COUNTS / 2) == 0;
  }

  // A number cut short is skipped as if it were whole: the position just stops at the end.
  lemma TruncatedNumberSkipped(h: Byte, s: seq<Byte>)
    requires NumberSize(h) > 0
    ensures Skip([h] + s) == Skipped(Success, Ahead([h] + s, 1 + NumberSize(h)))
    ensures Skip([h] + s).used == 1 + NumberSize(h) <==> |s| >= NumberSize(h)
  {
    assert ([h] + s)[0] == h;
  }

  // Unpacking as the headers say.
  function Unpack(s: seq<Byte>): (r: Read<Value>)
    ensures r.Got? ==> 0 < r.used <= |s|
    decreases |s|, 0
  {
    if s == [] then Failed(ErrorMsgTypeError, 0)
    else if s[0] == NIL then Got(Nil, 1)
    else if s[0] == TRUE || s[0] == FALSE then Got(Bool(s[0] == TRUE), 1)
    else if s[0] == FLOAT32 then
      (match TakeCount(U32, s) case Got(bits, used) => Got(Float(bits), used) case Failed(c, u) => Failed(c, u))
    else if s[0] == FLOAT64 then
      (match TakeCount(U64, s) case Got(bits, used) => Got(Double(bits), used) case Failed(c, u) => Failed(c, u))
    else if KindOf(s[0]).Some? then
      var k := KindOf(s[0]).kind;
      match ReadCount(k, s)
      case Failed(c, u) => Failed(c, u)
      case Got(n, used) =>
        if k.KStr? || k.KBin? then
          if |s| < used + n then Failed(ErrorReadBufferFailed, used)
          else var bytes := s[used..used + n]; Got(if k.KStr? then Str(bytes) else Bin(bytes), used + n)
        else
          match UnpackMany(s[used..], if k.KMap? then 2 * n else n)
          case Failed(c, u) => Failed(c, used + u)
          case Got(vs, u) => Got(if k.KArray? then Array(vs) else if k.KMap? then Map(vs) else Obj(vs), used + u)
    else
      IntUsed(if s[0] == UINT64 then U64 else I64, s);
      match ReadInt(if s[0] == UINT64 then U64 else I64, s) case Got(i, used) => Got(Int(i), used)
      case Failed(c, u) => Failed(c, u)
  }

  function UnpackMany(s: seq<Byte>, n: nat): (r: Read<seq<Value>>)
    ensures r.Got? ==> r.used <= |s|
    decreases |s|, 1
  {
    if n == 0 then Got([], 0)
    else
      match Unpack(s)
      case Failed(c, u) => Failed(c, u)
      case Got(v, used) =>
        match UnpackMany(s[used..], n - 1)
        case Failed(c, u) => Failed(c, used + u)
        case Got(vs, u) => Got([v] + vs, used + u)
  }

  lemma IntUsed(w: Width, s: seq<Byte>)
    ensures ReadInt(w, s).Got? ==> 0 < ReadInt(w, s).used <= |s|
  {
  }

  // Unpacking gives the tree back, whatever follows its bytes.
  lemma {:induction false} UnpackPacked(v: Value, rest: seq<Byte>)
    requires Well(v)
    ensures Unpack(Pack(v) + rest) == Got(v, |Pack(v)|)
    decreases v, 0
  {
    hide Unpack, UnpackMany, PackAll;
    match v
    case Nil => UnpackFlag(v, NIL, rest);
    case Bool(b) => UnpackFlag(v, if b then TRUE else FALSE, rest);
    case Int(i) => UnpackInteger(i, rest);
    case Float(bits) => UnpackBits(U32, FLOAT32, bits, rest);
    case Double(bits) => UnpackBits(U64, FLOAT64, bits, rest);
    case Str(bytes) => UnpackString(KStr, bytes, rest);
    case Bin(bytes) => UnpackString(KBin, bytes, rest);
    case Array(items) =>
      UnpackAll(items, rest);
      UnpackGroup(KArray, |items|, PackAll(items), rest, items);
    case Map(pairs) =>
      UnpackAll(pairs, rest);
      UnpackGroup(KMap, |pairs| / 2, PackAll(pairs), rest, pairs);
    case Obj(fields) =>
      UnpackAll(fields, rest);
      UnpackGroup(KObj, |fields|, PackAll(fields), rest, fields);
  }

  lemma {:induction false} UnpackAll(vs: seq<Value>, rest: seq<Byte>)
    requires forall x :: x in vs ==> Well(x)
    ensures UnpackMany(PackAll(vs) + rest, |vs|) == Got(vs, |PackAll(vs)|)
    decreases vs, 0
  {
    if vs != [] {
      var a, b := Pack(vs[0]), PackAll(vs[1..]);
      UnpackPacked(vs[0], b + rest);
      UnpackAll(vs[1..], rest);
      var s := PackAll(vs) + rest;
      Regroup(a, b, rest);
      UnpackOneMore(s, a, b + rest, vs, |b|);
    }
  }

  lemma UnpackOneMore(s: seq<Byte>, a: seq<Byte>, rest: seq<Byte>, vs: seq<Value>, used: nat)
    requires s == a + rest && vs != []
    requires Unpack(s) == Got(vs[0], |a|) && UnpackMany(rest, |vs| - 1) == Got(vs[1..], used)
    ensures UnpackMany(s, |vs|) == Got(vs, |a| + used)
  {
    assert s[|a|..] == rest && [vs[0]] + vs[1..] == vs;
  }

  lemma UnpackFlag(v: Value, h: Byte, rest: seq<Byte>)
    requires v.Nil? || v.Bool?
    requires h == if v.Nil? then NIL else if v.b then TRUE else FALSE
    ensures Unpack([h] + rest) == Got(v, 1)
  {
    assert ([h] + rest)[0] == h;
  }

  lemma UnpackInteger(i: int, rest: seq<Byte>)
    requires Packable(i)
    ensures Unpack(Packed(i) + rest) == Got(Int(i), |Packed(i)|)
  {
    var s := Packed(i) + rest;
    assert s[0] == Packed(i)[0];
    IntHeader(i);
    CrossWidth(if s[0] == UINT64 then U64 else I64, i, rest);
  }

  lemma IntHeader(i: int)
    requires Packable(i)
    ensures var h := Packed(i)[0];
            && h != NIL && h != TRUE && h != FALSE && h != FLOAT32 && h != FLOAT64 && KindOf(h).None?
            && InRange(if h == UINT64 then U64 else I64, i)
  {
    Spans();
    ChooseHolds(i);
  }

  lemma UnpackBits(t: Width, h: Byte, bits: int, rest: seq<Byte>)
    requires (t == U32 && h == FLOAT32) || (t == U64 && h == FLOAT64)
    requires InRange(t, bits)
    ensures var b := [h] + Store(bits, Size(t));
            Unpack(b + rest) == Got(if t == U32 then Float(bits) else Double(bits), |b|)
  {
    TakeStored(t, bits, h, rest);
    CastFits(t, bits);
    assert ([h] + Store(bits, Size(t)) + rest)[0] == h;
  }

  lemma UnpackString(k: Kind, bytes: seq<Byte>, rest: seq<Byte>)
    requires (k.KStr? || k.KBin?) && |bytes| < COUNTS
    ensures var b := CountHead(k, |bytes|) + bytes;
            Unpack(b + rest) == Got(if k.KStr? then Str(bytes) else Bin(bytes), |b|)
  {
    var head := CountHead(k, |bytes|);
    var s := head + bytes + rest;
    CountFound(k, |bytes|, bytes + rest, s);
    Regroup(head, bytes, rest);
    assert s[|head|..|head| + |bytes|] == bytes;
    StringTaken(k, s, |bytes|, |head|);
  }

  lemma CountFound(k: Kind, n: nat, rest: seq<Byte>, s: seq<Byte>)
    requires n < COUNTS && s == CountHead(k, n) + rest
    ensures s != [] && KindOf(s[0]) == Some(k) && ReadCount(k, s) == Got(n, |CountHead(k, n)|) &&
            s[|CountHead(k, n)|..] == rest
  {
    HeadKind(k, n);
    CountReadsBack(k, n, rest);
    assert s[0] == CountHead(k, n)[0];
  }

  lemma StringTaken(k: Kind, s: seq<Byte>, n: nat, used: nat)
    requires s != [] && KindOf(s[0]) == Some(k) && (k.KStr? || k.KBin?) && ReadCount(k, s) == Got(n, used) &&
             used + n <= |s|
    ensures Unpack(s) == Got(if k.KStr? then Str(s[used..used + n]) else Bin(s[used..used + n]), used + n)
  {
    hide ReadCount;
    KindApart(s[0]);
  }

  lemma KindApart(h: Byte)
    requires KindOf(h).Some?
    ensures h != NIL && h != TRUE && h != FALSE && h != FLOAT32 && h != FLOAT64
  {
  }

  lemma GroupTaken(k: Kind, s: seq<Byte>, n: nat, used: nat, vs: seq<Value>, u: nat)
    requires s != [] && KindOf(s[0]) == Some(k) && !k.KStr? && !k.KBin? && ReadCount(k, s) == Got(n, used)
    requires UnpackMany(s[used..], if k.KMap? then 2 * n else n) == Got(vs, u)
    ensures Unpack(s) == Got(if k.KArray? then Array(vs) else if k.KMap? then Map(vs) else Obj(vs), used + u)
  {
    KindApart(s[0]);
  }

  lemma UnpackGroup(k: Kind, n: nat, body: seq<Byte>, rest: seq<Byte>, vs: seq<Value>)
    requires !k.KStr? && !k.KBin? && n < COUNTS && |vs| == if k.KMap? then 2 * n else n
    requires UnpackMany(body + rest, |vs|) == Got(vs, |body|)
    ensures var b := CountHead(k, n) + body;
            Unpack(b + rest) == Got(if k.KArray? then Array(vs) else if k.KMap? then Map(vs) else Obj(vs), |b|)
  {
    var head := CountHead(k, n);
    var s := head + body + rest;
    Regroup(head, body, rest);
    CountFound(k, n, body + rest, s);
    GroupTaken(k, s, n, |head|, vs, |body|);
  }

  // What unpacks is skipped in the same number of bytes, whoever packed it, if it is countable.
  lemma {:induction false} UnpackedSkipped(s: seq<Byte>)
    requires Unpack(s).Got? && Countable(Unpack(s).value)
    ensures Skip(s) == Skipped(Success, Unpack(s).used)
    decreases |s|, 2
  {
    if InGroup(s) {
      var k := KindOf(s[0]).kind;
      GroupUnpacked(k, s);
      AllSkipped(Inside(k, s), Holds(k, s));
      GroupSkipped(k, s, UnpackMany(Inside(k, s), Holds(k, s)).used);
    } else if Counted(s) {
      StringSkipped(s);
    } else {
      NumberSkipped(s);
    }
  }

  lemma GroupSkipped(k: Kind, s: seq<Byte>, used: nat)
    requires InGroup(s) && KindOf(s[0]) == Some(k) && (k.KMap? ==> Holds(k, s) < COUNTS)
    requires SkipMany(Inside(k, s), Holds(k, s)) == Skipped(Success, used)
    ensures Skip(s) == Skipped(Success, ReadCount(k, s).used + used)
  {
    hide Skip, SkipMany, ReadCount;
    CountedSkip(k, s);
  }

  lemma StringSkipped(s: seq<Byte>)
    requires Unpack(s).Got? && Counted(s) && !InGroup(s)
    ensures Skip(s) == Skipped(Success, Unpack(s).used)
  {
    CountedSkip(KindOf(s[0]).kind, s);
  }

  // The header has a count behind it.
  predicate Counted(s: seq<Byte>) {
    s != [] && KindOf(s[0]).Some? && !Immediate(s[0]) && NumberSize(s[0]) == 0
  }

  // The header is that of an array, a map or an object, and its count can be read.
  predicate InGroup(s: seq<Byte>) {
    Counted(s) && !KindOf(s[0]).kind.KStr? && !KindOf(s[0]).kind.KBin? && ReadCount(KindOf(s[0]).kind, s).Got?
  }

  // What is behind a count, and how many values the count stands for.
  function Inside(k: Kind, s: seq<Byte>): seq<Byte>
    requires ReadCount(k, s).Got?
  {
    s[ReadCount(k, s).used..]
  }

  function Holds(k: Kind, s: seq<Byte>): nat
    requires ReadCount(k, s).Got?
  {
    if k.KMap? then 2 * ReadCount(k, s).value else ReadCount(k, s).value
  }

  lemma NumberSkipped(s: seq<Byte>)
    requires Unpack(s).Got? && !Counted(s)
    ensures Skip(s) == Skipped(Success, Unpack(s).used)
  {
    hide ReadCount, SkipMany, UnpackMany;
  }

  // An array, a map or an object unpacks just if what is in it does.
  lemma GroupUnpacked(k: Kind, s: seq<Byte>)
    requires InGroup(s) && KindOf(s[0]) == Some(k)
    ensures var r, q := Unpack(s), UnpackMany(Inside(k, s), Holds(k, s));
            && (r.Got? <==> q.Got?)
            && (r.Got? ==> r.used == ReadCount(k, s).used + q.used)
            && (r.Got? ==> InValue(k, ReadCount(k, s).value, r.value, q.value))
  {
    KindApart(s[0]);
  }

  // The value consists of these values.
  ghost predicate InValue(k: Kind, n: nat, v: Value, vs: seq<Value>) {
    && (k.KArray? ==> v == Array(vs)) && (k.KMap? ==> v == Map(vs)) && (k.KObj? ==> v == Obj(vs))
    && (Countable(v) ==> forall x :: x in vs ==> Countable(x))
    && ((k.KMap? ==> |vs| < COUNTS) && (forall x :: x in vs ==> Countable(x)) ==> Countable(v))
  }

  // What skipping something with a count comes to.
  ghost predicate CountSkipped(k: Kind, s: seq<Byte>, r: Skipped) {
    match ReadCount(k, s)
    case Failed(code, used) => r == Skipped(code, used)
    case Got(n, used) =>
      if k.KStr? || k.KBin? then r == Skipped(Success, Ahead(s, used + n))
      else r == Skipped(SkipMany(s[used..], Subs(k, n)).code, used + SkipMany(s[used..], Subs(k, n)).used)
  }

  lemma CountedSkip(k: Kind, s: seq<Byte>)
    requires s != [] && KindOf(s[0]) == Some(k)
    ensures CountSkipped(k, s, Skip(s))
  {
  }

  lemma {:induction false} AllSkipped(s: seq<Byte>, n: nat)
    requires UnpackMany(s, n).Got? && forall x :: x in UnpackMany(s, n).value ==> Countable(x)
    ensures |UnpackMany(s, n).value| == n && SkipMany(s, n) == Skipped(Success, UnpackMany(s, n).used)
    decreases |s|, 3
  {
    hide Unpack, Skip, Countable;
    if n > 0 {
      var v, used, more := FirstUnpacked(s, n);
      assert ([v] + more.value)[0] == v && forall x :: x in more.value ==> x in [v] + more.value;
      UnpackedSkipped(s);
      AllSkipped(s[used..], n - 1);
    }
  }

  lemma FirstUnpacked(s: seq<Byte>, n: nat) returns (v: Value, used: nat, more: Read<seq<Value>>)
    requires n > 0 && UnpackMany(s, n).Got?
    ensures Unpack(s) == Got(v, used) && 0 < used <= |s| && more == UnpackMany(s[used..], n - 1) && more.Got?
    ensures UnpackMany(s, n) == Got([v] + more.value, used + more.used)
  {
    v, used := Unpack(s).value, Unpack(s).used;
    more := UnpackMany(s[used..], n - 1);
  }

  // Of fewer than 2 to the 32nd bytes only countable values can be unpacked.
  lemma {:induction false} UnpackedCountable(s: seq<Byte>)
    requires |s| < COUNTS && Unpack(s).Got?
    ensures Countable(Unpack(s).value)
    decreases |s|, 0
  {
    if InGroup(s) {
      var k := KindOf(s[0]).kind;
      GroupUnpacked(k, s);
      AllCountable(Inside(k, s), Holds(k, s));
    }
  }

  lemma {:induction false} AllCountable(s: seq<Byte>, n: nat)
    requires |s| < COUNTS && UnpackMany(s, n).Got?
    ensures |UnpackMany(s, n).value| == n <= |s| && forall x :: x in UnpackMany(s, n).value ==> Countable(x)
    decreases |s|, 1
  {
    if n > 0 {
      UnpackedCountable(s);
      AllCountable(s[Unpack(s).used..], n - 1);
    }
  }

  // A reader that skips and one that unpacks come to the same place, on any bytes that unpack.
  lemma SkipAgreesWithUnpack(s: seq<Byte>)
    requires |s| < COUNTS && Unpack(s).Got?
    ensures Skip(s) == Skipped(Success, Unpack(s).used)
  {
    UnpackedCountable(s);
    UnpackedSkipped(s);
  }
}
