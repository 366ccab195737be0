// Packing into a buffer and unpacking from it: the branches of the packer and the unpacker.
module MsgBuffers {
  import opened MsgPack
  import opened MsgPackInts
  import opened Octets
  import opened Sequences

  class MsgBuffer {
    var data: seq<Byte>
    var readPos: nat

    ghost predicate Valid()
      reads this
    {
      readPos <= |data|
    }

    // What has been written and not read yet.
    ghost function Unread(): seq<Byte>
      requires Valid()
      reads this
    {
      data[readPos..]
    }

    constructor (data: seq<Byte>)
      ensures Valid() && this.data == data && readPos == 0
    {
      this.data := data;
      readPos := 0;
    }

    method Write(b: seq<Byte>)
      requires Valid()
      modifies this`data
      ensures Valid() && data == old(data) + b
    {
      data := data + b;
    }

    // The position cannot be set past the end.
    method SetReadPos(pos: nat)
      requires Valid()
      modifies this`readPos
      ensures Valid() && readPos == if pos <= |data| then pos else |data|
    {
      readPos := if pos <= |data| then pos else |data|;
    }

    method Read(n: nat) returns (ok: bool, b: seq<Byte>)
      requires Valid()
      modifies this`readPos
      ensures Valid() && ok == (n <= |old(Unread())|)
      ensures if ok then b == old(Unread())[..n] && readPos == old(readPos) + n else readPos == old(readPos)
    {
      if |data| < readPos + n { return false, []; }
      b := data[readPos..readPos + n];
      readPos := readPos + n;
      return true, b;
    }

    method ReadHeader() returns (h: Byte)
      requires Valid()
      modifies this`readPos
      ensures Valid() && if old(Unread()) == [] then h == INVALID && readPos == old(readPos)
                         else h == old(Unread())[0] && readPos == old(readPos) + 1
    {
      var ok, b := Read(1);
      return if ok then b[0] else INVALID;
    }

    // Every packer writes the shortest form.
    method PackUint8(d: int)
      requires Valid() && InRange(U8, d)
      modifies this`data
      ensures Valid() && data == old(data) + Packed(d)
    {
      Spans();
      if d < 0x80 { Write([d]); } else { WriteAfter(U8, d); }
    }

    method PackUint16(d: int)
      requires Valid() && InRange(U16, d)
      modifies this`data
      ensures Valid() && data == old(data) + Packed(d)
    {
      Spans();
      if d < 0x80 { Write([d]); } else if d < 0x100 { WriteAfter(U8, d); } else { WriteAfter(U16, d); }
    }

    method PackUint32(d: int)
      requires Valid() && InRange(U32, d)
      modifies this`data
      ensures Valid() && data == old(data) + Packed(d)
    {
      Spans();
      if d < 0x100 {
        if d < 0x80 { Write([d]); } else { WriteAfter(U8, d); }
      } else {
        if d < 0x1_0000 { WriteAfter(U16, d); } else { WriteAfter(U32, d); }
      }
    }

    method PackUint64(d: int)
      requires Valid() && InRange(U64, d)
      modifies this`data
      ensures Valid() && data == old(data) + Packed(d)
    {
      Spans();
      if d < 0x100 {
        if d < 0x80 { Write([d]); } else { WriteAfter(U8, d); }
      } else {
        if d < 0x1_0000 { WriteAfter(U16, d); }
        else if d < 0x1_0000_0000 { WriteAfter(U32, d); }
        else { WriteAfter(U64, d); }
      }
    }

    method PackInt8(d: int)
      requires Valid() && InRange(I8, d)
      modifies this`data
      ensures Valid() && data == old(data) + Packed(d)
    {
      Spans();
      if d < -0x20 { WriteAfter(I8, d); } else { Write([d % 0x100]); }
    }

    method PackInt16(d: int)
      requires Valid() && InRange(I16, d)
      modifies this`data
      ensures Valid() && data == old(data) + Packed(d)
    {
      Spans();
      if d < -0x20 {
        if d < -0x80 { WriteAfter(I16, d); } else { WriteAfter(I8, d); }
      } else if d < 0x80 {
        Write([d % 0x100]);
      } else {
        if d < 0x100 { WriteAfter(U8, d); } else { WriteAfter(U16, d); }
      }
    }

    method PackInt32(d: int)
      requires Valid() && InRange(I32, d)
      modifies this`data
      ensures Valid() && data == old(data) + Packed(d)
    {
      Spans();
      if d < -0x20 {
        if d < -0x8000 { WriteAfter(I32, d); } else if d < -0x80 { WriteAfter(I16, d); } else { WriteAfter(I8, d); }
      } else if d < 0x80 {
        Write([d % 0x100]);
      } else {
        if d < 0x100 { WriteAfter(U8, d); } else if d < 0x1_0000 { WriteAfter(U16, d); } else { WriteAfter(U32, d); }
      }
    }

    method PackInt64(d: int)
      requires Valid() && InRange(I64, d)
      modifies this`data
      ensures Valid() && data == old(data) + Packed(d)
    {
      Spans();
      if d < -0x20 {
        if d < -0x8000 {
          if d < -0x8000_0000 { WriteAfter(I64, d); } else { WriteAfter(I32, d); }
        } else {
          if d < -0x80 { WriteAfter(I16, d); } else { WriteAfter(I8, d); }
        }
      } else if d < 0x80 {
        Write([d % 0x100]);
      } else {
        if d < 0x1_0000 {
          if d < 0x100 { WriteAfter(U8, d); } else { WriteAfter(U16, d); }
        } else {
          if d < 0x1_0000_0000 { WriteAfter(U32, d); } else { WriteAfter(U64, d); }
        }
      }
    }

    // A header that names a type, and the number in big-endian bytes.
    method WriteAfter(t: Width, d: int)
      requires Valid() && InRange(t, d)
      modifies this`data
      ensures Valid() && data == old(data) + Wire(After(t), d)
    {
      Write([Header(t)] + Store(d, Size(t)));
    }

    method PackArray(n: nat)
      requires Valid() && n < COUNTS
      modifies this`data
      ensures Valid() && data == old(data) + CountHead(KArray, n)
    {
      if n < 16 { Write([FIXARRAY_FROM + n]); }
      else if n < 0x1_0000 { Write([ARRAY16] + Store(n, 2)); }
      else { Write([ARRAY32] + Store(n, 4)); }
    }

    method PackMap(n: nat)
      requires Valid() && n < COUNTS
      modifies this`data
      ensures Valid() && data == old(data) + CountHead(KMap, n)
    {
      if n < 16 { Write([FIXMAP_FROM + n]); }
      else if n < 0x1_0000 { Write([MAP16] + Store(n, 2)); }
      else { Write([MAP32] + Store(n, 4)); }
    }

    method PackStr(l: nat)
      requires Valid() && l < COUNTS
      modifies this`data
      ensures Valid() && data == old(data) + CountHead(KStr, l)
    {
      if l < 32 { Write([FIXSTR_FROM + l]); }
      else if l < 0x100 { Write([STR8] + Store(l, 1)); }
      else if l < 0x1_0000 { Write([STR16] + Store(l, 2)); }
      else { Write([STR32] + Store(l, 4)); }
    }

    method PackBin(l: nat)
      requires Valid() && l < COUNTS
      modifies this`data
      ensures Valid() && data == old(data) + CountHead(KBin, l)
    {
      if l < 0x100 { Write([BIN8] + Store(l, 1)); }
      else if l < 0x1_0000 { Write([BIN16] + Store(l, 2)); }
      else { Write([BIN32] + Store(l, 4)); }
    }

    method PackObj(n: nat)
      requires Valid() && n < COUNTS
      modifies this`data
      ensures Valid() && data == old(data) + CountHead(KObj, n)
    {
      if n < 0x100 { Write([OBJ8] + Store(n, 1)); }
      else if n < 0x1_0000 { Write([OBJ16] + Store(n, 2)); }
      else { Write([OBJ32] + Store(n, 4)); }
    }

    // Packs a whole tree.
    method PackValue(v: Value)
      requires Valid() && Well(v)
      modifies this`data
      ensures Valid() && data == old(data) + Pack(v)
      decreases v, 0
    {
      ghost var before := data;
      match v
      case Nil => Write([NIL]);
      case Bool(b) => if b { Write([TRUE]); } else { Write([FALSE]); }
      case Int(i) => PackInteger(i);
      case Float(bits) => Write([FLOAT32] + Store(bits, 4));
      case Double(bits) => Write([FLOAT64] + Store(bits, 8));
      case Str(bytes) => PackBytes(KStr, bytes);
      case Bin(bytes) => PackBytes(KBin, bytes);
      case Array(items) =>
        PackArray(|items|);
        PackValues(items);
        Regroup(before, CountHead(KArray, |items|), PackAll(items));
      case Map(pairs) =>
        PackMap(|pairs| / 2);
        PackValues(pairs);
        Regroup(before, CountHead(KMap, |pairs| / 2), PackAll(pairs));
      case Obj(fields) =>
        PackObj(|fields|);
        PackValues(fields);
        Regroup(before, CountHead(KObj, |fields|), PackAll(fields));
    }

    method PackInteger(i: int)
      requires Valid() && Packable(i)
      modifies this`data
      ensures Valid() && data == old(data) + Packed(i)
    {
      Spans();
      if i >= 0x8000_0000_0000_0000 { PackUint64(i); } else { PackInt64(i); }
    }

    method PackBytes(k: Kind, bytes: seq<Byte>)
      requires Valid() && (k.KStr? || k.KBin?) && |bytes| < COUNTS
      modifies this`data
      ensures Valid() && data == old(data) + (CountHead(k, |bytes|) + bytes)
    {
      ghost var before := data;
      if k.KStr? { PackStr(|bytes|); } else { PackBin(|bytes|); }
      Write(bytes);
      Regroup(before, CountHead(k, |bytes|), bytes);
    }

    method PackValues(vs: seq<Value>)
      requires Valid() && forall x :: x in vs ==> Well(x)
      modifies this`data
      ensures Valid() && data == old(data) + PackAll(vs)
      decreases vs, 0
    {
      if vs == [] { return; }
      ghost var before := data;
      PackValue(vs[0]);
      PackValues(vs[1..]);
      OneMore(before, vs);
    }

    // A number of the given type from the bytes that follow.
    method TakeNumber(t: Width) returns (code: Code, v: int)
      requires Valid()
      modifies this`readPos
      ensures Valid() && code != ErrorMsgTypeError
      ensures if code == Success then
                Size(t) <= |old(Unread())| && v == Cast(t, Load(old(Unread())[..Size(t)])) &&
                  readPos == old(readPos) + Size(t)
              else Size(t) > |old(Unread())| && readPos == old(readPos)
    {
      var ok, b := Read(Size(t));
      if !ok { return ErrorReadBufferFailed, 0; }
      return Success, Cast(t, Load(b));
    }

    // The headers every reader but those of single bytes takes.
    method UnpackCheckInt(w: Width, h: Byte, ghost s: seq<Byte>) returns (code: Code, v: int)
      requires Valid() && s != [] && s[0] == h && s[1..] == Unread()
      modifies this`readPos
      ensures Valid() && Took(CheckInt(w, h, s), code, v, old(readPos) - 1)
    {
      v := 0;
      var t;
      if h == INT32 { t := I32; } else if h == UINT32 { t := U32; }
      else if h == INT16 { t := I16; } else if h == UINT16 { t := U16; }
      else if h == INT8 { t := I8; } else if h == UINT8 { t := U8; }
      else if h >= NEGATIVE_FIXINT_FROM || h <= POSITIVE_FIXINT_TO { return Success, Cast(w, Cast(I8, h)); }
      else { return ErrorMsgTypeError, 0; }
      var n;
      code, n := TakeNumber(t);
      Taken(t, s);
      if code == Success { v := Cast(w, n); }
    }

    // The result of a reader.
    ghost predicate Took(r: Read<int>, code: Code, v: int, from: int)
      reads this`readPos
    {
      match r
      case Got(value, used) => code == Success && v == value && readPos == from + used
      case Failed(c, used) => code == c != Success && readPos == from + used
    }

    method UnpackInt(w: Width) returns (code: Code, v: int)
      requires Valid()
      modifies this`readPos
      ensures Valid() && Took(ReadInt(w, old(Unread())), code, v, old(readPos))
    {
      ghost var s := Unread();
      var h := ReadHeader();
      if h == INVALID { return ErrorMsgTypeError, 0; }
      Taken(w, s);
      if h == Header(w) || (w.I16? && h == UINT16) || (w.I32? && h == UINT32) || (w.I64? && h == UINT64) {
        code, v := TakeNumber(w);
      } else if w.U8? {
        if h <= POSITIVE_FIXINT_TO { return Success, h; }
        return ErrorMsgTypeError, 0;
      } else if w.I8? {
        if h >= NEGATIVE_FIXINT_FROM || h <= POSITIVE_FIXINT_TO { return Success, Cast(I8, h); }
        return ErrorMsgTypeError, 0;
      } else {
        code, v := UnpackCheckInt(w, h, s);
      }
    }

    // The count of an array, a map, a string, a binary or an object.
    method UnpackCount(k: Kind) returns (code: Code, n: nat)
      requires Valid()
      modifies this`readPos
      ensures Valid() && Took(ReadCount(k, old(Unread())), code, n, old(readPos))
    {
      ghost var s := Unread();
      var h := ReadHeader();
      if h == INVALID { return ErrorMsgTypeError, 0; }
      if KindOf(h) != Some(k) {
        OtherKind(k, s);
        return ErrorMsgTypeError, 0;
      }
      code, n := TakeLength(k, h, s);
    }

    // Skips one value with everything in it.
    method UnpackSkip() returns (code: Code)
      requires Valid()
      modifies this`readPos
      ensures Valid() && code == Skip(old(Unread())).code && readPos == old(readPos) + Skip(old(Unread())).used
      decreases |data| - readPos, 0
    {
      ghost var s := Unread();
      var h := ReadHeader();
      if h == INVALID { return ErrorMsgTypeError; }
      if h == NIL || h == TRUE || h == FALSE || h <= POSITIVE_FIXINT_TO || h >= NEGATIVE_FIXINT_FROM { return Success; }
      var size := NumberSize(h);
      if size > 0 {
        SetReadPos(readPos + size);
        return Success;
      }
      if KindOf(h).None? { return ErrorMsgTypeError; }
      CountedSkip(KindOf(h).kind, s);
      code := SkipCounted(KindOf(h).kind, h, s, Skip(s));
    }

    // Skips what has a count, when its header has been read.
    method SkipCounted(k: Kind, h: Byte, ghost s: seq<Byte>, ghost r: Skipped) returns (code: Code)
      requires Valid() && s != [] && s[0] == h && s[1..] == Unread() && KindOf(h) == Some(k) && readPos > 0
      requires CountSkipped(k, s, r)
      modifies this`readPos
      ensures Valid() && code == r.code && readPos == old(readPos) - 1 + r.used
      decreases |data| - readPos, 3
    {
      var n;
      ghost var from := readPos - 1;
      code, n := TakeLength(k, h, s);
      if code != Success { return; }
      Tail(s, data, from, ReadCount(k, s).used);
      code := SkipContents(k, n);
    }

    // Skips what comes behind a count: bytes, or values.
    method SkipContents(k: Kind, n: nat) returns (code: Code)
      requires Valid()
      modifies this`readPos
      ensures Valid() && if k.KStr? || k.KBin? then
          code == Success && readPos == old(readPos) + Ahead(old(Unread()), n)
        else
          var r := SkipMany(old(Unread()), Subs(k, n)); code == r.code && readPos == old(readPos) + r.used
      decreases |data| - readPos, 2
    {
      if k.KStr? || k.KBin? {
        SetReadPos(readPos + n);
        return Success;
      }
      var skipSub := if k.KMap? then n * 2 % COUNTS else n;
      code := SkipValues(skipSub);
    }

    // The count that belongs to a header read already.
    method TakeLength(k: Kind, h: Byte, ghost s: seq<Byte>) returns (code: Code, n: nat)
      requires Valid() && s != [] && s[0] == h && s[1..] == Unread() && KindOf(h) == Some(k)
      modifies this`readPos
      ensures Valid() && match ReadCount(k, s)
        case Got(m, used) => code == Success && n == m && readPos == old(readPos) + used - 1
        case Failed(c, _) => code == c != Success && readPos == old(readPos)
    {
      n := 0;
      if FixFrom(k) <= h < FixFrom(k) + FixCount(k) { return Success, h - FixFrom(k); }
      var t := if Has8(k) && h == Head8(k) then U8 else if h == Head16(k) then U16 else U32;
      var v;
      code, v := TakeNumber(t);
      KindHeads(k, h);
      TakenCount(k, t, s);
      if code == Success { n := v; }
    }

    method SkipValues(n: nat) returns (code: Code)
      requires Valid()
      modifies this`readPos
      ensures Valid() && code == SkipMany(old(Unread()), n).code &&
              readPos == old(readPos) + SkipMany(old(Unread()), n).used
      decreases |data| - readPos, 1
    {
      hide Skip;
      var i := 0;
      ghost var s := Unread();
      while i < n
        invariant i <= n && Valid() && old(readPos) <= readPos && Unread() == s[readPos - old(readPos)..]
        invariant SkipMany(s, n) == var r := SkipMany(Unread(), n - i); Skipped(r.code, readPos - old(readPos) + r.used)
      {
        code := UnpackSkip();
        if code != Success { return; }
        i := i + 1;
      }
      return Success;
    }
  }

  lemma OneMore(before: seq<Byte>, vs: seq<Value>)
    requires vs != [] && forall x :: x in vs ==> Well(x)
    ensures before + Pack(vs[0]) + PackAll(vs[1..]) == before + PackAll(vs)
  {
    Regroup(before, Pack(vs[0]), PackAll(vs[1..]));
  }

  lemma KindHeads(k: Kind, h: Byte)
    requires KindOf(h) == Some(k)
    ensures FixFrom(k) <= h < FixFrom(k) + FixCount(k) || (Has8(k) && h == Head8(k)) || h == Head16(k) || h == Head32(k)
    ensures h != INVALID
  {
  }

  lemma Tail(s: seq<Byte>, data: seq<Byte>, from: nat, used: nat)
    requires from < |data| && s != [] && s[1..] == data[from + 1..] && 1 <= used <= |s|
    ensures from + used <= |data| && data[from + used..] == s[used..]
  {
    assert |s| == |data| - from;
    assert s[used..] == s[1..][used - 1..];
  }

  lemma OtherKind(k: Kind, s: seq<Byte>)
    requires s != [] && KindOf(s[0]) != Some(k)
    ensures ReadCount(k, s) == Failed(ErrorMsgTypeError, 1)
  {
  }

  lemma Taken(t: Width, s: seq<Byte>)
    requires s != []
    ensures TakeInt(t, s, 1) == if |s[1..]| < Size(t) then Failed(ErrorReadBufferFailed, 1)
      else Got(Cast(t, Load(s[1..][..Size(t)])), 1 + Size(t))
  {
    if |s| >= 1 + Size(t) { assert s[1..][..Size(t)] == s[1..1 + Size(t)]; }
  }

  lemma TakenCount(k: Kind, t: Width, s: seq<Byte>)
    requires s != [] && KindOf(s[0]) == Some(k) && !(FixFrom(k) <= s[0] < FixFrom(k) + FixCount(k))
    requires t == if Has8(k) && s[0] == Head8(k) then U8 else if s[0] == Head16(k) then U16 else U32
    ensures ReadCount(k, s) ==
      if |s[1..]| < Size(t) then Failed(ErrorReadBufferFailed, 1)
      else Got(Cast(t, Load(s[1..][..Size(t)])), 1 + Size(t))
  {
    KindHeads(k, s[0]);
    if |s| >= 1 + Size(t) { assert s[1..][..Size(t)] == s[1..1 + Size(t)]; }
  }
}
