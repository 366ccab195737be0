// Base64 (section 4 of RFC 4648), at once and in chunks.
module Base64 {
  import opened Octets
  import opened Sequences

  const PAD: Byte := 61

  type Sextet = v: int | 0 <= v < 64 witness 0

  // A to Z, a to z, 0 to 9, plus and slash.
  function Letter(v: Sextet): Byte {
    if v < 26 then 65 + v else if v < 52 then 97 + v - 26 else if v < 62 then 48 + v - 52 else if v == 62 then 43
    else 47
  }

  datatype Maybe<T> = Some(value: T) | None

  function Value(c: Byte): Maybe<Sextet> {
    if 65 <= c <= 90 then Some(c - 65) else if 97 <= c <= 122 then Some(c - 97 + 26)
    else if 48 <= c <= 57 then Some(c - 48 + 52)
    else if c == 43 then Some(62) else if c == 47 then Some(63) else None
  }

  lemma ValueOfLetter(v: Sextet)
    ensures Value(Letter(v)) == Some(v) && Letter(v) != PAD
  {
  }

  // The six-bit values of three bytes, and back.
  function First(a: Byte): Sextet { a / 4 }

  function Second(a: Byte, b: Byte): Sextet { a % 4 * 16 + b / 16 }

  function Third(b: Byte, c: Byte): Sextet { b % 16 * 4 + c / 64 }

  function Fourth(c: Byte): Sextet { c % 64 }

  function Byte0(v: Sextet, w: Sextet): Byte { var x: int := v; x * 4 + w / 16 }

  function Byte1(w: Sextet, x: Sextet): Byte { var y: int := w; y % 16 * 16 + x / 4 }

  function Byte2(x: Sextet, y: Sextet): Byte { var z: int := x; z % 4 * 64 + y }

  lemma BytesBack(a: Byte, b: Byte, c: Byte)
    ensures Byte0(First(a), Second(a, b)) == a && Byte1(Second(a, b), Third(b, c)) == b &&
            Byte2(Third(b, c), Fourth(c)) == c
  {
  }

  // The values of up to three bytes; missing bytes count as zero.
  function GroupSextets(b: seq<Byte>): (v: seq<Sextet>)
    requires 1 <= |b| <= 3
    ensures |v| == |b| + 1
  {
    if |b| == 1 then [First(b[0]), Second(b[0], 0)]
    else if |b| == 2 then [First(b[0]), Second(b[0], b[1]), Third(b[1], 0)]
    else [First(b[0]), Second(b[0], b[1]), Third(b[1], b[2]), Fourth(b[2])]
  }

  function Letters(v: seq<Sextet>): (t: seq<Byte>)
    ensures |t| == |v|
  {
    if v == [] then [] else [Letter(v[0])] + Letters(v[1..])
  }

  // The code of up to three bytes, filled up to four characters.
  function Group(b: seq<Byte>): (t: seq<Byte>)
    requires 1 <= |b| <= 3
    ensures |t| == 4
  {
    Letters(GroupSextets(b)) + seq(3 - |b|, _ => PAD)
  }

  function Encoded(b: seq<Byte>): (t: seq<Byte>) {
    if b == [] then [] else if |b| <= 3 then Group(b) else Group(b[..3]) + Encoded(b[3..])
  }

  lemma {:induction false} EncodedLength(b: seq<Byte>)
    ensures |Encoded(b)| == (|b| + 2) / 3 * 4
  {
    if |b| > 3 { EncodedLength(b[3..]); }
  }

  lemma EncodedFirst(g: seq<Byte>, rest: seq<Byte>)
    requires |g| == 3
    ensures Encoded(g + rest) == Group(g) + Encoded(rest)
  {
    var b := g + rest;
    assert b[..3] == g && b[3..] == rest;
    if rest == [] { assert b == g && Group(g) + [] == Group(g); }
  }

  // Whole groups are coded one by one.
  lemma {:induction false} EncodedParts(a: seq<Byte>, b: seq<Byte>)
    requires |a| % 3 == 0
    ensures Encoded(a + b) == Encoded(a) + Encoded(b)
  {
    hide Group;
    if a == [] {
      assert a + b == b;
    } else {
      var g, rest := a[..3], a[3..];
      EncodedParts(rest, b);
      assert a == g + rest && a + b == g + (rest + b);
      EncodedFirst(g, rest);
      EncodedFirst(g, rest + b);
      Regroup(Group(g), Encoded(rest), Encoded(b));
    }
  }

  // The values up to the first padding; none if another character comes before.
  function Sextets(t: seq<Byte>): Maybe<seq<Sextet>> {
    if t == [] || t[0] == PAD then Some([])
    else match Value(t[0])
      case None => None
      case Some(v) => match Sextets(t[1..]) case None => None case Some(vs) => Some([v] + vs)
  }

  // The bytes of four values and less; a single value gives none.
  function Octets3(v: seq<Sextet>): (b: seq<Byte>)
    requires |v| <= 4
    ensures |b| == if |v| == 0 then 0 else |v| - 1
  {
    (if |v| >= 2 then [Byte0(v[0], v[1])] else [])
    + (if |v| >= 3 then [Byte1(v[1], v[2])] else [])
    + (if |v| >= 4 then [Byte2(v[2], v[3])] else [])
  }

  function FromSextets(v: seq<Sextet>): (b: seq<Byte>) {
    if |v| <= 4 then Octets3(v) else Octets3(v[..4]) + FromSextets(v[4..])
  }

  lemma FromFirst(g: seq<Sextet>, rest: seq<Sextet>)
    requires |g| == 4
    ensures FromSextets(g + rest) == Octets3(g) + FromSextets(rest)
  {
    var v := g + rest;
    assert v[..4] == g && v[4..] == rest;
    if rest == [] { assert v == g && Octets3(g) + [] == Octets3(g); }
  }

  lemma {:induction false} FromParts(a: seq<Sextet>, b: seq<Sextet>)
    requires |a| % 4 == 0
    ensures FromSextets(a + b) == FromSextets(a) + FromSextets(b)
  {
    if a == [] {
      assert a + b == b;
    } else {
      var g, rest := a[..4], a[4..];
      FromParts(rest, b);
      assert a == g + rest && a + b == g + (rest + b);
      FromFirst(g, rest);
      FromFirst(g, rest + b);
      Regroup(Octets3(g), FromSextets(rest), FromSextets(b));
    }
  }

  // What the decoder makes of a text: nothing if it comes upon a character that does not belong.
  function Decoded(t: seq<Byte>): seq<Byte> {
    match Sextets(t) case None => [] case Some(v) => FromSextets(v)
  }

  lemma GroupBack(b: seq<Byte>)
    requires 1 <= |b| <= 3
    ensures Octets3(GroupSextets(b)) == b
  {
    if |b| == 1 {
      BytesBack(b[0], 0, 0);
      OneBack(First(b[0]), Second(b[0], 0), b);
    } else if |b| == 2 {
      BytesBack(b[0], b[1], 0);
      TwoBack(First(b[0]), Second(b[0], b[1]), Third(b[1], 0), b);
    } else {
      BytesBack(b[0], b[1], b[2]);
      ThreeBack(First(b[0]), Second(b[0], b[1]), Third(b[1], b[2]), Fourth(b[2]), b);
    }
  }

  lemma OneBack(v: Sextet, w: Sextet, b: seq<Byte>)
    requires |b| == 1 && Byte0(v, w) == b[0]
    ensures Octets3([v, w]) == b
  {
    assert b == [b[0]];
  }

  lemma TwoBack(v: Sextet, w: Sextet, x: Sextet, b: seq<Byte>)
    requires |b| == 2 && Byte0(v, w) == b[0] && Byte1(w, x) == b[1]
    ensures Octets3([v, w, x]) == b
  {
    assert b == [b[0], b[1]];
  }

  lemma ThreeBack(v: Sextet, w: Sextet, x: Sextet, y: Sextet, b: seq<Byte>)
    requires |b| == 3 && Byte0(v, w) == b[0] && Byte1(w, x) == b[1] && Byte2(x, y) == b[2]
    ensures Octets3([v, w, x, y]) == b
  {
    assert b == [b[0], b[1], b[2]];
  }

  function Before(v: seq<Sextet>, rest: Maybe<seq<Sextet>>): Maybe<seq<Sextet>> {
    match rest case None => None case Some(vs) => Some(v + vs)
  }

  lemma GroupDecodes(b: seq<Byte>, rest: seq<Byte>)
    requires 1 <= |b| <= 3
    ensures Sextets(Group(b) + rest) == if |b| == 3 then Before(GroupSextets(b), Sextets(rest))
      else Some(GroupSextets(b))
  {
    var v, pads := GroupSextets(b), seq(3 - |b|, _ => PAD);
    assert Group(b) + rest == Letters(v) + (pads + rest);
    LettersFirst(v, pads + rest);
    if |b| == 3 { assert pads + rest == rest; } else { assert v + [] == v; }
  }

  lemma {:induction false} LettersFirst(v: seq<Sextet>, rest: seq<Byte>)
    ensures Sextets(Letters(v) + rest) == Before(v, Sextets(rest))
  {
    if v == [] {
      assert Letters(v) + rest == rest;
      if Sextets(rest).Some? { assert v + Sextets(rest).value == Sextets(rest).value; }
    } else {
      LettersFirst(v[1..], rest);
      ValueOfLetter(v[0]);
      LettersTail(v, rest);
      BeforeOne(v, Sextets(rest));
    }
  }

  lemma LettersTail(v: seq<Sextet>, rest: seq<Byte>)
    requires v != []
    ensures var t := Letters(v) + rest; t[0] == Letter(v[0]) && t[1..] == Letters(v[1..]) + rest
  {
  }

  lemma BeforeOne(v: seq<Sextet>, rest: Maybe<seq<Sextet>>)
    requires v != []
    ensures Before([v[0]], Before(v[1..], rest)) == Before(v, rest)
  {
    if rest.Some? { assert [v[0]] + (v[1..] + rest.value) == v + rest.value; }
  }

  // Decoding undoes encoding.
  lemma {:induction false} DecodedEncoded(b: seq<Byte>)
    ensures Decoded(Encoded(b)) == b
    ensures Sextets(Encoded(b)).Some?
  {
    if b == [] {
    } else if |b| <= 3 {
      GroupDecodes(b, []);
      assert Group(b) + [] == Group(b);
      if |b| == 3 { assert GroupSextets(b) + [] == GroupSextets(b); }
      GroupBack(b);
    } else {
      DecodedEncoded(b[3..]);
      GroupDecodes(b[..3], Encoded(b[3..]));
      GroupBack(b[..3]);
      FromFirst(GroupSextets(b[..3]), Sextets(Encoded(b[3..])).value);
      assert b == b[..3] + b[3..];
    }
  }

  datatype Code = Success | ErrorBase64DataError | ErrorBase64DecodeFailed | ErrorBufferNotEnough

  // The letters written after one or two bytes of a group.
  function Begun(p: seq<Byte>): (t: seq<Byte>)
    requires |p| < 3
    ensures |t| == |p|
  {
    if p == [] then [] else if |p| == 1 then [Letter(First(p[0]))]
    else [Letter(First(p[0])), Letter(Second(p[0], p[1]))]
  }

  // What a byte adds, by its place in the group.
  function Added(phase: nat, l: Byte, c: Byte): seq<Byte>
    requires phase < 3
  {
    if phase == 0 then [Letter(First(c))]
    else if phase == 1 then [Letter(Second(l, c))]
    else [Letter(Third(l, c)), Letter(Fourth(c))]
  }

  // The padded end of a group that is not full.
  function Finish(phase: nat, l: Byte): seq<Byte>
    requires phase < 3
  {
    if phase == 0 then [] else if phase == 1 then [Letter(Second(l, 0)), PAD, PAD] else [Letter(Third(l, 0)), PAD]
  }

  lemma LettersOf(v: seq<Sextet>)
    ensures |v| == 2 ==> Letters(v) == [Letter(v[0]), Letter(v[1])]
    ensures |v| == 3 ==> Letters(v) == [Letter(v[0]), Letter(v[1]), Letter(v[2])]
    ensures |v| == 4 ==> Letters(v) == [Letter(v[0]), Letter(v[1]), Letter(v[2]), Letter(v[3])]
  {
    if |v| == 2 { assert Letters(v[1..]) == [Letter(v[1])]; }
    if |v| == 3 { LettersOf(v[1..]); }
    if |v| == 4 { LettersOf(v[1..]); }
  }

  lemma Code1(a: Byte)
    ensures Group([a]) == Begun([a]) + Finish(1, a)
  {
    LettersOf(GroupSextets([a]));
  }

  lemma Code2(a: Byte, b: Byte)
    ensures Group([a, b]) == Begun([a, b]) + Finish(2, b)
  {
    LettersOf(GroupSextets([a, b]));
  }

  lemma Code3(a: Byte, b: Byte, c: Byte)
    ensures Group([a, b, c]) == Begun([a, b]) + Added(2, b, c)
  {
    LettersOf(GroupSextets([a, b, c]));
  }

  // What has been written after whole groups and a part of one.
  function Written(whole: seq<Byte>, part: seq<Byte>): (t: seq<Byte>)
    requires |part| < 3
  {
    Encoded(whole) + Begun(part)
  }

  lemma PartGrows(whole: seq<Byte>, part: seq<Byte>, l: Byte, c: Byte)
    requires |part| < 2 && (part != [] ==> l == part[0])
    ensures Written(whole, part + [c]) == Written(whole, part) + Added(|part|, l, c)
  {
    Regroup(Encoded(whole), Begun(part), Added(|part|, l, c));
  }

  lemma GroupFull(whole: seq<Byte>, part: seq<Byte>, c: Byte)
    requires |whole| % 3 == 0 && |part| == 2
    ensures Written(whole + part + [c], []) == Written(whole, part) + Added(2, part[1], c)
  {
    var g := [part[0], part[1], c];
    assert part == [part[0], part[1]] && whole + part + [c] == whole + g;
    EncodedParts(whole, g);
    Code3(part[0], part[1], c);
    Regroup(Encoded(whole), Begun(part), Added(2, part[1], c));
  }

  lemma WrittenFinished(whole: seq<Byte>, part: seq<Byte>, l: Byte)
    requires |whole| % 3 == 0 && |part| < 3 && (part != [] ==> l == part[|part| - 1])
    ensures Encoded(whole + part) == Written(whole, part) + Finish(|part|, l)
  {
    EncodedParts(whole, part);
    Regroup(Encoded(whole), Begun(part), Finish(|part|, l));
    if |part| == 1 { Code1(part[0]); assert part == [part[0]]; }
    if |part| == 2 { Code2(part[0], part[1]); assert part == [part[0], part[1]]; }
  }

  method Base64Encode(out: array<Byte>, src: seq<Byte>) returns (code: Code, len: nat)
    modifies out
    ensures code == if (|src| + 2) / 3 * 4 > out.Length then ErrorBufferNotEnough else Success
    ensures code == Success ==> len == |Encoded(src)| <= out.Length && out[..len] == Encoded(src)
  {
    if (|src| + 2) / 3 * 4 > out.Length { return ErrorBufferNotEnough, 0; }
    var s, j, l: Byte := 0, 0, 0;
    ghost var whole, part: seq<Byte> := [], [];
    var i := 0;
    while i < |src|
      invariant 0 <= i <= |src| && Encoding(out, j, s, l, src[..i], whole, part)
    {
      s, j, whole, part := EncodeNext(out, j, s, l, src, i, whole, part);
      l := src[i];
      i := i + 1;
    }
    assert src[..i] == src;
    WrittenFinished(whole, part, l);
    EncodedLength(src);
    j := FinishGroup(out, j, s, l);
    return Success, j;
  }

  // The state of the encoding loop.
  ghost predicate Encoding(out: array<Byte>, j: nat, s: nat, l: Byte, src: seq<Byte>, whole: seq<Byte>, part: seq<Byte>)
    reads out
  {
    && src == whole + part && |whole| % 3 == 0 && s == |part| < 3 && (part != [] ==> l == part[|part| - 1])
    && j == |Written(whole, part)| <= out.Length && out[..j] == Written(whole, part)
  }

  method EncodeNext(out: array<Byte>, at: nat, phase: nat, l: Byte, src: seq<Byte>, i: nat, ghost whole: seq<Byte>,
                    ghost part: seq<Byte>)
    returns (s: nat, j: nat, ghost whole': seq<Byte>, ghost part': seq<Byte>)
    requires i < |src| && (|src| + 2) / 3 * 4 <= out.Length && Encoding(out, at, phase, l, src[..i], whole, part)
    modifies out
    ensures Encoding(out, j, s, src[i], src[..i + 1], whole', part')
  {
    assert src[..i + 1] == src[..i] + [src[i]];
    RoomForMore(|src|, |whole|, phase);
    EncodedLength(whole);
    s, j := EncodeByte(out, at, phase, l, src[i]);
    whole', part' := NextParts(whole, part, l, src[i]);
  }

  lemma NextParts(whole: seq<Byte>, part: seq<Byte>, l: Byte, c: Byte) returns (whole': seq<Byte>, part': seq<Byte>)
    requires |whole| % 3 == 0 && |part| < 3 && (part != [] ==> l == part[|part| - 1])
    ensures whole' + part' == whole + part + [c] && |whole'| % 3 == 0 && |part'| == (|part| + 1) % 3 &&
            (part' != [] ==> part'[|part'| - 1] == c)
    ensures Written(whole', part') == Written(whole, part) + Added(|part|, l, c)
  {
    if |part| == 2 {
      GroupFull(whole, part, c);
      whole', part' := whole + part + [c], [];
    } else {
      PartGrows(whole, part, l, c);
      whole', part' := whole, part + [c];
    }
  }

  // Another byte has room.
  lemma RoomForMore(n: nat, whole: nat, s: nat)
    requires whole % 3 == 0 && s < 3 && whole + s < n
    ensures (whole + 2) / 3 * 4 + s + (if s == 2 then 2 else 1) <= (n + 2) / 3 * 4
  {
  }

  method EncodeByte(out: array<Byte>, at: nat, phase: nat, l: Byte, c: Byte) returns (s: nat, j: nat)
    requires phase < 3 && at + |Added(phase, l, c)| <= out.Length
    modifies out
    ensures s == (phase + 1) % 3 && j == at + |Added(phase, l, c)| && out[..j] == old(out[..at]) + Added(phase, l, c)
  {
    j := at;
    if phase == 0 {
      s := 1;
      out[j] := Letter(c / 4);
      j := j + 1;
    } else if phase == 1 {
      s := 2;
      out[j] := Letter(l % 4 * 16 + c / 16);
      j := j + 1;
    } else {
      s := 0;
      out[j] := Letter(l % 16 * 4 + c / 64);
      out[j + 1] := Letter(c % 64);
      j := j + 2;
    }
  }

  method FinishGroup(out: array<Byte>, at: nat, phase: nat, l: Byte) returns (j: nat)
    requires phase < 3 && at + |Finish(phase, l)| <= out.Length
    modifies out
    ensures j == at + |Finish(phase, l)| && out[..j] == old(out[..at]) + Finish(phase, l)
  {
    j := at;
    if phase == 1 {
      out[j], out[j + 1], out[j + 2] := Letter(l % 4 * 16), PAD, PAD;
      j := j + 3;
    } else if phase == 2 {
      out[j], out[j + 1] := Letter(l % 16 * 4), PAD;
      j := j + 2;
    }
  }

  // What a value adds, by its place in the group.
  function Gained(phase: nat, last: Sextet, c: Sextet): seq<Byte>
    requires phase < 4
  {
    if phase == 0 then [] else if phase == 1 then [Byte0(last, c)] else if phase == 2 then [Byte1(last, c)]
    else [Byte2(last, c)]
  }

  // What is kept of a value for the next byte.
  function Carry(phase: nat, c: Sextet): Byte {
    var x: int := c;
    if phase == 0 then x * 4 else if phase == 1 then x % 16 * 16 else if phase == 2 then x % 4 * 64 else 0
  }

  lemma FromGrows(whole: seq<Sextet>, part: seq<Sextet>, last: Sextet, c: Sextet)
    requires |whole| % 4 == 0 && |part| < 4 && (part != [] ==> last == part[|part| - 1])
    ensures FromSextets(whole + part + [c]) == FromSextets(whole + part) + Gained(|part|, last, c)
    ensures |FromSextets(whole + part)| == |FromSextets(whole)| + (if |part| > 1 then |part| - 1 else 0)
  {
    Regroup(whole, part, [c]);
    FromParts(whole, part);
    FromParts(whole, part + [c]);
    Octets3Grows(part, last, c);
    Regroup(FromSextets(whole), Octets3(part), Gained(|part|, last, c));
  }

  lemma Octets3Grows(part: seq<Sextet>, last: Sextet, c: Sextet)
    requires |part| < 4 && (part != [] ==> last == part[|part| - 1])
    ensures Octets3(part + [c]) == Octets3(part) + Gained(|part|, last, c)
  {
  }

  lemma {:induction false} FromLength(v: seq<Sextet>)
    requires |v| % 4 == 0
    ensures |FromSextets(v)| == |v| / 4 * 3
  {
    if |v| > 4 { FromLength(v[4..]); }
  }

  // The state of the decoding loop: the bytes of the values so far, and the bits left over in the next place.
  ghost predicate Decoding(out: array<Byte>, j: nat, last: Sextet, v: seq<Sextet>, whole: seq<Sextet>,
                           part: seq<Sextet>)
    reads out
  {
    && v == whole + part && |whole| % 4 == 0 && |part| < 4 && (part != [] ==> last == part[|part| - 1])
    && j == |FromSextets(v)| <= out.Length && out[..j] == FromSextets(v)
    && (part != [] ==> j < out.Length && out[j] == Carry(|part| - 1, last))
  }

  method DecodeNext(out: array<Byte>, at: nat, phase: nat, last: Sextet, c: Sextet, ghost v: seq<Sextet>,
                    ghost whole: seq<Sextet>, ghost part: seq<Sextet>)
    returns (j: nat, ghost whole': seq<Sextet>, ghost part': seq<Sextet>)
    requires phase == |part| && Decoding(out, at, last, v, whole, part) && |v| / 4 * 3 + 3 <= out.Length
    modifies out
    ensures Decoding(out, j, c, v + [c], whole', part')
  {
    FromGrows(whole, part, last, c);
    FromLength(whole);
    Quarter(|whole|, |part|);
    j := PutValue(out, at, phase, last, c);
    whole', part' := NextValues(whole, part, last, c);
  }

  lemma Quarter(n: nat, k: nat)
    requires n % 4 == 0 && k < 4
    ensures (n + k) / 4 * 3 == n / 4 * 3
  {
  }

  lemma NextValues(whole: seq<Sextet>, part: seq<Sextet>, last: Sextet, c: Sextet)
    returns (whole': seq<Sextet>, part': seq<Sextet>)
    requires |whole| % 4 == 0 && |part| < 4
    ensures whole + part + [c] == whole' + part' && |whole'| % 4 == 0 && |part'| == (|part| + 1) % 4
    ensures part' != [] ==> part'[|part'| - 1] == c
  {
    if |part| == 3 {
      whole', part' := whole + part + [c], [];
    } else {
      whole', part' := whole, part + [c];
    }
  }

  method PutValue(out: array<Byte>, at: nat, phase: nat, last: Sextet, c: Sextet) returns (j: nat)
    requires phase < 4 && at + (if phase == 0 || phase == 3 then 1 else 2) <= out.Length &&
             (phase > 0 ==> out[at] == Carry(phase - 1, last))
    modifies out
    ensures j == at + |Gained(phase, last, c)| && out[..j] == old(out[..at]) + Gained(phase, last, c)
    ensures phase < 3 ==> j < out.Length && out[j] == Carry(phase, c)
  {
    var x: int := c;
    j := at;
    if phase == 0 {
      out[j] := x * 4;
    } else if phase == 1 {
      out[j] := out[j] + x / 16;
      j := j + 1;
      out[j] := x % 16 * 16;
    } else if phase == 2 {
      out[j] := out[j] + x / 4;
      j := j + 1;
      out[j] := x % 4 * 64;
    } else {
      out[j] := out[j] + x;
      j := j + 1;
    }
  }

  method Base64Decode(out: array<Byte>, t: seq<Byte>) returns (code: Code, len: nat)
    requires out.Length >= |t| / 4 * 3
    modifies out
    ensures code == if |t| % 4 != 0 then ErrorBase64DataError else Success
    ensures code == Success ==> len <= out.Length && out[..len] == Decoded(t)
  {
    if |t| % 4 != 0 { return ErrorBase64DataError, 0; }
    var j, last: Sextet := 0, 0;
    ghost var v, whole, part: seq<Sextet> := [], [], [];
    var i := 0;
    assert t[0..] == t;
    NothingBefore(Sextets(t));
    while i < |t|
      invariant 0 <= i <= |t| && |v| == i && |part| == i % 4 && Decoding(out, j, last, v, whole, part)
      invariant Sextets(t) == Before(v, Sextets(t[i..]))
    {
      if t[i] == PAD {
        assert v + [] == v;
        return Success, j;
      }
      var c := Value(t[i]);
      if c.None? { return Success, 0; }
      assert t[i..][1..] == t[i + 1..];
      OneBefore(v, c.value, Sextets(t[i + 1..]));
      j, whole, part := DecodeAt(out, j, i, |t|, last, c.value, v, whole, part);
      v := v + [c.value];
      last := c.value;
      i := i + 1;
    }
    assert v + [] == v;
    return Success, j;
  }

  method DecodeAt(out: array<Byte>, at: nat, i: nat, ghost n: nat, last: Sextet, c: Sextet, ghost v: seq<Sextet>,
                  ghost whole: seq<Sextet>, ghost part: seq<Sextet>)
    returns (j: nat, ghost whole': seq<Sextet>, ghost part': seq<Sextet>)
    requires i == |v| < n && n % 4 == 0 && out.Length >= n / 4 * 3 && |part| == i % 4 &&
             Decoding(out, at, last, v, whole, part)
    modifies out
    ensures Decoding(out, j, c, v + [c], whole', part') && |part'| == (i + 1) % 4
  {
    RoomForValue(i, n);
    j, whole', part' := DecodeNext(out, at, i % 4, last, c, v, whole, part);
    PartLength(|whole'|, |part'|);
  }

  lemma PartLength(n: nat, k: nat)
    requires n % 4 == 0 && k < 4
    ensures (n + k) % 4 == k
  {
  }

  lemma RoomForValue(i: nat, n: nat)
    requires i < n && n % 4 == 0
    ensures i / 4 * 3 + 3 <= n / 4 * 3
  {
  }

  lemma NothingBefore(r: Maybe<seq<Sextet>>)
    ensures Before([], r) == r
  {
    if r.Some? { assert [] + r.value == r.value; }
  }

  lemma OneBefore(v: seq<Sextet>, c: Sextet, rest: Maybe<seq<Sextet>>)
    ensures Before(v, Before([c], rest)) == Before(v + [c], rest)
  {
    if rest.Some? { Regroup(v, [c], rest.value); }
  }

  // Whole groups at the beginning of a code are the code of a beginning of the bytes.
  lemma {:induction false} TakeGroups(left: seq<Byte>, data: seq<Byte>) returns (x: seq<Byte>, y: seq<Byte>)
    requires data <= Encoded(left) && |data| % 4 == 0
    ensures left == x + y && (|x| % 3 == 0 || y == []) && Encoded(x) == data
    ensures data == [] ==> x == []
    decreases |left|
  {
    if data == [] {
      x, y := [], left;
    } else if |left| <= 3 {
      x, y := left, [];
    } else {
      var g, rest := left[..3], left[3..];
      FirstGroup(g, rest, left, data);
      var x';
      x', y := TakeGroups(rest, data[4..]);
      EncodedFirst(g, x');
      Regroup(g, x', y);
      x := g + x';
    }
  }

  lemma FirstGroup(g: seq<Byte>, rest: seq<Byte>, left: seq<Byte>, data: seq<Byte>)
    requires |g| == 3 && left == g + rest && data <= Encoded(left) && |data| >= 4
    ensures data == Group(g) + data[4..] && data[4..] <= Encoded(rest)
  {
    EncodedFirst(g, rest);
    assert data[..4] == Group(g);
  }

  lemma CodeJoined(a: seq<Byte>, b: seq<Byte>)
    requires |a| % 3 == 0 || b == []
    ensures Encoded(a + b) == Encoded(a) + Encoded(b)
  {
    if |a| % 3 == 0 { EncodedParts(a, b); } else { assert a + b == a && Encoded(a) + [] == Encoded(a); }
  }

  lemma SamePrefix<T>(a: seq<T>, b: seq<T>, c: seq<T>)
    requires a + b <= a + c
    ensures b <= c
  {
    assert forall i :: 0 <= i < |b| ==> b[i] == (a + b)[|a| + i] == (a + c)[|a| + i] == c[i];
  }

  // The code of what is done and the next groups, and of what remains.
  lemma Onward(done: seq<Byte>, x: seq<Byte>, y: seq<Byte>, left: seq<Byte>)
    requires left == x + y && (|done| % 3 == 0 || left == []) && (|x| % 3 == 0 || y == [])
    ensures Encoded(done + x) == Encoded(done) + Encoded(x) && Encoded(left) == Encoded(x) + Encoded(y)
  {
    CodeJoined(x, y);
    if |done| % 3 == 0 { CodeJoined(done, x); } else { CodeJoined(done, []); }
  }

  lemma StillWhole(m: nat, n: nat, end: bool, end': bool)
    requires (m % 3 == 0 || end) && (n % 3 == 0 || end') && (end ==> end')
    ensures (m + n) % 3 == 0 || end'
  {
  }

  ghost predicate Uncoded(b: seq<Byte>, fed: seq<Byte>, output: seq<Byte>, left: seq<Byte>, cache: seq<Byte>) {
    && b == output + left && (|output| % 3 == 0 || left == [])
    && fed == Encoded(output) + cache && |cache| < 4 && cache <= Encoded(left)
  }

  // What the decoder holds: the characters of a group that is not full yet, and the bytes decoded.
  datatype Held = Held(cache: seq<Byte>, output: seq<Byte>)

  // Whole groups, the cache first, are decoded at once, and what is left over is held.
  function Taken(h: Held, text: seq<Byte>): (r: Held)
    ensures |r.cache| < 4
  {
    var input := h.cache + text;
    var k := WholeGroups(|input|);
    Held(input[k..], if k == 0 then h.output else h.output + Decoded(input[..k]))
  }

  // How many of n characters are whole groups.
  function WholeGroups(n: nat): (k: nat)
    ensures k <= n < k + 4 && k % 4 == 0
  {
    n - n % 4
  }

  // A chunk fills up the group that is held; what is behind it is taken separately.
  function Updated(h: Held, src: seq<Byte>): (r: Held)
    requires |h.cache| < 4
    ensures |r.cache| < 4
  {
    if h.cache != [] && |h.cache| + |src| >= 4 then
      Taken(Taken(h, src[..4 - |h.cache|]), src[4 - |h.cache|..])
    else Taken(h, src)
  }

  lemma NotFull(h: Held, src: seq<Byte>)
    requires |h.cache| + |src| < 4
    ensures Updated(h, src) == Held(h.cache + src, h.output)
    ensures src == [] ==> Updated(h, src) == h
  {
    assert src == [] ==> h.cache + src == h.cache;
  }

  // What comes next is the beginning of the code of the rest.
  lemma Ahead(b: seq<Byte>, fed: seq<Byte>, output: seq<Byte>, left: seq<Byte>, cache: seq<Byte>, src: seq<Byte>)
    requires Uncoded(b, fed, output, left, cache) && fed + src <= Encoded(b)
    ensures cache + src <= Encoded(left)
  {
    CodeJoined(output, left);
    Regroup(Encoded(output), cache, src);
    SamePrefix(Encoded(output), cache + src, Encoded(left));
  }

  // Decoding whole groups moves their bytes x from what is left to the output.
  lemma GroupsUncoded(b: seq<Byte>, fed: seq<Byte>, output: seq<Byte>, left: seq<Byte>, cache: seq<Byte>,
                      src: seq<Byte>,
                      data: seq<Byte>, rest: seq<Byte>) returns (x: seq<Byte>, y: seq<Byte>)
    requires Uncoded(b, fed, output, left, cache) && cache + src <= Encoded(left)
    requires cache + src == data + rest && |data| % 4 == 0 && |rest| < 4
    ensures Decoded(data) == x && (data == [] ==> output + x == output) && Uncoded(b, fed + src, output + x, y, rest)
  {
    hide Encoded, Decoded;
    x, y := TakeGroups(left, data);
    DecodedEncoded(x);
    Onward(output, x, y, left);
    Regroup(output, x, y);
    StillWhole(|output|, |x|, left == [], y == []);
    Regroup(Encoded(output), cache, src);
    Regroup(Encoded(output), data, rest);
    SamePrefix(data, rest, Encoded(y));
  }

  lemma TakenUncodes(b: seq<Byte>, fed: seq<Byte>, h: Held, left: seq<Byte>, src: seq<Byte>) returns (left': seq<Byte>)
    requires Uncoded(b, fed, h.output, left, h.cache) && fed + src <= Encoded(b)
    ensures Uncoded(b, fed + src, Taken(h, src).output, left', Taken(h, src).cache)
  {
    var input := h.cache + src;
    var k := WholeGroups(|input|);
    Ahead(b, fed, h.output, left, h.cache, src);
    assert input == input[..k] + input[k..];
    var x;
    x, left' := GroupsUncoded(b, fed, h.output, left, h.cache, src, input[..k], input[k..]);
  }

  // After any chunk of a code the output is a beginning of what was coded, and the rest of what was fed is held.
  lemma UpdatedUncodes(b: seq<Byte>, fed: seq<Byte>, h: Held, left: seq<Byte>, src: seq<Byte>)
    returns (left': seq<Byte>)
    requires Uncoded(b, fed, h.output, left, h.cache) && fed + src <= Encoded(b)
    ensures Uncoded(b, fed + src, Updated(h, src).output, left', Updated(h, src).cache)
  {
    if h.cache != [] && |h.cache| + |src| >= 4 {
      var p, q := src[..4 - |h.cache|], src[4 - |h.cache|..];
      assert src == p + q;
      Regroup(fed, p, q);
      left' := TakenUncodes(b, fed, h, left, p);
      left' := TakenUncodes(b, fed + p, Taken(h, p), left', q);
    } else {
      left' := TakenUncodes(b, fed, h, left, src);
    }
  }

  class PureBase64 {
    var inputCache: seq<Byte>
    var output: seq<Byte>
    // All that was fed to the encoder, and of it the whole groups encoded.
    ghost var fed: seq<Byte>
    ghost var whole: seq<Byte>

    // Starts encoding or decoding.
    constructor ()
      ensures Coding() && inputCache == [] && output == [] && fed == []
    {
      inputCache, output, fed, whole := [], [], [], [];
    }

    method Clear()
      modifies this
      ensures Coding() && inputCache == [] && output == [] && fed == []
    {
      inputCache, output, fed, whole := [], [], [], [];
    }

    ghost function State(): Held
      reads this
    {
      Held(inputCache, output)
    }

    // The output is the code of all whole groups fed; what is left over is in the cache.
    ghost predicate Coding()
      reads this
    {
      fed == whole + inputCache && |inputCache| < 3 && |whole| % 3 == 0 && output == Encoded(whole)
    }

    method EncodeData(src: seq<Byte>) returns (code: Code)
      modifies this`output
      ensures code == if src == [] then ErrorBase64DataError else Success
      ensures output == if src == [] then old(output) else old(output) + Encoded(src)
    {
      if src == [] { return ErrorBase64DataError; }
      var buffer := new Byte[(|src| + 2) / 3 * 4];
      var len;
      code, len := Base64Encode(buffer, src);
      output := output + buffer[..len];
    }

    method UpdateEncode(src: seq<Byte>) returns (code: Code)
      requires Coding()
      modifies this
      ensures Coding() && code == if src == [] then ErrorBase64DataError else Success
      ensures fed == old(fed) + src
    {
      if src == [] {
        assert fed + src == fed;
        return ErrorBase64DataError;
      }
      var data := src;
      if |inputCache| > 0 {
        if |inputCache| + |src| < 3 {
          Regroup(whole, inputCache, src);
          inputCache := inputCache + src;
          fed := fed + src;
          return Success;
        }
        var n := 3 - |inputCache|;
        data := src[n..];
        FillGroup(src[..n]);
        assert fed + data == old(fed) + src;
      }
      EncodeWhole(data);
      return Success;
    }

    // The cache is filled up to a group, which is coded.
    method FillGroup(src: seq<Byte>)
      requires Coding() && |inputCache| + |src| == 3
      modifies this
      ensures Coding() && inputCache == [] && fed == old(fed) + src
    {
      var group := inputCache + src;
      EncodedParts(whole, group);
      Regroup(whole, inputCache, src);
      var code := EncodeData(group);
      inputCache := [];
      fed, whole := fed + src, whole + group;
    }

    // Whole groups are coded, and what is left over goes to the cache.
    method EncodeWhole(src: seq<Byte>)
      requires Coding() && inputCache == []
      modifies this
      ensures Coding() && fed == old(fed) + src
    {
      var cacheSize := |src| % 3;
      var data := src[..|src| - cacheSize];
      if cacheSize > 0 { inputCache := src[|src| - cacheSize..]; }
      EncodedOn(whole, data, inputCache);
      assert src == data + inputCache && fed == whole + [] == whole;
      fed, whole := fed + src, whole + data;
      if data != [] { var code := EncodeData(data); }
    }

    lemma EncodedOn(done: seq<Byte>, data: seq<Byte>, cache: seq<Byte>)
      requires |done| % 3 == 0
      ensures Encoded(done + data) == Encoded(done) + Encoded(data) && done + (data + cache) == done + data + cache
      ensures data == [] ==> Encoded(done + data) == Encoded(done)
    {
      EncodedParts(done, data);
      Regroup(done, data, cache);
    }

    method FinishEncode() returns (code: Code)
      requires Coding()
      modifies this
      ensures code == Success && output == Encoded(fed) && fed == old(fed) && inputCache == []
    {
      EncodedParts(whole, inputCache);
      assert Encoded(whole) + [] == Encoded(whole);
      if |inputCache| > 0 { code := EncodeData(inputCache); }
      inputCache := [];
      return Success;
    }

    method DecodeData(src: seq<Byte>) returns (code: Code)
      modifies this`output
      ensures code == if src == [] then ErrorBase64DataError else if |src| % 4 != 0 then ErrorBase64DecodeFailed
        else Success
      ensures output == if code == Success then old(output) + Decoded(src) else old(output)
    {
      if src == [] { return ErrorBase64DataError; }
      var buffer := new Byte[|src| / 4 * 3];
      var len;
      code, len := Base64Decode(buffer, src);
      if code != Success { return ErrorBase64DecodeFailed; }
      output := output + buffer[..len];
    }

    // Takes a chunk of any text.
    method UpdateDecode(src: seq<Byte>) returns (code: Code)
      requires |inputCache| < 4
      modifies this`inputCache, this`output
      ensures code == if src == [] then ErrorBase64DataError else Success
      ensures State() == Updated(old(State()), src) && |inputCache| < 4
    {
      ghost var h := State();
      if src == [] {
        NotFull(h, src);
        return ErrorBase64DataError;
      }
      if |inputCache| == 0 {
        DecodeWhole(src);
        return Success;
      }
      if |inputCache| + |src| < 4 {
        NotFull(h, src);
        inputCache := inputCache + src;
        return Success;
      }
      FillUp(src);
      return Success;
    }

    method FillUp(src: seq<Byte>)
      requires 0 < |inputCache| < 4 <= |inputCache| + |src|
      modifies this`inputCache, this`output
      ensures State() == Updated(old(State()), src) && |inputCache| < 4
    {
      var n := 4 - |inputCache|;
      DecodeWhole(src[..n]);
      DecodeWhole(src[n..]);
    }

    // Decodes whole groups, the cache first; what is left over goes to the cache.
    method DecodeWhole(src: seq<Byte>)
      modifies this`inputCache, this`output
      ensures State() == Taken(old(State()), src)
    {
      var input := inputCache + src;
      var dataSize := WholeGroups(|input|);
      var data := input[..dataSize];
      inputCache := input[dataSize..];
      if data != [] { var code := DecodeData(data); }
    }

    method FinishDecode() returns (code: Code)
      requires |inputCache| < 4
      modifies this
      ensures code == if old(inputCache) == [] then Success else ErrorBase64DecodeFailed
      ensures output == old(output)
    {
      if |inputCache| > 0 {
        code := DecodeData(inputCache);
        return;
      }
      inputCache := [];
      return Success;
    }
  }

  function Flat(chunks: seq<seq<Byte>>): seq<Byte> {
    if chunks == [] then [] else Flat(chunks[..|chunks| - 1]) + chunks[|chunks| - 1]
  }

  // The code of a text fed in chunks is that of the whole, however it is cut; and decoding that code, cut
  // in any other way, gives the whole text back.
  method EncodeChunks(chunks: seq<seq<Byte>>) returns (text: seq<Byte>)
    requires forall c :: c in chunks ==> c != []
    ensures text == Encoded(Flat(chunks))
  {
    var p := new PureBase64();
    var i := 0;
    while i < |chunks|
      invariant 0 <= i <= |chunks| && fresh(p) && p.Coding() && p.fed == Flat(chunks[..i])
    {
      assert chunks[..i + 1][..i] == chunks[..i];
      var code := p.UpdateEncode(chunks[i]);
      i := i + 1;
    }
    assert chunks[..i] == chunks;
    var code := p.FinishEncode();
    return p.output;
  }

  method DecodeChunks(chunks: seq<seq<Byte>>, ghost b: seq<Byte>) returns (code: Code, text: seq<Byte>)
    requires (forall c :: c in chunks ==> c != []) && Flat(chunks) == Encoded(b)
    ensures code == Success && text == b
  {
    var p := new PureBase64();
    var i := 0;
    ghost var left := b;
    NothingFed(b);
    while i < |chunks|
      invariant 0 <= i <= |chunks| && fresh(p) && Uncoded(b, Flat(chunks[..i]), p.output, left, p.inputCache)
    {
      left := ChunkUncodes(b, chunks, i, p.State(), left);
      code := p.UpdateDecode(chunks[i]);
      i := i + 1;
    }
    assert chunks[..i] == chunks;
    AllDecoded(p.output, left, p.inputCache);
    code := p.FinishDecode();
    return code, p.output;
  }

  lemma ChunkUncodes(b: seq<Byte>, chunks: seq<seq<Byte>>, i: nat, h: Held, left: seq<Byte>) returns (left': seq<Byte>)
    requires i < |chunks| && Flat(chunks) == Encoded(b) && Uncoded(b, Flat(chunks[..i]), h.output, left, h.cache)
    ensures var r := Updated(h, chunks[i]); Uncoded(b, Flat(chunks[..i + 1]), r.output, left', r.cache)
  {
    assert chunks[..i + 1][..i] == chunks[..i];
    FlatPrefix(chunks, i + 1);
    left' := UpdatedUncodes(b, Flat(chunks[..i]), h, left, chunks[i]);
  }

  lemma NothingFed(b: seq<Byte>)
    ensures Uncoded(b, [], [], b, [])
  {
    assert [] + b == b && Encoded([]) + [] == [];
  }

  // When all of the code has been fed nothing is left.
  lemma AllDecoded(done: seq<Byte>, left: seq<Byte>, cache: seq<Byte>)
    requires (|done| % 3 == 0 || left == []) && Encoded(done) + cache == Encoded(done + left) && |cache| < 4
    ensures left == [] && cache == [] && done + left == done
  {
    CodeJoined(done, left);
    EncodedLength(left);
  }

  lemma {:induction false} FlatPrefix(chunks: seq<seq<Byte>>, n: nat)
    requires n <= |chunks|
    ensures Flat(chunks[..n]) <= Flat(chunks)
    decreases |chunks| - n
  {
    if n == |chunks| {
      assert chunks[..n] == chunks;
    } else {
      FlatPrefix(chunks, n + 1);
      assert chunks[..n + 1][..n] == chunks[..n];
    }
  }
}
