// Formatting a command for Redis, and walking through the arguments of a formatted command.
module Redis {
  import opened Arithmetic
  import opened Octets

  const CR: Byte := 13
  const LF: Byte := 10
  const STAR: Byte := 42
  const DOLLAR: Byte := 36
  const ZERO: Byte := 48

  // A number in decimal.
  function Decimal(v: nat): (d: seq<Byte>)
    ensures d != [] && forall c :: c in d ==> IsDigit(c)
  {
    if v < 10 then [ZERO + v] else Decimal(v / 10) + [ZERO + v % 10]
  }

  // The digits, the highest first, and no more of them than it takes.
  lemma {:induction false} DecimalAt(v: nat, i: nat)
    requires i < |Decimal(v)|
    ensures Decimal(v)[i] == '0' as int + v / Pow(10, |Decimal(v)| - 1 - i) % 10
    decreases v
  {
    assert Pow(10, 0) == 1;
    var n := |Decimal(v)|;
    if i < n - 1 {
      DecimalAt(v / 10, i);
      DivDiv(v, 10, Pow(10, n - 2 - i));
    }
  }

  lemma {:induction false} DecimalSize(v: nat)
    ensures var n := |Decimal(v)|; v < Pow(10, n) && (n > 1 ==> Pow(10, n - 1) <= v)
  {
    if v >= 10 { DecimalSize(v / 10); }
  }

  predicate IsDigit(c: Byte) {
    ZERO <= c < ZERO + 10
  }

  function Digit(c: Byte): nat
    requires IsDigit(c)
  {
    c - ZERO
  }

  // The number the digits at the beginning of a text stand for.
  function Number(t: seq<Byte>, sofar: nat): (v: nat)
  {
    if t == [] || !IsDigit(t[0]) then sofar else Number(t[1..], sofar * 10 + Digit(t[0]))
  }

  lemma {:induction false} NumberOfDecimal(v: nat, rest: seq<Byte>)
    requires rest != [] && !IsDigit(rest[0])
    ensures Number(Decimal(v) + rest, 0) == v
  {
    NumberParts(Decimal(v), rest, 0);
    assert Number(rest, ValueOf(Decimal(v), 0)) == ValueOf(Decimal(v), 0);
    ValueOfDecimal(v);
  }

  function ValueOf(d: seq<Byte>, sofar: nat): nat
    requires forall c :: c in d ==> IsDigit(c)
  {
    if d == [] then sofar else
      assert d[0] in d && forall c :: c in d[1..] ==> c in d;
      ValueOf(d[1..], sofar * 10 + Digit(d[0]))
  }

  lemma {:induction false} NumberParts(d: seq<Byte>, rest: seq<Byte>, sofar: nat)
    requires forall c :: c in d ==> IsDigit(c)
    ensures Number(d + rest, sofar) == Number(rest, ValueOf(d, sofar))
  {
    if d == [] {
      assert d + rest == rest;
    } else {
      assert d[0] in d && forall c :: c in d[1..] ==> c in d;
      NumberParts(d[1..], rest, sofar * 10 + Digit(d[0]));
      assert (d + rest)[1..] == d[1..] + rest;
    }
  }

  lemma {:induction false} ValueOfLast(d: seq<Byte>, c: Byte, sofar: nat)
    requires (forall x :: x in d ==> IsDigit(x)) && IsDigit(c)
    ensures ValueOf(d + [c], sofar) == ValueOf(d, sofar) * 10 + Digit(c)
  {
    if d == [] {
      assert d + [c] == [c] && [c][1..] == [];
    } else {
      assert d[0] in d && forall x :: x in d[1..] ==> x in d;
      ValueOfLast(d[1..], c, sofar * 10 + Digit(d[0]));
      assert (d + [c])[1..] == d[1..] + [c];
    }
  }

  lemma {:induction false} ValueOfDecimal(v: nat)
    ensures ValueOf(Decimal(v), 0) == v
  {
    if v < 10 {
      assert [ZERO + v][1..] == [];
    } else {
      ValueOfDecimal(v / 10);
      ValueOfLast(Decimal(v / 10), ZERO + v % 10, 0);
    }
  }

  // The number of digits, four at a time.
  method CountDigits(v: nat) returns (count: nat)
    ensures count == |Decimal(v)|
  {
    var n, result := v, 1;
    while true
      invariant result >= 1 && |Decimal(v)| == |Decimal(n)| + result - 1
      decreases n
    {
      if n < 10 { return result; }
      if n < 100 { return result + 1; }
      if n < 1000 { TwoDigits(n); return result + 2; }
      if n < 10000 { TwoDigits(n); return result + 3; }
      FourDigits(n);
      n := n / 10000;
      result := result + 4;
    }
  }

  lemma TwoDigits(n: nat)
    requires n >= 100
    ensures |Decimal(n)| == |Decimal(n / 100)| + 2
  {
    assert n / 10 / 10 == n / 100;
  }

  lemma FourDigits(n: nat)
    requires n >= 10000
    ensures |Decimal(n)| == |Decimal(n / 10000)| + 4
  {
    TwoDigits(n);
    TwoDigits(n / 100);
    assert n / 100 / 100 == n / 10000;
  }

  method BulkLen(len: nat) returns (n: nat)
    ensures n == 1 + |Decimal(len)| + 2 + len + 2
  {
    var d := CountDigits(len);
    return 1 + d + 2 + len + 2;
  }

  function Bulk(arg: seq<Byte>): (b: seq<Byte>)
    ensures |b| == 1 + |Decimal(|arg|)| + 2 + |arg| + 2 && b[0] == DOLLAR
  {
    [DOLLAR] + Decimal(|arg|) + [CR, LF] + arg + [CR, LF]
  }

  function Bulks(argv: seq<seq<Byte>>): seq<Byte> {
    if argv == [] then [] else Bulks(argv[..|argv| - 1]) + Bulk(argv[|argv| - 1])
  }

  // A command: the number of arguments, and every argument behind its length.
  function Command(argv: seq<seq<Byte>>): seq<Byte> {
    Heading(|argv|) + Bulks(argv)
  }

  function Heading(n: nat): (t: seq<Byte>)
    ensures |t| == 1 + |Decimal(n)| + 2
  {
    [STAR] + Decimal(n) + [CR, LF]
  }

  // The lines of the protocol: a sign and a count, or the bytes counted, each with its end.
  lemma HeadingIs(n: nat)
    ensures var t, d := Heading(n), |Decimal(n)|;
            t[0] == '*' as int && t[1..1 + d] == Decimal(n) && t[1 + d] == '\r' as int && t[2 + d] == '\n' as int
  {
  }

  lemma BulkIs(arg: seq<Byte>)
    ensures var b, d := Bulk(arg), |Decimal(|arg|)|;
            && b[0] == '$' as int && b[1..1 + d] == Decimal(|arg|) && b[1 + d] == '\r' as int && b[2 + d] == '\n' as int
            && b[3 + d..|b| - 2] == arg && b[|b| - 2] == '\r' as int && b[|b| - 1] == '\n' as int
  {
    var d := Decimal(|arg|);
    var front, back := [DOLLAR] + d + [CR, LF], [CR, LF];
    assert Bulk(arg) == front + arg + back && front[1..1 + |d|] == d;
  }

  // Formats a command into memory of just the length computed before, and a NUL.
  method FormatCommandArgv(argv: seq<seq<Byte>>) returns (target: array<Byte>, totlen: nat)
    ensures fresh(target) && totlen == |Command(argv)| && target[..] == Command(argv) + [0]
  {
    totlen := TotalLength(argv);
    var cmd := new Byte[totlen + 1];
    var pos := PutText(cmd, 0, Heading(|argv|));
    var j := 0;
    while j < |argv|
      invariant 0 <= j <= |argv| && pos == |Formatted(argv, j)| <= totlen && cmd[..pos] == Formatted(argv, j)
    {
      FormattedOn(argv, j);
      pos := PutBulk(cmd, pos, argv[j]);
      j := j + 1;
    }
    assert argv[..j] == argv;
    cmd[pos] := 0;
    assert cmd[..] == cmd[..pos] + [0];
    return cmd, totlen;
  }

  // A command up to the first j arguments.
  function Formatted(argv: seq<seq<Byte>>, j: nat): seq<Byte>
    requires j <= |argv|
  {
    Heading(|argv|) + Bulks(argv[..j])
  }

  lemma FormattedOn(argv: seq<seq<Byte>>, j: nat)
    requires j < |argv|
    ensures Formatted(argv, j + 1) == Formatted(argv, j) + Bulk(argv[j])
    ensures |Formatted(argv, j + 1)| <= |Command(argv)|
  {
    BulksSplit(argv, j);
  }

  lemma {:induction false} BulksSplit(argv: seq<seq<Byte>>, j: nat)
    requires j < |argv|
    ensures Bulks(argv[..j + 1]) == Bulks(argv[..j]) + Bulk(argv[j]) && |Bulks(argv[..j + 1])| <= |Bulks(argv)|
    decreases |argv| - j
  {
    assert argv[..j + 1][..j] == argv[..j];
    if j + 1 == |argv| { assert argv[..j + 1] == argv; } else { BulksSplit(argv, j + 1); }
  }

  method TotalLength(argv: seq<seq<Byte>>) returns (totlen: nat)
    ensures totlen == |Command(argv)|
  {
    var d := CountDigits(|argv|);
    totlen := 1 + d + 2;
    var j := 0;
    while j < |argv|
      invariant 0 <= j <= |argv| && totlen == 1 + |Decimal(|argv|)| + 2 + |Bulks(argv[..j])|
    {
      BulksSplit(argv, j);
      var n := BulkLen(|argv[j]|);
      totlen := totlen + n;
      j := j + 1;
    }
    assert argv[..j] == argv;
  }

  method PutText(cmd: array<Byte>, at: nat, text: seq<Byte>) returns (pos: nat)
    requires at + |text| <= cmd.Length
    modifies cmd
    ensures pos == at + |text| && cmd[..pos] == old(cmd[..at]) + text
  {
    pos := at;
    var k := 0;
    while k < |text|
      invariant 0 <= k <= |text| && pos == at + k && cmd[..pos] == old(cmd[..at]) + text[..k]
    {
      cmd[pos] := text[k];
      assert text[..k + 1] == text[..k] + [text[k]];
      pos := pos + 1;
      k := k + 1;
    }
    assert text[..k] == text;
  }

  method PutBulk(cmd: array<Byte>, at: nat, arg: seq<Byte>) returns (pos: nat)
    requires at + |Bulk(arg)| <= cmd.Length
    modifies cmd
    ensures pos == at + |Bulk(arg)| && cmd[..pos] == old(cmd[..at]) + Bulk(arg)
  {
    pos := PutText(cmd, at, [DOLLAR] + Decimal(|arg|) + [CR, LF]);
    pos := PutText(cmd, pos, arg);
    pos := PutText(cmd, pos, [CR, LF]);
    ghost var before := old(cmd[..at]);
    assert before + ([DOLLAR] + Decimal(|arg|) + [CR, LF]) + arg + [CR, LF] == before + Bulk(arg);
  }

  // Where a character is found from a place on; the search ends at a NUL.
  datatype Place = At(index: nat) | Nowhere

  function Find(t: seq<Byte>, p: nat, c: Byte): (r: Place)
    ensures r.At? ==> p <= r.index < |t| && t[r.index] == c
    decreases |t| - p
  {
    if p >= |t| then Nowhere else if t[p] == c then At(p) else if t[p] == 0 then Nowhere else Find(t, p + 1, c)
  }

  const LONG: int := 0x8000_0000_0000_0000

  // A number as strtol reads it into 64 bits, and what is left of it in 32 bits.
  function Length(v: nat): int {
    AsInt(if v < LONG then v else LONG - 1)
  }

  // A 32-bit number as a size: a negative one counts from 2^64 down.
  function AsSize(n: int): nat
    requires n >= -2 * LONG
  {
    if n < 0 then n + 2 * LONG else n
  }

  // Lengths below 2^31 are read as they are. No greater one is, but for the greatest of all sizes,
  // which the clamped value happens to turn into.
  lemma LengthKept(v: nat)
    ensures AsSize(Length(v)) == v <==> v < INT_END || v == 2 * LONG - 1
    ensures v < INT_END ==> Length(v) == v
  {
    if v < LONG && v >= INT_END { assert Length(v) < INT_END; }
  }

  // What the walk finds: no further argument, or one, and where to go on; or text that ends in a length.
  datatype Argument = End | Arg(str: nat, len: nat, next: int) | Broken

  function NextArg(t: seq<Byte>, start: nat): Argument
    requires start < |t|
  {
    var p := if t[start] == DOLLAR then At(start) else Find(t, start, DOLLAR);
    if p.Nowhere? then End
    else
      var len := Length(Number(t[p.index + 1..], 0));
      match Find(t, p.index, CR) case Nowhere => Broken case At(q) => Arg(q + 2, AsSize(len), q + 2 + len + 2)
  }

  method Search(t: seq<Byte>, start: nat, c: Byte) returns (r: Place)
    ensures r == Find(t, start, c)
  {
    var p := start;
    while p < |t|
      invariant Find(t, start, c) == Find(t, p, c)
      decreases |t| - p
    {
      if t[p] == c { return At(p); }
      if t[p] == 0 { return Nowhere; }
      p := p + 1;
    }
    return Nowhere;
  }

  method NextArgument(t: seq<Byte>, start: nat) returns (r: Argument)
    requires start < |t|
    ensures r == NextArg(t, start)
  {
    var p := start;
    if t[p] != DOLLAR {
      var found := Search(t, p, DOLLAR);
      if found.Nowhere? { return End; }
      p := found.index;
    }
    var len := ParseLength(t[p + 1..]);
    var end := Search(t, p, CR);
    if end.Nowhere? { return Broken; }
    return Arg(end.index + 2, AsSize(Length(len)), end.index + 2 + Length(len) + 2);
  }

  method ParseLength(t: seq<Byte>) returns (v: nat)
    ensures v == Number(t, 0)
  {
    v := 0;
    var i := 0;
    assert t[0..] == t;
    while i < |t| && IsDigit(t[i])
      invariant 0 <= i <= |t| && Number(t, 0) == Number(t[i..], v)
    {
      assert t[i..][1..] == t[i + 1..];
      v := v * 10 + Digit(t[i]);
      i := i + 1;
    }
  }

  // Over characters that are neither looked for nor NUL the search goes on.
  lemma {:induction false} FindOver(t: seq<Byte>, p: nat, q: nat, c: Byte)
    requires p <= q <= |t| && forall i :: p <= i < q ==> t[i] != c && t[i] != 0
    ensures Find(t, p, c) == Find(t, q, c)
    decreases q - p
  {
    if p < q { FindOver(t, p + 1, q, c); }
  }

  // At the beginning of an argument the walk finds just that argument, whatever bytes it has, when it can
  // read its length.
  lemma ArgumentFound(before: seq<Byte>, arg: seq<Byte>, rest: seq<Byte>)
    ensures var t := before + Bulk(arg) + rest; var p := |before|; var str := p + 1 + |Decimal(|arg|)| + 2;
            p < |t| && NextArg(t, p) == Arg(str, AsSize(Length(|arg|)), str + Length(|arg|) + 2)
            && t[str..str + |arg|] == arg
  {
    var t := before + Bulk(arg) + rest;
    var p, d := |before|, Decimal(|arg|);
    Laid(t, before, d, arg, rest);
    NumberOfDecimal(|arg|, [CR, LF] + arg + [CR, LF] + rest);
    LengthEnds(t, p, d);
  }

  // The parts of an argument, each in its place.
  lemma Laid(t: seq<Byte>, before: seq<Byte>, d: seq<Byte>, arg: seq<Byte>, rest: seq<Byte>)
    requires t == before + ([DOLLAR] + d + [CR, LF] + arg + [CR, LF]) + rest
    ensures var p := |before|; var q := p + 1 + |d|;
            && q + 2 + |arg| <= |t| && t[p] == DOLLAR && t[q] == CR && t[p + 1..q] == d
            && t[p + 1..] == d + ([CR, LF] + arg + [CR, LF] + rest)
            && t[q + 2..q + 2 + |arg|] == arg
  {
  }

  lemma LengthEnds(t: seq<Byte>, p: nat, d: seq<Byte>)
    requires p + 1 + |d| < |t| && t[p] == DOLLAR && t[p + 1..p + 1 + |d|] == d && t[p + 1 + |d|] == CR
    requires forall c :: c in d ==> IsDigit(c)
    ensures Find(t, p, CR) == At(p + 1 + |d|)
  {
    var q := p + 1 + |d|;
    forall i | p <= i < q ensures t[i] != CR && t[i] != 0 {
      if i > p { assert t[i] == d[i - p - 1] && d[i - p - 1] in d; }
    }
    FindOver(t, p, q, CR);
  }

  // At the beginning of a command the walk comes to the first argument; behind the last one it ends.
  lemma FirstFound(argv: seq<seq<Byte>>)
    requires argv != []
    ensures var t, p := Command(argv) + [0], Offset(argv, 0); p < |t| && NextArg(t, 0) == NextArg(t, p)
  {
    var t, head := Command(argv) + [0], Heading(|argv|);
    FirstBulk(argv);
    assert t[|head|] == Bulks(argv)[0];
    HeadingPlain(|argv|);
    assert forall i :: 0 <= i < |head| ==> t[i] == head[i];
    FindOver(t, 0, |head|, DOLLAR);
  }

  // Nothing in the heading looks like an argument, or ends the text.
  lemma HeadingPlain(n: nat)
    ensures forall i :: 0 <= i < |Heading(n)| ==> Heading(n)[i] != DOLLAR && Heading(n)[i] != 0
  {
    var d := Decimal(n);
    assert forall i :: 0 <= i < |d| ==> d[i] in d;
    assert forall i :: 1 <= i <= |d| ==> Heading(n)[i] == d[i - 1];
  }

  lemma {:induction false} FirstBulk(argv: seq<seq<Byte>>)
    requires argv != []
    ensures |Bulks(argv)| > 0 && Bulks(argv)[0] == DOLLAR
  {
    if |argv| == 1 { assert argv[..0] == []; } else { FirstBulk(argv[..|argv| - 1]); }
  }

  lemma NoneFound(argv: seq<seq<Byte>>)
    ensures var t := Command(argv) + [0]; NextArg(t, |Command(argv)|) == End && (argv == [] ==> NextArg(t, 0) == End)
  {
    var t := Command(argv) + [0];
    if argv == [] {
      HeadingPlain(0);
      assert forall i :: 0 <= i < |t| - 1 ==> t[i] == Heading(0)[i];
      FindOver(t, 0, |t| - 1, DOLLAR);
    }
  }

  // Walking through a formatted command gives back its arguments, in order, and then stops.
  method Walk(argv: seq<seq<Byte>>) returns (args: seq<seq<Byte>>)
    requires forall arg :: arg in argv ==> |arg| < INT_END
    ensures args == argv
  {
    var target, totlen := FormatCommandArgv(argv);
    Beginning(argv);
    forall k: nat | k <= |argv| ensures Stops(argv, Command(argv) + [0], k) { AtArgument(argv, k); }
    args := Collect(target[..], argv);
  }

  method Collect(t: seq<Byte>, ghost argv: seq<seq<Byte>>) returns (args: seq<seq<Byte>>)
    requires t != [] && Reached(argv, 0, t, NextArg(t, 0)) && forall k: nat :: k <= |argv| ==> Stops(argv, t, k)
    ensures args == argv
  {
    args := [];
    var a := NextArgument(t, 0);
    ghost var k := 0;
    while a.Arg?
      invariant 0 <= k <= |argv| && args == argv[..k] && Reached(argv, k, t, a)
      decreases |argv| - k
    {
      assert Stops(argv, t, k + 1);
      var arg := t[a.str..a.str + a.len];
      OneMore(argv, k);
      a := NextArgument(t, a.next);
      args := args + [arg];
      k := k + 1;
    }
  }

  lemma OneMore<T>(s: seq<T>, k: nat)
    requires k < |s|
    ensures s[..k + 1] == s[..k] + [s[k]] && (k + 1 == |s| ==> s[..k + 1] == s)
  {
  }

  ghost predicate Stops(argv: seq<seq<Byte>>, t: seq<Byte>, k: nat)
    requires k <= |argv|
  {
    Offset(argv, k) < |t| && Reached(argv, k, t, NextArg(t, Offset(argv, k)))
  }

  // After k arguments the walk has come to the next one, or to the end.
  predicate Reached(argv: seq<seq<Byte>>, k: nat, t: seq<Byte>, a: Argument)
    requires k <= |argv|
  {
    if k == |argv| then a == End else IsArgument(t, a, argv[k], Offset(argv, k + 1))
  }

  lemma Beginning(argv: seq<seq<Byte>>)
    requires forall arg :: arg in argv ==> |arg| < INT_END
    ensures Reached(argv, 0, Command(argv) + [0], NextArg(Command(argv) + [0], 0))
  {
    AtArgument(argv, 0);
    if argv == [] { NoneFound(argv); } else { FirstFound(argv); }
  }

  // Where in a command the argument after the first k begins.
  function Offset(argv: seq<seq<Byte>>, k: nat): nat
    requires k <= |argv|
  {
    |Heading(|argv|)| + |Bulks(argv[..k])|
  }

  lemma AtArgument(argv: seq<seq<Byte>>, k: nat)
    requires k <= |argv| && forall arg :: arg in argv ==> |arg| < INT_END
    ensures Stops(argv, Command(argv) + [0], k)
  {
    if k == |argv| {
      assert argv[..k] == argv;
      NoneFound(argv);
    } else {
      var before, rest := CommandAt(argv, k);
      ArgumentIs(Command(argv) + [0], before, argv[k], rest);
    }
  }

  // At an argument the walk gives it, and goes on behind it, just if it has fewer than 2^31 bytes.
  lemma ArgumentIs(t: seq<Byte>, before: seq<Byte>, arg: seq<Byte>, rest: seq<Byte>)
    requires t == before + Bulk(arg) + rest && rest != []
    ensures |before| < |t| && (IsArgument(t, NextArg(t, |before|), arg, |before| + |Bulk(arg)|) <==> |arg| < INT_END)
  {
    LengthKept(|arg|);
    ArgumentFound(before, arg, rest);
  }

  // In a command the count of the arguments comes first, and then they all, in order.
  lemma CommandIs(argv: seq<seq<Byte>>, k: nat)
    requires k < |argv|
    ensures Offset(argv, 0) == |Heading(|argv|)| && Command(argv)[..Offset(argv, 0)] == Heading(|argv|)
    ensures Offset(argv, k + 1) == Offset(argv, k) + |Bulk(argv[k])| <= |Command(argv)|
    ensures Command(argv)[Offset(argv, k)..Offset(argv, k + 1)] == Bulk(argv[k])
    ensures Offset(argv, |argv|) == |Command(argv)|
  {
    hide Bulk, Decimal;
    assert argv[..|argv|] == argv && argv[..0] == [];
    var before, rest := CommandAt(argv, k);
    var t := Command(argv);
    assert (t + [0])[|before|..|before| + |Bulk(argv[k])|] == Bulk(argv[k]);
    assert t == (t + [0])[..|t|];
  }

  // A command around its argument k.
  lemma CommandAt(argv: seq<seq<Byte>>, k: nat) returns (before: seq<Byte>, rest: seq<Byte>)
    requires k < |argv|
    ensures Command(argv) + [0] == before + Bulk(argv[k]) + rest && rest != []
    ensures Offset(argv, k) == |before| && Offset(argv, k + 1) == |before| + |Bulk(argv[k])|
  {
    var head := Heading(|argv|);
    BulksSplit(argv, k);
    var more := BulksRest(argv, k + 1);
    before, rest := head + Bulks(argv[..k]), more + [0];
    Reassembled(head, Bulks(argv[..k]), Bulk(argv[k]), more);
  }

  // The walk has found this argument, and goes on at this place.
  predicate IsArgument(t: seq<Byte>, a: Argument, arg: seq<Byte>, next: nat) {
    a.Arg? && a.len == |arg| && a.str + |arg| <= |t| && t[a.str..a.str + |arg|] == arg && a.next == next < |t|
  }

  lemma Reassembled(head: seq<Byte>, a: seq<Byte>, b: seq<Byte>, c: seq<Byte>)
    ensures head + (a + b + c) + [0] == (head + a) + b + (c + [0])
  {
  }

  lemma {:induction false} BulksRest(argv: seq<seq<Byte>>, k: nat) returns (rest: seq<Byte>)
    requires k <= |argv|
    ensures Bulks(argv) == Bulks(argv[..k]) + rest
    decreases |argv| - k
  {
    if k == |argv| {
      assert argv[..k] == argv;
      rest := [];
    } else {
      BulksSplit(argv, k);
      var more := BulksRest(argv, k + 1);
      rest := Bulk(argv[k]) + more;
    }
  }
}
