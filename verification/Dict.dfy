// The chained hash table of power-of-two size.
module Dicts {
  import opened Arithmetic
  import opened Bits
  import opened Sequences

  const INITIAL_SIZE: nat := 4
  const LONG_MAX: nat := 0x7FFF_FFFF_FFFF_FFFF

  class Entry<K, V> {
    const key: K
    var val: V
    var next: Entry?<K, V>

    constructor (key: K, val: V, next: Entry?<K, V>)
      ensures this.key == key && this.val == val && this.next == next
    {
      this.key, this.val, this.next := key, val, next;
    }
  }

  // The chain that starts at first.
  ghost predicate Chain<K, V>(c: seq<Entry<K, V>>, first: Entry?<K, V>)
    reads c
  {
    && first == (if c == [] then null else c[0])
    && forall i {:trigger c[i].next} :: 0 <= i < |c| ==> c[i].next == if i + 1 < |c| then c[i + 1] else null
  }

  function Slot<K>(hash: K -> Word, mask: nat, key: K): (h: nat)
    ensures h <= mask && h < WORD
  {
    And(hash(key), mask)
  }

  // Bucket h holds the entries of at whose key hashes there, once each.
  ghost predicate Row<K, V>(c: seq<Entry<K, V>>, at: map<K, Entry<K, V>>, hash: K -> Word, mask: nat, h: nat) {
    && NoDup(c)
    && (forall e :: e in c ==> e.key in at && at[e.key] == e && Slot(hash, mask, e.key) == h)
    && (forall k :: k in at && Slot(hash, mask, k) == h ==> at[k] in c)
  }

  // A table of chains that together hold exactly the entries of at.
  ghost predicate Tabled<K, V>(table: array<Entry?<K, V>>, rows: seq<seq<Entry<K, V>>>, at: map<K, Entry<K, V>>,
                               hash: K -> Word, mask: nat, repr: set<Entry<K, V>>)
    reads table, repr
  {
    && table.Length == |rows| == mask + 1
    && (forall k :: k in at ==> at[k].key == k && at[k] in repr)
    && (forall h :: 0 <= h < |rows| ==> Row(rows[h], at, hash, mask, h))
    && (forall h, e :: 0 <= h < |rows| && e in rows[h] ==> e in repr)
    && (forall h :: 0 <= h < |rows| ==> Chain(rows[h], table[h]))
  }

  // The smallest power of two from 4 on that is not below size, as long as it fits.
  method NextPower(size: nat) returns (r: nat)
    ensures size >= LONG_MAX ==> r == LONG_MAX
    ensures size < LONG_MAX ==> PowerOfTwo(r) && r >= size && r >= INITIAL_SIZE && (r == INITIAL_SIZE || r < 2 * size)
  {
    r := INITIAL_SIZE;
    if size >= LONG_MAX { return LONG_MAX; }
    ghost var e := 2;
    assert Pow(2, 2) == 4 by { assert Pow(2, 1) == 2 * Pow(2, 0); }
    while r < size
      invariant r == Pow(2, e) && r >= INITIAL_SIZE && (r == INITIAL_SIZE || r < 2 * size)
      decreases size - r
    {
      r := r * 2;
      e := e + 1;
    }
  }

  lemma PrependRow<K, V>(c: seq<Entry<K, V>>, at: map<K, Entry<K, V>>, hash: K -> Word, mask: nat, h: nat,
                         e: Entry<K, V>)
    requires Row(c, at, hash, mask, h) && e.key !in at && Slot(hash, mask, e.key) == h
    ensures Row([e] + c, at[e.key := e], hash, mask, h)
  {
    assert e !in c;
  }

  lemma OtherRow<K, V>(c: seq<Entry<K, V>>, at: map<K, Entry<K, V>>, hash: K -> Word, mask: nat, h: nat, e: Entry<K, V>)
    requires Row(c, at, hash, mask, h) && e.key !in at && Slot(hash, mask, e.key) != h
    ensures Row(c, at[e.key := e], hash, mask, h)
  {
  }

  // Puts an entry that is in no chain of the table at the front of its bucket.
  method Link<K, V>(table: array<Entry?<K, V>>, e: Entry<K, V>, h: nat, ghost rows: seq<seq<Entry<K, V>>>,
                    ghost at: map<K, Entry<K, V>>, ghost hash: K -> Word, ghost mask: nat, ghost repr: set<Entry<K, V>>)
    requires Tabled(table, rows, at, hash, mask, repr) && e !in repr && e.key !in at && h == Slot(hash, mask, e.key)
    modifies table, e`next
    ensures Tabled(table, rows[h := [e] + rows[h]], at[e.key := e], hash, mask, repr + {e})
  {
    e.next := table[h];
    table[h] := e;
    var rows', at' := rows[h := [e] + rows[h]], at[e.key := e];
    forall i | 0 <= i < |rows'| ensures Row(rows'[i], at', hash, mask, i) {
      if i == h { PrependRow(rows[h], at, hash, mask, h, e); } else { OtherRow(rows[i], at, hash, mask, i, e); }
    }
    forall i | 0 <= i < |rows'| ensures Chain(rows'[i], table[i]) {
      assert Chain(rows[i], old(table[i]));
      assert e !in rows[i];
    }
  }

  // Part of the way through a rehash: buckets below i are moved, and of bucket i all but rest.
  ghost predicate Moving<K, V>(rows: seq<seq<Entry<K, V>>>, at: map<K, Entry<K, V>>, hash: K -> Word, mask: nat,
                               i: nat, rest: seq<Entry<K, V>>, at1: map<K, Entry<K, V>>, moved: set<Entry<K, V>>)
  {
    && i <= |rows|
    && (forall k :: k in at1 ==> k in at && at1[k] == at[k])
    && (forall k :: k in at ==> (k in at1 <==> Slot(hash, mask, k) < i || (Slot(hash, mask, k) == i && at[k] !in rest)))
    && (forall e :: e in moved ==> e.key in at1 && at1[e.key] == e)
    && NoDup(rest) && (forall e :: e in rest ==> i < |rows| && e in rows[i])
  }

  lemma MovedOne<K, V>(rows: seq<seq<Entry<K, V>>>, at: map<K, Entry<K, V>>, hash: K -> Word, mask: nat,
                       i: nat, rest: seq<Entry<K, V>>, at1: map<K, Entry<K, V>>, moved: set<Entry<K, V>>)
    requires Moving(rows, at, hash, mask, i, rest, at1, moved) && rest != []
    requires i < |rows| && Row(rows[i], at, hash, mask, i)
    requires forall k :: k in at ==> at[k].key == k
    ensures var he := rest[0];
            && he in rows[i] && he.key in at && at[he.key] == he && he.key !in at1
            && Moving(rows, at, hash, mask, i, rest[1..], at1[he.key := he], moved + {he})
            && |at1[he.key := he]| == |at1| + 1
  {
    var he := rest[0];
    assert he in rest;
    assert rest == [he] + rest[1..];
    assert he !in rest[1..];
  }

  lemma RowDone<K, V>(rows: seq<seq<Entry<K, V>>>, at: map<K, Entry<K, V>>, hash: K -> Word, mask: nat,
                      i: nat, at1: map<K, Entry<K, V>>, moved: set<Entry<K, V>>)
    requires Moving(rows, at, hash, mask, i, [], at1, moved) && i < |rows| == mask + 1
    requires i + 1 < |rows| ==> Row(rows[i + 1], at, hash, mask, i + 1)
    ensures Moving(rows, at, hash, mask, i + 1, if i + 1 < |rows| then rows[i + 1] else [], at1, moved)
  {
  }

  lemma MovingStarts<K, V>(rows: seq<seq<Entry<K, V>>>, at: map<K, Entry<K, V>>, hash: K -> Word, mask: nat)
    requires |rows| == mask + 1 && Row(rows[0], at, hash, mask, 0)
    ensures Moving(rows, at, hash, mask, 0, rows[0], map[], {})
  {
  }

  lemma MovingEnds<K, V>(rows: seq<seq<Entry<K, V>>>, at: map<K, Entry<K, V>>, hash: K -> Word, mask: nat,
                         i: nat, rest: seq<Entry<K, V>>, at1: map<K, Entry<K, V>>, moved: set<Entry<K, V>>)
    requires |rows| == mask + 1 && Moving(rows, at, hash, mask, i, rest, at1, moved)
    requires i == |rows| || |at1| == |at|
    ensures at1 == at
    ensures forall e :: e in moved ==> e.key in at && at[e.key] == e
  {
    AllMoved(at, at1);
    if i == |rows| {
      assert forall k :: k in at ==> Slot(hash, mask, k) < i;
    }
  }

  lemma EmptyTabled<K, V>(table: array<Entry?<K, V>>, rows: seq<seq<Entry<K, V>>>, hash: K -> Word, mask: nat)
    requires table.Length == |rows| == mask + 1
    requires forall h :: 0 <= h < |rows| ==> rows[h] == [] && table[h] == null
    ensures Tabled(table, rows, map[], hash, mask, {})
  {
  }

  // When as many entries are moved as there are, all are.
  lemma AllMoved<K, V>(at: map<K, Entry<K, V>>, at1: map<K, Entry<K, V>>)
    requires (forall k :: k in at1 ==> k in at && at1[k] == at[k])
    ensures |at1| <= |at|
    ensures |at1| == |at| ==> at1 == at
    ensures at1.Keys != at.Keys ==> |at1| < |at|
  {
    SubsetSize(at1.Keys, at.Keys);
    assert |at1| == |at1.Keys| && |at| == |at.Keys|;
  }

  lemma SubsetSize<T>(a: set<T>, b: set<T>)
    requires a <= b
    ensures |a| <= |b|
    ensures a != b ==> |a| < |b|
  {
    assert |b| == |a| + |b - a| by { assert b == a + (b - a); }
    if a != b { var x :| x in b && x !in a; assert x in b - a; }
  }

  lemma RemoveRow<K, V>(c: seq<Entry<K, V>>, at: map<K, Entry<K, V>>, hash: K -> Word, mask: nat, h: nat, j: nat)
    requires Row(c, at, hash, mask, h) && j < |c| && forall k :: k in at ==> at[k].key == k
    ensures Row(c[..j] + c[j + 1..], at - {c[j].key}, hash, mask, h)
  {
    var e, r := c[j], c[..j] + c[j + 1..];
    assert e in c;
    assert forall i :: 0 <= i < |r| ==> r[i] == c[if i < j then i else i + 1];
    forall k | k in at - {e.key} && Slot(hash, mask, k) == h ensures at[k] in r {
      var i :| 0 <= i < |c| && c[i] == at[k];
      assert r[if i < j then i else i - 1] == at[k];
    }
  }

  lemma KeepRow<K, V>(c: seq<Entry<K, V>>, at: map<K, Entry<K, V>>, hash: K -> Word, mask: nat, h: nat, key: K)
    requires Row(c, at, hash, mask, h) && Slot(hash, mask, key) != h
    ensures Row(c, at - {key}, hash, mask, h)
  {
  }

  // Bucket h lost e, and nothing else changed.
  ghost predicate Unlinked<K, V>(rows: seq<seq<Entry<K, V>>>, h: nat, e: Entry<K, V>, rows': seq<seq<Entry<K, V>>>) {
    && h < |rows|
    && exists j {:trigger rows[h][..j]} ::
         0 <= j < |rows[h]| && rows[h][j] == e && rows' == rows[h := rows[h][..j] + rows[h][j + 1..]]
  }

  // The entries of bucket i and of those after it: the order of an iteration.
  ghost function Flatten<T>(rows: seq<seq<T>>, i: nat): seq<T>
    decreases |rows| - i
  {
    if i >= |rows| then [] else rows[i] + Flatten(rows, i + 1)
  }

  lemma {:induction false} InFlatten<T>(rows: seq<seq<T>>, i: nat, e: T)
    ensures e in Flatten(rows, i) <==> exists h :: i <= h < |rows| && e in rows[h]
    decreases |rows| - i
  {
    if i < |rows| {
      InFlatten(rows, i + 1, e);
      InJoined(rows[i], Flatten(rows, i + 1), e);
    }
  }

  lemma InJoined<T>(a: seq<T>, b: seq<T>, e: T)
    ensures e in a + b <==> e in a || e in b
  {
  }

  lemma {:induction false} FlattenNoDup<T>(rows: seq<seq<T>>, i: nat)
    requires forall h :: 0 <= h < |rows| ==> NoDup(rows[h])
    requires forall h, j, e :: 0 <= h < j < |rows| && e in rows[h] ==> e !in rows[j]
    ensures NoDup(Flatten(rows, i))
    decreases |rows| - i
  {
    if i < |rows| {
      FlattenNoDup(rows, i + 1);
      var a, b := rows[i], Flatten(rows, i + 1);
      forall e | e in a ensures e !in b { InFlatten(rows, i + 1, e); }
      AppendNoDup(a, b);
    }
  }

  lemma AppendNoDup<T>(a: seq<T>, b: seq<T>)
    requires NoDup(a) && NoDup(b) && forall e :: e in a ==> e !in b
    ensures NoDup(a + b)
  {
    assert forall i :: 0 <= i < |a| ==> a[i] in a;
    assert forall i :: 0 <= i < |b| ==> b[i] in b;
  }

  class Dict<K(==), V> {
    const hash: K -> Word
    var table: array?<Entry?<K, V>>
    var size: nat
    var sizemask: nat
    var used: nat
    ghost var rows: seq<seq<Entry<K, V>>>
    ghost var at: map<K, Entry<K, V>>
    ghost var view: map<K, V>
    ghost var repr: set<Entry<K, V>>

    ghost predicate Valid()
      reads this, table, repr
    {
      && used == |at| && at.Keys == view.Keys
      && (forall k :: k in at ==> at[k] in repr && at[k].val == view[k])
      && if size == 0 then table == null && at == map[] && rows == [] && repr == {}
         else
           && table != null && size == |rows| && PowerOfTwo(size) && sizemask == size - 1 && used <= size
           && Tabled(table, rows, at, hash, sizemask, repr)
    }

    constructor (hash: K -> Word)
      ensures Valid() && view == map[] && size == 0 && repr == {} && this.hash == hash
    {
      this.hash := hash;
      table, size, sizemask, used := null, 0, 0, 0;
      rows, at, view, repr := [], map[], map[], {};
    }

    // The old buckets from i on are as they were.
    ghost predicate Waiting(i: nat)
      requires table != null && table.Length == |rows| && size == |rows|
      reads this, table, repr
    {
      && (forall h :: 0 <= h < |rows| ==> Row(rows[h], at, hash, sizemask, h))
      && (forall h, e :: 0 <= h < |rows| && e in rows[h] ==> e in repr)
      && (forall k :: k in at ==> at[k].key == k)
      && (forall h :: i <= h < |rows| ==> Chain(rows[h], table[h]))
    }

    // Moves the first entry of what is left of bucket i to its new bucket.
    method MoveEntry(i: nat, he: Entry<K, V>, newTable: array<Entry?<K, V>>, newMask: nat, ghost rest: seq<Entry<K, V>>,
                     ghost nrows: seq<seq<Entry<K, V>>>, ghost at1: map<K, Entry<K, V>>, ghost moved: set<Entry<K, V>>)
      returns (nextHe: Entry?<K, V>, ghost nrows': seq<seq<Entry<K, V>>>)
      requires table != null && table != newTable && table.Length == |rows| && size == |rows| && i < |rows| &&
               Waiting(i + 1)
      requires Tabled(newTable, nrows, at1, hash, newMask, moved) && he !in moved && he.key !in at1 && he in rows[i]
      requires rest != [] && NoDup(rest) && Chain(rest, he) && used > 0
      modifies this`used, newTable, he`next
      ensures used == old(used) - 1 && Waiting(i + 1) && Chain(rest[1..], nextHe)
      ensures Tabled(newTable, nrows', at1[he.key := he], hash, newMask, moved + {he})
    {
      nextHe := he.next;
      var h := Slot(hash, newMask, he.key);
      forall j, e | i < j < |rows| && e in rows[j] ensures e != he {
        assert Row(rows[j], at, hash, sizemask, j) && Row(rows[i], at, hash, sizemask, i);
      }
      Link(newTable, he, h, nrows, at1, hash, newMask, moved);
      nrows' := nrows[h := [he] + nrows[h]];
      used := used - 1;
      assert forall j :: 0 <= j < |rest| - 1 ==> rest[1..][j] == rest[j + 1];
      forall h | i + 1 <= h < |rows| ensures Chain(rows[h], table[h]) { assert old(Chain(rows[h], table[h])); }
    }

    method MoveStep(i: nat, he: Entry<K, V>, newTable: array<Entry?<K, V>>, newMask: nat, ghost rest: seq<Entry<K, V>>,
                    ghost nrows: seq<seq<Entry<K, V>>>, ghost at1: map<K, Entry<K, V>>, ghost moved: set<Entry<K, V>>)
      returns (nextHe: Entry?<K, V>, ghost nrows': seq<seq<Entry<K, V>>>)
      requires table != null && table != newTable && table.Length == |rows| && size == |rows| && i < |rows| &&
               Waiting(i + 1)
      requires Tabled(newTable, nrows, at1, hash, newMask, moved) && rest != [] && Chain(rest, he)
      requires Moving(rows, at, hash, sizemask, i, rest, at1, moved) && used == |at| - |at1|
      modifies this`used, newTable, repr
      ensures Waiting(i + 1) && Chain(rest[1..], nextHe)
      ensures Tabled(newTable, nrows', at1[he.key := he], hash, newMask, moved + {he})
      ensures Moving(rows, at, hash, sizemask, i, rest[1..], at1[he.key := he], moved + {he})
      ensures used == |at| - |at1[he.key := he]|
      ensures forall e :: e in repr ==> e.val == old(e.val)
    {
      MovedOne(rows, at, hash, sizemask, i, rest, at1, moved);
      AllMoved(at, at1);
      nextHe, nrows' := MoveEntry(i, he, newTable, newMask, rest, nrows, at1, moved);
    }

    // Moves all of bucket i.
    method MoveRow(i: nat, newTable: array<Entry?<K, V>>, newMask: nat, ghost nrows: seq<seq<Entry<K, V>>>,
                   ghost at1: map<K, Entry<K, V>>, ghost moved: set<Entry<K, V>>)
      returns (ghost nrows': seq<seq<Entry<K, V>>>, ghost at1': map<K, Entry<K, V>>, ghost moved': set<Entry<K, V>>)
      requires table != null && table != newTable && table.Length == |rows| && size == |rows| && i < |rows| &&
               Waiting(i)
      requires Tabled(newTable, nrows, at1, hash, newMask, moved)
      requires Moving(rows, at, hash, sizemask, i, rows[i], at1, moved) && used == |at| - |at1|
      modifies this`used, newTable, repr
      ensures Waiting(i + 1) && Tabled(newTable, nrows', at1', hash, newMask, moved')
      ensures Moving(rows, at, hash, sizemask, i, [], at1', moved') && used == |at| - |at1'|
      ensures forall e :: e in repr ==> e.val == old(e.val)
    {
      nrows', at1', moved' := nrows, at1, moved;
      var he := table[i];
      ghost var rest := rows[i];
      while he != null
        invariant Waiting(i + 1) && Tabled(newTable, nrows', at1', hash, newMask, moved')
        invariant Moving(rows, at, hash, sizemask, i, rest, at1', moved') && used == |at| - |at1'|
        invariant Chain(rest, he)
        invariant forall e :: e in repr ==> e.val == old(e.val)
        decreases |rest|
      {
        ghost var e: Entry<K, V> := he;
        he, nrows' := MoveStep(i, he, newTable, newMask, rest, nrows', at1', moved');
        rest, at1', moved' := rest[1..], at1'[e.key := e], moved' + {e};
      }
    }

    // Rehashes into a table of the next power of two; refuses a size below the number of entries.
    method Expand(n: nat) returns (ok: bool)
      requires Valid() && n < LONG_MAX
      modifies this, repr
      ensures Valid() && view == old(view) && at == old(at) && repr <= old(repr) && ok == (old(used) <= n)
      ensures ok ==> n <= size && (size == INITIAL_SIZE || size < 2 * n) && fresh(table)
      ensures !ok ==> size == old(size) && table == old(table)
    {
      var realsize := NextPower(n);
      if used > n { return false; }
      Rehash(realsize);
      return true;
    }

    method Rehash(realsize: nat)
      requires Valid() && PowerOfTwo(realsize) && 0 < realsize && used <= realsize
      modifies this, repr
      ensures Valid() && view == old(view) && at == old(at) && repr <= old(repr)
      ensures size == realsize && fresh(table)
    {
      var newTable := new Entry?<K, V>[realsize](_ => null);
      var count := used;
      ghost var nrows, moved := Fill(newTable, realsize - 1);
      Install(newTable, realsize, count, nrows, moved);
    }

    // Moves every entry to the new table.
    method Fill(newTable: array<Entry?<K, V>>, newMask: nat)
      returns (ghost nrows: seq<seq<Entry<K, V>>>, ghost moved: set<Entry<K, V>>)
      requires Valid() && newTable != table && newTable.Length == newMask + 1
      requires forall h :: 0 <= h < newTable.Length ==> newTable[h] == null
      modifies this`used, newTable, repr
      ensures used == 0 && Tabled(newTable, nrows, at, hash, newMask, moved) && moved <= repr
      ensures forall k :: k in at ==> at[k] in repr && at[k].val == view[k]
    {
      nrows, moved := seq(newMask + 1, _ => []), {};
      EmptyTabled(newTable, nrows, hash, newMask);
      if size > 0 {
        MovingStarts(rows, at, hash, sizemask);
        nrows, moved := MoveTable(newTable, newMask);
      }
    }

    // Puts the filled table in the place of the old one.
    method Install(newTable: array<Entry?<K, V>>, n: nat, count: nat, ghost nrows: seq<seq<Entry<K, V>>>,
                   ghost moved: set<Entry<K, V>>)
      requires n > 0 && PowerOfTwo(n) && Tabled(newTable, nrows, at, hash, n - 1, moved)
      requires count == |at| <= n && at.Keys == view.Keys && forall k :: k in at ==> at[k].val == view[k]
      modifies this
      ensures Valid() && view == old(view) && at == old(at) && repr == moved && size == n && table == newTable
    {
      hide Row, Chain, PowerOfTwo;
      table, size, sizemask, used := newTable, n, n - 1, count;
      rows, repr := nrows, moved;
    }

    // The rehash has come to bucket i.
    ghost predicate Rehashing(i: nat, newTable: array<Entry?<K, V>>, newMask: nat, nrows: seq<seq<Entry<K, V>>>,
                              at1: map<K, Entry<K, V>>, moved: set<Entry<K, V>>)
      reads this, table, repr, newTable, moved
    {
      && table != null && table != newTable && table.Length == |rows| == size == sizemask + 1 && i <= size
      && Waiting(i) && Tabled(newTable, nrows, at1, hash, newMask, moved)
      && Moving(rows, at, hash, sizemask, i, if i < size then rows[i] else [], at1, moved) && used == |at| - |at1|
    }

    method RowStep(i: nat, newTable: array<Entry?<K, V>>, newMask: nat, ghost nrows: seq<seq<Entry<K, V>>>,
                   ghost at1: map<K, Entry<K, V>>, ghost moved: set<Entry<K, V>>)
      returns (ghost nrows': seq<seq<Entry<K, V>>>, ghost at1': map<K, Entry<K, V>>, ghost moved': set<Entry<K, V>>)
      requires Rehashing(i, newTable, newMask, nrows, at1, moved) && i < size
      modifies this`used, newTable, repr
      ensures Rehashing(i + 1, newTable, newMask, nrows', at1', moved')
      ensures forall e :: e in repr ==> e.val == old(e.val)
    {
      nrows', at1', moved' := MoveRow(i, newTable, newMask, nrows, at1, moved);
      RowDone(rows, at, hash, sizemask, i, at1', moved');
    }

    method MoveTable(newTable: array<Entry?<K, V>>, newMask: nat)
      returns (ghost nrows: seq<seq<Entry<K, V>>>, ghost moved: set<Entry<K, V>>)
      requires Rehashing(0, newTable, newMask, seq(newMask + 1, _ => []), map[], {})
      modifies this`used, newTable, repr
      ensures used == 0 && Tabled(newTable, nrows, at, hash, newMask, moved)
      ensures forall e :: e in moved ==> e.key in at && at[e.key] == e
      ensures forall e :: e in repr ==> e.val == old(e.val)
    {
      ghost var at1: map<K, Entry<K, V>> := map[];
      nrows, moved := seq(newMask + 1, _ => []), {};
      var i := 0;
      while i < size && used > 0
        invariant 0 <= i <= size && Rehashing(i, newTable, newMask, nrows, at1, moved)
        invariant forall e :: e in repr ==> e.val == old(e.val)
      {
        nrows, at1, moved := RowStep(i, newTable, newMask, nrows, at1, moved);
        i := i + 1;
      }
      RehashEnds(i, newTable, newMask, nrows, at1, moved);
    }

    lemma RehashEnds(i: nat, newTable: array<Entry?<K, V>>, newMask: nat, nrows: seq<seq<Entry<K, V>>>,
                     at1: map<K, Entry<K, V>>, moved: set<Entry<K, V>>)
      requires Rehashing(i, newTable, newMask, nrows, at1, moved) && (i == size || used == 0)
      ensures used == 0 && Tabled(newTable, nrows, at, hash, newMask, moved)
      ensures forall e :: e in moved ==> e.key in at && at[e.key] == e
    {
      AllMoved(at, at1);
      MovingEnds(rows, at, hash, sizemask, i, if i < size then rows[i] else [], at1, moved);
    }

    // There is room for one more entry in a table whose indices are 32-bit signed numbers.
    ghost predicate Roomy()
      reads this
    {
      used < INT_END && size <= INT_END
    }

    method ExpandIfNeeded() returns (ok: bool)
      requires Valid() && size < LONG_MAX / 2
      modifies this, repr
      ensures ok && Valid() && view == old(view) && at == old(at) && repr <= old(repr)
      ensures used < size && (table == old(table) || fresh(table))
      ensures old(Roomy()) ==> size <= INT_END
    {
      if size == 0 {
        ok := Expand(INITIAL_SIZE);
      } else if used == size {
        ghost var before := size;
        ok := Expand(size * 2);
        if before < INT_END { PowerDoubles(before, size); }
      } else {
        ok := true;
      }
    }

    // Walks bucket h for the key.
    method Walk(h: nat, key: K) returns (he: Entry?<K, V>)
      requires Valid() && size > 0 && h == Slot(hash, sizemask, key)
      ensures he == null <==> key !in at
      ensures he != null ==> he == at[key]
    {
      he := table[h];
      ghost var rest := rows[h];
      assert Row(rows[h], at, hash, sizemask, h);
      while he != null
        invariant Chain(rest, he)
        invariant key in at ==> at[key] in rest
        invariant forall e :: e in rest ==> e in rows[h]
        decreases |rest|
      {
        assert rest == [he] + rest[1..];
        if he.key == key { return; }
        he := he.next;
        assert forall j :: 0 <= j < |rest| - 1 ==> rest[1..][j] == rest[j + 1];
        rest := rest[1..];
      }
    }

    // The bucket for a new key as a signed number, or -1 if the key is there already. Either way the table
    // may grow.
    method KeyIndex(key: K) returns (index: int)
      requires Valid() && size < LONG_MAX / 2
      modifies this, repr
      ensures Valid() && view == old(view) && at == old(at) && repr <= old(repr) && used < size
      ensures (table == old(table) || fresh(table)) && (old(Roomy()) ==> size <= INT_END)
      ensures index == IndexOf(key)
    {
      var ok := ExpandIfNeeded();
      if !ok { return -1; }
      var h := And(hash(key), sizemask);
      var he := Walk(h, key);
      if he != null { return -1; }
      return AsInt(h);
    }

    ghost function IndexOf(key: K): int
      reads this
    {
      if key in view then -1 else AsInt(Slot(hash, sizemask, key))
    }

    // A new key gets its bucket just if that is below 2 to the 31st, which it always is in tables of up to so
    // many buckets. One bucket is taken for the answer that the key is there, and the others come out negative.
    lemma IndexIsBucket(key: K)
      requires Valid() && size > 0 && key !in view
      ensures IndexOf(key) == Slot(hash, sizemask, key) <==> Slot(hash, sizemask, key) < INT_END
      ensures IndexOf(key) == -1 <==> Slot(hash, sizemask, key) == WORD - 1
      ensures size <= INT_END ==> IndexOf(key) == Slot(hash, sizemask, key)
    {
    }

    method Add(key: K, val: V) returns (ok: bool)
      requires Valid() && Roomy()
      modifies this, repr, table
      ensures Valid() && fresh(repr - old(repr)) && (table == old(table) || fresh(table)) && size <= INT_END
      ensures ok == (key !in old(view)) && view == if ok then old(view)[key := val] else old(view)
    {
      var index := KeyIndex(key);
      if key !in view { IndexIsBucket(key); }
      if index == -1 { return false; }
      var entry := new Entry(key, val, null);
      Insert(entry, index);
      return true;
    }

    method Insert(entry: Entry<K, V>, index: nat)
      requires Valid() && used < size && entry !in repr && entry.key !in view &&
               index == Slot(hash, sizemask, entry.key)
      modifies this, entry, table
      ensures Valid() && repr == old(repr) + {entry} && table == old(table) && size == old(size)
      ensures view == old(view)[entry.key := old(entry.val)]
    {
      Link(table, entry, index, rows, at, hash, sizemask, repr);
      Record(entry, rows[index := [entry] + rows[index]]);
    }

    method Record(entry: Entry<K, V>, ghost nrows: seq<seq<Entry<K, V>>>)
      requires used == |at| < size == |nrows| && PowerOfTwo(size) && sizemask == size - 1 && table != null
      requires at.Keys == view.Keys && entry.key !in view && forall k :: k in at ==> at[k].val == view[k]
      requires Tabled(table, nrows, at[entry.key := entry], hash, sizemask, repr + {entry})
      modifies this
      ensures Valid() && repr == old(repr) + {entry} && table == old(table) && size == old(size)
      ensures view == old(view)[entry.key := entry.val]
    {
      rows, at, repr := nrows, at[entry.key := entry], repr + {entry};
      view := view[entry.key := entry.val];
      used := used + 1;
    }

    method Find(key: K) returns (e: Entry?<K, V>)
      requires Valid()
      ensures e == null <==> key !in view
      ensures e != null ==> e == at[key] && e.key == key && e.val == view[key]
    {
      if size == 0 { return null; }
      e := Walk(And(hash(key), sizemask), key);
    }

    // Adds the key or, if it is there, changes its value.
    method Replace(key: K, val: V) returns (added: bool)
      requires Valid() && Roomy()
      modifies this, repr, table
      ensures Valid() && fresh(repr - old(repr)) && (table == old(table) || fresh(table)) && size <= INT_END
      ensures added == (key !in old(view)) && view == old(view)[key := val]
    {
      var ok := Add(key, val);
      if ok { return true; }
      var entry := Find(key);
      SetVal(entry, val);
      return false;
    }

    method SetVal(entry: Entry<K, V>, val: V)
      requires Valid() && size > 0 && entry.key in at && at[entry.key] == entry
      modifies this`view, entry`val
      ensures Valid() && view == old(view)[entry.key := val]
    {
      entry.val := val;
      view := view[entry.key := val];
      forall h | 0 <= h < |rows| ensures Chain(rows[h], table[h]) { assert old(Chain(rows[h], table[h])); }
    }

    lemma BucketHere(key: K)
      requires Valid() && size > 0
      ensures var h := Slot(hash, sizemask, key);
              && table != null && h < |rows| == table.Length && Chain(rows[h], table[h])
              && (key in at ==> at[key] in rows[h] && at[key].key == key)
              && forall e :: e in rows[h] ==> e.key in at && at[e.key] == e && e in repr
    {
      assert Row(rows[Slot(hash, sizemask, key)], at, hash, sizemask, Slot(hash, sizemask, key));
    }

    // Unlinks the key's entry from its chain.
    method Delete(key: K) returns (ok: bool)
      requires Valid()
      modifies this, repr, table
      ensures Valid() && repr <= old(repr) && table == old(table)
      ensures ok == (key in old(view)) && view == old(view) - {key}
      ensures !ok ==> rows == old(rows)
      ensures ok ==> Unlinked(old(rows), Slot(hash, sizemask, key), old(at)[key], rows)
      ensures ok ==> size == old(size) && sizemask == old(sizemask)
      ensures forall x :: x in old(repr) ==> x.next == old(x.next) || (key in old(at) && old(x.next) == old(at)[key])
    {
      hide Row, Tabled, And;
      if size == 0 {
        assert view - {key} == view;
        return false;
      }
      BucketHere(key);
      var h := And(hash(key), sizemask);
      var de := table[h];
      var prev: Entry?<K, V> := null;
      ghost var j := 0;
      ghost var c := rows[h];
      while de != null
        invariant j <= |c| && de == (if j < |c| then c[j] else null)
        invariant prev == if j == 0 then null else c[j - 1]
        invariant key in at ==> at[key] in c[j..]
        decreases |c| - j
      {
        assert c[j..] == [c[j]] + c[j + 1..] && c[j] in c;
        if de.key == key {
          Unlink(h, j, prev, de);
          return true;
        }
        prev := de;
        de := de.next;
        j := j + 1;
      }
      assert view - {key} == view;
      return false;
    }

    method Unlink(h: nat, ghost j: nat, prev: Entry?<K, V>, de: Entry<K, V>)
      requires Valid() && h < size && j < |rows[h]| && rows[h][j] == de && de in repr && de.key in at
      requires prev == if j == 0 then null else rows[h][j - 1]
      modifies this, repr, table
      ensures Valid() && repr == old(repr) - {de} && table == old(table) && view == old(view) - {de.key}
      ensures rows == old(rows)[h := old(rows)[h][..j] + old(rows)[h][j + 1..]] && size == old(size) &&
              sizemask == old(sizemask)
      ensures forall x :: x in old(repr) ==> x.next == old(x.next) || old(x.next) == de
    {
      ghost var c := rows[h];
      assert Row(c, at, hash, sizemask, h) && Chain(c, table[h]) && de in c;
      ghost var nrows := rows[h := c[..j] + c[j + 1..]];
      Bypass(h, j, prev, de);
      forall i | 0 <= i < |nrows| ensures Row(nrows[i], at - {de.key}, hash, sizemask, i) {
        assert Row(rows[i], at, hash, sizemask, i);
        if i == h { RemoveRow(c, at, hash, sizemask, h, j); } else { KeepRow(rows[i], at, hash, sizemask, i, de.key); }
      }
      Forget(de, nrows);
    }

    method Bypass(h: nat, ghost j: nat, prev: Entry?<K, V>, de: Entry<K, V>)
      requires Valid() && h < size && j < |rows[h]| && rows[h][j] == de
      requires prev == if j == 0 then null else rows[h][j - 1]
      modifies repr, table
      ensures var nrows := rows[h := rows[h][..j] + rows[h][j + 1..]];
              forall i :: 0 <= i < |rows| ==> Chain(nrows[i], table[i])
      ensures forall e :: e in repr ==> e.val == old(e.val) && (e.next == old(e.next) || old(e.next) == de)
    {
      ghost var c := rows[h];
      assert Row(c, at, hash, sizemask, h) && Chain(c, table[h]);
      assert de in c && (prev != null ==> prev in c);
      Hop(table, h, j, prev, de, c);
      forall i | 0 <= i < |rows| && i != h ensures Chain(rows[i], table[i]) {
        assert old(Chain(rows[i], table[i])) && Row(rows[i], at, hash, sizemask, i);
        assert prev != null ==> prev !in rows[i];
      }
    }

    // What came before the entry leads on to what comes after it.
    static method Hop(table: array<Entry?<K, V>>, h: nat, ghost j: nat, prev: Entry?<K, V>, de: Entry<K, V>,
                      ghost c: seq<Entry<K, V>>)
      requires h < table.Length && j < |c| && c[j] == de && NoDup(c) && Chain(c, table[h])
      requires prev == if j == 0 then null else c[j - 1]
      modifies if prev == null then {} else {prev}, table
      ensures Chain(c[..j] + c[j + 1..], table[h])
      ensures forall i :: 0 <= i < table.Length && i != h ==> table[i] == old(table[i])
      ensures prev != null ==> prev.val == old(prev.val) && old(prev.next) == de
    {
      if prev != null { prev.next := de.next; } else { table[h] := de.next; }
      ghost var r := c[..j] + c[j + 1..];
      assert forall i :: 0 <= i < |r| ==> r[i] == c[if i < j then i else i + 1];
    }

    method Forget(de: Entry<K, V>, ghost nrows: seq<seq<Entry<K, V>>>)
      requires used == |at| <= size == |nrows| && PowerOfTwo(size) && sizemask == size - 1 && table != null &&
               de.key in at
      requires at.Keys == view.Keys && at[de.key] == de &&
               (forall k :: k in at ==> at[k] in repr && at[k].key == k && at[k].val == view[k])
      requires table.Length == size && forall i :: 0 <= i < size ==>
        Chain(nrows[i], table[i]) && Row(nrows[i], at - {de.key}, hash, sizemask, i)
      modifies this
      ensures Valid() && repr == old(repr) - {de} && table == old(table) && view == old(view) - {de.key}
      ensures rows == nrows && size == old(size) && sizemask == old(sizemask)
    {
      rows, at, repr, view := nrows, at - {de.key}, repr - {de}, view - {de.key};
      used := used - 1;
    }

    // A key's bucket is its hash modulo the size.
    lemma MaskedHash(key: K)
      requires Valid() && size > 0
      ensures Slot(hash, sizemask, key) == hash(key) % size
    {
      var e: nat :| size == Pow(2, e);
      MaskIsMod(hash(key), e);
    }

    // An iteration meets the entry of every key, once.
    lemma IteratesAll()
      requires Valid()
      ensures NoDup(Flatten(rows, 0))
      ensures forall e :: e in Flatten(rows, 0) <==> e.key in at && at[e.key] == e
    {
      forall h | 0 <= h < |rows| ensures Row(rows[h], at, hash, sizemask, h) {}
      FlattenNoDup(rows, 0);
      forall e ensures e in Flatten(rows, 0) <==> e.key in at && at[e.key] == e {
        InFlatten(rows, 0, e);
        if e.key in at && at[e.key] == e { assert e in rows[Slot(hash, sizemask, e.key)]; }
      }
    }
  }

  class DictIterator<K(==), V> {
    const ht: Dict<K, V>
    var index: int
    var entry: Entry?<K, V>
    var nextEntry: Entry?<K, V>
    ghost var ahead: seq<Entry<K, V>>  // what is left of the current bucket

    ghost predicate Valid()
      reads this, ht, ht.table, ht.repr, ahead
    {
      ht.Valid() && Placed(nextEntry) && (ht.size >= INT_END ==> entry == null)
    }

    // The iterator stands before the entry first in its bucket, or before the next bucket.
    ghost predicate Placed(first: Entry?<K, V>)
      reads this, ht, ahead
    {
      && -1 <= index
      && if entry == null then ahead == []
         else 0 <= index < |ht.rows| && SuffixOf(ahead, ht.rows[index]) && Chain(ahead, first)
    }

    static ghost predicate SuffixOf(b: seq<Entry<K, V>>, c: seq<Entry<K, V>>) {
      |b| <= |c| && c[|c| - |b|..] == b
    }

    // The entries still to come.
    ghost function Rest(): seq<Entry<K, V>>
      requires -1 <= index
      reads this, ht
    {
      RestOf(ahead, ht.rows, index)
    }

    // The entry returned last stands just before what is ahead.
    ghost predicate Returned(e: Entry<K, V>)
      reads this, ht
    {
      && entry == e && 0 <= index < |ht.rows| && SuffixOf([e] + ahead, ht.rows[index])
    }

    constructor (ht: Dict<K, V>)
      requires ht.Valid()
      ensures Valid() && this.ht == ht && Rest() == Flatten(ht.rows, 0)
    {
      this.ht := ht;
      index, entry, nextEntry, ahead := -1, null, null, [];
    }

    // The next entry. There is none when none is ahead, or when the table has 2 to the 31st buckets or more.
    method Next() returns (e: Entry?<K, V>)
      requires Valid()
      modifies this
      ensures Valid() && (e == null <==> old(Rest()) == [] || ht.size >= INT_END)
      ensures e != null ==> Returned(e) && old(Rest()) == [e] + Rest()
    {
      Seek();
      if entry != null { StepAhead(); }
      return entry;
    }

    // Goes on to the next entry, through empty buckets if need be.
    method Seek()
      requires Valid()
      modifies this`index, this`entry, this`ahead
      ensures Placed(entry) && (ht.size >= INT_END ==> entry == null)
      ensures ht.size < INT_END ==> Rest() == old(Rest()) && (entry == null <==> Rest() == [])
    {
      if entry != null { entry := nextEntry; }
      var inside := true;
      while entry == null && inside
        invariant Placed(entry) && (ht.size >= INT_END ==> entry == null)
        invariant ht.size < INT_END ==> Rest() == old(Rest()) && (inside || index >= ht.size)
        decreases inside, |ht.rows| - index, entry == null
      {
        inside := EnterNext();
      }
    }

    method InTable() returns (inside: bool)
      requires ht.Valid() && index >= 0
      ensures inside <==> index < ht.size < INT_END
    {
      if ht.size > 0 { SizeFits(ht.size); }
      inside := index < AsInt(ht.size);
    }

    method EnterNext() returns (inside: bool)
      requires ht.Valid() && entry == null && Placed(null)
      modifies this`index, this`entry, this`ahead
      ensures Placed(entry) && index == old(index) + 1 && (inside <==> index < ht.size < INT_END)
      ensures ht.size < INT_END ==> Rest() == old(Rest())
      ensures ht.size >= INT_END ==> entry == null
    {
      hide Tabled, PowerOfTwo;
      index := index + 1;
      inside := InTable();
      if inside { EnterBucket(); }
    }

    method EnterBucket()
      requires ht.Valid() && 0 <= index < ht.size
      modifies this`entry, this`ahead
      ensures ahead == ht.rows[index] && Chain(ahead, entry) && (entry == null ==> ahead == [])
    {
      entry := ht.table[index];
      ahead := ht.rows[index];
      assert Chain(ahead, entry);
    }

    // The successor is saved now: the caller may delete the entry it is given.
    method StepAhead()
      requires entry != null && Chain(ahead, entry) && 0 <= index < |ht.rows| && SuffixOf(ahead, ht.rows[index])
      modifies this`ahead, this`nextEntry
      ensures Chain(ahead, nextEntry) && old(Rest()) == [entry] + Rest()
      ensures Returned(entry) && SuffixOf(ahead, ht.rows[index])
    {
      nextEntry := entry.next;
      Suffix(ahead, ht.rows[index]);
      Regroup([entry], ahead[1..], Flatten(ht.rows, index + 1));
      ahead := ahead[1..];
    }

    lemma Suffix(c: seq<Entry<K, V>>, row: seq<Entry<K, V>>)
      requires c != [] && SuffixOf(c, row)
      ensures SuffixOf(c[1..], row) && [c[0]] + c[1..] == c && forall i :: 0 <= i < |c[1..]| ==> c[1..][i] == c[i + 1]
    {
      assert row[|row| - |c[1..]|..] == row[|row| - |c|..][1..];
    }

    // Deleting the entry just returned does not disturb the iteration.
    method DeleteReturned() returns (ok: bool)
      requires Valid() && entry != null && Returned(entry)
      modifies ht, ht.repr, ht.table
      ensures Valid() && ok && ht.view == old(ht.view) - {old(entry.key)} && Rest() == old(Rest())
    {
      ghost var e, rows := entry, ht.rows;
      ok := DeleteKeeps(e);
      StillAhead(rows, ht.rows, index, e, ahead);
    }

    static ghost function RestOf(b: seq<Entry<K, V>>, rows: seq<seq<Entry<K, V>>>, h: int): seq<Entry<K, V>>
      requires -1 <= h
    {
      b + Flatten(rows, h + 1)
    }

    method DeleteKeeps(ghost e: Entry<K, V>) returns (ok: bool)
      requires Valid() && entry == e && Returned(e)
      modifies ht, ht.repr, ht.table
      ensures ht.Valid() && ok && ht.view == old(ht.view) - {e.key}
      ensures Unlinked(old(ht.rows), index, e, ht.rows) && NoDup(old(ht.rows[index]))
      ensures Chain(ahead, nextEntry)
    {
      LastInPlace(e);
      ok := ht.Delete(entry.key);
    }

    static lemma StillAhead(rows: seq<seq<Entry<K, V>>>, rows': seq<seq<Entry<K, V>>>, h: nat, e: Entry<K, V>,
                            b: seq<Entry<K, V>>)
      requires Unlinked(rows, h, e, rows') && SuffixOf([e] + b, rows[h]) && NoDup(rows[h])
      ensures SuffixOf(b, rows'[h]) && RestOf(b, rows', h) == RestOf(b, rows, h)
    {
      var c := rows[h];
      var j :| 0 <= j < |c| && c[j] == e && rows' == rows[h := c[..j] + c[j + 1..]];
      var k := |c| - |b| - 1;
      assert c[k..][0] == e;
      assert c[k + 1..] == c[k..][1..] == b;
      FlattenSame(rows, rows', h + 1);
    }

    lemma LastInPlace(e: Entry<K, V>)
      requires Valid() && Returned(e)
      ensures e.key in ht.at && ht.at[e.key] == e && Slot(ht.hash, ht.sizemask, e.key) == index
      ensures NoDup(ht.rows[index]) && ht.rows[index][|ht.rows[index]| - |ahead| - 1] == e
      ensures forall x :: x in ahead ==> x in ht.repr && x != e && x.next != e
    {
      var c := ht.rows[index];
      assert Row(c, ht.at, ht.hash, ht.sizemask, index) && Chain(c, ht.table[index]);
      var k := |c| - |ahead| - 1;
      assert c[k..][0] == e && c[k] in c;
      forall x | x in ahead ensures x in ht.repr && x != e && x.next != e {
        var i :| 0 <= i < |ahead| && ahead[i] == x;
        assert c[k + 1..][i] == c[k + 1 + i] && c[k + 1 + i] in c;
      }
    }

    static lemma FlattenSame(rows: seq<seq<Entry<K, V>>>, rows': seq<seq<Entry<K, V>>>, i: nat)
      requires |rows| == |rows'| && forall h :: i <= h < |rows| ==> rows[h] == rows'[h]
      ensures Flatten(rows, i) == Flatten(rows', i)
      decreases |rows| - i
    {
      if i < |rows| { FlattenSame(rows, rows', i + 1); }
    }
  }
}
