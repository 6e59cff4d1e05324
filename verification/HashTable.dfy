/** hashtable.c and hashtable_itr.c: a chained table that agrees with a map, and an iterator
    that may delete while it walks. */
module HashTable {
  import opened Chains
  import opened Common

  const PRIMES: seq<nat> := [
    53, 97, 193, 389, 769, 1543, 3079, 6151, 12289, 24593, 49157, 98317, 196613, 393241, 786433, 1572869,
    3145739, 6291469, 12582917, 25165843, 50331653, 100663319, 201326611, 402653189, 805306457, 1610612741]

  const PRIME_TABLE_LENGTH: nat := 26

  lemma PrimeTable()
    ensures |PRIMES| == PRIME_TABLE_LENGTH && forall i | 0 <= i < |PRIMES| :: PRIMES[i] > 0
  {
  }

  /** The listed sizes grow, so the first one above a size is the least one above it. */
  lemma PrimesGrow(i: nat, j: nat)
    requires i < j < PRIME_TABLE_LENGTH
    ensures PRIMES[i] < PRIMES[j]
  {
    if i < j - 1 { PrimesGrow(i, j - 1); }
  }

  /** Keys are distinct. */
  ghost predicate Unique<K, V>(es: set<Entry<K, V>>) {
    forall e, f | e in es && f in es && e.k == f.k :: e == f
  }

  /** The entries as a map. */
  ghost function MapOf<K(!new), V>(es: set<Entry<K, V>>): (m: map<K, V>)
    requires Unique(es)
    ensures forall k :: k in m <==> exists e :: e in es && e.k == k
    ensures forall e | e in es :: m[e.k] == e.v
  {
    map e | e in es :: e.k := e.v
  }

  lemma MapWith<K(!new), V>(es: set<Entry<K, V>>, e: Entry<K, V>)
    requires Unique(es) && e.k !in MapOf(es)
    ensures Unique(es + {e}) && MapOf(es + {e}) == MapOf(es)[e.k := e.v]
  {
  }

  lemma MapWithout<K(!new), V>(es: set<Entry<K, V>>, e: Entry<K, V>)
    requires Unique(es) && e in es
    ensures Unique(es - {e}) && MapOf(es - {e}) == MapOf(es) - {e.k}
  {
  }

  class Table<K(!new,==), V> {
    const hashfn: K -> nat
    const limitOf: nat -> nat           // the load limit of a table size
    var table: array<Entry?<K, V>>
    var entrycount: int
    var primeindex: nat
    var loadlimit: nat
    ghost var chains: seq<seq<Entry<K, V>>>
    ghost var entries: set<Entry<K, V>>

    /** What the `next` fields hold now. */
    ghost function Links(): Memory<K, V>
      reads `entries, entries
    {
      map e | e in entries :: e.next
    }

    /** All but the count. */
    ghost predicate Shape()
      reads `table, `chains, `entries, `primeindex, `loadlimit, table, entries
    {
      && Laid(Links(), table[..], chains, entries) && Unique(entries)
      && (forall e | e in entries :: e.h == hashfn(e.k))
      && primeindex < PRIME_TABLE_LENGTH && table.Length == PRIMES[primeindex]
      && loadlimit == limitOf(table.Length)
    }

    ghost predicate Valid()
      reads this, table, entries
    {
      Shape() && entrycount == |entries|
    }

    ghost function Contents(): map<K, V>
      requires Unique(entries)
      reads `entries
    {
      MapOf(entries)
    }

    /** The part of `create_hashtable` for a size that is not too large. */
    constructor (minsize: nat, hashfn: K -> nat, limitOf: nat -> nat)
      requires minsize <= 1073741824
      ensures Valid() && entries == {} && fresh(table) && this.hashfn == hashfn
      ensures this.limitOf == limitOf && table.Length > minsize
      ensures forall j | 0 <= j < PRIME_TABLE_LENGTH && PRIMES[j] > minsize :: table.Length <= PRIMES[j]
    {
      PrimeTable();
      var pindex, size := 0, PRIMES[0];
      while pindex < PRIME_TABLE_LENGTH
        invariant pindex <= PRIME_TABLE_LENGTH
        invariant forall j | 0 <= j < pindex :: PRIMES[j] <= minsize
      {
        if PRIMES[pindex] > minsize { size := PRIMES[pindex]; break; }
        pindex := pindex + 1;
      }
      assert PRIMES[25] == 1610612741;
      table := new Entry?<K, V>[size](i => null);
      entrycount, primeindex, loadlimit := 0, pindex, limitOf(size);
      this.hashfn, this.limitOf := hashfn, limitOf;
      entries, chains := {}, seq(size, i => []);
    }

    /** Looks for k in its bucket: the entry and the one before it in the chain. */
    method Find(k: K) returns (e: Entry?<K, V>, before: Entry?<K, V>, index: nat, ghost j: nat)
      requires Valid()
      ensures index == Slot(table.Length, hashfn(k)) && j <= |chains[index]| && e == At(chains[index], j)
      ensures before == if j == 0 then null else At(chains[index], j - 1)
      ensures e != null ==> e in entries && e.k == k
      ensures e == null ==> k !in Contents()
    {
      var hashvalue := hashfn(k);
      index := Slot(table.Length, hashvalue);
      j := 0;
      before := null;
      ghost var c := chains[index];
      assert Bucket(Links(), table[..][index], c, entries, table.Length, index);
      e := table[index];
      while e != null
        invariant j <= |c| && e == At(c, j) && before == if j == 0 then null else At(c, j - 1)
        invariant forall i | 0 <= i < j :: c[i].k != k
        decreases |c| - j
      {
        assert c[j] in c && NextIs(Links(), c, j);
        if hashvalue == e.h && k == e.k { return; }
        before := e;
        e := e.next;
        j := j + 1;
      }
      assert forall x | x in entries && x.h == hashvalue :: x in c;
    }

    /** The first bucket from j on that is not empty. */
    method FirstBucket(j: nat) returns (i: nat)
      requires Valid() && j <= table.Length
      ensures j <= i <= table.Length == |chains| && forall x | j <= x < i :: chains[x] == []
      ensures i < table.Length ==> chains[i] != [] && table[i] == chains[i][0]
    {
      hide Laid;
      LaidSize(Links(), table[..], chains, entries);
      i := j;
      while i < table.Length && table[i] == null
        invariant j <= i <= table.Length && forall x | j <= x < i :: chains[x] == []
      {
        EmptyBucket(Links(), table[..], chains, entries, i);
        i := i + 1;
      }
      if i < table.Length {
        EmptyBucket(Links(), table[..], chains, entries, i);
        ChainFacts(Links(), table[..], chains, entries, i, 0);
      }
    }

    /** `hashtable_search` */
    method Search(k: K) returns (v: Option<V>)
      requires Valid()
      ensures v == if k in Contents() then Some(Contents()[k]) else None
    {
      var e, before, index;
      ghost var j;
      e, before, index, j := Find(k);
      v := if e == null then None else Some(e.v);
    }

    /** Moves the first entry of old bucket i to the front of its new bucket. */
    method MoveOne(a: array<Entry?<K, V>>, b: array<Entry?<K, V>>, i: nat,
                   ghost oc: seq<seq<Entry<K, V>>>, ghost oe: set<Entry<K, V>>,
                   ghost nc: seq<seq<Entry<K, V>>>, ghost ne: set<Entry<K, V>>) returns (ghost e: Entry<K, V>)
      requires a != b && i < a.Length && a[i] != null && oe !! ne && oe + ne == entries
      requires Laid(Links(), a[..], oc, oe) && Laid(Links(), b[..], nc, ne)
      modifies a, b, entries
      ensures e in oe && oc[i] != []
      ensures Laid(Links(), a[..], oc[i := oc[i][1..]], oe - {e})
      ensures var x := Slot(b.Length, e.h); Laid(Links(), b[..], nc[x := [e] + nc[x]], ne + {e})
    {
      ghost var m, a0, b0 := Links(), a[..], b[..];
      ghost var c := oc[i];
      assert Bucket(m, a0[i], c, oe, |a0|, i);
      var first := a[i];
      assert NextIs(m, c, 0) && c[0] in c;
      e := first;
      a[i] := first.next;
      var index := Slot(b.Length, first.h);
      first.next := b[index];
      b[index] := first;
      assert Links() == m[e := b0[index]];
      assert a[..] == a0[i := At(c, 1)] && b[..] == b0[index := e];
      Cut(m, m, a0, a[..], oc, oe, i, 0);
      assert Without(c, 0) == c[1..];
      LaidKept(m, Links(), a[..], oc[i := c[1..]], oe - {e});
      PushFront(m, Links(), b0, nc, ne, e, index);
    }

    /** The inner loop of `hashtable_expand`: old bucket i is emptied. */
    method MoveBucket(a: array<Entry?<K, V>>, b: array<Entry?<K, V>>, i: nat,
                      ghost oc: seq<seq<Entry<K, V>>>, ghost oe: set<Entry<K, V>>,
                      ghost nc: seq<seq<Entry<K, V>>>, ghost ne: set<Entry<K, V>>)
      returns (ghost oc': seq<seq<Entry<K, V>>>, ghost oe': set<Entry<K, V>>,
               ghost nc': seq<seq<Entry<K, V>>>, ghost ne': set<Entry<K, V>>)
      requires a != b && i < a.Length == |oc| && b.Length == |nc| && oe !! ne && oe + ne == entries
      requires Laid(Links(), a[..], oc, oe) && Laid(Links(), b[..], nc, ne)
      modifies a, b, entries
      ensures oe' !! ne' && oe' + ne' == entries && |oc'| == |oc| && |nc'| == |nc|
      ensures Laid(Links(), a[..], oc', oe') && Laid(Links(), b[..], nc', ne')
      ensures oc' == oc[i := []]
    {
      hide Laid, Table.Links;
      oc', oe', nc', ne' := oc, oe, nc, ne;
      EmptyBucket(Links(), a[..], oc', oe', i);
      while a[i] != null
        invariant |oc'| == |oc| && |nc'| == |nc| && (a[i] == null ==> oc'[i] == [])
        invariant Laid(Links(), a[..], oc', oe') && Laid(Links(), b[..], nc', ne')
        invariant oe' !! ne' && oe' + ne' == entries && oc' == oc[i := oc'[i]]
        decreases |oc'[i]|
      {
        ghost var e := MoveOne(a, b, i, oc', oe', nc', ne');
        ghost var x := Slot(b.Length, e.h);
        oc', oe', nc', ne' := oc'[i := oc'[i][1..]], oe' - {e}, nc'[x := [e] + nc'[x]], ne' + {e};
        EmptyBucket(Links(), a[..], oc', oe', i);
      }
    }

    /** The loops of `hashtable_expand`: every entry goes to its bucket in the new table. */
    method MoveAll(newtable: array<Entry?<K, V>>) returns (ghost nc: seq<seq<Entry<K, V>>>)
      requires Laid(Links(), table[..], chains, entries)
      requires newtable != table && newtable.Length > 0 && forall i | 0 <= i < newtable.Length :: newtable[i] == null
      modifies table, newtable, entries
      ensures Laid(Links(), newtable[..], nc, entries)
    {
      hide Laid, Table.Links;
      LaidSize(Links(), table[..], chains, entries);
      ghost var oc, oe, ne: set<Entry<K, V>> := chains, entries, {};
      nc := seq(newtable.Length, i => []);
      EmptyLaid(Links(), newtable[..], nc);
      var i := 0;
      while i < table.Length
        invariant i <= table.Length == |oc| && newtable.Length == |nc|
        invariant Laid(Links(), table[..], oc, oe) && Laid(Links(), newtable[..], nc, ne)
        invariant oe !! ne && oe + ne == entries
        invariant forall x | 0 <= x < i :: oc[x] == []
      {
        oc, oe, nc, ne := MoveBucket(table, newtable, i, oc, oe, nc, ne);
        i := i + 1;
      }
      AllEmpty(Links(), table[..], oc, oe);
    }

    /** `hashtable_expand`; `memory` says whether there is memory for the new table.  With it every
        entry goes to its new bucket, without it nothing changes. */
    method Expand(memory: bool) returns (grown: bool)
      requires Shape()
      modifies this`table, this`chains, this`primeindex, this`loadlimit, table, entries
      ensures Shape()
      ensures grown <==> memory && old(primeindex) < PRIME_TABLE_LENGTH - 1
      ensures primeindex == old(primeindex) + if grown then 1 else 0
      ensures if grown then fresh(table) else table == old(table)
      ensures !grown ==> table[..] == old(table[..]) && chains == old(chains) && forall e | e in entries :: e.next == old(e.next)
    {
      hide Laid;
      PrimeTable();
      if primeindex == PRIME_TABLE_LENGTH - 1 { return false; }
      primeindex := primeindex + 1;
      if !memory {
        primeindex := primeindex - 1;
        return false;
      }
      var newsize := PRIMES[primeindex];
      var newtable := new Entry?<K, V>[newsize](i => null);
      ghost var nc := MoveAll(newtable);
      table, chains, loadlimit := newtable, nc, limitOf(newsize);
      grown := true;
    }

    method CountOneMore(growing: bool)
      requires Shape()
      modifies this`entrycount, this`table, this`chains, this`primeindex, this`loadlimit, table, entries
      ensures Shape() && entrycount == old(entrycount) + 1
      ensures var grown := old(entrycount) >= old(loadlimit) && growing && old(primeindex) < PRIME_TABLE_LENGTH - 1;
        primeindex == old(primeindex) + (if grown then 1 else 0) && if grown then fresh(table) else table == old(table)
    {
      hide Laid, Unique;
      entrycount := entrycount + 1;
      if entrycount > loadlimit { var _ := Expand(growing); }
    }

    /** `hashtable_insert`; `growing` says whether there is memory for a larger table, and `memory`
        whether there is for the entry. */
    method Insert(k: K, v: V, growing: bool, memory: bool) returns (ok: bool)
      requires Valid() && k !in Contents()
      modifies this, table, entries
      ensures Valid() && ok == memory
      ensures var grown := old(entrycount) >= old(loadlimit) && growing && old(primeindex) < PRIME_TABLE_LENGTH - 1;
        primeindex == old(primeindex) + (if grown then 1 else 0) && if grown then fresh(table) else table == old(table)
      ensures Contents() == if ok then old(Contents())[k := v] else old(Contents())
      ensures old(entries) <= entries && fresh(entries - old(entries))
    {
      hide Table.Shape, MapOf, Unique;
      CountOneMore(growing);
      if !memory {
        entrycount := entrycount - 1;
        return false;
      }
      var e := new Entry(k, v, hashfn(k));
      Link(e);
      ok := true;
    }

    /** The new entry is put at the front of its bucket. */
    method Link(e: Entry<K, V>)
      requires Shape() && e !in entries && e.h == hashfn(e.k) && e.k !in Contents()
      modifies this`chains, this`entries, table, e
      ensures Shape() && entries == old(entries) + {e} && Contents() == old(Contents())[e.k := e.v]
    {
      ghost var m, b0 := Links(), table[..];
      var index := Slot(table.Length, e.h);
      e.next := table[index];
      table[index] := e;
      ghost var es := entries;
      entries := entries + {e};
      PushFront(m, Links(), b0, chains, es, e, index);
      chains := chains[index := [e] + chains[index]];
      MapWith(es, e);
    }

    /** Takes out the j-th entry of a chain, given the one before it. */
    method Unchain(e: Entry<K, V>, before: Entry?<K, V>, index: nat, ghost j: nat)
      requires Valid() && index < table.Length && j < |chains[index]| && e == chains[index][j]
      requires before == if j == 0 then null else At(chains[index], j - 1)
      modifies this`chains, this`entries, this`entrycount, table, entries
      ensures Valid() && entries == old(entries) - {e} && Contents() == old(Contents()) - {e.k}
      ensures e in old(entries) && e.next == old(e.next) == At(old(chains)[index], j + 1)
      ensures chains == old(chains)[index := Without(old(chains)[index], j)]
    {
      hide Laid, MapOf, Table.Links;
      ghost var es := entries;
      Bypass(e, before, index, j);
      entrycount := entrycount - 1;
      MapWithout(es, e);
    }

    method Bypass(e: Entry<K, V>, before: Entry?<K, V>, index: nat, ghost j: nat)
      requires Laid(Links(), table[..], chains, entries) && index < table.Length
      requires j < |chains[index]| && e == chains[index][j]
      requires before == if j == 0 then null else At(chains[index], j - 1)
      modifies this`chains, this`entries, table, entries
      ensures Laid(Links(), table[..], chains, entries)
      ensures e in old(entries) && entries == old(entries) - {e}
      ensures e.next == old(e.next) == At(old(chains)[index], j + 1)
      ensures chains == old(chains)[index := Without(old(chains)[index], j)]
    {
      hide Laid, Without;
      LaidSize(Links(), table[..], chains, entries);
      ghost var m, b0, c, es := Links(), table[..], chains[index], entries;
      ChainFacts(m, b0, chains, entries, index, j);
      LaidSize(Links(), table[..], chains, entries);
      Redirect(e, before, index);
      ghost var w, b := Links(), table[..];
      Cut(m, w, b0, b, chains, es, index, j);
      entries := entries - {e};
      chains := chains[index := Without(c, j)];
      LaidKept(w, Links(), b, chains, entries);
    }

    method Redirect(e: Entry<K, V>, before: Entry?<K, V>, index: nat)
      requires e in entries && index < table.Length && (before != null ==> before in entries && before != e)
      modifies table, entries
      ensures before == null ==> table[..] == old(table[..])[index := e.next] && Links() == old(Links())
      ensures before != null ==> table[..] == old(table[..]) && Links() == old(Links())[before := e.next]
      ensures e.next == old(e.next)
    {
      if before == null { table[index] := e.next; } else { before.next := e.next; }
    }

    /** `hashtable_remove` */
    method Remove(k: K) returns (v: Option<V>)
      requires Valid()
      modifies this`chains, this`entries, this`entrycount, table, entries
      ensures Valid() && Contents() == old(Contents()) - {k}
      ensures v == if k in old(Contents()) then Some(old(Contents())[k]) else None
      ensures entries <= old(entries)
    {
      hide Laid, Table.Links, Without;
      var e, before, index;
      ghost var j;
      e, before, index, j := Find(k);
      if e == null { return None; }
      v := Some(e.v);
      Unchain(e, before, index, j);
    }
  }

  /** The entries from the p-th of bucket i on. */
  ghost function From<T>(chains: seq<seq<T>>, i: nat, p: nat): seq<T>
    requires i < |chains| && p <= |chains[i]|
  {
    chains[i][p..] + Flat(chains[i + 1..])
  }

  /** The first bucket after i that is not empty, or the end. */
  lemma {:induction false} SkipEmpty<T>(chains: seq<seq<T>>, i: nat, j: nat)
    requires i <= j <= |chains| && forall x | i <= x < j :: chains[x] == []
    ensures Flat(chains[i..]) == Flat(chains[j..])
    decreases j - i
  {
    if i < j {
      assert chains[i..][0] == [] && chains[i..][1..] == chains[i + 1..];
      SkipEmpty(chains, i + 1, j);
      assert Flat(chains[i..]) == [] + Flat(chains[i + 1..]);
    }
  }

  lemma FromStart<T>(chains: seq<seq<T>>, i: nat)
    requires i < |chains|
    ensures From(chains, i, 0) == Flat(chains[i..])
  {
    assert chains[i..][0] == chains[i] && chains[i..][1..] == chains[i + 1..] && chains[i][0..] == chains[i];
  }

  lemma NoneAhead<T>(chains: seq<seq<T>>, i: nat)
    requires i == |chains|
    ensures Flat(chains[i..]) == []
  {
  }

  class Iterator<K(!new,==), V> {
    var h: Table<K, V>
    var e: Entry?<K, V>
    var parent: Entry?<K, V>
    var index: nat
    ghost var pos: nat

    /** The iterator stands on an entry of the table, or is at the end. */
    ghost predicate Standing()
      reads this, h, h.table, h.entries
    {
      h.Valid() && (e != null ==> index < h.table.Length && pos < |h.chains[index]| && e == h.chains[index][pos])
    }

    /** It also knows the entry before the current one in its chain. */
    ghost predicate Valid()
      reads this, h, h.table, h.entries
    {
      Standing() && (e != null ==> parent == if pos == 0 then null else At(h.chains[index], pos - 1))
    }

    /** The entries still to be visited, the current one first. */
    ghost function Rest(): seq<Entry<K, V>>
      requires Standing()
      reads this, h, h.table, h.entries
    {
      if e == null then [] else From(h.chains, index, pos)
    }

    /** `hashtable_iterator` */
    constructor (h: Table<K, V>)
      requires h.Valid()
      ensures Valid() && this.h == h && Rest() == Flat(h.chains)
      ensures NoDup(Rest()) && (set x | x in Rest()) == h.entries && |Rest()| == h.entrycount
    {
      this.h := h;
      e, parent, index, pos := null, null, h.table.Length, 0;
      new;
      EachOnce(h.Links(), h.table[..], h.chains, h.entries);
      if h.entrycount != 0 { FirstFrom(0); }
      assert h.chains[0..] == h.chains;
      assert Rest() == Flat(h.chains);
    }

    /** Goes to the first entry of the first bucket from j on that is not empty. */
    method FirstFrom(j: nat)
      requires h.Valid() && j <= h.table.Length
      modifies this
      ensures h == old(h) && Valid() && Rest() == Flat(h.chains[j..]) && parent == null && (e != null ==> pos == 0)
    {
      hide Laid;
      var i := h.FirstBucket(j);
      SkipEmpty(h.chains, j, i);
      parent, index, pos := null, i, 0;
      if i < h.table.Length {
        FromStart(h.chains, i);
        e := h.table[i];
      } else {
        e := null;
        NoneAhead(h.chains, i);
      }
    }

    /** `hashtable_iterator_advance`, when the successor of the current entry in its chain is
        the p-th entry of the bucket. */
    method Next(ghost p: nat) returns (more: bool)
      requires h.Valid() && e != null && index < h.table.Length && p <= |h.chains[index]|
      requires e.next == At(h.chains[index], p)
      modifies this
      ensures h == old(h) && Standing() && Rest() == From(h.chains, old(index), p) && (more <==> e != null)
      ensures e != null && parent == null ==> pos == 0
      ensures old(e).next != null ==> parent == old(e) && index == old(index) && pos == p
      ensures old(e).next == null ==> parent == null
    {
      if e.next != null {
        parent := e;
        e := e.next;
        pos := p;
        return true;
      }
      FirstFrom(index + 1);
      more := e != null;
    }

    /** `hashtable_iterator_advance` */
    method Advance() returns (more: bool)
      requires Valid()
      modifies this
      ensures h == old(h) && Valid() && (more <==> Rest() != [])
      ensures Rest() == if old(Rest()) == [] then [] else old(Rest())[1..]
    {
      if e == null { return false; }
      ghost var i, j := index, pos;
      ChainFacts(h.Links(), h.table[..], h.chains, h.entries, i, j);
      more := Next(j + 1);
      FromNext(h.chains, i, j);
    }

    /** `hashtable_iterator_remove` */
    method Remove() returns (more: bool)
      requires Valid() && e != null
      modifies this, h`chains, h`entries, h`entrycount, h.table, h.entries
      ensures h == old(h) && Valid() && (more <==> Rest() != [])
      ensures Rest() == old(Rest())[1..] && h.entries == old(h.entries) - {old(e)}
      ensures h.Contents() == old(h.Contents()) - {old(e).k}
    {
      hide Laid, Table.Links, From, Table.Shape, MapOf, Flat, Without;
      var rememberE, rememberParent := e, parent;
      ghost var chains, i, j := h.chains, index, pos;
      more := TakeOut();
      if parent == rememberE { parent := rememberParent; }
      FromNext(chains, i, j);
      FromWithout(chains, i, j);
      AtEnd();
    }

    /** The entry leaves the table and the iterator moves on, still from that entry. */
    method TakeOut() returns (more: bool)
      requires Valid() && e != null
      modifies this, h`chains, h`entries, h`entrycount, h.table, h.entries
      ensures h == old(h) && old(index) < |old(h.chains)| && old(pos) < |old(h.chains)[old(index)]| && old(e) == old(h.chains)[old(index)][old(pos)]
      ensures h.chains == old(h.chains)[old(index) := Without(old(h.chains)[old(index)], old(pos))]
      ensures Standing() && old(pos) <= |h.chains[old(index)]| && Rest() == From(h.chains, old(index), old(pos))
      ensures h.entries == old(h.entries) - {old(e)} && h.Contents() == old(h.Contents()) - {old(e).k}
      ensures more <==> e != null
      ensures e != null && parent != old(e) ==> parent == null && pos == 0
      ensures e != null && parent == old(e) ==>
        index == old(index) && pos == old(pos) && (pos > 0 ==> At(h.chains[index], pos - 1) == At(old(h.chains)[index], pos - 1))
    {
      hide Laid, Table.Links, From, MapOf, Flat;
      LaidSize(h.Links(), h.table[..], h.chains, h.entries);
      ghost var j := pos;
      h.Unchain(e, parent, index, j);
      more := Next(j);
    }

    /** `hashtable_iterator_search`: the iterator moves to the table t if the key is there. */
    method SearchKey(t: Table<K, V>, k: K) returns (found: bool)
      requires t.Valid()
      modifies this
      ensures found <==> k in t.Contents()
      ensures found ==> Valid() && h == t && e != null && e.k == k
      ensures !found ==> h == old(h) && e == old(e) && parent == old(parent) && index == old(index) && pos == old(pos)
    {
      hide Laid, MapOf, Unique, From;
      LaidSize(t.Links(), t.table[..], t.chains, t.entries);
      var x, before, i;
      ghost var j;
      x, before, i, j := t.Find(k);
      if x == null { return false; }
      h, index, e, parent, pos := t, i, x, before, j;
      found := true;
    }

    lemma InTable()
      requires Valid()
      ensures h.Valid()
    {
    }

    lemma Current()
      requires Valid() && e != null
      ensures Rest() != [] && Rest()[0] == e && e in h.entries
    {
      ChainFacts(h.Links(), h.table[..], h.chains, h.entries, index, pos);
      FromNext(h.chains, index, pos);
    }

    lemma AtEnd()
      requires Standing()
      ensures Rest() == [] <==> e == null
    {
      if e != null { FromNext(h.chains, index, pos); }
    }
  }

  ghost function Dropped<T>(s: seq<T>, drop: seq<bool>): set<T>
    requires |s| == |drop|
  {
    set i | 0 <= i < |s| && drop[i] :: s[i]
  }

  method Step<K(!new,==), V>(it: Iterator<K, V>, drop: bool)
    requires it.Valid() && it.Rest() != []
    modifies it, it.h`chains, it.h`entries, it.h`entrycount, it.h.table, it.h.entries
    ensures it.h == old(it.h) && it.Valid() && it.Rest() == old(it.Rest())[1..] && old(it.e) == old(it.Rest())[0]
    ensures it.h.entries == old(it.h.entries) - if drop then {old(it.Rest())[0]} else {}
  {
    hide Table.Shape, From;
    it.AtEnd();
    it.Current();
    if drop { var _ := it.Remove(); } else { var _ := it.Advance(); }
  }

  /** A walk that removes some entries and steps over the others meets every entry that was
      there at the start exactly once, and takes out exactly the ones it removes. */
  method Sweep<K(!new,==), V>(it: Iterator<K, V>, drop: seq<bool>) returns (ghost met: seq<Entry<K, V>>)
    requires it.Valid() && |drop| == |it.Rest()|
    modifies it, it.h`chains, it.h`entries, it.h`entrycount, it.h.table, it.h.entries
    ensures it.h == old(it.h) && it.Valid() && it.e == null && met == old(it.Rest())
    ensures it.h.entries == old(it.h.entries) - Dropped(met, drop)
  {
    hide Iterator.Standing, Iterator.Rest, Dropped;
    met := [];
    ghost var rest, start := it.Rest(), it.h.entries;
    NoneDropped(rest, drop);
    var i := 0;
    while i < |drop|
      invariant i <= |drop| && it.h == old(it.h) && it.Valid() && met == rest[..i] && it.Rest() == rest[i..]
      invariant it.h.entries == start - Dropped(rest[..i], drop[..i])
    {
      OneMoreDropped(rest, drop, i);
      met := met + [it.Rest()[0]];
      Step(it, drop[i]);
      i := i + 1;
    }
    it.AtEnd();
    assert rest[..i] == rest && drop[..i] == drop;
  }

  lemma NoneDropped<T>(s: seq<T>, drop: seq<bool>)
    requires |s| == |drop|
    ensures Dropped(s[..0], drop[..0]) == {}
  {
  }

  lemma OneMoreDropped<T>(s: seq<T>, drop: seq<bool>, i: nat)
    requires |s| == |drop| && i < |s|
    ensures Dropped(s[..i + 1], drop[..i + 1]) == Dropped(s[..i], drop[..i]) + if drop[i] then {s[i]} else {}
  {
    var a, b := Dropped(s[..i + 1], drop[..i + 1]), Dropped(s[..i], drop[..i]);
    forall x | x in b ensures x in a {
      var j :| 0 <= j < i && drop[..i][j] && s[..i][j] == x;
      assert drop[..i + 1][j] && s[..i + 1][j] == x;
    }
    if drop[i] { assert drop[..i + 1][i] && s[..i + 1][i] == s[i]; }
  }

  lemma FromNext<T>(chains: seq<seq<T>>, i: nat, j: nat)
    requires i < |chains| && j < |chains[i]|
    ensures From(chains, i, j) == [chains[i][j]] + From(chains, i, j + 1)
  {
  }

  lemma FromWithout<T>(chains: seq<seq<T>>, i: nat, j: nat)
    requires i < |chains| && j < |chains[i]|
    ensures From(chains[i := Without(chains[i], j)], i, j) == From(chains, i, j + 1)
  {
    assert chains[i := Without(chains[i], j)][i + 1..] == chains[i + 1..];
    assert Without(chains[i], j)[j..] == chains[i][j + 1..];
  }

  /** `create_hashtable`; `memory` says whether there is memory for it. */
  method CreateHashtable<K(!new,==), V>(minsize: nat, hashfn: K -> nat, limitOf: nat -> nat, memory: bool)
    returns (h: Table?<K, V>)
    ensures h == null <==> minsize > 1073741824 || !memory
    ensures h != null ==> fresh(h) && fresh(h.table) && h.Valid() && h.Contents() == map[] && h.hashfn == hashfn
  {
    if minsize > 1073741824 || !memory { return null; }
    h := new Table(minsize, hashfn, limitOf);
  }
}
