/** Chained buckets (hashtable.c): what the `next` pointers and the bucket heads must hold
    so that each entry is reached exactly from its own bucket. */
module Chains {
  import opened Common

  class Entry<K, V> {
    const k: K
    const v: V
    const h: nat
    var next: Entry?<K, V>

    constructor (k: K, v: V, h: nat)
      ensures this.k == k && this.v == v && this.h == h && next == null
    {
      this.k, this.v, this.h, next := k, v, h, null;
    }
  }

  /** What the `next` fields hold. */
  type Memory<!K, !V> = map<Entry<K, V>, Entry?<K, V>>

  /** `indexFor` */
  function Slot(length: nat, h: nat): (i: nat)
    requires length > 0
    ensures i < length
  {
    h % length
  }

  ghost function At<K, V>(c: seq<Entry<K, V>>, j: nat): Entry?<K, V> {
    if j < |c| then c[j] else null
  }

  ghost predicate NextIs<K, V>(m: Memory<K, V>, c: seq<Entry<K, V>>, j: nat)
    requires j < |c|
  {
    c[j] in m && m[c[j]] == At(c, j + 1)
  }

  ghost predicate Chained<K, V>(m: Memory<K, V>, c: seq<Entry<K, V>>, head: Entry?<K, V>) {
    head == At(c, 0) && forall j: nat | j < |c| :: NextIs(m, c, j)
  }

  /** One bucket of a table of n buckets. */
  ghost predicate Bucket<K, V>(m: Memory<K, V>, head: Entry?<K, V>, c: seq<Entry<K, V>>, es: set<Entry<K, V>>, n: nat, i: nat)
    requires n > 0
  {
    Chained(m, c, head) && NoDup(c) && forall e | e in c :: e in es && Slot(n, e.h) == i
  }

  /** The buckets b hold exactly the entries es, each in the chain of its own slot. */
  ghost predicate Laid<K, V>(m: Memory<K, V>, b: seq<Entry?<K, V>>, chains: seq<seq<Entry<K, V>>>, es: set<Entry<K, V>>) {
    && |b| == |chains| > 0
    && (forall i: nat | i < |b| :: Bucket(m, b[i], chains[i], es, |b|, i))
    && (forall e | e in es :: e in chains[Slot(|b|, e.h)])
  }

  ghost predicate Agree<K, V>(m: Memory<K, V>, w: Memory<K, V>, es: set<Entry<K, V>>) {
    forall e | e in es && e in m :: e in w && w[e] == m[e]
  }

  lemma BucketKept<K, V>(m: Memory<K, V>, w: Memory<K, V>, head: Entry?<K, V>, c: seq<Entry<K, V>>,
                         es: set<Entry<K, V>>, es': set<Entry<K, V>>, n: nat, i: nat)
    requires n > 0 && Bucket(m, head, c, es, n, i)
    requires forall e | e in c :: e in es' && e in m && e in w && w[e] == m[e]
    ensures Bucket(w, head, c, es', n, i)
  {
    forall j: nat | j < |c| ensures NextIs(w, c, j) {
      assert NextIs(m, c, j) && c[j] in c;
    }
  }

  lemma LaidKept<K, V>(m: Memory<K, V>, w: Memory<K, V>, b: seq<Entry?<K, V>>, chains: seq<seq<Entry<K, V>>>, es: set<Entry<K, V>>)
    requires Laid(m, b, chains, es) && Agree(m, w, es)
    ensures Laid(w, b, chains, es)
  {
    forall i: nat | i < |b| ensures Bucket(w, b[i], chains[i], es, |b|, i) {
      MembersKnown(m, b[i], chains[i], es, |b|, i);
      BucketKept(m, w, b[i], chains[i], es, es, |b|, i);
    }
  }

  lemma MembersKnown<K, V>(m: Memory<K, V>, head: Entry?<K, V>, c: seq<Entry<K, V>>, es: set<Entry<K, V>>, n: nat, i: nat)
    requires n > 0 && Bucket(m, head, c, es, n, i)
    ensures forall e | e in c :: e in m && e in es
  {
    forall e | e in c ensures e in m {
      var j: nat :| j < |c| && c[j] == e;
      assert NextIs(m, c, j);
    }
  }

  // ------------------------------------------------------------------- operations

  /** A new entry becomes the head of its bucket. */
  lemma PushFront<K, V>(m: Memory<K, V>, w: Memory<K, V>, b: seq<Entry?<K, V>>, chains: seq<seq<Entry<K, V>>>,
                        es: set<Entry<K, V>>, e: Entry<K, V>, i: nat)
    requires Laid(m, b, chains, es) && e !in es && i == Slot(|b|, e.h)
    requires Agree(m, w, es) && e in w && w[e] == b[i]
    ensures Laid(w, b[i := e], chains[i := [e] + chains[i]], es + {e})
  {
    var b', chains', es' := b[i := e], chains[i := [e] + chains[i]], es + {e};
    forall k: nat | k < |b| ensures Bucket(w, b'[k], chains'[k], es', |b|, k) {
      MembersKnown(m, b[k], chains[k], es, |b|, k);
      BucketKept(m, w, b[k], chains[k], es, es', |b|, k);
      if k == i { BucketPush(w, b[i], chains[i], es', |b|, i, e); }
    }
    forall x | x in es' ensures x in chains'[Slot(|b|, x.h)] {
      if x == e { assert chains'[i][0] == e; }
      else if Slot(|b|, x.h) == i {
        var j :| 0 <= j < |chains[i]| && chains[i][j] == x;
        assert chains'[i][j + 1] == x;
      }
    }
  }

  lemma BucketPush<K, V>(m: Memory<K, V>, head: Entry?<K, V>, c: seq<Entry<K, V>>, es: set<Entry<K, V>>, n: nat, i: nat, e: Entry<K, V>)
    requires n > 0 && Bucket(m, head, c, es, n, i) && e !in c && e in es && Slot(n, e.h) == i && e in m && m[e] == head
    ensures Bucket(m, e, [e] + c, es, n, i)
  {
    var c' := [e] + c;
    forall j: nat | j < |c'| ensures NextIs(m, c', j) {
      if j > 0 { assert NextIs(m, c, j - 1); }
    }
    forall x, y | 0 <= x < y < |c'| ensures c'[x] != c'[y] {
      if x == 0 { assert c[y - 1] in c; } else { assert c[x - 1] != c[y - 1]; }
    }
  }

  /** What is known of the j-th entry of a chain and the one before it. */
  lemma ChainFacts<K, V>(m: Memory<K, V>, b: seq<Entry?<K, V>>, chains: seq<seq<Entry<K, V>>>, es: set<Entry<K, V>>, i: nat, j: nat)
    requires Laid(m, b, chains, es) && i < |b| && j < |chains[i]|
    ensures var c := chains[i];
      && c[j] in es && c[j] in m && m[c[j]] == At(c, j + 1) && Slot(|b|, c[j].h) == i
      && (j > 0 ==> c[j - 1] in es && c[j - 1] in m && c[j - 1] != c[j])
      && b[i] == c[0]
  {
    var c := chains[i];
    assert Bucket(m, b[i], c, es, |b|, i);
    assert c[j] in c && NextIs(m, c, j);
    if j > 0 { assert c[j - 1] in c && NextIs(m, c, j - 1); }
  }

  ghost function Without<T>(c: seq<T>, j: nat): seq<T>
    requires j < |c|
  {
    c[..j] + c[j + 1..]
  }

  /** The j-th entry of a chain is bypassed: by the bucket head if it is the first, else by
      the entry before it. */
  lemma Cut<K, V>(m: Memory<K, V>, w: Memory<K, V>, b: seq<Entry?<K, V>>, b': seq<Entry?<K, V>>, chains: seq<seq<Entry<K, V>>>,
                  es: set<Entry<K, V>>, i: nat, j: nat)
    requires Laid(m, b, chains, es) && i < |b| && j < |chains[i]|
    requires var c := chains[i];
      if j == 0 then Agree(m, w, es - {c[j]}) && b' == b[i := At(c, 1)]
      else b' == b && Agree(m, w, es - {c[j], c[j - 1]}) && c[j - 1] in w && w[c[j - 1]] == At(c, j + 1)
    ensures Laid(w, b', chains[i := Without(chains[i], j)], es - {chains[i][j]})
  {
    var c, e := chains[i], chains[i][j];
    var chains', es' := chains[i := Without(c, j)], es - {e};
    assert e in c;
    forall k: nat | k < |b| ensures Bucket(w, b'[k], chains'[k], es', |b|, k) {
      MembersKnown(m, b[k], chains[k], es, |b|, k);
      if k != i {
        if j > 0 { assert c[j - 1] in c; }
        BucketKept(m, w, b[k], chains[k], es, es', |b|, k);
      } else {
        BucketCut(m, w, b[i], c, es, |b|, i, j);
      }
    }
    forall x | x in es' ensures x in chains'[Slot(|b|, x.h)] {
      if Slot(|b|, x.h) == i {
        var y :| 0 <= y < |c| && c[y] == x;
        assert Without(c, j)[if y < j then y else y - 1] == x;
      }
    }
  }

  lemma BucketCut<K, V>(m: Memory<K, V>, w: Memory<K, V>, head: Entry?<K, V>, c: seq<Entry<K, V>>, es: set<Entry<K, V>>,
                        n: nat, i: nat, j: nat)
    requires n > 0 && Bucket(m, head, c, es, n, i) && j < |c|
    requires if j == 0 then Agree(m, w, es - {c[j]}) else
      Agree(m, w, es - {c[j], c[j - 1]}) && c[j - 1] in w && w[c[j - 1]] == At(c, j + 1)
    ensures Bucket(w, if j == 0 then At(c, 1) else head, Without(c, j), es - {c[j]}, n, i)
  {
    var c' := Without(c, j);
    MembersKnown(m, head, c, es, n, i);
    forall x, y | 0 <= x < y < |c'| ensures c'[x] != c'[y] {
      var x', y' := if x < j then x else x + 1, if y < j then y else y + 1;
      assert c'[x] == c[x'] && c'[y] == c[y'];
    }
    forall x: nat | x < |c'| ensures NextIs(w, c', x) && c'[x] in es && c'[x] != c[j] && Slot(n, c'[x].h) == i {
      var x' := if x < j then x else x + 1;
      assert c'[x] == c[x'] && c[x'] in c && NextIs(m, c, x');
      if x' != j - 1 { assert j > 0 ==> c[x'] != c[j - 1]; }
    }
  }

  lemma LaidSize<K, V>(m: Memory<K, V>, b: seq<Entry?<K, V>>, chains: seq<seq<Entry<K, V>>>, es: set<Entry<K, V>>)
    requires Laid(m, b, chains, es)
    ensures |b| == |chains| > 0
  {
  }

  lemma EmptyLaid<K, V>(m: Memory<K, V>, b: seq<Entry?<K, V>>, chains: seq<seq<Entry<K, V>>>)
    requires |b| == |chains| > 0 && forall i | 0 <= i < |b| :: b[i] == null && chains[i] == []
    ensures Laid(m, b, chains, {})
  {
  }

  lemma EmptyBucket<K, V>(m: Memory<K, V>, b: seq<Entry?<K, V>>, chains: seq<seq<Entry<K, V>>>, es: set<Entry<K, V>>, i: nat)
    requires Laid(m, b, chains, es) && i < |b|
    ensures b[i] == null <==> chains[i] == []
  {
    assert Bucket(m, b[i], chains[i], es, |b|, i);
  }

  lemma AllEmpty<K, V>(m: Memory<K, V>, b: seq<Entry?<K, V>>, chains: seq<seq<Entry<K, V>>>, es: set<Entry<K, V>>)
    requires Laid(m, b, chains, es) && forall i | 0 <= i < |chains| :: chains[i] == []
    ensures es == {}
  {
    assert forall e | e in es :: e in chains[Slot(|b|, e.h)];
  }

  // ----------------------------------------------------------- all entries in order

  ghost function Flat<T>(chains: seq<seq<T>>): seq<T> {
    if chains == [] then [] else chains[0] + Flat(chains[1..])
  }

  lemma {:induction false} FlatMember<T>(chains: seq<seq<T>>, x: T)
    ensures x in Flat(chains) <==> exists i :: 0 <= i < |chains| && x in chains[i]
  {
    if chains != [] {
      FlatMember(chains[1..], x);
      if x in Flat(chains[1..]) {
        var i :| 0 <= i < |chains[1..]| && x in chains[1..][i];
        assert x in chains[i + 1];
      }
      if i :| 0 <= i < |chains| && x in chains[i] {
        if i > 0 { assert x in chains[1..][i - 1]; }
      }
    }
  }

  lemma {:induction false} FlatNoDup<T>(chains: seq<seq<T>>)
    requires forall i | 0 <= i < |chains| :: NoDup(chains[i])
    requires forall i, j, x | 0 <= i < j < |chains| && x in chains[i] :: x !in chains[j]
    ensures NoDup(Flat(chains))
  {
    if chains != [] {
      var c, r := chains[0], Flat(chains[1..]);
      FlatNoDup(chains[1..]);
      forall i, j | 0 <= i < j < |c + r| ensures (c + r)[i] != (c + r)[j] {
        if i < |c| <= j {
          var x := c[i];
          assert x in c;
          FlatMember(chains[1..], x);
          assert r[j - |c|] in r;
        }
      }
    }
  }

  /** Going through the buckets meets every entry exactly once. */
  lemma EachOnce<K, V>(m: Memory<K, V>, b: seq<Entry?<K, V>>, chains: seq<seq<Entry<K, V>>>, es: set<Entry<K, V>>)
    requires Laid(m, b, chains, es)
    ensures NoDup(Flat(chains)) && (set e | e in Flat(chains)) == es && |Flat(chains)| == |es|
  {
    forall i | 0 <= i < |chains| ensures NoDup(chains[i]) { assert Bucket(m, b[i], chains[i], es, |b|, i); }
    forall i, j, x | 0 <= i < j < |chains| && x in chains[i] ensures x !in chains[j] {
      assert Bucket(m, b[i], chains[i], es, |b|, i) && Bucket(m, b[j], chains[j], es, |b|, j);
    }
    FlatNoDup(chains);
    forall e | e in Flat(chains) ensures e in es {
      FlatMember(chains, e);
      var i: nat :| i < |chains| && e in chains[i];
      assert Bucket(m, b[i], chains[i], es, |b|, i);
    }
    forall e | e in es ensures e in Flat(chains) {
      FlatMember(chains, e);
    }
    NoDupSize(Flat(chains), es);
  }

  lemma {:induction false} NoDupSize<T>(c: seq<T>, s: set<T>)
    requires NoDup(c) && forall x :: x in c <==> x in s
    ensures |c| == |s|
  {
    if c == [] {
      assert s == {};
    } else {
      var x := c[0];
      forall y ensures y in c[1..] <==> y in s - {x} {
        if y in c[1..] {
          var i :| 0 <= i < |c[1..]| && c[1..][i] == y;
          assert c[i + 1] == y && c[0] != c[i + 1];
        }
        if y in s - {x} {
          var i :| 0 <= i < |c| && c[i] == y;
          assert c[1..][i - 1] == y;
        }
      }
      assert NoDup(c[1..]);
      NoDupSize(c[1..], s - {x});
    }
  }
}
