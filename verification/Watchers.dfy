/** zk_hashtable.c: tables from paths to lists of watches, and what an event collects. */
module Watchers {
  import opened Chains
  import opened Common
  import opened HashTable

  datatype Watch = Watch(watcher: int, context: int)

  /** `add_to_list`: a watch goes to the front unless it is there already. */
  function Added(s: seq<Watch>, w: Watch): seq<Watch> {
    if w in s then s else [w] + s
  }

  /** `copy_watchers`: adding one by one. */
  function Merged(to: seq<Watch>, from: seq<Watch>): seq<Watch>
    decreases from
  {
    if from == [] then to else Merged(Added(to, from[0]), from[1..])
  }

  lemma AddedNoDup(s: seq<Watch>, w: Watch)
    requires NoDup(s)
    ensures NoDup(Added(s, w))
  {
    if w !in s {
      var t := [w] + s;
      forall i, j | 0 <= i < j < |t| ensures t[i] != t[j] {
        if i == 0 { assert s[j - 1] in s; }
      }
    }
  }

  /** s has the watches of a and b, each once. */
  ghost predicate IsUnion(s: seq<Watch>, a: seq<Watch>, b: seq<Watch>) {
    NoDup(s) && forall w :: w in s <==> w in a || w in b
  }

  /** Merging is union without duplicates. */
  lemma {:induction false} MergedUnion(to: seq<Watch>, from: seq<Watch>)
    requires NoDup(to)
    ensures IsUnion(Merged(to, from), to, from)
    decreases from
  {
    if from != [] {
      AddedNoDup(to, from[0]);
      MergedUnion(Added(to, from[0]), from[1..]);
      forall w ensures w in Merged(to, from) <==> w in to || w in from {
        assert w in from <==> w == from[0] || w in from[1..];
      }
    }
  }

  class WatchList {
    var items: seq<Watch>

    constructor (items: seq<Watch>)
      ensures this.items == items
    {
      this.items := items;
    }

    /** `search_watcher` */
    method Search(w: Watch) returns (found: bool)
      ensures found <==> w in items
    {
      var i := 0;
      while i < |items|
        invariant i <= |items| && w !in items[..i]
      {
        if items[i].watcher == w.watcher && items[i].context == w.context { return true; }
        assert items[..i + 1] == items[..i] + [items[i]];
        i := i + 1;
      }
      assert items[..i] == items;
      found := false;
    }

    /** `add_to_list` */
    method Add(w: Watch) returns (added: bool)
      modifies this
      ensures items == Added(old(items), w) && (added <==> w !in old(items))
    {
      var found := Search(w);
      if found { return false; }
      items := [w] + items;
      added := true;
    }

    /** `copy_watchers` */
    method CopyFrom(from: WatchList)
      requires from != this
      modifies this
      ensures items == Merged(old(items), from.items)
    {
      var i := 0;
      while i < |from.items|
        invariant i <= |from.items| && Merged(items, from.items[i..]) == Merged(old(items), from.items)
      {
        assert from.items[i..][1..] == from.items[i + 1..];
        var _ := Add(from.items[i]);
        i := i + 1;
      }
    }
  }

  /** All the watches of a table. */
  ghost predicate Registered(reg: map<string, seq<Watch>>, w: Watch) {
    exists p :: p in reg && w in reg[p]
  }

  /** w is registered under the key of one of the first n entries. */
  ghost predicate AmongFirst(reg: map<string, seq<Watch>>, es: seq<Entry<string, WatchList>>, n: nat, w: Watch)
    requires n <= |es|
  {
    exists i :: 0 <= i < n && w in Of(reg, es[i].k)
  }

  lemma OneMore(reg: map<string, seq<Watch>>, es: seq<Entry<string, WatchList>>, n: nat)
    requires n < |es|
    ensures forall w :: AmongFirst(reg, es, n + 1, w) <==> AmongFirst(reg, es, n, w) || w in Of(reg, es[n].k)
  {
  }

  ghost function Of(reg: map<string, seq<Watch>>, path: string): seq<Watch> {
    if path in reg then reg[path] else []
  }

  /** Each path has a list of its own, without duplicates; `items` says what the lists hold. */
  ghost predicate Tidy(c: map<string, WatchList>, items: map<WatchList, seq<Watch>>) {
    && (forall p | p in c :: c[p] in items && NoDup(items[c[p]]))
    && (forall p, q | p in c && q in c && c[p] == c[q] :: p == q)
  }

  ghost function Registry(c: map<string, WatchList>, items: map<WatchList, seq<Watch>>): map<string, seq<Watch>> {
    map p | p in c && c[p] in items :: items[c[p]]
  }

  lemma RegistryLess(c: map<string, WatchList>, items: map<WatchList, seq<Watch>>, p: string)
    requires Tidy(c, items)
    ensures Tidy(c - {p}, items) && Registry(c - {p}, items) == Registry(c, items) - {p}
    ensures if p in c then c[p] in items && Of(Registry(c, items), p) == items[c[p]] else Of(Registry(c, items), p) == []
  {
  }

  lemma RegistryMore(c: map<string, WatchList>, items: map<WatchList, seq<Watch>>, p: string, l: WatchList, s: seq<Watch>)
    requires Tidy(c, items) && p !in c && l !in items && NoDup(s)
    ensures Tidy(c[p := l], items[l := s]) && Registry(c[p := l], items[l := s]) == Registry(c, items)[p := s]
  {
  }

  lemma RegistryAt(c: map<string, WatchList>, items: map<WatchList, seq<Watch>>, p: string, s: seq<Watch>)
    requires Tidy(c, items) && p in c && NoDup(s)
    ensures Tidy(c, items[c[p] := s]) && Registry(c, items[c[p] := s]) == Registry(c, items)[p := s]
  {
  }

  lemma TidyAt(c: map<string, WatchList>, items: map<WatchList, seq<Watch>>, p: string)
    requires Tidy(c, items) && p in c
    ensures c[p] in items && NoDup(items[c[p]])
  {
  }

  class WatchTable {
    const ht: Table<string, WatchList>
    ghost var lists: set<WatchList>

    ghost function Items(): map<WatchList, seq<Watch>>
      reads `lists, lists
    {
      map l | l in lists :: l.items
    }

    ghost predicate Valid()
      reads `lists, lists, ht, ht.table, ht.entries
    {
      ht.Valid() && Tidy(ht.Contents(), Items())
    }

    /** The watches of every path. */
    ghost function Reg(): map<string, seq<Watch>>
      requires Unique(ht.entries)
      reads `lists, lists, ht`entries
    {
      Registry(ht.Contents(), Items())
    }

    lemma Unmixed()
      requires Valid()
      ensures Unique(ht.entries) && ht.Valid()
    {
    }

    /** `create_zk_hashtable` */
    constructor (hash: string -> nat, limitOf: nat -> nat)
      ensures Valid() && Reg() == map[] && fresh(ht) && fresh(ht.table) && ht.entries == {} && lists == {}
    {
      ht := new Table(32, hash, limitOf);
      lists := {};
    }

    /** `do_insert_watcher_object` */
    method InsertWatcher(path: string, w: Watch) returns (res: bool)
      requires Valid()
      modifies `lists, ht, ht.table, ht.entries, lists
      ensures Valid() && Reg() == old(Reg())[path := Added(Of(old(Reg()), path), w)]
      ensures fresh(ht.entries - old(ht.entries)) && fresh(lists - old(lists))
      ensures ht.table == old(ht.table) || fresh(ht.table)
      ensures res <==> w !in Of(old(Reg()), path)
    {
      hide Table.Valid, Table.Contents, Unique, Registry, Tidy;
      Unmixed();
      RegistryLess(ht.Contents(), Items(), path);
      var wl := ht.Search(path);
      if wl == None {
        InsertPath(path, w);
        assert Added([], w) == [w];
        res := true;
      } else {
        res := AddTo(path, wl.value, w);
      }
    }

    method InsertPath(path: string, w: Watch)
      requires Valid() && path !in ht.Contents()
      modifies `lists, ht, ht.table, ht.entries
      ensures Valid() && Reg() == old(Reg())[path := [w]]
      ensures fresh(ht.entries - old(ht.entries)) && fresh(lists - old(lists))
      ensures ht.table == old(ht.table) || fresh(ht.table)
    {
      hide Table.Valid, Table.Contents, Unique, Registry, Tidy;
      Unmixed();
      ghost var c, it := ht.Contents(), Items();
      var l := new WatchList([w]);
      var _ := ht.Insert(path, l, true, true);
      lists := lists + {l};
      assert Items() == it[l := [w]];
      RegistryMore(c, it, path, l, [w]);
    }

    method AddTo(path: string, l: WatchList, w: Watch) returns (res: bool)
      requires Valid() && path in ht.Contents() && l == ht.Contents()[path] && l in lists
      modifies l
      ensures Valid() && Reg() == old(Reg())[path := Added(old(l.items), w)]
      ensures res <==> w !in old(l.items)
    {
      hide Table.Valid, Table.Contents, Unique, Registry, Tidy, Added;
      Unmixed();
      ghost var c, it := ht.Contents(), Items();
      assert it[l] == l.items;
      TidyAt(c, it, path);
      AddedNoDup(l.items, w);
      res := l.Add(w);
      assert Items() == it[l := l.items];
      RegistryAt(c, it, path, l.items);
    }

    /** `add_for_event`: the watches of the path are moved to the delivery list. */
    method MoveTo(path: string, list: WatchList)
      requires Valid() && list !in lists && NoDup(list.items)
      modifies list, ht`chains, ht`entries, ht`entrycount, ht.table, ht.entries
      ensures Valid() && Reg() == old(Reg()) - {path}
      ensures IsUnion(list.items, old(list.items), Of(old(Reg()), path))
      ensures ht.entries <= old(ht.entries)
    {
      hide Table.Valid, Table.Contents, Unique, Registry, Tidy, Merged, IsUnion, NoDup;
      Unmixed();
      MergedUnion(list.items, Of(Reg(), path));
      var wl := RemovePath(path);
      if wl.Some? {
        list.CopyFrom(wl.value);
      } else {
        NothingMerged(list.items);
      }
    }

    method RemovePath(path: string) returns (wl: Option<WatchList>)
      requires Valid()
      modifies ht`chains, ht`entries, ht`entrycount, ht.table, ht.entries
      ensures Valid() && Reg() == old(Reg()) - {path} && ht.entries <= old(ht.entries)
      ensures if wl.Some? then wl.value in lists && wl.value.items == Of(old(Reg()), path)
              else Of(old(Reg()), path) == []
    {
      hide Table.Valid, Table.Contents, Unique, Registry, Tidy;
      Unmixed();
      RegistryLess(ht.Contents(), Items(), path);
      wl := ht.Remove(path);
    }

    /** `copy_table`: every watch of the table is added to the list. */
    method CopyTo(list: WatchList)
      requires Valid() && list !in lists && NoDup(list.items)
      modifies list
      ensures Valid() && Reg() == old(Reg()) && NoDup(list.items)
      ensures forall w :: w in list.items <==> w in old(list.items) || Registered(Reg(), w)
    {
      hide Iterator.Standing, Iterator.Rest, Table.Valid, Unique, NoDup, Registry, Tidy;
      if ht.entrycount == 0 {
        NothingRegistered();
        return;
      }
      CanIterate();
      var it := new Iterator(ht);
      ghost var reg, rest, n := Reg(), it.Rest(), 0;
      ghost var start := list.items;
      var more := true;
      while more
        invariant it.h == ht && it.Valid() && n <= |rest| && it.Rest() == rest[n..] && (more <==> n < |rest|)
        invariant Valid() && Reg() == reg && NoDup(list.items)
        invariant forall w :: w in list.items <==> w in start || AmongFirst(reg, rest, n, w)
        decreases |rest| - n
      {
        more := CopyCurrent(it, list);
        OneMore(reg, rest, n);
        n := n + 1;
      }
      AllEntries(rest);
    }

    /** One round of the loop of `copy_table`. */
    method CopyCurrent(it: Iterator<string, WatchList>, list: WatchList) returns (more: bool)
      requires it.h == ht && it.Valid() && it.Rest() != [] && Valid() && list !in lists && NoDup(list.items)
      modifies it, list
      ensures it.h == old(it.h) && it.Valid() && it.Rest() == old(it.Rest())[1..] && (more <==> it.Rest() != [])
      ensures Valid() && Reg() == old(Reg()) && NoDup(list.items)
      ensures forall w :: w in list.items <==> w in old(list.items) || w in Of(Reg(), old(it.Rest())[0].k)
    {
      hide Table.Shape, Unique, From;
      it.AtEnd();
      it.Current();
      EntryList(it.e);
      MergedUnion(list.items, it.e.v.items);
      list.CopyFrom(it.e.v);
      more := it.Advance();
    }

    lemma CanIterate()
      requires Valid()
      ensures ht.Valid() && Unique(ht.entries)
    {
    }

    lemma EntryList(e: Entry<string, WatchList>)
      requires Valid() && e in ht.entries
      ensures e.k in ht.Contents() && ht.Contents()[e.k] == e.v && e.v in lists && NoDup(e.v.items)
      ensures Of(Reg(), e.k) == e.v.items
    {
    }

    lemma NothingRegistered()
      requires Valid() && ht.entrycount == 0
      ensures Unique(ht.entries) && Reg() == map[] && ht.entries == {}
    {
    }

    lemma AllEntries(es: seq<Entry<string, WatchList>>)
      requires Valid() && (set e | e in es) == ht.entries
      ensures Unique(ht.entries) && forall w :: AmongFirst(Reg(), es, |es|, w) <==> Registered(Reg(), w)
    {
      var reg := Reg();
      forall w ensures AmongFirst(reg, es, |es|, w) <==> Registered(reg, w) {
        if p :| p in reg && w in reg[p] {
          var e :| e in ht.entries && e.k == p;
          assert e in es;
        }
      }
    }

    /** `collect_keys` */
    method CollectKeys() returns (keys: seq<string>)
      requires Valid()
      ensures NoDup(keys) && (forall p :: p in keys <==> p in Reg())
    {
      hide Iterator.Standing, Iterator.Rest, Table.Valid, Unique, NoDup, Registry, Tidy;
      CanIterate();
      var it := new Iterator(ht);
      ghost var rest := it.Rest();
      keys := [];
      for i := 0 to ht.entrycount
        invariant it.h == ht && it.Valid() && it.Rest() == rest[i..] && |keys| == i
        invariant Valid() && forall j | 0 <= j < i :: keys[j] == rest[j].k
      {
        var key := TakeKey(it);
        keys := keys + [key];
      }
      AllKeys(rest, keys);
    }

    /** The key of the current entry; the walk goes on. */
    static method TakeKey(it: Iterator<string, WatchList>) returns (key: string)
      requires it.Valid() && it.Rest() != []
      modifies it
      ensures it.h == old(it.h) && it.Valid() && it.Rest() == old(it.Rest())[1..] && key == old(it.Rest())[0].k
    {
      hide Iterator.Standing, Iterator.Rest, Table.Shape;
      it.AtEnd();
      it.Current();
      key := it.e.k;
      var _ := it.Advance();
    }

    lemma AllKeys(es: seq<Entry<string, WatchList>>, keys: seq<string>)
      requires Valid() && NoDup(es) && (set e | e in es) == ht.entries
      requires |keys| == |es| && forall j | 0 <= j < |es| :: keys[j] == es[j].k
      ensures Unique(ht.entries) && NoDup(keys) && forall p :: p in keys <==> p in Reg()
    {
      assert forall j | 0 <= j < |es| :: es[j] in ht.entries;
      forall p ensures p in keys <==> p in Reg() {
        if p in Reg() {
          var e :| e in ht.entries && e.k == p;
          assert e in es;
          var j :| 0 <= j < |es| && es[j] == e;
          assert keys[j] == p;
        }
      }
    }

    /** `do_clean_hashtable` */
    method Clean()
      requires Valid()
      modifies ht`chains, ht`entries, ht`entrycount, ht.table, ht.entries
      ensures Valid() && Reg() == map[] && ht.entries == {}
    {
      hide Iterator.Standing, Iterator.Rest, Unique, Table.Valid, Registry, Tidy, NoDup;
      if ht.entrycount == 0 {
        NothingRegistered();
        return;
      }
      CanIterate();
      var it := new Iterator(ht);
      ghost var rest, n := it.Rest(), 0;
      assert rest[0..] == rest;
      var more := true;
      while more
        invariant it.h == ht && it.Valid() && n <= |rest| && it.Rest() == rest[n..] && (more <==> n < |rest|)
        invariant ht.entries == Members(rest[n..])
        modifies it, ht`chains, ht`entries, ht`entrycount, ht.table, ht.entries
        decreases |rest| - n
      {
        MembersTail(rest, n);
        more := RemoveHead(it);
        n := n + 1;
      }
      it.InTable();
      CleanIsEmpty();
    }

    /** The current entry goes. */
    static method RemoveHead(it: Iterator<string, WatchList>) returns (more: bool)
      requires it.Valid() && it.Rest() != []
      modifies it, it.h`chains, it.h`entries, it.h`entrycount, it.h.table, it.h.entries
      ensures it.h == old(it.h) && it.Valid() && it.Rest() == old(it.Rest())[1..] && (more <==> it.Rest() != [])
      ensures it.h.entries == old(it.h.entries) - {old(it.Rest())[0]}
    {
      hide Iterator.Rest, Table.Shape;
      it.AtEnd();
      it.Current();
      more := it.Remove();
    }

    lemma CleanIsEmpty()
      requires ht.Valid() && ht.entries == {}
      ensures Unique(ht.entries) && Valid() && Reg() == map[]
    {
    }
  }

  ghost function Members<T>(s: seq<T>): set<T> {
    set x | x in s
  }

  lemma MembersTail<T>(s: seq<T>, n: nat)
    requires NoDup(s) && n < |s|
    ensures Members(s[n + 1..]) == Members(s[n..]) - {s[n]}
  {
    var a, b := s[n + 1..], s[n..];
    forall x | x in b && x != s[n] ensures x in a {
      var i :| 0 <= i < |b| && b[i] == x;
      assert a[i - 1] == x;
    }
    forall x | x in a ensures x in b && x != s[n] {
      var i :| 0 <= i < |a| && a[i] == x;
      assert b[i + 1] == x && s[n + 1 + i] == x;
    }
  }

  lemma NothingMerged(s: seq<Watch>)
    ensures Merged(s, []) == s
  {
  }

  const CREATED_EVENT: int := 1
  const DELETED_EVENT: int := 2
  const CHANGED_EVENT: int := 3
  const CHILD_EVENT: int := 4
  const SESSION_EVENT: int := -1

  const ZOK: int := 0
  const ZNONODE: int := -101

  /** The events that select the node and the exist watchers. */
  predicate SelectsNode(kind: int) { kind == CREATED_EVENT || kind == CHANGED_EVENT || kind == DELETED_EVENT }

  predicate SelectsChild(kind: int) { kind == CHILD_EVENT || kind == DELETED_EVENT }

  datatype Checker = ExistsChecker | DataChecker | ChildChecker

  ghost predicate Separate(a: WatchTable, b: WatchTable)
    reads a, b, a.ht, b.ht
  {
    a != b && a.ht != b.ht && a.ht.table != b.ht.table && a.ht.entries !! b.ht.entries && a.lists !! b.lists
  }

  /** A path is dropped from the table of an event. */
  ghost function After(reg: map<string, seq<Watch>>, selected: bool, path: string): map<string, seq<Watch>> {
    if selected then reg - {path} else reg
  }

  /** The watch tables of a handle and its default watcher. */
  class Watches {
    const node: WatchTable
    const exist: WatchTable
    const child: WatchTable
    const fallback: Watch

    constructor (fallback: Watch, hash: string -> nat, limitOf: nat -> nat)
      ensures Valid() && this.fallback == fallback
      ensures node.Reg() == map[] && exist.Reg() == map[] && child.Reg() == map[]
    {
      node := new WatchTable(hash, limitOf);
      exist := new WatchTable(hash, limitOf);
      child := new WatchTable(hash, limitOf);
      this.fallback := fallback;
    }

    ghost predicate Valid()
      reads node, node.ht, node.ht.table, node.ht.entries, node.lists
      reads exist, exist.ht, exist.ht.table, exist.ht.entries, exist.lists
      reads child, child.ht, child.ht.table, child.ht.entries, child.lists
    {
      && node.Valid() && exist.Valid() && child.Valid()
      && Separate(node, exist) && Separate(node, child) && Separate(exist, child)
    }

    /** `collectWatchers` for a session event: everybody, once, and nothing is removed. */
    method CollectForSession() returns (list: WatchList)
      requires Valid()
      ensures Valid() && fresh(list) && NoDup(list.items)
      ensures forall w :: w in list.items <==>
        (w == fallback || Registered(node.Reg(), w) || Registered(exist.Reg(), w) || Registered(child.Reg(), w))
    {
      hide WatchTable.Valid, WatchTable.Reg, Registered, NoDup;
      list := new WatchList([]);
      AddedNoDup([], fallback);
      var _ := list.Add(fallback);
      node.CopyTo(list);
      exist.CopyTo(list);
      child.CopyTo(list);
    }

    /** `collectWatchers` for an event on a path: the watches of the path in the tables of the
        event, each once; the path leaves exactly those tables. */
    method CollectForPath(kind: int, path: string) returns (list: WatchList)
      requires Valid() && kind != SESSION_EVENT
      modifies node.ht, node.ht.table, node.ht.entries
      modifies exist.ht, exist.ht.table, exist.ht.entries
      modifies child.ht, child.ht.table, child.ht.entries
      ensures Valid() && fresh(list) && NoDup(list.items)
      ensures forall w :: w in list.items <==>
        ((SelectsNode(kind) && (w in Of(old(node.Reg()), path) || w in Of(old(exist.Reg()), path))) ||
         (SelectsChild(kind) && w in Of(old(child.Reg()), path)))
      ensures node.Reg() == After(old(node.Reg()), SelectsNode(kind), path)
      ensures exist.Reg() == After(old(exist.Reg()), SelectsNode(kind), path)
      ensures child.Reg() == After(old(child.Reg()), SelectsChild(kind), path)
    {
      hide Watches.Valid, NoDup, Of, WatchTable.Reg;
      if kind == CREATED_EVENT || kind == CHANGED_EVENT {
        list := CollectChanged(path);
      } else if kind == CHILD_EVENT {
        list := CollectChild(path);
      } else if kind == DELETED_EVENT {
        list := CollectDeleted(path);
      } else {
        list := new WatchList([]);
        NoneTwice();
      }
    }

    /** An event on the node itself. */
    method CollectChanged(path: string) returns (list: WatchList)
      requires Valid()
      modifies node.ht, node.ht.table, node.ht.entries
      modifies exist.ht, exist.ht.table, exist.ht.entries
      ensures Valid() && fresh(list) && NoDup(list.items) && child.Reg() == old(child.Reg())
      ensures forall w :: w in list.items <==> w in Of(old(node.Reg()), path) || w in Of(old(exist.Reg()), path)
      ensures node.Reg() == old(node.Reg()) - {path} && exist.Reg() == old(exist.Reg()) - {path}
    {
      hide WatchTable.Valid, WatchTable.Reg, NoDup, Of;
      list := new WatchList([]);
      MoveNodeAndExist(path, list);
    }

    /** An event on the children of a node. */
    method CollectChild(path: string) returns (list: WatchList)
      requires Valid()
      modifies child.ht, child.ht.table, child.ht.entries
      ensures Valid() && fresh(list) && NoDup(list.items) && node.Reg() == old(node.Reg()) && exist.Reg() == old(exist.Reg())
      ensures forall w :: w in list.items <==> w in Of(old(child.Reg()), path)
      ensures child.Reg() == old(child.Reg()) - {path}
    {
      hide WatchTable.Valid, WatchTable.Reg, NoDup, Of;
      list := new WatchList([]);
      NoneTwice();
      child.MoveTo(path, list);
    }

    /** The end of a node tells everybody who watches it. */
    method CollectDeleted(path: string) returns (list: WatchList)
      requires Valid()
      modifies node.ht, node.ht.table, node.ht.entries
      modifies exist.ht, exist.ht.table, exist.ht.entries
      modifies child.ht, child.ht.table, child.ht.entries
      ensures Valid() && fresh(list) && NoDup(list.items)
      ensures forall w :: w in list.items <==>
        w in Of(old(node.Reg()), path) || w in Of(old(exist.Reg()), path) || w in Of(old(child.Reg()), path)
      ensures node.Reg() == old(node.Reg()) - {path} && exist.Reg() == old(exist.Reg()) - {path}
      ensures child.Reg() == old(child.Reg()) - {path}
    {
      hide WatchTable.Valid, WatchTable.Reg, NoDup, Of;
      list := CollectChanged(path);
      child.MoveTo(path, list);
    }

    method MoveNodeAndExist(path: string, list: WatchList)
      requires Valid() && list.items == [] && list !in node.lists && list !in exist.lists && list !in child.lists
      modifies list, node.ht, node.ht.table, node.ht.entries, exist.ht, exist.ht.table, exist.ht.entries
      ensures Valid() && NoDup(list.items) && child.Reg() == old(child.Reg())
      ensures forall w :: w in list.items <==> w in Of(old(node.Reg()), path) || w in Of(old(exist.Reg()), path)
      ensures node.Reg() == old(node.Reg()) - {path} && exist.Reg() == old(exist.Reg()) - {path}
      ensures unchanged(node`lists, exist`lists, child`lists)
    {
      hide WatchTable.Valid, WatchTable.Reg, NoDup, Of;
      NoneTwice();
      node.MoveTo(path, list);
      exist.MoveTo(path, list);
    }

    /** What is registered in the three tables. */
    ghost function Now(): Regs
      requires Unique(node.ht.entries) && Unique(exist.ht.entries) && Unique(child.ht.entries)
      reads node`lists, node.lists, node.ht`entries
      reads exist`lists, exist.lists, exist.ht`entries
      reads child`lists, child.lists, child.ht`entries
    {
      Regs(node.Reg(), exist.Reg(), child.Reg())
    }

    /** `collectWatchers` */
    method CollectWatchers(kind: int, path: string) returns (list: WatchList)
      requires Valid()
      modifies node.ht, node.ht.table, node.ht.entries
      modifies exist.ht, exist.ht.table, exist.ht.entries
      modifies child.ht, child.ht.table, child.ht.entries
      ensures Valid() && fresh(list) && NoDup(list.items)
      ensures forall w :: w in list.items <==> Owed(kind, path, fallback, old(Now()), w)
      ensures Now() == Next(old(Now()), Collect(kind, path))
    {
      hide Watches.Valid, WatchTable.Valid, WatchTable.Reg, NoDup, Of, Registered;
      if kind == SESSION_EVENT {
        list := CollectForSession();
      } else {
        list := CollectForPath(kind, path);
      }
    }

    /** `activateWatcher`: the table the checker picks for the result code, if any, gets the watch. */
    method ActivateWatcher(checker: Checker, rc: int, path: string, w: Watch)
      requires Valid()
      modifies node`lists, node.ht, node.ht.table, node.ht.entries, node.lists
      modifies exist`lists, exist.ht, exist.ht.table, exist.ht.entries, exist.lists
      modifies child`lists, child.ht, child.ht.table, child.ht.entries, child.lists
      ensures Valid()
      ensures Now() == Next(old(Now()), Activate(checker, rc, path, w))
    {
      hide WatchTable.Valid, WatchTable.Reg, Added, Of;
      var ht: WatchTable? := null;
      match checker {
        case ExistsChecker => if rc == ZOK { ht := node; } else if rc == ZNONODE { ht := exist; }
        case DataChecker => if rc == ZOK { ht := node; }
        case ChildChecker => if rc == ZOK { ht := child; }
      }
      if ht != null { var _ := ht.InsertWatcher(path, w); }
    }
  }

  lemma NoneTwice()
    ensures NoDup<Watch>([])
  {
  }

  datatype Regs = Regs(node: map<string, seq<Watch>>, exist: map<string, seq<Watch>>, child: map<string, seq<Watch>>)

  /** What changes the tables. */
  datatype Op = Activate(checker: Checker, rc: int, path: string, w: Watch) | Collect(kind: int, path: string)

  /** Who is told of an event: for a session event everybody, else those who watch the path
      in a table the event selects. */
  ghost predicate Owed(kind: int, path: string, fallback: Watch, r: Regs, w: Watch) {
    if kind == SESSION_EVENT then
      w == fallback || Registered(r.node, w) || Registered(r.exist, w) || Registered(r.child, w)
    else
      || (SelectsNode(kind) && (w in Of(r.node, path) || w in Of(r.exist, path)))
      || (SelectsChild(kind) && w in Of(r.child, path))
  }

  ghost function Watching(reg: map<string, seq<Watch>>, selected: bool, path: string, w: Watch): map<string, seq<Watch>> {
    if selected then reg[path := Added(Of(reg, path), w)] else reg
  }

  predicate PicksNode(checker: Checker, rc: int) { rc == ZOK && !checker.ChildChecker? }

  predicate PicksExist(checker: Checker, rc: int) { rc == ZNONODE && checker.ExistsChecker? }

  predicate PicksChild(checker: Checker, rc: int) { rc == ZOK && checker.ChildChecker? }

  /** The tables after an operation. */
  ghost function Next(r: Regs, op: Op): Regs {
    match op
    case Activate(checker, rc, path, w) =>
      Regs(Watching(r.node, PicksNode(checker, rc), path, w), Watching(r.exist, PicksExist(checker, rc), path, w),
           Watching(r.child, PicksChild(checker, rc), path, w))
    case Collect(kind, path) =>
      Regs(After(r.node, SelectsNode(kind), path), After(r.exist, SelectsNode(kind), path),
           After(r.child, SelectsChild(kind), path))
  }

  /** The tables after a sequence of operations. */
  ghost function Played(r: Regs, ops: seq<Op>): Regs
    decreases |ops|
  {
    if ops == [] then r else Played(Next(r, ops[0]), ops[1..])
  }

  /** Whether the operation tells w of an event on the path. */
  ghost function Tells(r: Regs, op: Op, fallback: Watch, path: string, w: Watch): nat {
    if op.Collect? && op.kind != SESSION_EVENT && op.path == path && Owed(op.kind, path, fallback, r, w) then 1 else 0
  }

  /** How often w is told of an event on the path. */
  ghost function Told(r: Regs, ops: seq<Op>, fallback: Watch, path: string, w: Watch): nat
    decreases |ops|
  {
    if ops == [] then 0
    else Tells(r, ops[0], fallback, path, w) + Told(Next(r, ops[0]), ops[1..], fallback, path, w)
  }

  /** How often w is activated on the path. */
  function Activated(ops: seq<Op>, path: string, w: Watch): nat {
    if ops == [] then 0
    else (if ops[0].Activate? && ops[0].path == path && ops[0].w == w then 1 else 0) + Activated(ops[1..], path, w)
  }

  /** In how many tables w watches the path. */
  ghost function Standing(r: Regs, path: string, w: Watch): nat {
    (if w in Of(r.node, path) then 1 else 0) + (if w in Of(r.exist, path) then 1 else 0)
    + (if w in Of(r.child, path) then 1 else 0)
  }

  /** An operation adds a watch only by activating it, and tells it only by removing it. */
  lemma OneOp(r: Regs, op: Op, fallback: Watch, path: string, w: Watch)
    ensures Standing(Next(r, op), path, w) + Tells(r, op, fallback, path, w)
      <= Standing(r, path, w) + (if op.Activate? && op.path == path && op.w == w then 1 else 0)
  {
    if op.Activate? {
      AddedIs(r.node, op.path, op.w, path, w);
      AddedIs(r.exist, op.path, op.w, path, w);
      AddedIs(r.child, op.path, op.w, path, w);
    }
  }

  lemma AddedIs(reg: map<string, seq<Watch>>, p: string, v: Watch, path: string, w: Watch)
    ensures w in Of(Watching(reg, true, p, v), path) <==> w in Of(reg, path) || (p == path && w == v)
  {
  }

  /** Watches are one-shot: over any operations, the events on a path tell a watch at most as often
      as it stood there at first and was activated since. */
  lemma {:induction false} OneShot(r: Regs, ops: seq<Op>, fallback: Watch, path: string, w: Watch)
    ensures Told(r, ops, fallback, path, w) + Standing(Played(r, ops), path, w) <= Standing(r, path, w) + Activated(ops, path, w)
    decreases |ops|
  {
    hide Standing, Tells, Next;
    if ops != [] {
      OneOp(r, ops[0], fallback, path, w);
      OneShot(Next(r, ops[0]), ops[1..], fallback, path, w);
    }
  }

  /** A watch waits until an event takes the path out of its table. */
  lemma {:induction false} StillWatching(r: Regs, ops: seq<Op>, path: string, w: Watch)
    ensures w in Of(r.node, path) && (forall op | op in ops && op.Collect? && op.path == path :: !SelectsNode(op.kind)) ==>
      w in Of(Played(r, ops).node, path)
    ensures w in Of(r.exist, path) && (forall op | op in ops && op.Collect? && op.path == path :: !SelectsNode(op.kind)) ==>
      w in Of(Played(r, ops).exist, path)
    ensures w in Of(r.child, path) && (forall op | op in ops && op.Collect? && op.path == path :: !SelectsChild(op.kind)) ==>
      w in Of(Played(r, ops).child, path)
    decreases |ops|
  {
    hide Of, Watching;
    if ops != [] {
      var op := ops[0];
      var r' := Next(r, op);
      assert op in ops && forall o | o in ops[1..] :: o in ops;
      if op.Activate? {
        AddedIs(r.node, op.path, op.w, path, w);
        AddedIs(r.exist, op.path, op.w, path, w);
        AddedIs(r.child, op.path, op.w, path, w);
        NotPicked(r, op);
      } else {
        Dropped(r.node, op.path, path);
        Dropped(r.exist, op.path, path);
        Dropped(r.child, op.path, path);
      }
      StillWatching(r', ops[1..], path, w);
    }
  }

  lemma NotPicked(r: Regs, op: Op)
    requires op.Activate?
    ensures forall reg :: Watching(reg, false, op.path, op.w) == reg
  {
  }

  lemma Dropped(reg: map<string, seq<Watch>>, p: string, path: string)
    ensures p != path ==> Of(reg - {p}, path) == Of(reg, path)
  {
  }

  /** Nobody is told of what he did not ask for, nor twice for one activation: starting from empty
      tables. */
  lemma ToldAtMostAsActivated(ops: seq<Op>, fallback: Watch, path: string, w: Watch)
    ensures Told(Regs(map[], map[], map[]), ops, fallback, path, w) <= Activated(ops, path, w)
  {
    OneShot(Regs(map[], map[], map[]), ops, fallback, path, w);
  }

  /** The result codes on which a registration takes hold: the node is there, or was looked for only. */
  predicate Accepts(checker: Checker, rc: int) {
    rc == 0 || (rc == -101 && checker.ExistsChecker?)
  }

  /** The events a watch is for: 1 created, 2 deleted, 3 changed, 4 a child. */
  predicate Concerns(checker: Checker, kind: int) {
    if checker.ChildChecker? then kind in {2, 4} else kind in {1, 2, 3}
  }

  /** Which events a registration that came back with rc makes its watch owed: of the path, after an
      `exists` that found the node or not, and after a `get`, those of the node itself; after a
      `get_children`, a change of the children and the end of the node.  The session tells everybody. */
  lemma WhatFires(r: Regs, checker: Checker, rc: int, path: string, w: Watch, kind: int, p: string, fallback: Watch)
    ensures Owed(kind, p, fallback, Next(r, Activate(checker, rc, path, w)), w) <==>
      (Owed(kind, p, fallback, r, w) || (Accepts(checker, rc) && (kind == SESSION_EVENT || (p == path && Concerns(checker, kind)))))
  {
    hide Of;
    AddedIs(r.node, path, w, p, w);
    AddedIs(r.exist, path, w, p, w);
    AddedIs(r.child, path, w, p, w);
    RegisteredNow(r.node, path, w);
    RegisteredNow(r.exist, path, w);
    RegisteredNow(r.child, path, w);
  }

  lemma RegisteredNow(reg: map<string, seq<Watch>>, path: string, w: Watch)
    ensures Registered(Watching(reg, true, path, w), w)
  {
    assert w in Watching(reg, true, path, w)[path];
  }

  /** An activated watch is told by the next event that selects its table, whatever comes between. */
  lemma ToldByTheNextEvent(r: Regs, checker: Checker, rc: int, path: string, w: Watch, ops: seq<Op>, kind: int, fallback: Watch)
    requires PicksNode(checker, rc) || PicksExist(checker, rc) || PicksChild(checker, rc)
    requires forall op | op in ops && op.Collect? && op.path == path ::
      if PicksChild(checker, rc) then !SelectsChild(op.kind) else !SelectsNode(op.kind)
    requires if PicksChild(checker, rc) then SelectsChild(kind) else SelectsNode(kind)
    ensures Owed(kind, path, fallback, Played(Next(r, Activate(checker, rc, path, w)), ops), w)
  {
    var r' := Next(r, Activate(checker, rc, path, w));
    AddedIs(r.node, path, w, path, w);
    AddedIs(r.exist, path, w, path, w);
    AddedIs(r.child, path, w, path, w);
    StillWatching(r', ops, path, w);
  }

  /** Activating a watch twice before the event is the same as once. */
  lemma OnceIsEnough(r: Regs, checker: Checker, rc: int, path: string, w: Watch)
    ensures var op := Activate(checker, rc, path, w); Next(Next(r, op), op) == Next(r, op)
  {
  }
}
