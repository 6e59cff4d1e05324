/** IntervalTree.h: an index of intervals split at medians, whose queries agree with a linear
    filter. */
module IntervalTree {
  import opened Common

  datatype Interval = Interval(start: int, stop: int, value: int) {
    predicate WellFormed() {
      start <= stop
    }
  }

  predicate Overlaps(x: Interval, start: int, stop: int) {
    x.stop >= start && x.start <= stop
  }

  predicate Contained(x: Interval, start: int, stop: int) {
    x.start >= start && x.stop <= stop
  }

  ghost predicate Sorted(s: seq<Interval>) {
    forall i, j | 0 <= i < j < |s| :: s[i].start <= s[j].start
  }

  ghost predicate AllWellFormed(s: seq<Interval>) {
    forall i | 0 <= i < |s| :: s[i].WellFormed()
  }

  const UINT: nat := 0x1_0000_0000

  /** `--depth` on an unsigned int */
  function Decremented(depth: nat): (d: nat)
    requires depth < UINT
    ensures d < UINT
  {
    if depth == 0 then UINT - 1 else depth - 1
  }

  /** How many levels a depth allows; 0 wraps around. */
  ghost function Levels(depth: nat): nat {
    if depth == 0 then UINT else depth
  }

  function Inserted(x: Interval, t: seq<Interval>): (r: seq<Interval>) {
    if t == [] || x.start < t[0].start then [x] + t else [t[0]] + Inserted(x, t[1..])
  }

  lemma {:induction false} InsertedSorted(x: Interval, t: seq<Interval>)
    requires Sorted(t)
    ensures Sorted(Inserted(x, t)) && multiset(Inserted(x, t)) == multiset(t) + multiset{x}
  {
    if t == [] || x.start < t[0].start {
      FrontSorted(x, t);
    } else {
      InsertedSorted(x, t[1..]);
      InsertedFrom(x, t[1..], t[0].start);
      FrontSorted(t[0], Inserted(x, t[1..]));
      assert t == [t[0]] + t[1..];
    }
  }

  lemma {:induction false} InsertedFrom(x: Interval, t: seq<Interval>, a: int)
    requires a <= x.start && forall j | 0 <= j < |t| :: a <= t[j].start
    ensures forall j | 0 <= j < |Inserted(x, t)| :: a <= Inserted(x, t)[j].start
  {
    if !(t == [] || x.start < t[0].start) { InsertedFrom(x, t[1..], a); }
  }

  lemma FrontSorted(x: Interval, r: seq<Interval>)
    requires Sorted(r) && forall j | 0 <= j < |r| :: x.start <= r[j].start
    ensures Sorted([x] + r)
  {
  }

  /** `std::sort` by start: some sorted permutation. */
  method SortByStart(s: seq<Interval>) returns (t: seq<Interval>)
    ensures Sorted(t) && multiset(t) == multiset(s)
  {
    t := [];
    for i := 0 to |s|
      invariant Sorted(t) && multiset(t) == multiset(s[..i])
    {
      assert s[..i + 1] == s[..i] + [s[i]];
      InsertedSorted(s[i], t);
      t := Inserted(s[i], t);
    }
    assert s[..|s|] == s;
  }

  lemma SortedPermuted(s: seq<Interval>, t: seq<Interval>)
    requires multiset(s) == multiset(t)
    ensures |s| == |t| && (AllWellFormed(s) ==> AllWellFormed(t))
  {
    assert |multiset(s)| == |multiset(t)|;
    forall i | 0 <= i < |t| ensures t[i] in s {
      assert t[i] in multiset(t);
    }
  }

  // ---------------------------------------------------------------- the linear filter

  function Filter<T>(s: seq<T>, p: T -> bool): seq<T> {
    if s == [] then []
    else Filter(s[..|s| - 1], p) + if p(s[|s| - 1]) then [s[|s| - 1]] else []
  }

  /** A filter keeps every copy of what passes, in order, and nothing else. */
  lemma {:induction false} FilterCounts<T>(s: seq<T>, p: T -> bool)
    ensures forall x :: multiset(Filter(s, p))[x] == if p(x) then multiset(s)[x] else 0
    ensures forall x | x in Filter(s, p) :: p(x) && x in s
  {
    if s != [] {
      FilterCounts(s[..|s| - 1], p);
      assert s == s[..|s| - 1] + [s[|s| - 1]];
      forall x | x in Filter(s, p) ensures p(x) && x in s {
        assert x in multiset(Filter(s, p));
      }
    }
  }

  lemma {:induction false} FilterSorted(s: seq<Interval>, p: Interval -> bool)
    requires Sorted(s)
    ensures Sorted(Filter(s, p))
  {
    if s != [] {
      var r, f := s[..|s| - 1], Filter(s[..|s| - 1], p);
      FilterSorted(r, p);
      FilterCounts(r, p);
      forall j | 0 <= j < |f| ensures f[j].start <= s[|s| - 1].start {
        var y := f[j];
        assert y in r;
      }
    }
  }

  lemma {:induction false} FilterSize<T>(s: seq<T>, p: T -> bool, lo: nat, hi: nat)
    requires lo <= hi <= |s| && forall i | 0 <= i < |s| && p(s[i]) :: lo <= i < hi
    ensures |Filter(s, p)| <= hi - lo
    decreases |s|
  {
    if s != [] {
      var n := |s| - 1;
      if p(s[n]) {
        FilterSize(s[..n], p, lo, n);
      } else {
        FilterSize(s[..n], p, if lo < n then lo else n, if hi < n then hi else n);
      }
    }
  }

  // ------------------------------------------------------------------------ the split

  datatype Side = Left | Here | Right

  function SideOf(x: Interval, center: int): Side {
    if x.stop < center then Left else if x.start > center then Right else Here
  }

  function Part(s: seq<Interval>, side: Side, center: int): seq<Interval> {
    Filter(s, x => SideOf(x, center) == side)
  }

  lemma PartFacts(s: seq<Interval>, side: Side, center: int)
    ensures Sorted(s) ==> Sorted(Part(s, side, center))
    ensures AllWellFormed(s) ==> AllWellFormed(Part(s, side, center))
    ensures side == Left ==> EndBefore(multiset(Part(s, side, center)), center)
    ensures side == Right ==> BeginAfter(multiset(Part(s, side, center)), center)
  {
    if Sorted(s) { FilterSorted(s, x => SideOf(x, center) == side); }
    FilterCounts(s, x => SideOf(x, center) == side);
    var t := Part(s, side, center);
    forall i | 0 <= i < |t| ensures t[i] in s && SideOf(t[i], center) == side {
      assert t[i] in t;
    }
  }

  /** Every interval goes to exactly one part. */
  lemma PartsTogether(s: seq<Interval>, center: int)
    ensures multiset(Part(s, Left, center)) + multiset(Part(s, Here, center)) + multiset(Part(s, Right, center)) == multiset(s)
  {
    FilterCounts(s, x => SideOf(x, center) == Left);
    FilterCounts(s, x => SideOf(x, center) == Here);
    FilterCounts(s, x => SideOf(x, center) == Right);
  }

  /** At the start of the median, at most half go to each side, and some stay. */
  lemma MedianSplit(s: seq<Interval>, center: int)
    requires Sorted(s) && AllWellFormed(s) && s != [] && center == s[|s| / 2].start
    ensures |Part(s, Left, center)| <= |s| / 2
    ensures |Part(s, Right, center)| <= (|s| - 1) / 2
    ensures Part(s, Here, center) != []
  {
    var m := |s| / 2;
    assert forall i | 0 <= i < |s| && SideOf(s[i], center) == Left :: i < m;
    assert forall i | 0 <= i < |s| && SideOf(s[i], center) == Right :: m < i;
    FilterSize(s, x => SideOf(x, center) == Left, 0, m);
    FilterSize(s, x => SideOf(x, center) == Right, m + 1, |s|);
    FilterCounts(s, x => SideOf(x, center) == Here);
    assert SideOf(s[m], center) == Here && s[m] in multiset(s);
  }

  /** The loop that deals the intervals out. */
  method Split(s: seq<Interval>, center: int) returns (lefts: seq<Interval>, here: seq<Interval>, rights: seq<Interval>)
    ensures lefts == Part(s, Left, center) && here == Part(s, Here, center) && rights == Part(s, Right, center)
  {
    lefts, here, rights := [], [], [];
    for i := 0 to |s|
      invariant lefts == Part(s[..i], Left, center) && here == Part(s[..i], Here, center) && rights == Part(s[..i], Right, center)
    {
      assert s[..i + 1][..i] == s[..i];
      if s[i].stop < center {
        lefts := lefts + [s[i]];
      } else if s[i].start > center {
        rights := rights + [s[i]];
      } else {
        here := here + [s[i]];
      }
    }
    assert s[..|s|] == s;
  }

  ghost predicate EndBefore(m: multiset<Interval>, center: int) {
    forall x | x in m :: x.stop < center
  }

  ghost predicate BeginAfter(m: multiset<Interval>, center: int) {
    forall x | x in m :: x.start > center && x.stop >= center
  }

  /** The split at the start of the median. */
  method SplitAtMedian(s: seq<Interval>)
    returns (center: int, lefts: seq<Interval>, here: seq<Interval>, rights: seq<Interval>)
    requires s != []
    ensures center == s[|s| / 2].start
    ensures lefts == Part(s, Left, center) && here == Part(s, Here, center) && rights == Part(s, Right, center)
    ensures Sorted(s) ==> Sorted(lefts) && Sorted(here) && Sorted(rights)
    ensures multiset(lefts) + multiset(here) + multiset(rights) == multiset(s)
    ensures EndBefore(multiset(lefts), center) && BeginAfter(multiset(rights), center)
    ensures AllWellFormed(s) ==> AllWellFormed(lefts) && AllWellFormed(rights)
    ensures Sorted(s) && AllWellFormed(s) ==> |lefts| <= |s| / 2 && |rights| <= (|s| - 1) / 2 && here != []
  {
    hide Sorted, Filter, Part;
    center := s[|s| / 2].start;
    lefts, here, rights := Split(s, center);
    PartFacts(s, Left, center);
    PartFacts(s, Here, center);
    PartFacts(s, Right, center);
    PartsTogether(s, center);
    if Sorted(s) && AllWellFormed(s) { MedianSplit(s, center); }
  }

  /** A tree over a node with at most half of n intervals on either side. */
  lemma HeightBound(n: nat, a: nat, ha: nat, b: nat, hb: nat)
    requires n > 0 && a <= n / 2 && b <= n / 2
    requires ha > 0 ==> Pow2(ha - 1) <= a
    requires hb > 0 ==> Pow2(hb - 1) <= b
    ensures Pow2(Max(ha, hb)) <= n
  {
  }

  /** The largest stop, as `max_element` finds it. */
  method MaxStop(s: seq<Interval>) returns (m: int)
    requires s != []
    ensures (exists i :: 0 <= i < |s| && s[i].stop == m) && forall i | 0 <= i < |s| :: s[i].stop <= m
  {
    m := s[0].stop;
    for i := 1 to |s|
      invariant (exists j :: 0 <= j < i && s[j].stop == m) && forall j | 0 <= j < i :: s[j].stop <= m
    {
      if m < s[i].stop { m := s[i].stop; }
    }
  }

  /** The first half of the building constructor: the list is sorted unless bounds are given. */
  method SortUnlessBounded(ivals: seq<Interval>, leftextent: int, rightextent: int)
    returns (s: seq<Interval>, leftp: int, rightp: int)
    requires ivals != []
    ensures (leftextent == 0 && rightextent == 0) || Sorted(ivals) ==> Sorted(s)
    ensures multiset(s) == multiset(ivals) && |s| == |ivals| && (AllWellFormed(ivals) ==> AllWellFormed(s))
    ensures leftextent != 0 || rightextent != 0 ==> s == ivals
  {
    s, leftp, rightp := ivals, leftextent, rightextent;
    if leftextent == 0 && rightextent == 0 {
      s := SortByStart(ivals);
      SortedPermuted(ivals, s);
      leftp := s[0].start;
      rightp := MaxStop(s);
    }
  }

  class Node {
    const intervals: seq<Interval>
    const left: Node?
    const right: Node?
    const center: int
    ghost const height: nat
    ghost const order: seq<Interval>       // the list the node was built from, as it was when it was dealt out

    /** Everything to the left ends before the centre, everything to the right begins after it
        and does not end before it. */
    ghost predicate Valid()
      decreases height
    {
      && height == 1 + Max(HeightOf(left), HeightOf(right))
      && (left != null ==> left.height < height && left.Valid() && EndBefore(left.All(), center))
      && (right != null ==> right.height < height && right.Valid() && BeginAfter(right.All(), center))
    }

    /** Every node's own list is sorted. */
    ghost predicate Ordered()
      decreases height
    {
      && Sorted(intervals)
      && (left != null && left.height < height ==> left.Ordered())
      && (right != null && right.height < height ==> right.Ordered())
    }

    /** How the tree was built: at the last level, or from a short list, a node keeps the whole list; else
        it keeps what lies around the start of the middle interval, and the two other parts, where they
        are not empty, are trees of the next depth. */
    ghost predicate Built(depth: nat, minbucket: nat, maxbucket: nat)
      requires depth < UINT
      decreases height
    {
      var d := Decremented(depth);
      if d == 0 || (|order| < minbucket && |order| < maxbucket) then
        left == null && right == null && multiset(intervals) == multiset(order)
      else
        && order != [] && center == order[|order| / 2].start && intervals == Part(order, Here, center)
        && ((left == null) <==> (Part(order, Left, center) == []))
        && ((right == null) <==> (Part(order, Right, center) == []))
        && (left != null ==>
              left.height < height && multiset(left.order) == multiset(Part(order, Left, center)) && left.Built(d, minbucket, 512))
        && (right != null ==>
              right.height < height && multiset(right.order) == multiset(Part(order, Right, center)) && right.Built(d, minbucket, 512))
    }

    /** All the intervals of the tree. */
    ghost function All(): multiset<Interval>
      decreases height
    {
      multiset(intervals) +
      (if left != null && left.height < height then left.All() else multiset{}) +
      (if right != null && right.height < height then right.All() else multiset{})
    }

    /** What a node's own list gives: all that passes, unless its first start rules it out. */
    ghost function OwnAnswer(stop: int, p: Interval -> bool): seq<Interval> {
      if intervals != [] && !(stop < intervals[0].start) then Filter(intervals, p) else []
    }

    /** What a query gives, with its three pruning tests. */
    ghost function Answer(start: int, stop: int, p: Interval -> bool): seq<Interval>
      decreases height
    {
      OwnAnswer(stop, p)
      + (if left != null && left.height < height && start <= center then left.Answer(start, stop, p) else [])
      + (if right != null && right.height < height && stop >= center then right.Answer(start, stop, p) else [])
    }

    /** No list that holds x begins with a later start. */
    ghost predicate KeepsOverlapping(x: Interval)
      decreases height
    {
      && (x in intervals ==> intervals[0].start <= x.start)
      && (left != null && left.height < height ==> left.KeepsOverlapping(x))
      && (right != null && right.height < height ==> right.KeepsOverlapping(x))
    }

    /** No list that holds x begins after x ends, and x lies in no left subtree of a node before
        whose centre it does not begin. */
    ghost predicate KeepsContained(x: Interval)
      decreases height
    {
      && (x in intervals ==> intervals[0].start <= x.stop)
      && (left != null && left.height < height ==> left.KeepsContained(x) && (x in left.All() ==> x.start <= center))
      && (right != null && right.height < height ==> right.KeepsContained(x))
    }

    /** The building constructor. */
    constructor (ivals: seq<Interval>, depth: nat, minbucket: nat, leftextent: int, rightextent: int, maxbucket: nat)
      requires depth < UINT
      requires ivals != [] || depth == 1 || (minbucket > 0 && maxbucket > 0)
      ensures Valid() && All() == multiset(ivals)
      ensures (leftextent == 0 && rightextent == 0) || Sorted(ivals) ==> Ordered()
      ensures (leftextent == 0 && rightextent == 0) || Sorted(ivals) ==>
        AllWellFormed(ivals) && ivals != [] ==> Pow2(height - 1) <= |ivals|
      ensures Built(depth, minbucket, maxbucket) && |order| == |ivals| && multiset(order) == multiset(ivals)
      ensures if leftextent == 0 && rightextent == 0 then Sorted(order)
              else order == ivals || Decremented(depth) == 0 || (|ivals| < minbucket && |ivals| < maxbucket)
      decreases Levels(depth), 0
    {
      hide Sorted, AllWellFormed, EndBefore, BeginAfter, Node.Valid, Node.Ordered, Node.All, Pow2, Max, Part;
      var d := Decremented(depth);
      var l: Node?, r: Node?, here, centerp: int := null, null, ivals, *;
      ghost var s := ivals;
      if d == 0 || (|ivals| < minbucket && |ivals| < maxbucket) {
        here := SortByStart(ivals);
        s := here;
        OneLevel();
      } else {
        centerp, here, l, r, s := Halves(ivals, d, minbucket, leftextent, rightextent);
      }
      center, intervals, left, right := centerp, here, l, r;
      height := 1 + Max(HeightOf(l), HeightOf(r));
      order := s;
      new;
      IsNode();
    }

    /** The dealing branch of the constructor, with the two recursive constructions. */
    static method Halves(ivals: seq<Interval>, d: nat, minbucket: nat, leftextent: int, rightextent: int)
      returns (centerp: int, here: seq<Interval>, l: Node?, r: Node?, ghost s: seq<Interval>)
      requires ivals != [] && 0 < d < UINT
      ensures l != null ==> l.Valid() && EndBefore(l.All(), centerp)
      ensures r != null ==> r.Valid() && BeginAfter(r.All(), centerp)
      ensures multiset(here) + AllOf(l) + AllOf(r) == multiset(ivals)
      ensures (leftextent == 0 && rightextent == 0) || Sorted(ivals) ==>
        Sorted(here) && (l != null ==> l.Ordered()) && (r != null ==> r.Ordered())
      ensures (leftextent == 0 && rightextent == 0) || Sorted(ivals) ==>
        AllWellFormed(ivals) ==> Pow2(Max(HeightOf(l), HeightOf(r))) <= |ivals|
      ensures |s| == |ivals| && multiset(s) == multiset(ivals)
      ensures if leftextent == 0 && rightextent == 0 then Sorted(s) else s == ivals
      ensures centerp == s[|s| / 2].start && here == Part(s, Here, centerp)
      ensures IsPart(l, s, Left, centerp, d, minbucket) && IsPart(r, s, Right, centerp, d, minbucket)
      decreases Levels(d), 1
    {
      hide Sorted, AllWellFormed, EndBefore, BeginAfter, Node.Valid, Node.Ordered, Node.All, Pow2, Max, Part;
      l, r := null, null;
      var t, leftp, rightp := SortUnlessBounded(ivals, leftextent, rightextent);
      var lefts, rights;
      s := t;
      centerp, lefts, here, rights := SplitAtMedian(t);
      if lefts != [] { l := new Node(lefts, d, minbucket, leftp, centerp, 512); }
      if rights != [] { r := new Node(rights, d, minbucket, centerp, rightp, 512); }
      if Sorted(s) && AllWellFormed(s) { HeightBound(|s|, |lefts|, HeightOf(l), |rights|, HeightOf(r)); }
    }

    /** One side of a node: the tree over that part of the list, if there is anything there. */
    static ghost predicate IsPart(t: Node?, s: seq<Interval>, side: Side, center: int, d: nat, minbucket: nat)
      requires d < UINT
    {
      ((t == null) <==> (Part(s, side, center) == []))
      && (t != null ==> multiset(t.order) == multiset(Part(s, side, center)) && t.Built(d, minbucket, 512))
    }

    lemma IsNode()
      requires height == 1 + Max(HeightOf(left), HeightOf(right))
      requires left != null ==> left.Valid() && EndBefore(left.All(), center)
      requires right != null ==> right.Valid() && BeginAfter(right.All(), center)
      ensures Valid()
      ensures All() == multiset(intervals) + AllOf(left) + AllOf(right)
      ensures Sorted(intervals) && (left != null ==> left.Ordered()) && (right != null ==> right.Ordered()) ==> Ordered()
    {
    }

    /** The scan of a node's own list, which its first start may rule out as a whole. */
    method ScanOverlapping(start: int, stop: int, overlapping: seq<Interval>) returns (out: seq<Interval>)
      ensures out == overlapping + OwnAnswer(stop, Overlapping(start, stop))
    {
      ghost var p := Overlapping(start, stop);
      out := overlapping;
      if intervals != [] && !(stop < intervals[0].start) {
        for i := 0 to |intervals|
          invariant out == overlapping + Filter(intervals[..i], p)
        {
          assert intervals[..i + 1][..i] == intervals[..i];
          if intervals[i].stop >= start && intervals[i].start <= stop { out := out + [intervals[i]]; }
        }
        assert intervals[..|intervals|] == intervals;
      }
    }

    method ScanContained(start: int, stop: int, contained: seq<Interval>) returns (out: seq<Interval>)
      ensures out == contained + OwnAnswer(stop, Inside(start, stop))
    {
      ghost var p := Inside(start, stop);
      out := contained;
      if intervals != [] && !(stop < intervals[0].start) {
        for i := 0 to |intervals|
          invariant out == contained + Filter(intervals[..i], p)
        {
          assert intervals[..i + 1][..i] == intervals[..i];
          if intervals[i].start >= start && intervals[i].stop <= stop { out := out + [intervals[i]]; }
        }
        assert intervals[..|intervals|] == intervals;
      }
    }

    /** `findOverlapping`: on ordered nodes, appends exactly the intervals of the tree that overlap
        the query. */
    method FindOverlapping(start: int, stop: int, overlapping: seq<Interval>) returns (out: seq<Interval>)
      requires Valid()
      ensures out == overlapping + Answer(start, stop, Overlapping(start, stop))
      ensures Ordered() ==> Appended(out, overlapping, All(), Overlapping(start, stop), Overlapping(start, stop))
      decreases height
    {
      hide Node.Ordered, Node.All, Node.OwnAnswer, Appended, EndBefore, BeginAfter, Overlapping;
      out := ScanOverlapping(start, stop, overlapping);
      if left != null && start <= center { out := left.FindOverlapping(start, stop, out); }
      if right != null && stop >= center { out := right.FindOverlapping(start, stop, out); }
      if Ordered() { OverlappingAppended(this, start, stop, overlapping); }
    }

    /** `findContained`: on ordered nodes, appends only intervals that lie inside the query, and all
        of the well-formed ones. */
    method FindContained(start: int, stop: int, contained: seq<Interval>) returns (out: seq<Interval>)
      requires Valid()
      ensures out == contained + Answer(start, stop, Inside(start, stop))
      ensures Ordered() ==> Appended(out, contained, All(), WellContained(start, stop), Inside(start, stop))
      decreases height
    {
      hide Node.Ordered, Node.All, Node.OwnAnswer, Appended, EndBefore, BeginAfter, Inside, WellContained;
      out := ScanContained(start, stop, contained);
      if left != null && start <= center { out := left.FindContained(start, stop, out); }
      if right != null && stop >= center { out := right.FindContained(start, stop, out); }
      if Ordered() { ContainedAppended(this, start, stop, contained); }
    }
  }

  /** The depth asked for bounds the levels of the tree, over any list; 0 asks for the most there is. */
  lemma {:induction false} DepthBound(t: Node, depth: nat, minbucket: nat, maxbucket: nat)
    requires depth < UINT && t.Valid() && t.Built(depth, minbucket, maxbucket)
    ensures t.height <= Levels(depth)
    decreases t.height
  {
    var d := Decremented(depth);
    if t.left != null { DepthBound(t.left, d, minbucket, 512); }
    if t.right != null { DepthBound(t.right, d, minbucket, 512); }
  }

  ghost function Overlapping(start: int, stop: int): Interval -> bool {
    x => Overlaps(x, start, stop)
  }

  ghost function Inside(start: int, stop: int): Interval -> bool {
    x => Contained(x, start, stop)
  }

  ghost function WellContained(start: int, stop: int): Interval -> bool {
    x => Contained(x, start, stop) && x.WellFormed()
  }

  ghost function AllOf(t: Node?): multiset<Interval> {
    if t == null then multiset{} else t.All()
  }

  ghost function HeightOf(t: Node?): nat {
    if t == null then 0 else t.height
  }

  lemma OneLevel()
    ensures Pow2(Max(0, 0)) == 1
  {
  }

  // ---------------------------------------------------------- what the queries return

  /** How often a node's own list gives x. */
  lemma OwnCount(t: Node, stop: int, p: Interval -> bool, x: Interval)
    ensures multiset(t.OwnAnswer(stop, p))[x] ==
      if p(x) && t.intervals != [] && !(stop < t.intervals[0].start) then multiset(t.intervals)[x] else 0
  {
    FilterCounts(t.intervals, p);
  }

  ghost function TimesIn(t: Node?, x: Interval): nat {
    if t == null then 0 else t.All()[x]
  }

  ghost function TimesGiven(t: Node?, asked: bool, start: int, stop: int, p: Interval -> bool, x: Interval): nat {
    if t != null && asked then multiset(t.Answer(start, stop, p))[x] else 0
  }

  /** How often the tree holds x, and how often a query gives it, part by part. */
  lemma Counts(t: Node, start: int, stop: int, p: Interval -> bool, x: Interval)
    requires t.Valid()
    ensures t.All()[x] == multiset(t.intervals)[x] + TimesIn(t.left, x) + TimesIn(t.right, x)
    ensures multiset(t.Answer(start, stop, p))[x] == multiset(t.OwnAnswer(stop, p))[x]
      + TimesGiven(t.left, start <= t.center, start, stop, p, x) + TimesGiven(t.right, stop >= t.center, start, stop, p, x)
  {
    hide Node.OwnAnswer, EndBefore, BeginAfter;
    var l := if t.left != null && start <= t.center then t.left.Answer(start, stop, p) else [];
    var r := if t.right != null && stop >= t.center then t.right.Answer(start, stop, p) else [];
    assert t.Answer(start, stop, p) == t.OwnAnswer(stop, p) + l + r;
  }

  /** A query invents nothing: no interval comes more often than the tree holds it, and only one
      that passes. */
  lemma {:induction false} AnswerBound(t: Node, start: int, stop: int, p: Interval -> bool, x: Interval)
    requires t.Valid()
    ensures multiset(t.Answer(start, stop, p))[x] <= if p(x) then t.All()[x] else 0
    decreases t.height
  {
    hide EndBefore, BeginAfter, Node.Answer, Node.OwnAnswer, Node.All;
    Counts(t, start, stop, p, x);
    OwnCount(t, stop, p, x);
    if t.left != null { AnswerBound(t.left, start, stop, p, x); }
    if t.right != null { AnswerBound(t.right, start, stop, p, x); }
  }

  /** The pruning tests are sound for every interval that the tree keeps. */
  lemma {:induction false} OverlappingKept(t: Node, start: int, stop: int, x: Interval)
    requires t.Valid() && t.KeepsOverlapping(x) && Overlaps(x, start, stop)
    ensures multiset(t.Answer(start, stop, Overlapping(start, stop)))[x] == t.All()[x]
    decreases t.height
  {
    hide Node.Answer, Node.OwnAnswer, Node.All;
    Counts(t, start, stop, Overlapping(start, stop), x);
    OwnCount(t, stop, Overlapping(start, stop), x);
    if t.left != null { OverlappingKept(t.left, start, stop, x); }
    if t.right != null { OverlappingKept(t.right, start, stop, x); }
  }

  lemma {:induction false} ContainedKept(t: Node, start: int, stop: int, x: Interval)
    requires t.Valid() && t.KeepsContained(x) && Contained(x, start, stop)
    ensures multiset(t.Answer(start, stop, Inside(start, stop)))[x] == t.All()[x]
    decreases t.height
  {
    hide Node.Answer, Node.OwnAnswer, Node.All;
    Counts(t, start, stop, Inside(start, stop), x);
    OwnCount(t, stop, Inside(start, stop), x);
    if t.left != null { ContainedKept(t.left, start, stop, x); }
    if t.right != null { ContainedKept(t.right, start, stop, x); }
  }

  /** An interval that is not kept is lost by a query up to where it begins. */
  lemma {:induction false} OverlappingLost(t: Node, x: Interval, start: int)
    requires t.Valid() && !t.KeepsOverlapping(x) && Overlaps(x, start, x.start)
    ensures multiset(t.Answer(start, x.start, Overlapping(start, x.start)))[x] < t.All()[x]
    decreases t.height
  {
    hide EndBefore, BeginAfter, Node.Answer, Node.OwnAnswer, Node.All;
    var p := Overlapping(start, x.start);
    Counts(t, start, x.start, p, x);
    OwnCount(t, x.start, p, x);
    if t.left != null {
      AnswerBound(t.left, start, x.start, p, x);
      if !t.left.KeepsOverlapping(x) { OverlappingLost(t.left, x, start); }
    }
    if t.right != null {
      AnswerBound(t.right, start, x.start, p, x);
      if !t.right.KeepsOverlapping(x) { OverlappingLost(t.right, x, start); }
    }
  }

  /** An interval that is not kept is lost by the query for its own ends, or, ill-formed, for one of
      them. */
  lemma {:induction false} ContainedLost(t: Node, x: Interval) returns (start: int, stop: int)
    requires t.Valid() && !t.KeepsContained(x)
    ensures start <= stop && Contained(x, start, stop)
    ensures multiset(t.Answer(start, stop, Inside(start, stop)))[x] < t.All()[x]
    decreases t.height
  {
    hide EndBefore, BeginAfter, Node.Answer, Node.OwnAnswer, Node.All;
    if x in t.intervals && x.stop < t.intervals[0].start {
      start, stop := if x.WellFormed() then x.start else x.stop, x.stop;
    } else if t.left != null && !t.left.KeepsContained(x) {
      start, stop := ContainedLost(t.left, x);
    } else if t.right != null && !t.right.KeepsContained(x) {
      start, stop := ContainedLost(t.right, x);
    } else {
      EndsLeft(t, x);
      start, stop := x.start, x.start;
    }
    OneLost(t, start, stop, x);
  }

  lemma EndsLeft(t: Node, x: Interval)
    requires t.Valid() && t.left != null && x in t.left.All()
    ensures x.stop < t.center
  {
  }

  /** What a part of the tree loses, the whole loses. */
  lemma OneLost(t: Node, start: int, stop: int, x: Interval)
    requires t.Valid() && Contained(x, start, stop)
    requires
      || (x in t.intervals && stop < t.intervals[0].start)
      || (t.left != null && x in t.left.All() && start > t.center)
      || (t.left != null && multiset(t.left.Answer(start, stop, Inside(start, stop)))[x] < t.left.All()[x])
      || (t.right != null && multiset(t.right.Answer(start, stop, Inside(start, stop)))[x] < t.right.All()[x])
    ensures multiset(t.Answer(start, stop, Inside(start, stop)))[x] < t.All()[x]
  {
    hide EndBefore, BeginAfter, Node.Answer, Node.OwnAnswer, Node.All;
    var p := Inside(start, stop);
    Counts(t, start, stop, p, x);
    OwnCount(t, stop, p, x);
    assert x in t.intervals ==> multiset(t.intervals)[x] > 0;
    if t.left != null { AnswerBound(t.left, start, stop, p, x); }
    if t.right != null { AnswerBound(t.right, start, stop, p, x); }
  }

  /** `findOverlapping` gives every copy of x to every query that x overlaps, if and only if no
      list that holds x begins with a later start. */
  lemma OverlappingExactIff(t: Node, x: Interval)
    requires t.Valid()
    ensures (forall start, stop | start <= stop && Overlaps(x, start, stop) ::
        multiset(t.Answer(start, stop, Overlapping(start, stop)))[x] == t.All()[x]) <==> t.KeepsOverlapping(x)
  {
    if t.KeepsOverlapping(x) {
      forall start, stop | start <= stop && Overlaps(x, start, stop)
        ensures multiset(t.Answer(start, stop, Overlapping(start, stop)))[x] == t.All()[x]
      {
        OverlappingKept(t, start, stop, x);
      }
    } else {
      var start := if x.WellFormed() then x.start else x.stop;
      OverlappingLost(t, x, start);
      assert Overlaps(x, start, x.start);
    }
  }

  /** `findContained` gives every copy of x to every query that x lies in, if and only if no list
      that holds x begins after x ends, and x is in no left subtree before whose centre it does
      not begin. */
  lemma ContainedExactIff(t: Node, x: Interval)
    requires t.Valid()
    ensures (forall start, stop | start <= stop && Contained(x, start, stop) ::
        multiset(t.Answer(start, stop, Inside(start, stop)))[x] == t.All()[x]) <==> t.KeepsContained(x)
  {
    if t.KeepsContained(x) {
      forall start, stop | start <= stop && Contained(x, start, stop)
        ensures multiset(t.Answer(start, stop, Inside(start, stop)))[x] == t.All()[x]
      {
        ContainedKept(t, start, stop, x);
      }
    } else {
      var start, stop := ContainedLost(t, x);
      assert Contained(x, start, stop);
    }
  }

  /** Ordered nodes keep everything for `findOverlapping`, and every well-formed interval for
      `findContained`. */
  lemma {:induction false} OrderedKeeps(t: Node, x: Interval)
    requires t.Valid() && t.Ordered()
    ensures t.KeepsOverlapping(x) && (x.WellFormed() ==> t.KeepsContained(x))
    decreases t.height
  {
    if t.left != null { OrderedKeeps(t.left, x); }
    if t.right != null { OrderedKeeps(t.right, x); }
  }

  /** Of `all`, everything that satisfies must and nothing that does not satisfy may was
      appended to acc, each with its multiplicity. */
  ghost predicate Appended(out: seq<Interval>, acc: seq<Interval>, all: multiset<Interval>, must: Interval -> bool, may: Interval -> bool) {
    && acc <= out
    && (forall x :: multiset(out)[x] >= multiset(acc)[x] + if must(x) then all[x] else 0)
    && (forall x :: multiset(out)[x] <= multiset(acc)[x] + if may(x) then all[x] else 0)
  }

  lemma OverlappingAppended(t: Node, start: int, stop: int, acc: seq<Interval>)
    requires t.Valid() && t.Ordered()
    ensures Appended(acc + t.Answer(start, stop, Overlapping(start, stop)), acc, t.All(), Overlapping(start, stop), Overlapping(start, stop))
  {
    hide Node.Answer, Node.All, Node.Valid, Node.Ordered, Node.KeepsContained, Node.KeepsOverlapping;
    var p := Overlapping(start, stop);
    forall x ensures multiset(t.Answer(start, stop, p))[x] == if p(x) then t.All()[x] else 0 {
      AnswerBound(t, start, stop, p, x);
      OrderedKeeps(t, x);
      if p(x) { OverlappingKept(t, start, stop, x); }
    }
  }

  lemma ContainedAppended(t: Node, start: int, stop: int, acc: seq<Interval>)
    requires t.Valid() && t.Ordered()
    ensures Appended(acc + t.Answer(start, stop, Inside(start, stop)), acc, t.All(), WellContained(start, stop), Inside(start, stop))
  {
    hide Node.Answer, Node.All, Node.Valid, Node.Ordered, Node.KeepsContained, Node.KeepsOverlapping;
    var p := Inside(start, stop);
    var out := t.Answer(start, stop, p);
    forall x ensures (if WellContained(start, stop)(x) then t.All()[x] else 0) <= multiset(out)[x] <= if p(x) then t.All()[x] else 0 {
      AnswerBound(t, start, stop, p, x);
      OrderedKeeps(t, x);
      if WellContained(start, stop)(x) { ContainedKept(t, start, stop, x); }
    }
  }

  /** Over well-formed intervals both queries give what a linear filter gives. */
  lemma AgreesWithFilter(s: seq<Interval>, start: int, stop: int, out: seq<Interval>)
    ensures Appended(out, [], multiset(s), Overlapping(start, stop), Overlapping(start, stop)) ==>
      multiset(out) == multiset(Filter(s, Overlapping(start, stop)))
    ensures AllWellFormed(s) && Appended(out, [], multiset(s), WellContained(start, stop), Inside(start, stop)) ==>
      multiset(out) == multiset(Filter(s, Inside(start, stop)))
  {
    FilterCounts(s, Overlapping(start, stop));
    FilterCounts(s, Inside(start, stop));
    assert forall x | x in multiset(s) :: x in s;
  }

  /** A tree over one interval, asked with a query that it lies in, gives it if and only if the
      query reaches to its start, as it does when the interval is well-formed. */
  method AskForOne(x: Interval, start: int, stop: int) returns (t: Node, out: seq<Interval>)
    requires start <= stop && Contained(x, start, stop)
    ensures t.Valid() && t.Ordered() && t.All() == multiset{x}
    ensures out == t.Answer(start, stop, Inside(start, stop)) == if x.start <= stop then [x] else []
    ensures x.WellFormed() ==> out == [x]
  {
    hide Node.Valid, Node.Ordered, Node.All, Node.Answer, Inside, WellContained, Appended, Sorted, AllWellFormed, Pow2;
    t := new Node([x], 16, 64, 0, 0, 512);
    out := t.FindContained(start, stop, []);
    OneNode(t, x, start, stop);
  }

  lemma OneNode(t: Node, x: Interval, start: int, stop: int)
    requires t.left == null && t.right == null && multiset(t.intervals) == multiset{x} && Contained(x, start, stop)
    ensures t.Answer(start, stop, Inside(start, stop)) == if x.start <= stop then [x] else []
  {
    var p := Inside(start, stop);
    OnlyOne(t.intervals, x);
    assert Filter([x], p) == [x] by { assert [x][..0] == [] && p(x); }
    assert t.OwnAnswer(stop, p) == if x.start <= stop then [x] else [];
  }

  lemma OnlyOne(s: seq<Interval>, x: Interval)
    requires multiset(s) == multiset{x}
    ensures s == [x]
  {
    assert |s| == |multiset(s)| == 1;
    assert s[0] in multiset(s);
  }

  /** The interval from 5 to 1 lies in the query for 3, which does not find it. */
  method IllFormedIsSkipped() returns (x: Interval, t: Node, out: seq<Interval>)
    ensures Contained(x, 3, 3) && t.Valid() && t.All() == multiset{x} && out == t.Answer(3, 3, Inside(3, 3)) == []
  {
    x := Interval(5, 1, 0);
    t, out := AskForOne(x, 3, 3);
  }

  /** With bounds the list is taken for sorted.  Over the intervals from 4 to 10, 5 to 6 and 1 to 9 in this
      order, the query from 2 to 3 does not find the last one, which overlaps it. */
  method UnsortedIsLost() returns (x: Interval, t: Node, out: seq<Interval>)
    ensures x.WellFormed() && Overlaps(x, 2, 3) && t.Valid() && t.All()[x] == 1
    ensures out == t.Answer(2, 3, Overlapping(2, 3)) && x !in out
  {
    hide Node.Valid, Node.Ordered, Node.All, Node.Answer, Appended, Sorted, AllWellFormed, Pow2, Part, Overlapping;
    x := Interval(1, 9, 0);
    var s := [Interval(4, 10, 0), Interval(5, 6, 0), x];
    t := new Node(s, 16, 1, 1, 100, 512);
    assert t.center == 5;
    assert t.intervals == s by { AllHere(s, 5); }
    assert t.All() == multiset(s);
    out := t.FindOverlapping(2, 3, []);
    AllTaken(t, s, x);
  }

  lemma {:induction false} AllHere(s: seq<Interval>, center: int)
    requires forall i | 0 <= i < |s| :: SideOf(s[i], center) == Here
    ensures Part(s, Here, center) == s
  {
    if s != [] {
      AllHere(s[..|s| - 1], center);
      assert s == s[..|s| - 1] + [s[|s| - 1]];
    }
  }

  /** A list that begins too late hides x, and there is nothing else in the tree. */
  lemma AllTaken(t: Node, s: seq<Interval>, x: Interval)
    requires t.Valid() && t.intervals == s && t.All() == multiset(s) && s != [] && 3 < s[0].start
    ensures x !in t.Answer(2, 3, Overlapping(2, 3))
  {
    hide Node.Answer, Node.OwnAnswer, EndBefore, BeginAfter, Node.Valid;
    var p := Overlapping(2, 3);
    Counts(t, 2, 3, p, x);
    OwnCount(t, 3, p, x);
    if t.left != null { assert t.left.Valid() by { SubtreesValid(t); } AnswerBound(t.left, 2, 3, p, x); }
    if t.right != null { assert t.right.Valid() by { SubtreesValid(t); } AnswerBound(t.right, 2, 3, p, x); }
    assert multiset(t.Answer(2, 3, p))[x] == 0;
  }

  lemma SubtreesValid(t: Node)
    requires t.Valid()
    ensures (t.left != null ==> t.left.Valid()) && (t.right != null ==> t.right.Valid())
  {
  }
}
