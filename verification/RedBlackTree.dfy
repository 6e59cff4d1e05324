/** The values a red-black tree (rbtree.hpp) stands for: trees, the paths down to a place
    in them, and the colour rules. */
module RedBlackTree {
  import opened Common

  datatype Color = Red | Black

  type Pair = (int, int)

  /** What the fields of a node hold. */
  datatype Cell = Cell(color: Color, pair: Pair, left: Node?, right: Node?, parent: Node?)

  class Node {
    var key: int
    var value: int
    var color: Color
    var leftTree: Node?
    var rightTree: Node?
    var parent: Node?

    constructor ()
      ensures color == Red && leftTree == null && rightTree == null && parent == null
    {
      color, leftTree, rightTree, parent := Red, null, null, null;
    }

    function Grandparent(): Node?
      reads this, parent
    {
      if parent == null then null else parent.parent
    }

    function Uncle(): Node?
      reads this, parent, Grandparent()
    {
      var g := Grandparent();
      if g == null then null
      else if parent == g.rightTree then g.leftTree
      else g.rightTree
    }

    function Sibling(): Node?
      requires parent != null
      reads this, parent
    {
      if parent.leftTree == this then parent.rightTree else parent.leftTree
    }

    ghost function Now(): Cell
      reads this
    {
      Cell(color, (key, value), leftTree, rightTree, parent)
    }
  }

  /** A tree with the nodes it is made of; a leaf is the shared sentinel. */
  datatype Tree = Leaf | Fork(node: Node, color: Color, pair: Pair, left: Tree, right: Tree)

  /** The way from the root to a place: the place is the left or right child of `node`. */
  datatype Path = Top
    | InLeft(node: Node, color: Color, pair: Pair, other: Tree, up: Path)
    | InRight(node: Node, color: Color, pair: Pair, other: Tree, up: Path)

  ghost function Plug(t: Tree, c: Path): Tree
    decreases c
  {
    match c
    case Top => t
    case InLeft(n, col, kv, r, up) => Plug(Fork(n, col, kv, t, r), up)
    case InRight(n, col, kv, l, up) => Plug(Fork(n, col, kv, l, t), up)
  }

  // ------------------------------------------------------------------ in-order content

  ghost function Inorder(t: Tree): seq<Pair> {
    match t
    case Leaf => []
    case Fork(_, _, kv, l, r) => Inorder(l) + [kv] + Inorder(r)
  }

  ghost function Before(c: Path): seq<Pair> {
    match c
    case Top => []
    case InLeft(_, _, _, _, up) => Before(up)
    case InRight(_, _, kv, l, up) => Before(up) + Inorder(l) + [kv]
  }

  ghost function After(c: Path): seq<Pair> {
    match c
    case Top => []
    case InLeft(_, _, kv, r, up) => [kv] + Inorder(r) + After(up)
    case InRight(_, _, _, _, up) => After(up)
  }

  /** The in-order content of the tree t together with all that is around its place. */
  ghost function Content(t: Tree, c: Path): seq<Pair> {
    Before(c) + Inorder(t) + After(c)
  }

  /** One step up: the tree at the node above. */
  ghost function Joined(t: Tree, c: Path): (r: Tree)
    requires c != Top
    ensures r.Fork?
  {
    if c.InLeft? then Fork(c.node, c.color, c.pair, t, c.other) else Fork(c.node, c.color, c.pair, c.other, t)
  }

  ghost function DownLeft(t: Tree, c: Path): Path
    requires t.Fork?
  {
    InLeft(t.node, t.color, t.pair, t.right, c)
  }

  ghost function DownRight(t: Tree, c: Path): Path
    requires t.Fork?
  {
    InRight(t.node, t.color, t.pair, t.left, c)
  }

  lemma JoinedContent(t: Tree, c: Path)
    requires c != Top
    ensures Content(Joined(t, c), c.up) == Content(t, c)
  {
  }

  lemma {:induction false} InorderPlug(t: Tree, c: Path)
    ensures Inorder(Plug(t, c)) == Content(t, c)
    decreases c
  {
    if c != Top {
      JoinedContent(t, c);
      InorderPlug(Joined(t, c), c.up);
    }
  }

  // ------------------------------------------------------------------ the colour rules

  ghost function ColorOf(t: Tree): Color {
    if t == Leaf then Black else t.color
  }

  ghost function Blacks(col: Color): nat {
    if col == Black then 1 else 0
  }

  ghost function BlackHeight(t: Tree): nat {
    if t == Leaf then 0 else BlackHeight(t.left) + Blacks(t.color)
  }

  /** Equal black height on all paths and no red node with a red child. */
  ghost predicate Sound(t: Tree) {
    t == Leaf ||
    (&& Sound(t.left) && Sound(t.right) && BlackHeight(t.left) == BlackHeight(t.right)
     && (t.color == Red ==> ColorOf(t.left) == Black && ColorOf(t.right) == Black))
  }

  ghost predicate RedBlack(t: Tree) {
    Sound(t) && ColorOf(t) == Black
  }

  /** The colour above a place; above the root it counts as red, so the root is black. */
  ghost function Above(c: Path): Color {
    if c == Top then Red else c.color
  }

  /** All is well around a place that holds a tree of black height h. */
  ghost predicate Around(c: Path, h: nat)
    decreases c
  {
    c == Top ||
    (&& Sound(c.other) && BlackHeight(c.other) == h
     && (c.color == Red ==> ColorOf(c.other) == Black && Above(c.up) == Black)
     && Around(c.up, h + Blacks(c.color)))
  }

  /** A tree fits a place if it is sound and puts no red below red. */
  ghost predicate Fits(t: Tree, c: Path) {
    Sound(t) && Around(c, BlackHeight(t)) && (ColorOf(t) == Red ==> Above(c) == Black)
  }

  /** A red tree at a place where all is well, except that the node above may be red too. */
  ghost predicate Hot(t: Tree, c: Path) {
    t.Fork? && t.color == Red && Sound(t) && Around(c, BlackHeight(t))
  }

  /** A black tree at a place that is one black short. */
  ghost predicate Short(t: Tree, c: Path) {
    Sound(t) && ColorOf(t) == Black && Around(c, BlackHeight(t) + 1)
  }

  // ------------------------------------------------------- the cases of an insertion

  ghost function RotatedRight(t: Tree, c: Path): (r: Tree)
    requires t.Fork? && c.InLeft?
    ensures r.Fork? && r.right.Fork?
  {
    Fork(t.node, t.color, t.pair, t.left, Fork(c.node, c.color, c.pair, t.right, c.other))
  }

  ghost function RotatedLeft(t: Tree, c: Path): (r: Tree)
    requires t.Fork? && c.InRight?
    ensures r.Fork? && r.left.Fork?
  {
    Fork(t.node, t.color, t.pair, Fork(c.node, c.color, c.pair, c.other, t.left), t.right)
  }

  /** Red parent and red uncle: black is pulled down from the grandparent. */
  ghost function Recolored(t: Tree, c: Path): Tree
    requires c != Top && c.up != Top && c.up.other.Fork?
  {
    var f, u := Joined(t, c), c.up.other;
    Joined(f.(color := Black), c.up.(color := Red, other := u.(color := Black)))
  }

  lemma JoinedTwice(t: Tree, c: Path, w: Tree)
    requires c != Top && c.up != Top && Inorder(w) == Inorder(Joined(Joined(t, c), c.up))
    ensures Content(w, c.up.up) == Content(t, c)
  {
    hide Inorder, Before, After;
    JoinedContent(t, c);
    JoinedContent(Joined(t, c), c.up);
  }

  lemma RecoloredIsHot(t: Tree, c: Path)
    requires Hot(t, c) && c != Top && c.color == Red && ColorOf(c.up.other) == Red
    ensures c.up != Top && c.up.other.Fork? && Hot(Recolored(t, c), c.up.up)
    ensures Content(Recolored(t, c), c.up.up) == Content(t, c)
  {
    var w := Recolored(t, c);
    assert Around(c.up, BlackHeight(t)) && Around(c.up.up, BlackHeight(t) + 1);
    assert Sound(w.left) && Sound(w.right);
    assert BlackHeight(w.left) == BlackHeight(w.right);
    JoinedTwice(t, c, w);
  }

  /** The parent, black, above the child and the grandparent, both red. */
  ghost function Straightened(t: Tree, c: Path): Tree
    requires c != Top && c.up != Top
  {
    var j := Joined(c.other, c.up);
    var g := j.(color := Red);
    if c.InLeft? then Fork(c.node, Black, c.pair, t, g) else Fork(c.node, Black, c.pair, g, t)
  }

  /** The child, black, above the parent and the grandparent, both red. */
  ghost function Lifted(t: Tree, c: Path): Tree
    requires t.Fork? && c != Top && c.up != Top
  {
    if c.InLeft? then
      Fork(t.node, Black, t.pair, Fork(c.up.node, Red, c.up.pair, c.up.other, t.left), Fork(c.node, Red, c.pair, t.right, c.other))
    else
      Fork(t.node, Black, t.pair, Fork(c.node, Red, c.pair, c.other, t.left), Fork(c.up.node, Red, c.up.pair, t.right, c.up.other))
  }

  lemma StraightenedFits(t: Tree, c: Path)
    requires Hot(t, c) && c != Top && c.color == Red && c.up != Top && ColorOf(c.up.other) == Black
    requires c.InLeft? <==> c.up.InLeft?
    ensures Fits(Straightened(t, c), c.up.up) && Content(Straightened(t, c), c.up.up) == Content(t, c)
  {
    var w := Straightened(t, c);
    assert Around(c.up, BlackHeight(t)) && Around(c.up.up, BlackHeight(t) + 1);
    assert Sound(w.left) && Sound(w.right);
    assert BlackHeight(w.left) == BlackHeight(w.right);
    JoinedTwice(t, c, w);
  }

  lemma Flat<T>(a: seq<T>, x: T, b: seq<T>, y: T, c: seq<T>, z: T, d: seq<T>)
    ensures a + [x] + ((b + [y] + c) + [z] + d) == (a + [x] + b) + [y] + (c + [z] + d)
    ensures (a + [x] + (b + [y] + c)) + [z] + d == (a + [x] + b) + [y] + (c + [z] + d)
  {
  }

  lemma LiftedInorder(t: Tree, c: Path)
    requires t.Fork? && c != Top && c.up != Top && (c.InLeft? <==> c.up.InRight?)
    ensures Inorder(Lifted(t, c)) == Inorder(Joined(Joined(t, c), c.up))
  {
    var j, w := Joined(t, c), Lifted(t, c);
    var u := c.up;
    assert Inorder(w) == Inorder(w.left) + [t.pair] + Inorder(w.right);
    if c.InLeft? {
      assert Inorder(j) == Inorder(t) + [c.pair] + Inorder(c.other);
      assert Inorder(Joined(j, u)) == Inorder(u.other) + [u.pair] + Inorder(j);
      Flat(Inorder(u.other), u.pair, Inorder(t.left), t.pair, Inorder(t.right), c.pair, Inorder(c.other));
    } else {
      assert Inorder(j) == Inorder(c.other) + [c.pair] + Inorder(t);
      assert Inorder(Joined(j, u)) == Inorder(j) + [u.pair] + Inorder(u.other);
      Flat(Inorder(c.other), c.pair, Inorder(t.left), t.pair, Inorder(t.right), u.pair, Inorder(u.other));
    }
  }

  lemma LiftedFits(t: Tree, c: Path)
    requires Hot(t, c) && c != Top && c.color == Red && c.up != Top && ColorOf(c.up.other) == Black
    requires c.InLeft? <==> c.up.InRight?
    ensures Fits(Lifted(t, c), c.up.up) && Content(Lifted(t, c), c.up.up) == Content(t, c)
  {
    var w := Lifted(t, c);
    assert Around(c.up, BlackHeight(t)) && Around(c.up.up, BlackHeight(t) + 1);
    assert Sound(w.left) && Sound(w.right);
    assert BlackHeight(w.left) == BlackHeight(w.right);
    LiftedInorder(t, c);
    JoinedTwice(t, c, w);
  }

  lemma {:induction false} FitsIsRedBlack(t: Tree, c: Path)
    requires Fits(t, c)
    ensures RedBlack(Plug(t, c))
    decreases c
  {
    match c
    case Top =>
    case InLeft(n, col, kv, r, up) => FitsIsRedBlack(Fork(n, col, kv, t, r), up);
    case InRight(n, col, kv, l, up) => FitsIsRedBlack(Fork(n, col, kv, l, t), up);
  }

  // --------------------------------------------------------------------------- height

  ghost function Height(t: Tree): nat {
    if t == Leaf then 0
    else 1 + if Height(t.left) < Height(t.right) then Height(t.right) else Height(t.left)
  }

  ghost function Size(t: Tree): nat {
    if t == Leaf then 0 else Size(t.left) + 1 + Size(t.right)
  }

  lemma {:induction false} HeightByBlacks(t: Tree)
    requires Sound(t)
    ensures Height(t) <= 2 * BlackHeight(t) + (if ColorOf(t) == Red then 1 else 0)
  {
    if t != Leaf {
      HeightByBlacks(t.left);
      HeightByBlacks(t.right);
    }
  }

  lemma {:induction false} SizeByBlacks(t: Tree)
    requires Sound(t)
    ensures Pow2(BlackHeight(t)) <= Size(t) + 1
  {
    if t != Leaf {
      SizeByBlacks(t.left);
      SizeByBlacks(t.right);
    }
  }

  /** The height is at most twice the binary logarithm of the size plus one. */
  lemma HeightIsLogarithmic(t: Tree)
    requires RedBlack(t)
    ensures Pow2((Height(t) + 1) / 2) <= Size(t) + 1
  {
    HeightByBlacks(t);
    SizeByBlacks(t);
    Pow2Monotone((Height(t) + 1) / 2, BlackHeight(t));
  }

  lemma {:induction false} InorderSize(t: Tree)
    ensures |Inorder(t)| == Size(t)
  {
    if t != Leaf {
      InorderSize(t.left);
      InorderSize(t.right);
    }
  }

  // ---------------------------------------------------------- search order and the map

  ghost predicate Sorted(s: seq<Pair>) {
    forall i, j | 0 <= i < j < |s| :: s[i].0 < s[j].0
  }

  ghost function MapOf(s: seq<Pair>): map<int, int> {
    if s == [] then map[] else MapOf(s[..|s| - 1])[s[|s| - 1].0 := s[|s| - 1].1]
  }

  lemma {:induction false} MapOfMember(s: seq<Pair>, k: int)
    ensures k in MapOf(s) <==> exists i :: 0 <= i < |s| && s[i].0 == k
    ensures Sorted(s) ==> forall i | 0 <= i < |s| :: s[i].0 in MapOf(s) && MapOf(s)[s[i].0] == s[i].1
  {
    if s != [] {
      var t := s[..|s| - 1];
      MapOfMember(t, k);
      if exists i :: 0 <= i < |s| && s[i].0 == k {
        var i :| 0 <= i < |s| && s[i].0 == k;
        if i < |s| - 1 { assert t[i].0 == k; }
      }
      if k in MapOf(t) {
        var i :| 0 <= i < |t| && t[i].0 == k;
        assert s[i].0 == k;
      }
      if Sorted(s) {
        assert forall i | 0 <= i < |t| :: t[i] == s[i];
        forall i | 0 <= i < |s| ensures s[i].0 in MapOf(s) && MapOf(s)[s[i].0] == s[i].1 {
          if i < |t| { assert t[i] == s[i] && t[i].0 in MapOf(t); }
        }
      }
    }
  }

  ghost predicate AllBelow(s: seq<Pair>, k: int) {
    forall i | 0 <= i < |s| :: s[i].0 < k
  }

  ghost predicate AllAbove(s: seq<Pair>, k: int) {
    forall i | 0 <= i < |s| :: k < s[i].0
  }

  lemma {:induction false} MapInsert(a: seq<Pair>, x: Pair, b: seq<Pair>)
    requires forall i | 0 <= i < |b| :: b[i].0 != x.0
    ensures MapOf(a + [x] + b) == MapOf(a + b)[x.0 := x.1]
    decreases |b|
  {
    var s, t := a + [x] + b, a + b;
    if b == [] {
      assert s[..|s| - 1] == a && t == a;
    } else {
      var b' := b[..|b| - 1];
      assert s[..|s| - 1] == a + [x] + b' && t[..|t| - 1] == a + b';
      MapInsert(a, x, b');
    }
  }

  /** Inserting, replacing and removing a pair in a sorted list, as map operations. */
  lemma SortedListOps(a: seq<Pair>, k: int, v: int, w: int, b: seq<Pair>)
    requires AllBelow(a, k) && AllAbove(b, k)
    ensures MapOf(a + [(k, v)] + b) == MapOf(a + b)[k := v]
    ensures MapOf(a + [(k, v)] + b) == MapOf(a + [(k, w)] + b)[k := v]
    ensures MapOf(a + b) == MapOf(a + [(k, w)] + b) - {k}
  {
    MapInsert(a, (k, v), b);
    MapInsert(a, (k, w), b);
    MapOfMember(a + b, k);
  }

  /** Order survives inserting, replacing and removing at the right place. */
  lemma SortedOps(a: seq<Pair>, k: int, v: int, w: int, b: seq<Pair>)
    requires Sorted(a + b) || Sorted(a + [(k, w)] + b)
    ensures Sorted(a + b)
    ensures AllBelow(a, k) && AllAbove(b, k) ==> Sorted(a + [(k, v)] + b)
  {
    var s, t, u := a + [(k, w)] + b, a + b, a + [(k, v)] + b;
    if Sorted(s) {
      forall i, j | 0 <= i < j < |t| ensures t[i].0 < t[j].0 {
        var i', j' := if i < |a| then i else i + 1, if j < |a| then j else j + 1;
        assert t[i] == s[i'] && t[j] == s[j'];
      }
    }
    if AllBelow(a, k) && AllAbove(b, k) {
      forall i, j | 0 <= i < j < |u| ensures u[i].0 < u[j].0 {
        if i != |a| && j != |a| {
          var i', j' := if i < |a| then i else i - 1, if j < |a| then j else j - 1;
          assert u[i] == t[i'] && u[j] == t[j'];
        }
      }
    }
  }

  // ------------------------------------------------------------- the way of an insertion

  lemma FitsDown(t: Tree, c: Path)
    requires t.Fork? && Fits(t, c)
    ensures Fits(t.left, DownLeft(t, c)) && Fits(t.right, DownRight(t, c))
  {
  }

  lemma SplitSorted(a: seq<Pair>, x: Pair, b: seq<Pair>, k: int)
    requires Sorted(a + [x] + b)
    ensures k <= x.0 ==> AllAbove(b, k)
    ensures x.0 <= k ==> AllBelow(a, k)
  {
    var s := a + [x] + b;
    assert s[|a|] == x;
    forall i | 0 <= i < |a| ensures a[i].0 < x.0 { assert s[i] == a[i]; }
    forall i | 0 <= i < |b| ensures x.0 < b[i].0 { assert s[|a| + 1 + i] == b[i]; }
  }

  lemma AllConcat(a: seq<Pair>, b: seq<Pair>, k: int)
    ensures AllAbove(a, k) && AllAbove(b, k) ==> AllAbove(a + b, k)
    ensures AllBelow(a, k) && AllBelow(b, k) ==> AllBelow(a + b, k)
  {
  }

  lemma SproutIsHot(d: Path, x: Node, kv: Pair)
    requires Fits(Leaf, d)
    ensures Hot(Fork(x, Red, kv, Leaf, Leaf), d)
  {
  }

  lemma SameShapeFits(t: Tree, c: Path, kv: Pair)
    requires t.Fork? && Fits(t, c)
    ensures Fits(t.(pair := kv), c)
  {
  }

  /** The place of key k is below t. */
  ghost predicate Leads(t: Tree, c: Path, k: int) {
    Sorted(Content(t, c)) && AllBelow(Before(c), k) && AllAbove(After(c), k)
  }

  lemma Middle<T>(a: seq<T>, l: seq<T>, x: T, r: seq<T>, b: seq<T>)
    ensures a + (l + [x] + r) + b == (a + l) + [x] + (r + b)
    ensures [x] + r + b == [x] + (r + b)
  {
  }

  lemma LeadsDown(t: Tree, c: Path, k: int)
    requires t.Fork? && Leads(t, c, k)
    ensures k < t.pair.0 ==> Leads(t.left, DownLeft(t, c), k)
    ensures k > t.pair.0 ==> Leads(t.right, DownRight(t, c), k)
    ensures k == t.pair.0 ==> AllBelow(Before(c) + Inorder(t.left), k) && AllAbove(Inorder(t.right) + After(c), k)
  {
    var a, b, l, r := Before(c), After(c), Inorder(t.left), Inorder(t.right);
    Middle(a, l, t.pair, r, b);
    SplitSorted(a + l, t.pair, r + b, k);
    JoinedContent(t.left, DownLeft(t, c));
    JoinedContent(t.right, DownRight(t, c));
    assert Joined(t.left, DownLeft(t, c)) == t == Joined(t.right, DownRight(t, c));
    if k < t.pair.0 { AllConcat([t.pair], r + b, k); }
    if k > t.pair.0 { AllConcat(a + l, [t.pair], k); }
  }

  /** The lists before and after an insertion, as maps; the last write wins. */
  ghost predicate Inserted(s: seq<Pair>, s': seq<Pair>, k: int, v: int) {
    Sorted(s') && MapOf(s') == MapOf(s)[k := v]
  }

  lemma InsertedNew(d: Path, k: int, v: int, x: Node)
    requires Leads(Leaf, d, k)
    ensures Inserted(Content(Leaf, d), Content(Fork(x, Red, (k, v), Leaf, Leaf), d), k, v)
  {
    var a, b := Before(d), After(d);
    assert a + [] + b == a + b;
    assert Inorder(Fork(x, Red, (k, v), Leaf, Leaf)) == [(k, v)];
    SortedListOps(a, k, v, 0, b);
    SortedOps(a, k, v, 0, b);
  }

  lemma InsertedOld(t: Tree, c: Path, k: int, v: int)
    requires t.Fork? && t.pair.0 == k && Leads(t, c, k)
    ensures Inserted(Content(t, c), Content(t.(pair := (k, v)), c), k, v)
  {
    LeadsDown(t, c, k);
    var a, b, l, r := Before(c), After(c), Inorder(t.left), Inorder(t.right);
    Middle(a, l, t.pair, r, b);
    Middle(a, l, (k, v), r, b);
    SortedListOps(a + l, k, v, t.pair.1, r + b);
    SortedOps(a + l, k, v, t.pair.1, r + b);
  }

  // ----------------------------------------------------------- the cases of a removal

  /** The same node above, seen from the sibling. */
  ghost function Sideways(t: Tree, c: Path): (d: Path)
    requires c != Top
    ensures d != Top && Joined(c.other, d) == Joined(t, c) && d.up == c.up
  {
    if c.InLeft? then InRight(c.node, c.color, c.pair, t, c.up) else InLeft(c.node, c.color, c.pair, t, c.up)
  }

  /** A black tree whose place is short has a real sibling. */
  lemma ShortHasSibling(t: Tree, c: Path)
    requires Short(t, c) && c != Top
    ensures c.other.Fork? && Sound(c.other.left) && Sound(c.other.right)
    ensures BlackHeight(c.other.left) == BlackHeight(c.other.right) == BlackHeight(t) + 1 - Blacks(c.other.color)
    ensures ColorOf(c.other) == Red ==> c.other.left.Fork? && c.other.right.Fork?
    ensures Around(c.up, BlackHeight(t) + 1 + Blacks(c.color))
  {
    assert Sound(c.other);
  }

  /** A red sibling changes places with the parent. */
  ghost function Raised(c: Path): (d: Path)
    requires c != Top && c.other.Fork?
    ensures d != Top && d.node == c.node && d.color == Red && d.up != Top && d.up.up == c.up
  {
    var s := c.other;
    if c.InLeft? then InLeft(c.node, Red, c.pair, s.left, InLeft(s.node, Black, s.pair, s.right, c.up))
    else InRight(c.node, Red, c.pair, s.right, InRight(s.node, Black, s.pair, s.left, c.up))
  }

  lemma RaisedInorder(t: Tree, c: Path)
    requires c != Top && c.other.Fork?
    ensures Inorder(Joined(Joined(t, Raised(c)), Raised(c).up)) == Inorder(Joined(t, c))
  {
    var s, a, b, o := c.other, Inorder(c.other.left), Inorder(c.other.right), Inorder(t);
    var j := Joined(t, Raised(c));
    assert Inorder(s) == a + [s.pair] + b;
    if c.InLeft? {
      assert Inorder(j) == o + [c.pair] + a;
      assert Inorder(Joined(j, Raised(c).up)) == (o + [c.pair] + a) + [s.pair] + b;
      assert Inorder(Joined(t, c)) == o + [c.pair] + (a + [s.pair] + b);
    } else {
      assert Inorder(j) == b + [c.pair] + o;
      assert Inorder(Joined(j, Raised(c).up)) == a + [s.pair] + (b + [c.pair] + o);
      assert Inorder(Joined(t, c)) == (a + [s.pair] + b) + [c.pair] + o;
    }
  }

  lemma RaisedIsShort(t: Tree, c: Path)
    requires Short(t, c) && c != Top && ColorOf(c.other) == Red
    ensures c.other.Fork? && Short(t, Raised(c)) && Content(t, Raised(c)) == Content(t, c)
    ensures ColorOf(Raised(c).other) == Black
  {
    hide Inorder;
    ShortHasSibling(t, c);
    assert Around(Raised(c).up, BlackHeight(t) + 1);
    JoinedContent(t, c);
    RaisedInorder(t, c);
    JoinedTwice(t, Raised(c), Joined(t, c));
  }

  ghost function Nephew(c: Path, near: bool): Tree
    requires c != Top && c.other.Fork?
  {
    if c.InLeft? == near then c.other.left else c.other.right
  }

  /** Parent, sibling and nephews black: the sibling turns red and the parent is short. */
  ghost function Lowered(t: Tree, c: Path): (r: Tree)
    requires c != Top && c.other.Fork?
    ensures r.Fork? && r.node == c.node
  {
    var s := c.other;
    Joined(t, c.(color := Black, other := s.(color := Red)))
  }

  lemma LoweredIsShortOrFits(t: Tree, c: Path)
    requires Short(t, c) && c != Top && ColorOf(c.other) == Black
    ensures c.other.Fork? && Content(Lowered(t, c), c.up) == Content(t, c)
    ensures ColorOf(c.other.left) == Black && ColorOf(c.other.right) == Black ==>
      if c.color == Black then Short(Lowered(t, c), c.up) else Fits(Lowered(t, c), c.up)
  {
    ShortHasSibling(t, c);
    var s, w := c.other, Lowered(t, c);
    if ColorOf(s.left) == Black && ColorOf(s.right) == Black {
      assert Sound(s.(color := Red));
      assert Sound(w.left) && Sound(w.right) && BlackHeight(w.left) == BlackHeight(w.right);
    }
    JoinedContent(t, c);
    assert Inorder(s.(color := Red)) == Inorder(s);
    assert Inorder(w) == Inorder(Joined(t, c));
  }

  /** A red near nephew takes the sibling's place. */
  ghost function NearTurned(c: Path): (d: Path)
    requires c != Top && c.other.Fork? && Nephew(c, true).Fork?
    ensures d != Top && d.node == c.node && d.up == c.up && d.other.Fork?
  {
    var s, n := c.other, Nephew(c, true);
    if c.InLeft? then
      InLeft(c.node, c.color, c.pair, Fork(n.node, Black, n.pair, n.left, Fork(s.node, Red, s.pair, n.right, s.right)), c.up)
    else
      InRight(c.node, c.color, c.pair, Fork(n.node, Black, n.pair, Fork(s.node, Red, s.pair, s.left, n.left), n.right), c.up)
  }

  lemma NearTurnedInorder(c: Path)
    requires c != Top && c.other.Fork? && Nephew(c, true).Fork?
    ensures Inorder(NearTurned(c).other) == Inorder(c.other)
  {
    var s, n, o := c.other, Nephew(c, true), NearTurned(c).other;
    if c.InLeft? {
      assert Inorder(o) == Inorder(n.left) + [n.pair] + Inorder(o.right);
      assert Inorder(s) == Inorder(n) + [s.pair] + Inorder(s.right);
    } else {
      assert Inorder(o) == Inorder(o.left) + [n.pair] + Inorder(n.right);
      assert Inorder(s) == Inorder(s.left) + [s.pair] + Inorder(n);
    }
  }

  lemma NearTurnedIsShort(t: Tree, c: Path)
    requires Short(t, c) && c != Top && ColorOf(c.other) == Black && c.other.Fork?
    requires ColorOf(Nephew(c, true)) == Red && ColorOf(Nephew(c, false)) == Black
    ensures Short(t, NearTurned(c)) && Content(t, NearTurned(c)) == Content(t, c)
    ensures ColorOf(NearTurned(c).other) == Black && ColorOf(Nephew(NearTurned(c), false)) == Red
  {
    hide Inorder;
    ShortHasSibling(t, c);
    var s, n, d := c.other, Nephew(c, true), NearTurned(c);
    assert Sound(n) && Sound(n.left) && Sound(n.right);
    assert Sound(d.other.left) && Sound(d.other.right);
    assert BlackHeight(d.other.left) == BlackHeight(d.other.right);
    NearTurnedInorder(c);
  }

  /** A red far nephew pays: the sibling takes the parent's place and colour. */
  ghost function Borrowed(t: Tree, c: Path): Tree
    requires c != Top && c.other.Fork? && Nephew(c, false).Fork?
  {
    var s, f := c.other, Nephew(c, false);
    if c.InLeft? then
      Fork(s.node, c.color, s.pair, Fork(c.node, Black, c.pair, t, s.left), f.(color := Black))
    else
      Fork(s.node, c.color, s.pair, f.(color := Black), Fork(c.node, Black, c.pair, s.right, t))
  }

  lemma BorrowedInorder(t: Tree, c: Path)
    requires c != Top && c.other.Fork? && Nephew(c, false).Fork?
    ensures Inorder(Borrowed(t, c)) == Inorder(Joined(t, c))
  {
    var s, f, j, w := c.other, Nephew(c, false), Joined(t, c), Borrowed(t, c);
    var f' := f.(color := Black);
    assert Inorder(f') == Inorder(f);
    assert Inorder(s) == Inorder(s.left) + [s.pair] + Inorder(s.right);
    if c.InLeft? {
      assert Inorder(w.left) == Inorder(t) + [c.pair] + Inorder(s.left);
      assert Inorder(j) == Inorder(t) + [c.pair] + Inorder(s);
      assert Inorder(w) == Inorder(w.left) + [s.pair] + Inorder(f');
    } else {
      assert Inorder(w.right) == Inorder(s.right) + [c.pair] + Inorder(t);
      assert Inorder(j) == Inorder(s) + [c.pair] + Inorder(t);
      assert Inorder(w) == Inorder(f') + [s.pair] + Inorder(w.right);
    }
  }

  lemma BorrowedColors(t: Tree, c: Path)
    requires Short(t, c) && c != Top && c.other.Fork? && ColorOf(c.other) == Black && ColorOf(Nephew(c, false)) == Red
    ensures Fits(Borrowed(t, c), c.up)
  {
    ShortHasSibling(t, c);
    var s, w, f := c.other, Borrowed(t, c), Nephew(c, false);
    assert Sound(f) && Sound(f.left) && Sound(f.right);
    assert Sound(w.left) && Sound(w.right) && BlackHeight(w.left) == BlackHeight(w.right);
  }

  lemma BorrowedFits(t: Tree, c: Path)
    requires Short(t, c) && c != Top && c.other.Fork? && ColorOf(c.other) == Black && ColorOf(Nephew(c, false)) == Red
    ensures Fits(Borrowed(t, c), c.up) && Content(Borrowed(t, c), c.up) == Content(t, c)
  {
    hide Inorder, Before, After, Fits, Short, Borrowed;
    BorrowedColors(t, c);
    JoinedContent(t, c);
    BorrowedInorder(t, c);
  }

  /** The only real subtree of a node that has at most one, as `delete_one_child` picks it. */
  ghost function OnlyChild(t: Tree): Tree
    requires t.Fork?
  {
    if t.left == Leaf then t.right else t.left
  }

  /** What `delete_one_child` does to the colours, by the colours of the node and its child. */
  lemma UnlinkedFits(t: Tree, c: Path)
    requires t.Fork? && (t.left == Leaf || t.right == Leaf) && Fits(t, c)
    ensures var x := OnlyChild(t);
      && (t.color == Red ==> x == Leaf && c != Top && Fits(x, c))
      && (t.color == Black && x.Fork? ==> x.color == Red && Fits(x.(color := Black), c))
      && (t.color == Black && x == Leaf ==> Short(x, c))
  {
    var x := OnlyChild(t);
    if x.Fork? {
      assert BlackHeight(x) == 0;
      assert Sound(x) && Sound(x.left) && Sound(x.right) && Sound(x.(color := Black));
    }
  }

  ghost function Leftmost(t: Tree): (r: Tree)
    requires t.Fork?
    ensures r.Fork? && r.left == Leaf
  {
    if t.left == Leaf then t else Leftmost(t.left)
  }

  ghost function LeftPath(t: Tree, c: Path): (d: Path)
    requires t.Fork?
    ensures Before(d) == Before(c) && (d == Top ==> c == Top)
    decreases t
  {
    if t.left == Leaf then c else LeftPath(t.left, DownLeft(t, c))
  }

  lemma {:induction false} LeftmostContent(t: Tree, c: Path)
    requires t.Fork?
    ensures Content(Leftmost(t), LeftPath(t, c)) == Content(t, c)
    ensures Fits(t, c) ==> Fits(Leftmost(t), LeftPath(t, c))
    decreases t
  {
    if t.left != Leaf {
      JoinedContent(t.left, DownLeft(t, c));
      if Fits(t, c) { FitsDown(t, c); }
      LeftmostContent(t.left, DownLeft(t, c));
    }
  }

  /** Bypassing a node takes exactly its pair out of the in-order content. */
  lemma OnlyThatPair(t: Tree, c: Path)
    requires t.Fork? && (t.left == Leaf || t.right == Leaf)
    ensures var a, b := Before(c) + Inorder(t.left), Inorder(t.right) + After(c);
      Content(t, c) == a + [t.pair] + b && Content(OnlyChild(t), c) == a + b
  {
    Middle(Before(c), Inorder(t.left), t.pair, Inorder(t.right), After(c));
  }

  /** The subtree with the key k at its root, on the way a search takes. */
  ghost function Find(t: Tree, k: int): Tree {
    if t == Leaf || t.pair.0 == k then t else if k < t.pair.0 then Find(t.left, k) else Find(t.right, k)
  }

  /** A black node alone. */
  ghost predicate Alone(t: Tree) {
    t.Fork? && t.color == Black && t.left == Leaf && t.right == Leaf
  }

  /** A red node alone. */
  ghost predicate RedAlone(t: Tree) {
    t.Fork? && t.color == Red && t.left == Leaf && t.right == Leaf
  }

  /** An only child on the left is a red node alone. */
  lemma OnlyChildRed(t: Tree)
    requires t.Fork? && Sound(t) && t.right == Leaf && t.left.Fork?
    ensures RedAlone(t.left)
  {
  }

  /** A node with that content and one more below it, to the left or to the right. */
  ghost predicate Paired(t: Tree, kv: Pair, toTheLeft: bool) {
    && t.Fork? && t.pair == kv
    && (if toTheLeft then t.left.Fork? && t.right == Leaf else t.right.Fork? && t.left == Leaf)
  }

  /** The lists before and after a removal, as maps. */
  ghost predicate Removed(s: seq<Pair>, s': seq<Pair>, k: int) {
    Sorted(s') && k in MapOf(s) && MapOf(s') == MapOf(s) - {k}
  }

  /** What `delete_child` does to a key with a right subtree: the key stays and takes the
      value of the next key, which goes. */
  ghost predicate Moved(s: seq<Pair>, s': seq<Pair>, k: int, next: int) {
    && Sorted(s') && k in MapOf(s) && next in MapOf(s) && k < next
    && (forall x | x in MapOf(s) && k < x :: next <= x)
    && MapOf(s') == (MapOf(s) - {next})[k := MapOf(s)[next]]
  }

  lemma RemovedHere(t: Tree, c: Path, k: int)
    requires t.Fork? && t.pair.0 == k && t.right == Leaf && Leads(t, c, k)
    ensures Removed(Content(t, c), Content(OnlyChild(t), c), k)
  {
    OnlyThatPair(t, c);
    LeadsDown(t, c, k);
    var a, b := Before(c) + Inorder(t.left), Inorder(t.right) + After(c);
    SortedListOps(a, k, t.pair.1, t.pair.1, b);
    SortedOps(a, k, 0, t.pair.1, b);
    MapOfMember(a + [t.pair] + b, k);
    assert (a + [t.pair] + b)[|a|] == t.pair;
    assert Content(OnlyChild(t), c) == a + b;
  }

  lemma MovedLists(a: seq<Pair>, k: int, w: int, next: int, w': int, b: seq<Pair>)
    requires Sorted(a + [(k, w)] + ([(next, w')] + b))
    ensures Moved(a + [(k, w)] + ([(next, w')] + b), a + [(k, w')] + b, k, next)
  {
    var s, a' := a + [(k, w)] + ([(next, w')] + b), a + [(k, w)];
    assert s == a' + [(next, w')] + b;
    assert s[|a|] == (k, w) && s[|a'|] == (next, w');
    SplitSorted(a, (k, w), [(next, w')] + b, k);
    SplitSorted(a', (next, w'), b, next);
    AllConcat([(next, w')], b, k);
    assert AllAbove(b, k) by { SplitSorted(a', (next, w'), b, k); }
    SortedListOps(a', next, w', w', b);
    SortedListOps(a, k, w', w, b);
    SortedOps(a', next, 0, w', b);
    SortedOps(a, k, w', w, b);
    forall x ensures x in MapOf(s) && k < x ==> next <= x { MapOfMember(s, x); }
    MapOfMember(s, k);
  }

  lemma {:induction false} LeftPathAfter(t: Tree, c: Path, c': Path)
    requires t.Fork? && After(c) == After(c')
    ensures After(LeftPath(t, c)) == After(LeftPath(t, c'))
    decreases t
  {
    if t.left != Leaf { LeftPathAfter(t.left, DownLeft(t, c), DownLeft(t, c')); }
  }

  /** The value of the next key moved up, its node bypassed. */
  lemma MovedHere(t: Tree, c: Path, k: int, s: Tree, e: Path)
    requires t.Fork? && t.pair.0 == k && t.right.Fork? && Leads(t, c, k) && s == Leftmost(t.right)
    requires e == LeftPath(t.right, DownRight(t.(pair := (k, s.pair.1)), c))
    ensures Moved(Content(t, c), Content(s.right, e), k, s.pair.0)
  {
    var d := DownRight(t, c);
    var e0 := LeftPath(t.right, d);
    LeftPathAfter(t.right, d, DownRight(t.(pair := (k, s.pair.1)), c));
    JoinedContent(t.right, d);
    LeftmostContent(t.right, d);
    var a, r, b := Before(c) + Inorder(t.left), Inorder(s.right), After(e);
    assert Inorder(s) == [s.pair] + r;
    assert Content(t, c) == a + [t.pair] + ([s.pair] + (r + b));
    assert Content(s.right, e) == a + [(k, s.pair.1)] + (r + b);
    MovedLists(a, k, t.pair.1, s.pair.0, s.pair.1, r + b);
  }

  lemma NotBelow(t: Tree, c: Path, k: int)
    requires t.Fork? && Leads(t, c, k)
    requires (k < t.pair.0 && t.left == Leaf) || (k > t.pair.0 && t.right == Leaf)
    ensures k !in MapOf(Content(t, c))
  {
    var a, b := Before(c) + Inorder(t.left), Inorder(t.right) + After(c);
    Middle(Before(c), Inorder(t.left), t.pair, Inorder(t.right), After(c));
    LeadsDown(t, c, k);
    var s := Content(t, c);
    if k < t.pair.0 {
      SplitSorted(a, t.pair, b, k);
      assert a == Before(c);
    } else {
      SplitSorted(a, t.pair, b, k);
      assert b == After(c);
    }
    assert forall i | 0 <= i < |s| :: s[i].0 != k;
    MapOfMember(s, k);
  }
}
