/** rbtree.hpp in place: nodes with parent links, one shared sentinel, rotations and the
    repairs after an insertion and a removal. */
module RbTree {
  import opened Common
  import opened RedBlackTree

  ghost function Nodes(t: Tree): set<Node> {
    if t == Leaf then {} else {t.node} + Nodes(t.left) + Nodes(t.right)
  }

  ghost function PathNodes(c: Path): set<Node> {
    if c == Top then {} else {c.node} + Nodes(c.other) + PathNodes(c.up)
  }

  /** No node occurs twice. */
  ghost predicate Once(t: Tree) {
    t == Leaf ||
    (Once(t.left) && Once(t.right) && t.node !in Nodes(t.left) && t.node !in Nodes(t.right) && Nodes(t.left) !! Nodes(t.right))
  }

  ghost predicate PathOnce(c: Path) {
    c == Top ||
    (&& Once(c.other) && PathOnce(c.up)
     && c.node !in Nodes(c.other) && c.node !in PathNodes(c.up) && Nodes(c.other) !! PathNodes(c.up))
  }

  ghost predicate AllOnce(t: Tree, c: Path) {
    Once(t) && PathOnce(c) && Nodes(t) !! PathNodes(c)
  }

  ghost function Ref(t: Tree, nil: Node): Node {
    if t == Leaf then nil else t.node
  }

  ghost function Parent(c: Path): Node? {
    if c == Top then null else c.node
  }

  /** The node memory m holds the tree t below `par`. */
  ghost predicate Rep(m: map<Node, Cell>, t: Tree, par: Node?, nil: Node) {
    t == Leaf ||
    (&& t.node in m && m[t.node] == Cell(t.color, t.pair, Ref(t.left, nil), Ref(t.right, nil), par)
     && Rep(m, t.left, t.node, nil) && Rep(m, t.right, t.node, nil))
  }

  /** The node memory m holds what is around a place, and at the place it refers to x. */
  ghost predicate RepPath(m: map<Node, Cell>, c: Path, x: Node, nil: Node)
    decreases c
  {
    c == Top ||
    (&& c.node in m
     && m[c.node] == (if c.InLeft? then Cell(c.color, c.pair, x, Ref(c.other, nil), Parent(c.up))
                      else Cell(c.color, c.pair, Ref(c.other, nil), x, Parent(c.up)))
     && Rep(m, c.other, c.node, nil) && RepPath(m, c.up, c.node, nil))
  }

  ghost function TopNode(c: Path): (n: Node)
    requires c != Top
    ensures n in PathNodes(c)
  {
    if c.up == Top then c.node else TopNode(c.up)
  }

  ghost function RootOf(t: Tree, c: Path): Node? {
    if c != Top then TopNode(c) else if t == Leaf then null else t.node
  }

  /** The node memory is that of the tree t standing at the place c. */
  ghost predicate At(m: map<Node, Cell>, t: Tree, c: Path, nil: Node) {
    && AllOnce(t, c) && m.Keys == Nodes(t) + PathNodes(c) && nil !in m
    && Rep(m, t, Parent(c), nil) && RepPath(m, c, Ref(t, nil), nil)
  }

  // ------------------------------------------------------------------------- framing

  ghost predicate Agree(m: map<Node, Cell>, w: map<Node, Cell>, ns: set<Node>) {
    forall n | n in ns && n in m :: n in w && w[n] == m[n]
  }

  lemma {:induction false} RepKept(m: map<Node, Cell>, w: map<Node, Cell>, t: Tree, par: Node?, nil: Node)
    requires Rep(m, t, par, nil) && Agree(m, w, Nodes(t))
    ensures Rep(w, t, par, nil)
  {
    if t != Leaf {
      RepKept(m, w, t.left, t.node, nil);
      RepKept(m, w, t.right, t.node, nil);
    }
  }

  lemma {:induction false} RepPathKept(m: map<Node, Cell>, w: map<Node, Cell>, c: Path, x: Node, nil: Node)
    requires RepPath(m, c, x, nil) && Agree(m, w, PathNodes(c))
    ensures RepPath(w, c, x, nil)
    decreases c
  {
    if c != Top {
      RepKept(m, w, c.other, c.node, nil);
      RepPathKept(m, w, c.up, c.node, nil);
    }
  }

  /** Only the root of a subtree knows its parent. */
  lemma Reparented(m: map<Node, Cell>, w: map<Node, Cell>, t: Tree, par: Node?, par': Node?, nil: Node)
    requires Rep(m, t, par, nil) && Once(t)
    requires t != Leaf ==> Agree(m, w, Nodes(t) - {t.node}) && t.node in w && w[t.node] == m[t.node].(parent := par')
    ensures Rep(w, t, par', nil)
  {
    if t != Leaf {
      RepKept(m, w, t.left, t.node, nil);
      RepKept(m, w, t.right, t.node, nil);
    }
  }

  /** Only the node above a place knows what stands there. */
  lemma Rehung(m: map<Node, Cell>, w: map<Node, Cell>, c: Path, x: Node, x': Node, nil: Node)
    requires RepPath(m, c, x, nil) && PathOnce(c)
    requires c != Top ==> Agree(m, w, PathNodes(c) - {c.node}) && c.node in w
    requires c.InLeft? ==> w[c.node] == m[c.node].(left := x')
    requires c.InRight? ==> w[c.node] == m[c.node].(right := x')
    ensures RepPath(w, c, x', nil)
  {
    if c != Top {
      RepKept(m, w, c.other, c.node, nil);
      RepPathKept(m, w, c.up, c.node, nil);
    }
  }

  /** A step up or down changes the view, not the nodes. */
  lemma Climb(m: map<Node, Cell>, t: Tree, c: Path, nil: Node)
    requires c != Top
    ensures At(m, t, c, nil) <==> At(m, Joined(t, c), c.up, nil)
  {
  }

  lemma {:induction false} ClimbUp(m: map<Node, Cell>, t: Tree, c: Path, nil: Node)
    requires At(m, t, c, nil)
    ensures At(m, Plug(t, c), Top, nil)
    ensures RootOf(t, c) == RootOf(Plug(t, c), Top)
    decreases c
  {
    if c != Top {
      Climb(m, t, c, nil);
      ClimbUp(m, Joined(t, c), c.up, nil);
    }
  }

  /** Colour and content of a node concern no other node. */
  lemma Retouched(m: map<Node, Cell>, w: map<Node, Cell>, t: Tree, c: Path, col: Color, kv: Pair, nil: Node)
    requires t.Fork? && At(m, t, c, nil) && w == m[t.node := m[t.node].(color := col, pair := kv)]
    ensures At(w, t.(color := col, pair := kv), c, nil)
  {
    RepKept(m, w, t.left, t.node, nil);
    RepKept(m, w, t.right, t.node, nil);
    RepPathKept(m, w, c, t.node, nil);
  }

  // ----------------------------------------------------------------------- rotations

  /** What the four nodes of a rotation hold afterwards: the node p, its former parent f, the
      subtree that changes hands, and the node above; all others hold what they held. */
  ghost predicate Turned(m: map<Node, Cell>, w: map<Node, Cell>, p: Node, pc: Cell, f: Node, fc: Cell, y: Node, g: Node?, nil: Node) {
    && w.Keys == m.Keys && p in w && f in w && w[p] == pc && w[f] == fc
    && (y != nil ==> y in m && w[y] == m[y].(parent := f))
    && (g != null ==> g in m && w[g] == if m[g].left == f then m[g].(left := p) else m[g].(right := p))
    && (forall n | n in m && n != p && n != f && n != y && n != g :: w[n] == m[n])
  }

  lemma OnceTurned(p: Node, f: Node, l: Tree, r: Tree, o: Tree, c: Path, x: Color, y: Color, kv: Pair, kw: Pair)
    requires Once(l) && Once(r) && Once(o) && PathOnce(c) && p != f
    requires p !in Nodes(l) + Nodes(r) + Nodes(o) + PathNodes(c) && f !in Nodes(l) + Nodes(r) + Nodes(o) + PathNodes(c)
    requires Nodes(l) !! Nodes(r) !! Nodes(o) !! PathNodes(c)
    ensures AllOnce(Fork(p, x, kv, l, Fork(f, y, kw, r, o)), c)
    ensures AllOnce(Fork(p, x, kv, Fork(f, y, kw, o, r), l), c)
    ensures Nodes(Fork(p, x, kv, l, Fork(f, y, kw, r, o))) == {p, f} + Nodes(l) + Nodes(r) + Nodes(o)
    ensures Nodes(Fork(p, x, kv, Fork(f, y, kw, o, r), l)) == {p, f} + Nodes(l) + Nodes(r) + Nodes(o)
  {
    hide Once, Nodes;
    var b, d := Fork(f, y, kw, r, o), Fork(f, y, kw, o, r);
    OnceFork(f, y, kw, r, o);
    OnceFork(f, y, kw, o, r);
    OnceFork(p, x, kv, l, b);
    OnceFork(p, x, kv, d, l);
  }

  lemma OnceFork(n: Node, x: Color, kv: Pair, l: Tree, r: Tree)
    requires Once(l) && Once(r) && n !in Nodes(l) && n !in Nodes(r) && Nodes(l) !! Nodes(r)
    ensures Once(Fork(n, x, kv, l, r)) && Nodes(Fork(n, x, kv, l, r)) == {n} + Nodes(l) + Nodes(r)
  {
  }

  lemma TurnedNodes(t: Tree, c: Path)
    requires t.Fork? && c != Top && AllOnce(t, c)
    ensures c.InLeft? ==> AllOnce(RotatedRight(t, c), c.up)
    ensures c.InLeft? ==> Nodes(RotatedRight(t, c)) + PathNodes(c.up) == Nodes(t) + PathNodes(c)
    ensures c.InRight? ==> AllOnce(RotatedLeft(t, c), c.up)
    ensures c.InRight? ==> Nodes(RotatedLeft(t, c)) + PathNodes(c.up) == Nodes(t) + PathNodes(c)
  {
    if c.InLeft? {
      OnceTurned(t.node, c.node, t.left, t.right, c.other, c.up, t.color, c.color, t.pair, c.pair);
    } else {
      OnceTurned(t.node, c.node, t.right, t.left, c.other, c.up, t.color, c.color, t.pair, c.pair);
    }
  }

  lemma TurnedRight(m: map<Node, Cell>, w: map<Node, Cell>, t: Tree, c: Path, nil: Node)
    requires t.Fork? && c.InLeft? && At(m, t, c, nil)
    requires Turned(m, w, t.node, m[t.node].(right := c.node, parent := Parent(c.up)),
                    c.node, m[c.node].(left := Ref(t.right, nil), parent := t.node),
                    Ref(t.right, nil), Parent(c.up), nil)
    ensures Rep(w, RotatedRight(t, c), Parent(c.up), nil) && RepPath(w, c.up, t.node, nil)
  {
    RepKept(m, w, t.left, t.node, nil);
    RepKept(m, w, c.other, c.node, nil);
    Reparented(m, w, t.right, t.node, c.node, nil);
    Rehung(m, w, c.up, c.node, t.node, nil);
  }

  lemma TurnedLeft(m: map<Node, Cell>, w: map<Node, Cell>, t: Tree, c: Path, nil: Node)
    requires t.Fork? && c.InRight? && At(m, t, c, nil)
    requires Turned(m, w, t.node, m[t.node].(left := c.node, parent := Parent(c.up)),
                    c.node, m[c.node].(right := Ref(t.left, nil), parent := t.node),
                    Ref(t.left, nil), Parent(c.up), nil)
    ensures Rep(w, RotatedLeft(t, c), Parent(c.up), nil) && RepPath(w, c.up, t.node, nil)
  {
    RepKept(m, w, t.right, t.node, nil);
    RepKept(m, w, c.other, c.node, nil);
    Reparented(m, w, t.left, t.node, c.node, nil);
    Rehung(m, w, c.up, c.node, t.node, nil);
  }

  lemma {:induction false} NodeCount(t: Tree)
    requires Once(t)
    ensures |Nodes(t)| == Size(t)
  {
    if t != Leaf {
      NodeCount(t.left);
      NodeCount(t.right);
    }
  }

  /** Links down and up agree. */
  ghost predicate Linked(m: map<Node, Cell>, n: Node, nil: Node)
    requires n in m
  {
    && (m[n].left == nil || (m[n].left in m && m[m[n].left].parent == n))
    && (m[n].right == nil || (m[n].right in m && m[m[n].right].parent == n))
    && (m[n].parent == null || (m[n].parent in m && (m[m[n].parent].left == n || m[m[n].parent].right == n)))
  }

  lemma {:induction false} RepLinked(m: map<Node, Cell>, t: Tree, par: Node?, nil: Node, n: Node)
    requires Rep(m, t, par, nil) && n in Nodes(t)
    requires par == null || (par in m && (m[par].left == t.node || m[par].right == t.node))
    ensures n in m && Linked(m, n, nil) && (m[n].parent == null <==> n == t.node && par == null)
  {
    if n != t.node {
      if n in Nodes(t.left) { RepLinked(m, t.left, t.node, nil, n); } else { RepLinked(m, t.right, t.node, nil, n); }
    }
  }

  /** A new red leaf below a node. */
  lemma Sprouted(m: map<Node, Cell>, w: map<Node, Cell>, c: Path, x: Node, kv: Pair, nil: Node)
    requires c != Top && At(m, Leaf, c, nil) && x !in m && x != nil
    requires w.Keys == m.Keys + {x} && w[x] == Cell(Red, kv, nil, nil, c.node)
    requires w[c.node] == if c.InLeft? then m[c.node].(left := x) else m[c.node].(right := x)
    requires Agree(m, w, m.Keys - {c.node})
    ensures At(w, Fork(x, Red, kv, Leaf, Leaf), c, nil)
  {
    Rehung(m, w, c, nil, x, nil);
  }

  /** A node with at most one real subtree is bypassed. */
  lemma Bypassed(m: map<Node, Cell>, w: map<Node, Cell>, t: Tree, c: Path, nil: Node)
    requires t.Fork? && (t.left == Leaf || t.right == Leaf) && At(m, t, c, nil)
    requires var x := OnlyChild(t);
      && w.Keys == m.Keys - {t.node}
      && (x.Fork? ==> x.node in w && x.node in m && w[x.node] == m[x.node].(parent := Parent(c)))
      && (c != Top ==> c.node in w && c.node in m)
      && (c.InLeft? ==> w[c.node] == m[c.node].(left := Ref(x, nil)))
      && (c.InRight? ==> w[c.node] == m[c.node].(right := Ref(x, nil)))
      && (forall n | n in w && n != Ref(x, nil) && n != Parent(c) :: n in m && w[n] == m[n])
    ensures At(w, OnlyChild(t), c, nil)
  {
    var x := OnlyChild(t);
    Reparented(m, w, x, t.node, Parent(c), nil);
    Rehung(m, w, c, t.node, Ref(x, nil), nil);
  }

  class Rbtree {
    var root: Node?
    const NIL: Node
    ghost var nodes: set<Node>
    ghost var tree: Tree

    constructor ()
      ensures Valid() && tree == Leaf && nodes == {} && fresh(NIL)
    {
      NIL := new Node();
      root, nodes, tree := null, {}, Leaf;
      new;
      NIL.color := Black;
    }

    ghost predicate Valid()
      reads this, nodes, NIL
    {
      Holds(tree, Top) && RedBlack(tree) && Sorted(Inorder(tree))
    }

    ghost function Contents(): map<int, int>
      reads this
    {
      MapOf(Inorder(tree))
    }

    /** What the fields of all nodes hold now. */
    ghost function Memory(): (m: map<Node, Cell>)
      reads `nodes, nodes
      ensures m.Keys == nodes
    {
      map n | n in nodes :: n.Now()
    }

    /** The tree t stands at the place c, and this object is the whole of both. */
    ghost predicate Holds(t: Tree, c: Path)
      reads `root, `nodes, nodes, NIL
    {
      At(Memory(), t, c, NIL) && root == RootOf(t, c) && NIL.color == Black
    }

    /** In the whole tree, links down and up agree, and only the root has no parent. */
    lemma ParentLinks(n: Node)
      requires Valid() && n in nodes
      ensures n.leftTree == NIL || (n.leftTree in nodes && n.leftTree.parent == n)
      ensures n.rightTree == NIL || (n.rightTree in nodes && n.rightTree.parent == n)
      ensures n.parent == null <==> n == root
      ensures n.parent != null ==> n.parent in nodes && (n.parent.leftTree == n || n.parent.rightTree == n)
    {
      RepLinked(Memory(), tree, null, NIL, n);
    }

    /** The height of the tree is at most twice the binary logarithm of its size plus one. */
    lemma Balanced()
      requires Valid()
      ensures Pow2((Height(tree) + 1) / 2) <= |nodes| + 1
    {
      hide Rep, RepPath, RedBlack, Once, Height, Size;
      HeightIsLogarithmic(tree);
      NodeCount(tree);
    }

    /** The writes of a right rotation. */
    method SwingRight(p: Node)
      requires p.parent != null && p.rightTree != null && p.parent.rightTree != null
      requires var f, y, g := p.parent, p.rightTree, p.parent.parent;
        && p in nodes && f in nodes && (y == NIL || y in nodes) && (g == null || g in nodes) && NIL !in nodes
        && p != f && p != y && p != g && f != y && f != g && y != g
      modifies this`root, nodes
      ensures var m, f, y, g := old(Memory()), old(p.parent), old(p.rightTree), old(p.parent.parent);
        && Turned(m, Memory(), p, m[p].(right := f, parent := g), f, m[f].(left := y, parent := p), y, g, NIL)
        && root == if old(root) == f then p else old(root)
    {
      var gp := p.Grandparent();
      var fa := p.parent;
      var y := p.rightTree;
      fa.leftTree := y;
      if y != NIL { y.parent := fa; }
      p.rightTree := fa;
      fa.parent := p;
      if root == fa { root := p; }
      p.parent := gp;
      if gp != null {
        if gp.leftTree == fa { gp.leftTree := p; } else { gp.rightTree := p; }
      }
    }

    /** The writes of a left rotation; here a node without a parent is made the root. */
    method SwingLeft(p: Node)
      requires p.parent != null ==>
        && p.leftTree != null && p.parent.leftTree != null
        && var f, y, g := p.parent, p.leftTree, p.parent.parent;
        && p in nodes && f in nodes && (y == NIL || y in nodes) && (g == null || g in nodes) && NIL !in nodes
        && p != f && p != y && p != g && f != y && f != g && y != g
      modifies this`root, nodes
      ensures old(p.parent) == null ==> root == p && Memory() == old(Memory())
      ensures old(p.parent) != null ==>
        var m, f, y, g := old(Memory()), old(p.parent), old(p.leftTree), old(p.parent.parent);
        && Turned(m, Memory(), p, m[p].(left := f, parent := g), f, m[f].(right := y, parent := p), y, g, NIL)
        && root == if old(root) == f then p else old(root)
    {
      if p.parent == null {
        root := p;
        return;
      }
      var gp := p.Grandparent();
      var fa := p.parent;
      var y := p.leftTree;
      fa.rightTree := y;
      if y != NIL { y.parent := fa; }
      p.leftTree := fa;
      fa.parent := p;
      if root == fa { root := p; }
      p.parent := gp;
      if gp != null {
        if gp.leftTree == fa { gp.leftTree := p; } else { gp.rightTree := p; }
      }
    }

    method RotateRight(p: Node, ghost t: Tree, ghost c: Path) returns (ghost t': Tree)
      requires t.Fork? && p == t.node && c.InLeft? && Holds(t, c)
      modifies this`root, nodes
      ensures t' == RotatedRight(t, c) && Holds(t', c.up)
    {
      t' := RotatedRight(t, c);
      ghost var m := Memory();
      assert p.Now() == m[p] && c.node.Now() == m[c.node];
      SwingRight(p);
      TurnedRight(m, Memory(), t, c, NIL);
      TurnedNodes(t, c);
    }

    method RotateLeft(p: Node, ghost t: Tree, ghost c: Path) returns (ghost t': Tree)
      requires t.Fork? && p == t.node && c.InRight? && Holds(t, c)
      modifies this`root, nodes
      ensures t' == RotatedLeft(t, c) && Holds(t', c.up)
    {
      t' := RotatedLeft(t, c);
      ghost var m := Memory();
      assert p.Now() == m[p] && c.node.Now() == m[c.node];
      SwingLeft(p);
      TurnedLeft(m, Memory(), t, c, NIL);
      TurnedNodes(t, c);
    }

    lemma GoUp(t: Tree, c: Path)
      requires c != Top
      ensures Holds(t, c) <==> Holds(Joined(t, c), c.up)
    {
      Climb(Memory(), t, c, NIL);
    }

    lemma GoLeft(t: Tree, c: Path)
      requires t.Fork?
      ensures Holds(t, c) <==> Holds(t.left, DownLeft(t, c))
    {
      GoUp(t.left, DownLeft(t, c));
    }

    lemma GoRight(t: Tree, c: Path)
      requires t.Fork?
      ensures Holds(t, c) <==> Holds(t.right, DownRight(t, c))
    {
      GoUp(t.right, DownRight(t, c));
    }

    method Paint(n: Node, col: Color, ghost t: Tree, ghost c: Path)
      requires t.Fork? && n == t.node && Holds(t, c)
      modifies n`color
      ensures Holds(t.(color := col), c)
    {
      ghost var m := Memory();
      assert n.Now() == m[n];
      n.color := col;
      assert Memory() == m[n := m[n].(color := col)];
      Retouched(m, Memory(), t, c, col, t.pair, NIL);
    }

    method PaintLeft(n: Node, col: Color, ghost t: Tree, ghost c: Path)
      requires t.Fork? && t.left.Fork? && n == t.left.node && Holds(t, c)
      modifies n`color
      ensures Holds(t.(left := t.left.(color := col)), c)
    {
      GoLeft(t, c);
      Paint(n, col, t.left, DownLeft(t, c));
      GoLeft(t.(left := t.left.(color := col)), c);
    }

    method PaintRight(n: Node, col: Color, ghost t: Tree, ghost c: Path)
      requires t.Fork? && t.right.Fork? && n == t.right.node && Holds(t, c)
      modifies n`color
      ensures Holds(t.(right := t.right.(color := col)), c)
    {
      GoRight(t, c);
      Paint(n, col, t.right, DownRight(t, c));
      GoRight(t.(right := t.right.(color := col)), c);
    }

    method PaintAbove(n: Node, col: Color, ghost t: Tree, ghost c: Path)
      requires c != Top && n == c.node && Holds(t, c)
      modifies n`color
      ensures Holds(t, c.(color := col))
    {
      GoUp(t, c);
      Paint(n, col, Joined(t, c), c.up);
      GoUp(t, c.(color := col));
    }

    method PaintOther(n: Node, col: Color, ghost t: Tree, ghost c: Path)
      requires c != Top && c.other.Fork? && n == c.other.node && Holds(t, c)
      modifies n`color
      ensures Holds(t, c.(other := c.other.(color := col)))
    {
      GoUp(t, c);
      ghost var d := if c.InLeft? then DownRight(Joined(t, c), c.up) else DownLeft(Joined(t, c), c.up);
      GoUp(c.other, d);
      Paint(n, col, c.other, d);
      GoUp(c.other.(color := col), d);
      GoUp(t, c.(other := c.other.(color := col)));
    }

    lemma Look(t: Tree, c: Path)
      requires Holds(t, c)
      ensures t.Fork? ==> t.node in nodes && t.node.Now() == Cell(t.color, t.pair, Ref(t.left, NIL), Ref(t.right, NIL), Parent(c))
      ensures c != Top ==> c.node in nodes && c.node.Now().color == c.color && c.node.parent == Parent(c.up)
      ensures c.InLeft? ==> c.node.leftTree == Ref(t, NIL) && c.node.rightTree == Ref(c.other, NIL)
      ensures c.InRight? ==> c.node.rightTree == Ref(t, NIL) && c.node.leftTree == Ref(c.other, NIL)
      ensures c != Top && c.other.Fork? ==> c.other.node in nodes && c.other.node.color == c.other.color
      ensures NIL.color == Black && NIL !in nodes
      ensures Ref(t, NIL) !in PathNodes(c) && (c != Top ==> Ref(t, NIL) != Ref(c.other, NIL) || t == Leaf)
    {
      if t.Fork? { assert t.node.Now() == Memory()[t.node]; }
      if c != Top { assert c.node.Now() == Memory()[c.node]; }
      if c != Top && c.other.Fork? { assert c.other.node.Now() == Memory()[c.other.node]; }
    }

    /** Red parent, red uncle: black is pulled down from the grandparent. */
    method Recolor(p: Node, ghost t: Tree, ghost c: Path) returns (ghost t': Tree)
      requires t.Fork? && p == t.node && c != Top && c.up != Top
      requires c.up.other.Fork? && Holds(t, c)
      modifies nodes`color
      ensures t' == Recolored(t, c) && Holds(t', c.up.up)
    {
      hide Rbtree.Holds;
      Look(t, c);
      ghost var f, g := Joined(t, c), c.up;
      GoUp(t, c);
      Look(f, g);
      PaintOther(p.Uncle(), Black, f, g);
      g := g.(other := g.other.(color := Black));
      Look(f, g);
      Paint(p.parent, Black, f, g);
      f := f.(color := Black);
      PaintAbove(p.Grandparent(), Red, f, g);
      g := g.(color := Red);
      GoUp(f, g);
      t' := Joined(f, g);
    }

    method StraightenLeft(p: Node, ghost t: Tree, ghost c: Path) returns (ghost t': Tree)
      requires t.Fork? && p == t.node && c.InLeft? && c.up.InLeft? && Holds(t, c)
      modifies this`root, nodes
      ensures t' == Straightened(t, c) && Holds(t', c.up.up)
    {
      hide Rbtree.Holds;
      Look(t, c);
      ghost var f, g := Joined(t, c), c.up;
      GoUp(t, c);
      Look(f, g);
      Paint(p.parent, Black, f, g);
      f := f.(color := Black);
      PaintAbove(p.Grandparent(), Red, f, g);
      g := InLeft(g.node, Red, g.pair, g.other, g.up);
      t' := RotateRight(p.parent, f, g);
    }

    method StraightenRight(p: Node, ghost t: Tree, ghost c: Path) returns (ghost t': Tree)
      requires t.Fork? && p == t.node && c.InRight? && c.up.InRight? && Holds(t, c)
      modifies this`root, nodes
      ensures t' == Straightened(t, c) && Holds(t', c.up.up)
    {
      hide Rbtree.Holds;
      Look(t, c);
      ghost var f, g := Joined(t, c), c.up;
      GoUp(t, c);
      Look(f, g);
      Paint(p.parent, Black, f, g);
      f := f.(color := Black);
      PaintAbove(p.Grandparent(), Red, f, g);
      g := InRight(g.node, Red, g.pair, g.other, g.up);
      t' := RotateLeft(p.parent, f, g);
    }

    method LiftLeft(p: Node, ghost t: Tree, ghost c: Path) returns (ghost t': Tree)
      requires t.Fork? && p == t.node && c.InRight? && c.up.InLeft? && Holds(t, c)
      modifies this`root, nodes
      ensures t' == Lifted(t, c) && Holds(t', c.up.up)
    {
      hide Rbtree.Holds;
      t' := RotateLeft(p, t, c);
      t' := RotateRight(p, t', c.up);
      t' := PaintLifted(p, t', c.up.up);
    }

    method LiftRight(p: Node, ghost t: Tree, ghost c: Path) returns (ghost t': Tree)
      requires t.Fork? && p == t.node && c.InLeft? && c.up.InRight? && Holds(t, c)
      modifies this`root, nodes
      ensures t' == Lifted(t, c) && Holds(t', c.up.up)
    {
      hide Rbtree.Holds;
      t' := RotateRight(p, t, c);
      t' := RotateLeft(p, t', c.up);
      t' := PaintLifted(p, t', c.up.up);
    }

    /** A node is painted black and both its children red. */
    method PaintLifted(p: Node, ghost t: Tree, ghost c: Path) returns (ghost t': Tree)
      requires t.Fork? && t.left.Fork? && t.right.Fork? && p == t.node && Holds(t, c)
      modifies nodes
      ensures t' == Fork(t.node, Black, t.pair, t.left.(color := Red), t.right.(color := Red)) && Holds(t', c)
    {
      hide Rbtree.Holds;
      Look(t, c);
      LookDown(t, c);
      Paint(p, Black, t, c);
      t' := t.(color := Black);
      PaintRight(p.rightTree, Red, t', c);
      t' := t'.(right := t.right.(color := Red));
      PaintLeft(p.leftTree, Red, t', c);
      t' := t'.(left := t.left.(color := Red));
    }

    lemma LookDown(t: Tree, c: Path)
      requires t.Fork? && Holds(t, c)
      ensures t.left.Fork? ==> t.left.node in nodes
      ensures t.right.Fork? ==> t.right.node in nodes
    {
    }

    lemma AllTheWayUp(t: Tree, c: Path)
      requires Holds(t, c)
      ensures Holds(Plug(t, c), Top)
    {
      ClimbUp(Memory(), t, c, NIL);
    }

    /** Red parent, black uncle: one or two rotations, by where p and its parent hang. */
    method TurnUp(p: Node, ghost t: Tree, ghost c: Path) returns (ghost t': Tree)
      requires Hot(t, c) && t.Fork? && p == t.node && c != Top && c.color == Red && c.up != Top
      requires ColorOf(c.up.other) == Black && Holds(t, c)
      modifies this`root, nodes
      ensures Holds(t', Top) && RedBlack(t') && Inorder(t') == Content(t, c)
    {
      hide Rbtree.Holds, Hot, Fits, RedBlack, Lifted, Straightened, Content;
      Look(t, c);
      GoUp(t, c);
      Look(Joined(t, c), c.up);
      if p.parent.rightTree == p && p.Grandparent().leftTree == p.parent {
        t' := LiftLeft(p, t, c);
        LiftedFits(t, c);
      } else if p.parent.leftTree == p && p.Grandparent().rightTree == p.parent {
        t' := LiftRight(p, t, c);
        LiftedFits(t, c);
      } else if p.parent.leftTree == p && p.Grandparent().leftTree == p.parent {
        t' := StraightenLeft(p, t, c);
        StraightenedFits(t, c);
      } else if p.parent.rightTree == p && p.Grandparent().rightTree == p.parent {
        t' := StraightenRight(p, t, c);
        StraightenedFits(t, c);
      } else {
        assert false;
      }
      AllTheWayUp(t', c.up.up);
      FitsIsRedBlack(t', c.up.up);
      InorderPlug(t', c.up.up);
      t' := Plug(t', c.up.up);
    }

    method BlackRoot(p: Node, ghost t: Tree)
      requires t.Fork? && p == t.node && Holds(t, Top)
      modifies `root, p`color
      ensures Holds(t.(color := Black), Top)
    {
      root := p;
      Paint(p, Black, t, Top);
    }

    /** `insert_case`: a red node p may be red below red. */
    method InsertCase(p: Node, ghost t: Tree, ghost c: Path) returns (ghost t': Tree)
      requires Hot(t, c) && p == t.node && Holds(t, c)
      modifies this`root, nodes
      ensures Holds(t', Top) && RedBlack(t') && Inorder(t') == Content(t, c)
      ensures c != Top && c.color == Black ==> t' == Plug(t, c)
      decreases c
    {
      hide Rbtree.Holds;
      Look(t, c);
      if p.parent == null {
        BlackRoot(p, t);
        return t.(color := Black);
      }
      if p.parent.color == Red {
        ghost var f := Joined(t, c);
        assert Above(c.up) == Black;
        GoUp(t, c);
        Look(f, c.up);
        var uncle := p.Uncle();
        if uncle.color == Red {
          t' := Recolor(p, t, c);
          RecoloredIsHot(t, c);
          Look(t', c.up.up);
          t' := InsertCase(p.Grandparent(), t', c.up.up);
        } else {
          t' := TurnUp(p, t, c);
        }
      } else {
        t' := Plug(t, c);
        AllTheWayUp(t, c);
        FitsIsRedBlack(t, c);
        InorderPlug(t, c);
      }
    }

    method NewLeaf(p: Node, k: int, v: int) returns (tmp: Node)
      ensures fresh(tmp) && tmp.Now() == Cell(Red, (k, v), NIL, NIL, p)
    {
      tmp := new Node();
      tmp.key := k;
      tmp.value := v;
      tmp.leftTree, tmp.rightTree := NIL, NIL;
      tmp.parent := p;
    }

    method SproutLeft(p: Node, k: int, v: int, ghost t: Tree, ghost c: Path) returns (tmp: Node)
      requires t.Fork? && p == t.node && t.left == Leaf && Holds(t, c)
      modifies `nodes, p`leftTree
      ensures fresh(tmp) && nodes == old(nodes) + {tmp}
      ensures Holds(Fork(tmp, Red, (k, v), Leaf, Leaf), DownLeft(t, c))
    {
      GoLeft(t, c);
      ghost var m := Memory();
      assert m[p] == p.Now();
      tmp := NewLeaf(p, k, v);
      p.leftTree := tmp;
      nodes := nodes + {tmp};
      assert Memory()[p] == p.Now() && Memory()[tmp] == tmp.Now();
      Sprouted(m, Memory(), DownLeft(t, c), tmp, (k, v), NIL);
    }

    method SproutRight(p: Node, k: int, v: int, ghost t: Tree, ghost c: Path) returns (tmp: Node)
      requires t.Fork? && p == t.node && t.right == Leaf && Holds(t, c)
      modifies `nodes, p`rightTree
      ensures fresh(tmp) && nodes == old(nodes) + {tmp}
      ensures Holds(Fork(tmp, Red, (k, v), Leaf, Leaf), DownRight(t, c))
    {
      GoRight(t, c);
      ghost var m := Memory();
      assert m[p] == p.Now();
      tmp := NewLeaf(p, k, v);
      p.rightTree := tmp;
      nodes := nodes + {tmp};
      assert Memory()[p] == p.Now() && Memory()[tmp] == tmp.Now();
      Sprouted(m, Memory(), DownRight(t, c), tmp, (k, v), NIL);
    }

    method SetValue(p: Node, v: int, ghost t: Tree, ghost c: Path)
      requires t.Fork? && p == t.node && Holds(t, c)
      modifies p`value
      ensures Holds(t.(pair := (t.pair.0, v)), c)
    {
      ghost var m := Memory();
      assert m[p] == p.Now();
      p.value := v;
      assert Memory() == m[p := m[p].(pair := (t.pair.0, v))];
      Retouched(m, Memory(), t, c, t.color, (t.pair.0, v), NIL);
    }

    /** `insert` below the node p, on the way to the place of k. */
    method InsertBelow(p: Node, k: int, v: int, ghost t: Tree, ghost c: Path) returns (ghost t': Tree)
      requires t.Fork? && p == t.node && Holds(t, c) && Fits(t, c) && Leads(t, c, k)
      modifies this, nodes
      ensures Holds(t', Top) && RedBlack(t') && Inserted(Content(t, c), Inorder(t'), k, v)
      ensures fresh(nodes - old(nodes)) && old(nodes) <= nodes
      ensures c == Top && Alone(t) && t.pair.0 < k ==> Paired(t', t.pair, false)
      ensures c == Top && Alone(t) && t.pair.0 > k ==> Paired(t', t.pair, true)
      decreases t
    {
      hide Rbtree.Holds, Leads, Inserted, Content, Fits;
      Look(t, c);
      LookDown(t, c);
      LeadsDown(t, c, k);
      FitsDown(t, c);
      if p.key > k {
        ghost var d := DownLeft(t, c);
        JoinedContent(t.left, d);
        if p.leftTree != NIL {
          GoLeft(t, c);
          t' := InsertBelow(p.leftTree, k, v, t.left, d);
        } else {
          var tmp := SproutLeft(p, k, v, t, c);
          SproutIsHot(d, tmp, (k, v));
          InsertedNew(d, k, v, tmp);
          t' := InsertCase(tmp, Fork(tmp, Red, (k, v), Leaf, Leaf), d);
        }
      } else if p.key < k {
        ghost var d := DownRight(t, c);
        JoinedContent(t.right, d);
        if p.rightTree != NIL {
          GoRight(t, c);
          t' := InsertBelow(p.rightTree, k, v, t.right, d);
        } else {
          var tmp := SproutRight(p, k, v, t, c);
          SproutIsHot(d, tmp, (k, v));
          InsertedNew(d, k, v, tmp);
          t' := InsertCase(tmp, Fork(tmp, Red, (k, v), Leaf, Leaf), d);
        }
      } else {
        SetValue(p, v, t, c);
        t' := t.(pair := (k, v));
        InsertedOld(t, c, k, v);
        AllTheWayUp(t', c);
        SameShapeFits(t, c, (k, v));
        FitsIsRedBlack(t', c);
        InorderPlug(t', c);
        t' := Plug(t', c);
      }
    }

    method InsertFirst(x: int, y: int)
      requires Valid() && root == null
      modifies this
      ensures Valid() && Contents() == old(Contents())[x := y]
      ensures fresh(nodes - old(nodes)) && old(nodes) <= nodes
      ensures Alone(tree) && tree.pair == (x, y)
    {
      var r := new Node();
      r.color := Black;
      r.leftTree, r.rightTree := NIL, NIL;
      r.key, r.value := x, y;
      assert nodes == {} && tree == Leaf;
      root, nodes, tree := r, {r}, Fork(r, Black, (x, y), Leaf, Leaf);
      assert Inorder(tree) == [] + [(x, y)] + [];
      assert MapOf([(x, y)]) == map[][x := y];
      assert Memory()[r] == r.Now() && Rep(Memory(), tree, null, NIL);
    }

    /** `insert` */
    method Insert(x: int, y: int)
      requires Valid()
      modifies this, nodes
      ensures Valid() && Contents() == old(Contents())[x := y]
      ensures fresh(nodes - old(nodes)) && old(nodes) <= nodes
      ensures old(root) == null ==> Alone(tree) && tree.pair == (x, y)
      ensures Alone(old(tree)) && x != old(tree).pair.0 ==> Paired(tree, old(tree).pair, x < old(tree).pair.0)
    {
      RootNode(tree);
      if root == null {
        InsertFirst(x, y);
      } else {
        hide Rbtree.Holds;
        assert Inorder(tree) == Content(tree, Top);
        tree := InsertBelow(root, x, y, tree, Top);
      }
    }

    // ------------------------------------------------------------------- removal

    lemma LookAcross(t: Tree, c: Path)
      requires c != Top && c.other.Fork? && Holds(t, c)
      ensures c.other.node in nodes
      ensures c.other.node.leftTree == Ref(c.other.left, NIL) && c.other.node.rightTree == Ref(c.other.right, NIL)
      ensures c.other.node.leftTree.color == ColorOf(c.other.left)
      ensures c.other.node.rightTree.color == ColorOf(c.other.right)
      ensures c.other.left.Fork? ==> c.other.left.node in nodes
      ensures c.other.right.Fork? ==> c.other.right.node in nodes
      ensures Holds(c.other, Sideways(t, c))
    {
      hide Rbtree.Holds;
      var s, d := c.other, Sideways(t, c);
      GoUp(t, c);
      GoUp(s, d);
      Look(s, d);
      GoLeft(s, d);
      Look(s.left, DownLeft(s, d));
      GoRight(s, d);
      Look(s.right, DownRight(s, d));
    }

    /** The sibling is red: it is rotated above the parent. */
    method RaiseSibling(p: Node, ghost t: Tree, ghost c: Path) returns (ghost d: Path)
      requires c != Top && c.other.Fork? && p == Ref(t, NIL) && p.parent == c.node && Holds(t, c)
      modifies this`root, nodes
      ensures d == Raised(c) && Holds(t, d)
    {
      hide Rbtree.Holds;
      Look(t, c);
      PaintAbove(p.parent, Red, t, c);
      ghost var e := c.(color := Red);
      PaintOther(p.Sibling(), Black, t, e);
      e := e.(other := c.other.(color := Black));
      LookAcross(t, e);
      ghost var w;
      if p == p.parent.leftTree {
        w := RotateLeft(p.Sibling(), e.other, Sideways(t, e));
        GoLeft(w, c.up);
        GoLeft(w.left, DownLeft(w, c.up));
      } else {
        w := RotateRight(p.Sibling(), e.other, Sideways(t, e));
        GoRight(w, c.up);
        GoRight(w.right, DownRight(w, c.up));
      }
      d := Raised(c);
    }

    /** The near nephew is red and the far one black: it is rotated above the sibling. */
    method TurnNear(p: Node, ghost t: Tree, ghost c: Path) returns (ghost d: Path)
      requires c != Top && c.other.Fork? && Nephew(c, true).Fork?
      requires p == Ref(t, NIL) && p.parent == c.node && Holds(t, c)
      modifies this`root, nodes
      ensures d == NearTurned(c) && Holds(t, d)
    {
      hide Rbtree.Holds;
      Look(t, c);
      LookAcross(t, c);
      PaintOther(p.Sibling(), Red, t, c);
      ghost var s, n := c.other.(color := Red), Nephew(c, true);
      ghost var e := c.(other := s);
      LookAcross(t, e);
      ghost var w, q;
      if p == p.parent.leftTree {
        PaintLeft(p.Sibling().leftTree, Black, s, Sideways(t, e));
        s := s.(left := n.(color := Black));
        q := DownLeft(s, Sideways(t, e));
        GoLeft(s, Sideways(t, e));
        w := RotateRight(p.Sibling().leftTree, s.left, q);
      } else {
        PaintRight(p.Sibling().rightTree, Black, s, Sideways(t, e));
        s := s.(right := n.(color := Black));
        q := DownRight(s, Sideways(t, e));
        GoRight(s, Sideways(t, e));
        w := RotateLeft(p.Sibling().rightTree, s.right, q);
      }
      d := NearTurned(c);
      GoUp(w, Sideways(t, e));
      GoUp(t, d);
    }

    /** The far nephew is red: it pays for the missing black. */
    method Borrow(p: Node, ghost t: Tree, ghost c: Path) returns (ghost t': Tree)
      requires c != Top && c.other.Fork? && Nephew(c, false).Fork?
      requires p == Ref(t, NIL) && p.parent == c.node && Holds(t, c)
      modifies this`root, nodes
      ensures t' == Borrowed(t, c) && Holds(t', c.up)
    {
      hide Rbtree.Holds;
      Look(t, c);
      LookAcross(t, c);
      PaintOther(p.Sibling(), p.parent.color, t, c);
      ghost var s, f := c.other.(color := c.color), Nephew(c, false);
      ghost var e := c.(other := s);
      PaintAbove(p.parent, Black, t, e);
      e := e.(color := Black);
      LookAcross(t, e);
      ghost var d := Sideways(t, e);
      if p == p.parent.leftTree {
        PaintRight(p.Sibling().rightTree, Black, s, d);
        s := s.(right := f.(color := Black));
        t' := RotateLeft(p.Sibling(), s, d);
      } else {
        PaintLeft(p.Sibling().leftTree, Black, s, d);
        s := s.(left := f.(color := Black));
        t' := RotateRight(p.Sibling(), s, d);
      }
    }

    /** The last branch of `delete_case`: some nephew is red. */
    method DeleteByNephew(p: Node, ghost t: Tree, ghost c: Path) returns (ghost t': Tree)
      requires Short(t, c) && c != Top && ColorOf(c.other) == Black && c.other.Fork?
      requires ColorOf(c.other.left) == Red || ColorOf(c.other.right) == Red
      requires p == Ref(t, NIL) && p.parent == c.node && Holds(t, c)
      modifies this`root, nodes
      ensures Fits(t', c.up) && Holds(t', c.up) && Content(t', c.up) == Content(t, c)
    {
      hide Rbtree.Holds, Short, Fits, Content, Borrowed, NearTurned;
      Look(t, c);
      LookAcross(t, c);
      ghost var d := c;
      if p.Sibling().color == Black {
        if p == p.parent.leftTree && p.Sibling().leftTree.color == Red && p.Sibling().rightTree.color == Black {
          d := TurnNear(p, t, c);
          NearTurnedIsShort(t, c);
        } else if p == p.parent.rightTree && p.Sibling().leftTree.color == Black && p.Sibling().rightTree.color == Red {
          d := TurnNear(p, t, c);
          NearTurnedIsShort(t, c);
        }
      }
      Look(t, d);
      t' := Borrow(p, t, d);
      BorrowedFits(t, d);
    }

    lemma Finish(t: Tree, c: Path)
      requires Fits(t, c) && Holds(t, c)
      ensures Holds(Plug(t, c), Top) && RedBlack(Plug(t, c)) && Inorder(Plug(t, c)) == Content(t, c)
    {
      AllTheWayUp(t, c);
      FitsIsRedBlack(t, c);
      InorderPlug(t, c);
    }

    method Lower(s: Node, ghost t: Tree, ghost c: Path)
      requires c != Top && c.other.Fork? && s == c.other.node && c.color == Black && Holds(t, c)
      modifies s`color
      ensures Holds(Lowered(t, c), c.up)
    {
      hide Rbtree.Holds;
      PaintOther(s, Red, t, c);
      GoUp(t, c.(other := c.other.(color := Red)));
    }

    method LowerUnderRed(s: Node, par: Node, ghost t: Tree, ghost c: Path)
      requires c != Top && c.other.Fork? && s == c.other.node && par == c.node && Holds(t, c)
      modifies s`color, par`color
      ensures Holds(Lowered(t, c), c.up)
    {
      hide Rbtree.Holds;
      PaintOther(s, Red, t, c);
      ghost var e := c.(other := c.other.(color := Red));
      PaintAbove(par, Black, t, e);
      GoUp(t, e.(color := Black));
    }

    /** `delete_case`: the place of p, which may be the shared sentinel, is one black short. */
    method DeleteCase(p: Node, ghost t: Tree, ghost c: Path) returns (ghost t': Tree)
      requires Short(t, c) && p == Ref(t, NIL) && Holds(t, c)
      requires t == Leaf ==> c != Top && NIL.parent == c.node
      modifies this`root, nodes
      ensures Holds(t', Top) && RedBlack(t') && Inorder(t') == Content(t, c)
      decreases c
    {
      hide Rbtree.Holds, Content, Raised, Lowered, Around, Sound;
      Look(t, c);
      if p.parent == null {
        Paint(p, Black, t, c);
        FinishRoot(t);
        return t;
      }
      ShortHasSibling(t, c);
      ghost var d := c;
      if p.Sibling().color == Red {
        d := RaiseSibling(p, t, c);
        RaisedIsShort(t, c);
        ShortHasSibling(t, d);
      }
      Look(t, d);
      LookAcross(t, d);
      LoweredIsShortOrFits(t, d);
      if p.parent.color == Black && p.Sibling().color == Black
         && p.Sibling().leftTree.color == Black && p.Sibling().rightTree.color == Black {
        Lower(p.Sibling(), t, d);
        t' := DeleteCase(p.parent, Lowered(t, d), d.up);
      } else if p.parent.color == Red && p.Sibling().color == Black
         && p.Sibling().leftTree.color == Black && p.Sibling().rightTree.color == Black {
        LowerUnderRed(p.Sibling(), p.parent, t, d);
        Finish(Lowered(t, d), d.up);
        t' := Plug(Lowered(t, d), d.up);
      } else {
        t' := DeleteByNephew(p, t, d);
        Finish(t', d.up);
        t' := Plug(t', d.up);
      }
    }

    lemma FinishRoot(t: Tree)
      requires Short(t, Top)
      ensures RedBlack(t) && Inorder(t) == Content(t, Top)
    {
    }

    lemma ThreeNodes(t: Tree, c: Path)
      requires t.Fork? && Holds(t, c)
      ensures t.node != NIL && t.node != Parent(c) && NIL != Parent(c)
      ensures forall x | x == t.left || x == t.right :: Ref(x, NIL) != t.node && Ref(x, NIL) != Parent(c)
    {
    }

    /** The first half of `delete_one_child` on a node below the root.  The child may be the
        shared sentinel, which then has its parent set. */
    method Bypass(p: Node, ghost t: Tree, ghost c: Path) returns (child: Node)
      requires t.Fork? && p == t.node && (t.left == Leaf || t.right == Leaf) && c != Top && Holds(t, c)
      modifies `nodes, c.node`leftTree, c.node`rightTree, Ref(OnlyChild(t), NIL)`parent
      ensures nodes == old(nodes) - {p} && Holds(OnlyChild(t), c)
      ensures child == Ref(OnlyChild(t), NIL) && child.parent == c.node
    {
      hide AllOnce, Rep, RepPath, Nodes, PathNodes;
      Look(t, c);
      LookDown(t, c);
      ThreeNodes(t, c);
      ghost var m := Memory();
      assert m[c.node] == c.node.Now();
      child := if p.leftTree == NIL then p.rightTree else p.leftTree;
      assert child != NIL ==> m[child] == child.Now();
      if p.parent.leftTree == p { p.parent.leftTree := child; } else { p.parent.rightTree := child; }
      child.parent := p.parent;
      nodes := nodes - {p};
      assert child != p && child != c.node && p != c.node;
      assert Memory()[c.node] == c.node.Now();
      assert child != NIL ==> Memory()[child] == child.Now();
      Bypassed(m, Memory(), t, c, NIL);
    }

    /** `delete_one_child` on the root: its child, if any, becomes the root as it is. */
    method BypassRoot(p: Node, ghost t: Tree)
      requires t.Fork? && p == t.node && (t.left == Leaf || t.right == Leaf) && Holds(t, Top)
      modifies `root, `nodes, Ref(OnlyChild(t), NIL)`parent
      ensures nodes == old(nodes) - {p} && Holds(OnlyChild(t), Top)
    {
      hide AllOnce, Rep, RepPath, Nodes, PathNodes;
      Look(t, Top);
      LookDown(t, Top);
      ThreeNodes(t, Top);
      ghost var m := Memory();
      nodes := nodes - {p};
      if p.leftTree == NIL && p.rightTree == NIL {
        root := null;
      } else {
        var child := if p.leftTree == NIL then p.rightTree else p.leftTree;
        assert m[child] == child.Now();
        child.parent := null;
        root := child;
        assert Memory()[child] == child.Now();
      }
      Bypassed(m, Memory(), t, Top, NIL);
    }

    /** `delete_one_child`: the node p, which has at most one real subtree, goes. */
    method DeleteOneChild(p: Node, ghost t: Tree, ghost c: Path) returns (ghost t': Tree)
      requires t.Fork? && p == t.node && (t.left == Leaf || t.right == Leaf) && Fits(t, c) && Holds(t, c)
      modifies `root, `nodes, nodes, NIL`parent
      ensures nodes == old(nodes) - {p} && Holds(t', Top) && Inorder(t') == Content(OnlyChild(t), c)
      ensures RedBlack(t') <==> !(c == Top && OnlyChild(t).Fork?)
      ensures c == Top ==> t' == OnlyChild(t)
    {
      hide Rbtree.Holds, Content, Sound, Around;
      Look(t, c);
      LookDown(t, c);
      UnlinkedFits(t, c);
      ghost var x := OnlyChild(t);
      if p.parent == null {
        BypassRoot(p, t);
        BareRoot(t);
        return x;
      }
      var child := Bypass(p, t, c);
      Look(x, c);
      if p.color == Black {
        if child.color == Red {
          Paint(child, Black, x, c);
          t' := Plug(x.(color := Black), c);
          Finish(x.(color := Black), c);
          assert Content(x.(color := Black), c) == Content(x, c) by { Recoloring(x, c); }
        } else {
          t' := DeleteCase(child, x, c);
        }
      } else {
        t' := Plug(x, c);
        Finish(x, c);
      }
    }

    lemma Recoloring(x: Tree, c: Path)
      requires x.Fork?
      ensures Content(x.(color := Black), c) == Content(x, c)
    {
    }

    lemma BareRoot(t: Tree)
      requires t.Fork? && (t.left == Leaf || t.right == Leaf) && Fits(t, Top)
      ensures Inorder(OnlyChild(t)) == Content(OnlyChild(t), Top)
      ensures RedBlack(OnlyChild(t)) <==> OnlyChild(t) == Leaf
    {
      UnlinkedFits(t, Top);
    }

    method GetSmallestChild(p: Node, ghost t: Tree, ghost c: Path) returns (q: Node)
      requires t.Fork? && p == t.node && Holds(t, c)
      ensures q == Leftmost(t).node && Holds(Leftmost(t), LeftPath(t, c))
      decreases t
    {
      hide Rbtree.Holds;
      Look(t, c);
      LookDown(t, c);
      if p.leftTree == NIL { return p; }
      GoLeft(t, c);
      q := GetSmallestChild(p.leftTree, t.left, DownLeft(t, c));
    }

    lemma {:induction false} GoLeftmost(t: Tree, c: Path)
      requires t.Fork? && Holds(t, c)
      ensures Holds(Leftmost(t), LeftPath(t, c))
      decreases t
    {
      hide Rbtree.Holds;
      if t.left != Leaf {
        GoLeft(t, c);
        GoLeftmost(t.left, DownLeft(t, c));
      }
    }

    /** The branch of `delete_child` for a key with a right subtree: only the values are swapped. */
    method DeleteNext(p: Node, k: int, ghost t: Tree, ghost c: Path) returns (ghost t': Tree)
      requires t.Fork? && p == t.node && t.pair.0 == k && t.right.Fork? && Fits(t, c) && Holds(t, c) && Leads(t, c, k)
      modifies `root, `nodes, nodes, NIL`parent
      ensures nodes == old(nodes) - {Leftmost(t.right).node} && Holds(t', Top) && RedBlack(t')
      ensures Moved(Content(t, c), Inorder(t'), k, Leftmost(t.right).pair.0)
    {
      hide Rbtree.Holds, Content, Fits, Leads, Moved;
      Look(t, c);
      LookDown(t, c);
      GoRight(t, c);
      var smallest := GetSmallestChild(p.rightTree, t.right, DownRight(t, c));
      ghost var s := Leftmost(t.right);
      Look(s, LeftPath(t.right, DownRight(t, c)));
      var v := p.value;
      SetValue(p, smallest.value, t, c);
      ghost var t1 := t.(pair := (k, s.pair.1));
      GoRight(t1, c);
      GoLeftmost(t.right, DownRight(t1, c));
      ghost var e := LeftPath(t.right, DownRight(t1, c));
      SetValue(smallest, v, s, e);
      SameShapeFits(t, c, (k, s.pair.1));
      FitsDown(t1, c);
      LeftmostContent(t.right, DownRight(t1, c));
      SameShapeFits(s, e, (s.pair.0, v));
      t' := DeleteOneChild(smallest, s.(pair := (s.pair.0, v)), e);
      MovedHere(t, c, k, s, e);
    }

    /** `delete_child` from the node p on.  The key goes exactly if its node has no right subtree, and
        the colours are right unless that node is the root and has only a left one. */
    method DeleteChild(p: Node, k: int, ghost t: Tree, ghost c: Path) returns (found: bool, ghost t': Tree)
      requires t.Fork? && p == t.node && Fits(t, c) && Holds(t, c) && Leads(t, c, k)
      modifies `root, `nodes, nodes, NIL`parent
      ensures Holds(t', Top) && nodes <= old(nodes) && (found <==> Find(t, k).Fork?)
      ensures !found ==> t' == Plug(t, c) && k !in MapOf(Content(t, c)) && RedBlack(t')
      ensures found && Find(t, k).right == Leaf ==> Removed(Content(t, c), Inorder(t'), k)
      ensures found && Find(t, k).right.Fork? ==> Moved(Content(t, c), Inorder(t'), k, Leftmost(Find(t, k).right).pair.0)
      ensures RedBlack(t') <==> !(c == Top && t.pair.0 == k && t.right == Leaf && t.left.Fork?)
      ensures c == Top && t.pair.0 == k && t.right == Leaf ==> t' == t.left
      decreases t
    {
      hide Rbtree.Holds, Content, Fits, Leads, Moved, Removed;
      Look(t, c);
      LookDown(t, c);
      LeadsDown(t, c, k);
      FitsDown(t, c);
      if p.key > k {
        JoinedContent(t.left, DownLeft(t, c));
        if p.leftTree == NIL {
          NotBelow(t, c, k);
          Finish(t, c);
          return false, Plug(t, c);
        }
        GoLeft(t, c);
        found, t' := DeleteChild(p.leftTree, k, t.left, DownLeft(t, c));
      } else if p.key < k {
        JoinedContent(t.right, DownRight(t, c));
        if p.rightTree == NIL {
          NotBelow(t, c, k);
          Finish(t, c);
          return false, Plug(t, c);
        }
        GoRight(t, c);
        found, t' := DeleteChild(p.rightTree, k, t.right, DownRight(t, c));
      } else {
        found := true;
        if p.rightTree == NIL {
          t' := DeleteOneChild(p, t, c);
          RemovedHere(t, c, k);
        } else {
          t' := DeleteNext(p, k, t, c);
        }
      }
    }

    lemma RootNode(t: Tree)
      requires Holds(t, Top)
      ensures root == if t == Leaf then null else t.node
    {
    }

    /** The root holds the pair of the whole tree, and its links tell which subtrees it has. */
    lemma Rooted()
      requires Valid()
      ensures tree.Fork? <==> root != null
      ensures root != null ==> root.key == tree.pair.0 && (root.leftTree == NIL <==> tree.left == Leaf) && (root.rightTree == NIL <==> tree.right == Leaf)
    {
      RootNode(tree);
      if tree.Fork? {
        Look(tree, Top);
        LookDown(tree, Top);
      }
    }

    /** `delete_value`, which needs a root to start from.  The key goes exactly if its node has no
        right subtree, and the tree stays red-black unless the key is at the root and the root has
        only a left child. */
    method DeleteValue(data: int) returns (found: bool)
      requires Valid() && root != null
      modifies this, nodes, NIL`parent
      ensures Holds(tree, Top) && nodes <= old(nodes) && (found <==> data in old(Contents())) && (found <==> Find(old(tree), data).Fork?)
      ensures !found ==> Valid() && tree == old(tree)
      ensures found && Find(old(tree), data).right == Leaf ==> Contents() == old(Contents()) - {data}
      ensures found && Find(old(tree), data).right.Fork? ==>
        Moved(old(Inorder(tree)), Inorder(tree), data, Leftmost(Find(old(tree), data).right).pair.0)
      ensures data in Contents() <==> found && Find(old(tree), data).right.Fork?
      ensures Valid() <==> !(old(root.key) == data && old(root.rightTree) == NIL && old(root.leftTree) != NIL)
      ensures !Valid() ==> RedAlone(tree) && root != null && root.color == Red && root.parent == null
    {
      hide Rbtree.Holds;
      RootNode(tree);
      Look(tree, Top);
      LookDown(tree, Top);
      assert Inorder(tree) == Content(tree, Top);
      ghost var t';
      ghost var t0 := tree;
      found, t' := DeleteChild(root, data, tree, Top);
      tree := t';
      if t0.pair.0 == data && t0.right == Leaf && t0.left.Fork? { OnlyChildRed(t0); Look(tree, Top); RootNode(tree); }
    }
  }

  lemma NextGoes(s: seq<Pair>, s': seq<Pair>, next: int)
    requires MapOf(s) == map[1 := 10, 2 := 20] && Moved(s, s', 1, next)
    ensures MapOf(s') == map[1 := 20]
  {
  }

  /** Deleting the key 1 from a tree with the keys 1 and 2: the key 2 goes. */
  method DeletedKeyStays() returns (t: Rbtree, found: bool)
    ensures found && t.Contents() == map[1 := 20]
  {
    hide Rbtree.Valid, Rbtree.Holds, Moved, Inorder, MapOf, RedBlack, Sorted;
    t := new Rbtree();
    NoKeys();
    t.Rooted();
    t.Insert(1, 10);
    t.Insert(2, 20);
    assert t.Contents() == map[1 := 10, 2 := 20];
    t.Rooted();
    ghost var s, next := Inorder(t.tree), Leftmost(Find(t.tree, 1).right).pair.0;
    found := t.DeleteValue(1);
    NextGoes(s, Inorder(t.tree), next);
  }

  lemma NoKeys()
    ensures MapOf(Inorder(Leaf)) == map[]
  {
  }

  /** Deleting the key 2 from a tree with 2 at the root and 1 below: the tree is not red-black
      any more, its root is red. */
  method DeletedRootLeavesRed() returns (t: Rbtree, found: bool)
    ensures found && t.Contents() == map[1 := 10] && !t.Valid() && fresh(t) && fresh(t.nodes) && fresh(t.NIL)
    ensures t.Holds(t.tree, Top) && RedAlone(t.tree) && t.root != null && t.root == t.tree.node
  {
    hide Rbtree.Valid, Rbtree.Holds, Moved, Inorder, MapOf, RedBlack, Sorted;
    t := new Rbtree();
    NoKeys();
    t.Rooted();
    t.Insert(2, 20);
    t.Insert(1, 10);
    assert t.Contents() == map[1 := 10, 2 := 20];
    t.Rooted();
    found := t.DeleteValue(2);
    assert t.Contents() == map[1 := 10, 2 := 20] - {2};
    t.RootNode(t.tree);
  }

  /** The next key below that red root: its node is red, its parent is red, and there is no uncle, whose
      colour `insert_case` asks for all the same. */
  method NoUncleToAsk() returns (t: Rbtree, tmp: Node)
    ensures t.root != null && t.root.color == Red && tmp.color == Red && tmp.parent == t.root && tmp.Uncle() == null
  {
    hide Rbtree.Valid, Rbtree.Holds;
    var found;
    t, found := DeletedRootLeavesRed();
    t.Look(t.tree, Top);
    ghost var c := DownLeft(t.tree, Top);
    tmp := t.SproutLeft(t.root, 0, 0, t.tree, Top);
    ghost var x := Fork(tmp, Red, (0, 0), Leaf, Leaf);
    t.Look(x, c);
    t.GoUp(x, c);
    t.Look(Joined(x, c), Top);
  }
}
