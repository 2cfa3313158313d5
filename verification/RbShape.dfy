/** The pointer shape of a red-black tree (`include/uv/tree.h`).

    The heap structure is described by a mathematical picture: a `Tree` names the nodes and
    colours of a subtree, a `Path` names everything around a subtree (a zipper).  `Cells` says what
    a picture prescribes for the left, right, parent and colour field of each node. */
module RbShape {
  import opened Ordering

  datatype Colour = Black | Red

  class Node {
    const key: int
    var left: Node?
    var right: Node?
    var parent: Node?
    var colour: Colour

    constructor (key: int)
      ensures this.key == key
    {
      this.key := key;
      left, right, parent, colour := null, null, null, Red;
    }
  }

  datatype Side = L | R

  datatype Tree = Leaf | Fork(node: Node, colour: Colour, left: Tree, right: Tree)

  /** A subtree's surroundings: the parent it hangs from, on which side, with which sibling,
      and the surroundings of that parent. */
  datatype Path = Top | Down(side: Side, node: Node, colour: Colour, sibling: Tree, up: Path)

  ghost function Root(t: Tree): Node? {
    if t.Leaf? then null else t.node
  }

  ghost function Other(side: Side): Side {
    if side == L then R else L
  }

  ghost function Hook(p: Path): Node? {
    if p.Top? then null else p.node
  }

  ghost function Join(side: Side, x: Node, k: Colour, t: Tree, sibling: Tree): Tree {
    if side == L then Fork(x, k, t, sibling) else Fork(x, k, sibling, t)
  }

  ghost function Plug(p: Path, t: Tree): Tree
    decreases p
  {
    match p
    case Top => t
    case Down(side, x, k, sibling, up) => Plug(up, Join(side, x, k, t, sibling))
  }

  /** The path `inner`, continued upwards by `outer`. */
  ghost function Append(inner: Path, outer: Path): Path {
    match inner
    case Top => outer
    case Down(side, x, k, sibling, up) => Down(side, x, k, sibling, Append(up, outer))
  }

  ghost function Depth(p: Path): nat {
    if p.Top? then 0 else 1 + Depth(p.up)
  }

  ghost function Nodes(t: Tree): set<Node> {
    if t.Leaf? then {} else {t.node} + Nodes(t.left) + Nodes(t.right)
  }

  ghost function PathNodes(p: Path): set<Node> {
    if p.Top? then {} else {p.node} + Nodes(p.sibling) + PathNodes(p.up)
  }

  ghost predicate Distinct(t: Tree) {
    t.Fork? ==>
      && t.node !in Nodes(t.left) && t.node !in Nodes(t.right)
      && Nodes(t.left) !! Nodes(t.right)
      && Distinct(t.left) && Distinct(t.right)
  }

  ghost predicate PathDistinct(p: Path) {
    p.Down? ==>
      && p.node !in Nodes(p.sibling) && p.node !in PathNodes(p.up)
      && Nodes(p.sibling) !! PathNodes(p.up)
      && Distinct(p.sibling) && PathDistinct(p.up)
  }

  /** What the four fields of a node hold. */
  datatype Cell = Cell(left: Node?, right: Node?, parent: Node?, colour: Colour)

  /** The fields a picture prescribes for its nodes, when its root hangs below `parent`. */
  ghost function Cells(t: Tree, parent: Node?): (m: map<Node, Cell>)
    ensures m.Keys == Nodes(t)
  {
    if t.Leaf? then map[]
    else (Cells(t.left, t.node) + Cells(t.right, t.node))
         [t.node := Cell(Root(t.left), Root(t.right), parent, t.colour)]
  }

  /** The fields prescribed for the surroundings `p` when the slot they leave open holds `n`. */
  ghost function PathCells(p: Path, n: Node?): (m: map<Node, Cell>)
    ensures m.Keys == PathNodes(p)
  {
    if p.Top? then map[]
    else (PathCells(p.up, p.node) + Cells(p.sibling, p.node))[p.node := HookCell(p, n)]
  }

  ghost function HookCell(p: Path, n: Node?): Cell
    requires p.Down?
  {
    Cell(if p.side == L then n else Root(p.sibling), if p.side == R then n else Root(p.sibling),
         Hook(p.up), p.colour)
  }

  lemma {:induction false} PlugNodes(p: Path, t: Tree)
    ensures Nodes(Plug(p, t)) == Nodes(t) + PathNodes(p)
    decreases p
  {
    if p.Top? {
    } else {
      PlugNodes(p.up, Join(p.side, p.node, p.colour, t, p.sibling));
    }
  }

  lemma {:induction false} PlugDistinct(p: Path, t: Tree)
    ensures Distinct(Plug(p, t)) <==> Distinct(t) && PathDistinct(p) && Nodes(t) !! PathNodes(p)
    decreases p
  {
    if p.Top? {
    } else {
      PlugDistinct(p.up, Join(p.side, p.node, p.colour, t, p.sibling));
    }
  }

  lemma JoinCells(side: Side, x: Node, k: Colour, t: Tree, sibling: Tree, parent: Node?)
    requires Distinct(Join(side, x, k, t, sibling))
    ensures Cells(Join(side, x, k, t, sibling), parent) ==
            (Cells(sibling, x) + Cells(t, x))[x := Cell(if side == L then Root(t) else Root(sibling),
                                                        if side == R then Root(t) else Root(sibling),
                                                        parent, k)]
  {
    assert Cells(sibling, x) + Cells(t, x) == Cells(t, x) + Cells(sibling, x);
  }

  lemma MergeLater<K, V>(a: map<K, V>, b: map<K, V>, c: map<K, V>, x: K, v: V)
    requires x !in c
    ensures a + (b + c)[x := v] == (a + b)[x := v] + c
  {
  }

  lemma {:induction false} PlugCells(p: Path, t: Tree)
    requires Distinct(Plug(p, t))
    ensures Cells(Plug(p, t), null) == PathCells(p, Root(t)) + Cells(t, Hook(p))
    decreases p
  {
    if p.Top? {
    } else {
      var x, j := p.node, Join(p.side, p.node, p.colour, t, p.sibling);
      PlugCells(p.up, j);
      PlugDistinct(p.up, j);
      JoinCells(p.side, x, p.colour, t, p.sibling, Hook(p.up));
      MergeLater(PathCells(p.up, x), Cells(p.sibling, x), Cells(t, x), x, HookCell(p, Root(t)));
    }
  }

  /** Putting another tree into the slot rewrites one child pointer, that of the hook. */
  lemma PathCellsSlot(p: Path, n: Node?, n': Node?)
    requires PathDistinct(p)
    ensures PathCells(p, n') == if p.Top? then map[] else PathCells(p, n)[p.node := HookCell(p, n')]
  {
  }

  /** Moving a tree below another parent rewrites one parent pointer, that of its root. */
  lemma CellsReparent(t: Tree, x: Node?, y: Node?)
    ensures Cells(t, y) == if t.Leaf? then map[] else Cells(t, x)[t.node := Cells(t, x)[t.node].(parent := y)]
  {
  }

  lemma {:induction false} PlugAppend(inner: Path, outer: Path, t: Tree)
    ensures Plug(Append(inner, outer), t) == Plug(outer, Plug(inner, t))
    decreases inner
  {
    if inner.Top? {
    } else {
      PlugAppend(inner.up, outer, Join(inner.side, inner.node, inner.colour, t, inner.sibling));
    }
  }

  lemma {:induction false} PlugRoot(p: Path, t: Tree)
    ensures p.Top? ==> Root(Plug(p, t)) == Root(t)
    ensures p.Down? ==> Root(Plug(p, t)) == Root(Plug(p, Leaf)) && Root(Plug(p, t)) in PathNodes(p)
    decreases p
  {
    if p.Top? {
    } else {
      PlugRoot(p.up, Join(p.side, p.node, p.colour, t, p.sibling));
      PlugRoot(p.up, Join(p.side, p.node, p.colour, Leaf, p.sibling));
    }
  }

  /** The picture around `p` and `t`, read off cell by cell. */
  lemma Unplug(p: Path, t: Tree)
    requires Distinct(Plug(p, t))
    ensures Nodes(Plug(p, t)) == Nodes(t) + PathNodes(p) && Nodes(t) !! PathNodes(p)
    ensures Distinct(t) && PathDistinct(p)
    ensures Cells(Plug(p, t), null) == PathCells(p, Root(t)) + Cells(t, Hook(p))
  {
    PlugNodes(p, t);
    PlugDistinct(p, t);
    PlugCells(p, t);
  }

  lemma {:induction false} AppendNodes(inner: Path, outer: Path)
    ensures PathNodes(Append(inner, outer)) == PathNodes(inner) + PathNodes(outer)
    decreases inner
  {
    if inner.Top? {
    } else {
      AppendNodes(inner.up, outer);
    }
  }

  lemma HookAppend(inner: Path, outer: Path)
    requires outer.Down?
    ensures Hook(Append(inner, outer)) == if inner.Top? then outer.node else inner.node
  {
  }

  lemma HookApart(inner: Path, outer: Path, t: Tree)
    requires outer.Down? && inner.Down? && Distinct(Plug(Append(inner, outer), t))
    ensures inner.node != outer.node
  {
    PlugDistinct(Append(inner, outer), t);
    AppendNodes(inner.up, outer);
  }

  /** Every node of a tree can be brought into focus. */
  lemma {:induction false} Focus(t: Tree, x: Node) returns (p: Path, s: Tree)
    requires x in Nodes(t)
    ensures s.Fork? && s.node == x && Plug(p, s) == t
    decreases t
  {
    if t.node == x {
      p, s := Top, t;
    } else if x in Nodes(t.left) {
      p, s := Focus(t.left, x);
      PlugAppend(p, Down(L, t.node, t.colour, t.right, Top), s);
      p := Append(p, Down(L, t.node, t.colour, t.right, Top));
    } else {
      p, s := Focus(t.right, x);
      PlugAppend(p, Down(R, t.node, t.colour, t.left, Top), s);
      p := Append(p, Down(R, t.node, t.colour, t.left, Top));
    }
  }

  // ---------- in-order sequence ----------

  ghost function Inorder(t: Tree): seq<Node> {
    if t.Leaf? then [] else Inorder(t.left) + [t.node] + Inorder(t.right)
  }

  ghost function Before(p: Path): seq<Node> {
    if p.Top? then []
    else Before(p.up) + (if p.side == R then Inorder(p.sibling) + [p.node] else [])
  }

  ghost function After(p: Path): seq<Node> {
    if p.Top? then []
    else (if p.side == L then [p.node] + Inorder(p.sibling) else []) + After(p.up)
  }

  lemma {:induction false} PlugInorder(p: Path, t: Tree)
    ensures Inorder(Plug(p, t)) == Before(p) + Inorder(t) + After(p)
    decreases p
  {
    if p.Top? {
    } else {
      PlugInorder(p.up, Join(p.side, p.node, p.colour, t, p.sibling));
    }
  }

  lemma SameInorder(p: Path, t: Tree, t': Tree)
    requires Inorder(t) == Inorder(t')
    ensures Inorder(Plug(p, t)) == Inorder(Plug(p, t'))
  {
    PlugInorder(p, t);
    PlugInorder(p, t');
  }

  lemma {:induction false} InorderNodes(t: Tree, x: Node)
    ensures x in Inorder(t) <==> x in Nodes(t)
    decreases t
  {
    if t.Leaf? {
    } else {
      InorderNodes(t.left, x);
      InorderNodes(t.right, x);
    }
  }

  ghost function Key(n: Node): int {
    n.key
  }

  ghost predicate Sorted(s: seq<Node>) {
    Increasing(s, Key)
  }

  /** The nodes before the slot of `p` are below `key`, those after it above. */
  ghost predicate Brackets(p: Path, key: int) {
    AllBelow(Before(p), Key, key) && AllAbove(After(p), Key, key)
  }

  lemma RegroupAround(a: seq<Node>, b: seq<Node>, x: Node, c: seq<Node>, d: seq<Node>)
    ensures a + (b + [x] + c) + d == (a + b) + [x] + (c + d)
  {
  }

  lemma AroundFocus(p: Path, t: Tree)
    requires t.Fork?
    ensures Inorder(Plug(p, t)) == (Before(p) + Inorder(t.left)) + [t.node] + (Inorder(t.right) + After(p))
  {
    PlugInorder(p, t);
    RegroupAround(Before(p), Inorder(t.left), t.node, Inorder(t.right), After(p));
  }

  lemma BelowMore(a: seq<Node>, b: seq<Node>, x: Node, key: int)
    requires AllBelow(a, Key, key) && AllBelow(b, Key, x.key) && x.key < key
    ensures AllBelow(a + (b + [x]), Key, key)
  {
  }

  lemma AboveMore(x: Node, a: seq<Node>, b: seq<Node>, key: int)
    requires AllAbove(b, Key, key) && AllAbove(a, Key, x.key) && key < x.key
    ensures AllAbove([x] + a + b, Key, key)
  {
  }

  lemma PartBelow(a: seq<Node>, b: seq<Node>, key: int)
    ensures AllBelow(a + b, Key, key) <==> AllBelow(a, Key, key) && AllBelow(b, Key, key)
    ensures AllAbove(a + b, Key, key) <==> AllAbove(a, Key, key) && AllAbove(b, Key, key)
  {
    assert forall n :: n in a + b <==> n in a || n in b;
  }

  lemma Descend(p: Path, t: Tree, key: int)
    requires t.Fork? && Sorted(Inorder(Plug(p, t))) && Brackets(p, key)
    ensures key < t.node.key ==> Brackets(Down(L, t.node, t.colour, t.right, p), key)
    ensures t.node.key < key ==> Brackets(Down(R, t.node, t.colour, t.left, p), key)
  {
    var l, r := Inorder(t.left), Inorder(t.right);
    AroundFocus(p, t);
    Around(Before(p) + l, t.node, r + After(p), Key);
    PartBelow(Before(p), l, t.node.key);
    PartBelow(r, After(p), t.node.key);
    if key < t.node.key {
      AboveMore(t.node, r, After(p), key);
      assert Before(p) + [] == Before(p);
    } else if t.node.key < key {
      BelowMore(Before(p), l, t.node, key);
      assert [] + After(p) == After(p);
    }
  }

  lemma Located(p: Path, t: Tree, key: int)
    requires Brackets(p, key)
    ensures t.Fork? ==> t.node in Inorder(Plug(p, t))
    ensures t.Leaf? ==> forall n :: n in Inorder(Plug(p, t)) ==> n.key != key
  {
    PlugInorder(p, t);
    if t.Fork? {
      AroundFocus(p, t);
    }
  }

  lemma DropThird(a: seq<Node>, x: Node, y: Node, r: seq<Node>, b: seq<Node>)
    ensures Lacks(a + [x] + ([y] + r + b), x, a + [y] + (r + b))
  {
    Drop(a, x, [y] + r + b);
    assert a + ([y] + r + b) == a + [y] + (r + b);
  }

  lemma Regroup(a: seq<Node>, b: seq<Node>, c: seq<Node>, d: seq<Node>)
    ensures a + (b + c) + d == (a + b) + (c + d)
  {
  }

  lemma SortedWithout(was: seq<Node>, x: Node, now: seq<Node>)
    requires Sorted(was) && Lacks(was, x, now)
    ensures Sorted(now) && x !in now
    ensures forall n :: n in was <==> n in now || n == x
  {
    var i :| 0 <= i < |was| && was[i] == x && now == was[..i] + was[i + 1..];
    var a, b := was[..i], was[i + 1..];
    assert was == a + [x] + b;
    Around(a, x, b, Key);
    TakenOut(a, x, b, Key);
  }

  lemma NothingBetween(a: seq<Node>, b: seq<Node>)
    ensures a + [] + b == a + b
  {
  }

  /** A new leaf in a slot that brackets its key. */
  lemma LinkInorder(p: Path, s: Tree)
    requires s.Fork? && s.left.Leaf? && s.right.Leaf?
    requires Sorted(Inorder(Plug(p, Leaf))) && Brackets(p, s.node.key)
    ensures Sorted(Inorder(Plug(p, s)))
    ensures Lacks(Inorder(Plug(p, s)), s.node, Inorder(Plug(p, Leaf)))
  {
    PlugInorder(p, Leaf);
    PlugInorder(p, s);
    assert Inorder(s) == [s.node];
    NothingBetween(Before(p), After(p));
    Placed(Before(p), s.node, After(p), Key);
  }
}
