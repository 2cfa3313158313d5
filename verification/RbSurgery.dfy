/** Rotations and recolourings of a picture, cell by cell. */
module RbSurgery {
  import opened RbShape

  ghost function Spun(side: Side, x: Node, k: Colour, a: Tree, y: Node, k': Colour, b: Tree, c: Tree): Tree {
    Join(side, y, k', Join(side, x, k, a, b), c)
  }

  ghost function Unspun(side: Side, x: Node, k: Colour, a: Tree, y: Node, k': Colour, b: Tree, c: Tree): Tree {
    Join(side, x, k, a, Join(side, y, k', b, c))
  }

  lemma JoinSets(side: Side, x: Node, k: Colour, t: Tree, sibling: Tree)
    ensures Nodes(Join(side, x, k, t, sibling)) == {x} + Nodes(t) + Nodes(sibling)
    ensures Distinct(Join(side, x, k, t, sibling)) <==>
            && x !in Nodes(t) && x !in Nodes(sibling) && Nodes(t) !! Nodes(sibling)
            && Distinct(t) && Distinct(sibling)
  {
  }

  lemma SpinSets(side: Side, x: Node, k: Colour, a: Tree, y: Node, k': Colour, b: Tree, c: Tree)
    requires Distinct(Unspun(side, x, k, a, y, k', b, c))
    ensures x != y && x !in Nodes(a) + Nodes(b) + Nodes(c) && y !in Nodes(a) + Nodes(b) + Nodes(c)
    ensures Nodes(a) !! Nodes(b) !! Nodes(c)
    ensures Distinct(a) && Distinct(b) && Distinct(c)
    ensures Nodes(Unspun(side, x, k, a, y, k', b, c)) == {x, y} + Nodes(a) + Nodes(b) + Nodes(c)
  {
    JoinSets(side, x, k, a, Join(side, y, k', b, c));
    JoinSets(side, y, k', b, c);
  }

  lemma SpunSets(side: Side, x: Node, k: Colour, a: Tree, y: Node, k': Colour, b: Tree, c: Tree)
    requires x != y && x !in Nodes(a) + Nodes(b) + Nodes(c) && y !in Nodes(a) + Nodes(b) + Nodes(c)
    requires Nodes(a) !! Nodes(b) !! Nodes(c)
    requires Distinct(a) && Distinct(b) && Distinct(c)
    ensures Distinct(Spun(side, x, k, a, y, k', b, c))
    ensures Nodes(Spun(side, x, k, a, y, k', b, c)) == {x, y} + Nodes(a) + Nodes(b) + Nodes(c)
  {
    JoinSets(side, y, k', Join(side, x, k, a, b), c);
    JoinSets(side, x, k, a, b);
  }

  ghost function SideCell(side: Side, inner: Node?, outer: Node?, parent: Node?, k: Colour): Cell {
    Cell(if side == L then inner else outer, if side == L then outer else inner, parent, k)
  }

  lemma NestMaps<K, V>(a: map<K, V>, b: map<K, V>, c: map<K, V>, x: K, u: V, y: K, v: V)
    requires x != y && y !in a && x !in c && b.Keys !! c.Keys !! a.Keys
    ensures ((c + b)[y := v] + a)[x := u] == (a + b + c)[x := u][y := v]
    ensures (c + (b + a)[x := u])[y := v] == (a + b + c)[x := u][y := v]
  {
  }

  lemma UnspunCells(side: Side, x: Node, k: Colour, a: Tree, y: Node, k': Colour, b: Tree, c: Tree, up: Node?)
    requires Distinct(Unspun(side, x, k, a, y, k', b, c))
    ensures Cells(Unspun(side, x, k, a, y, k', b, c), up) ==
            (Cells(a, x) + Cells(b, y) + Cells(c, y))
              [x := SideCell(side, Root(a), y, up, k)][y := SideCell(side, Root(b), Root(c), x, k')]
  {
    SpinSets(side, x, k, a, y, k', b, c);
    var j := Join(side, y, k', b, c);
    assert Distinct(j);
    JoinCells(side, x, k, a, j, up);
    JoinCells(side, y, k', b, c, x);
    NestMaps(Cells(a, x), Cells(b, y), Cells(c, y), x, SideCell(side, Root(a), y, up, k),
             y, SideCell(side, Root(b), Root(c), x, k'));
  }

  lemma SpunCells(side: Side, x: Node, k: Colour, a: Tree, y: Node, k': Colour, b: Tree, c: Tree, up: Node?)
    requires Distinct(Unspun(side, x, k, a, y, k', b, c))
    ensures Cells(Spun(side, x, k, a, y, k', b, c), up) ==
            (Cells(a, x) + Cells(b, x) + Cells(c, y))
              [x := SideCell(side, Root(a), Root(b), y, k)][y := SideCell(side, x, Root(c), up, k')]
  {
    SpinSets(side, x, k, a, y, k', b, c);
    SpunSets(side, x, k, a, y, k', b, c);
    var j := Join(side, x, k, a, b);
    assert Distinct(j);
    JoinCells(side, y, k', j, c, up);
    JoinCells(side, x, k, a, b, y);
    NestMaps(Cells(a, x), Cells(b, x), Cells(c, y), x, SideCell(side, Root(a), Root(b), y, k),
             y, SideCell(side, x, Root(c), up, k'));
  }

  /** `b` with the parent field of the node `r`, if any, replaced. */
  ghost function SetParent(m: map<Node, Cell>, r: Node?, parent: Node?): map<Node, Cell>
    requires r == null || r in m
  {
    if r == null then m else m[r := m[r].(parent := parent)]
  }

  lemma SpinMaps(a: map<Node, Cell>, b: map<Node, Cell>, c: map<Node, Cell>, r: Node?, x: Node, y: Node,
                 u: Cell, v: Cell, u': Cell, v': Cell)
    requires r == null || r in b
    requires x !in b && y !in b && c.Keys !! b.Keys
    ensures (a + SetParent(b, r, x) + c)[x := u'][y := v'] ==
            SetParent((a + b + c)[x := u][y := v], r, x)[x := u'][y := v']
  {
  }

  /** A rotation swaps `x` and `y` and moves `b` from `y` to `x`: three cells change, no other. */
  lemma SpinLocal(side: Side, x: Node, k: Colour, a: Tree, y: Node, k': Colour, b: Tree, c: Tree, up: Node?)
    requires Distinct(Unspun(side, x, k, a, y, k', b, c))
    ensures var m := Cells(Unspun(side, x, k, a, y, k', b, c), up);
            var m' := Cells(Spun(side, x, k, a, y, k', b, c), up);
            && x in m && y in m && (b.Fork? ==> b.node in m)
            && m[x] == SideCell(side, Root(a), y, up, k)
            && m[y] == SideCell(side, Root(b), Root(c), x, k')
            && m' == SetParent(m, Root(b), x)
                       [x := SideCell(side, Root(a), Root(b), y, k)]
                       [y := SideCell(side, x, Root(c), up, k')]
  {
    SpinSets(side, x, k, a, y, k', b, c);
    UnspunCells(side, x, k, a, y, k', b, c, up);
    SpunCells(side, x, k, a, y, k', b, c, up);
    CellsReparent(b, y, x);
    SpinMaps(Cells(a, x), Cells(b, y), Cells(c, y), Root(b), x, y,
             SideCell(side, Root(a), y, up, k), SideCell(side, Root(b), Root(c), x, k'),
             SideCell(side, Root(a), Root(b), y, k), SideCell(side, x, Root(c), up, k'));
  }

  /** `m` with the slot of the path `p`, if it has a hook, holding `n`. */
  ghost function SetSlot(m: map<Node, Cell>, p: Path, n: Node?): map<Node, Cell> {
    if p.Top? then m else m[p.node := HookCell(p, n)]
  }

  lemma SpinBelow(o: map<Node, Cell>, m: map<Node, Cell>, p: Path, r: Node?, x: Node, y: Node, u: Cell, v: Cell)
    requires r == null || r in m
    requires p.Down? ==> p.node !in m && p.node != x && p.node != y
    requires o.Keys !! m.Keys
    ensures SetSlot(o, p, y) + SetParent(m, r, x)[x := u][y := v] ==
            SetParent(SetSlot(o + m, p, y), r, x)[x := u][y := v]
  {
  }

  lemma SpinCells(p: Path, side: Side, x: Node, k: Colour, a: Tree, y: Node, k': Colour, b: Tree, c: Tree)
    requires Distinct(Plug(p, Unspun(side, x, k, a, y, k', b, c)))
    ensures Distinct(Plug(p, Spun(side, x, k, a, y, k', b, c)))
    ensures var m := Cells(Plug(p, Unspun(side, x, k, a, y, k', b, c)), null);
            var m' := Cells(Plug(p, Spun(side, x, k, a, y, k', b, c)), null);
            && x in m && y in m && (b.Fork? ==> b.node in m) && (p.Down? ==> p.node in m)
            && m[x] == SideCell(side, Root(a), y, Hook(p), k)
            && m[y] == SideCell(side, Root(b), Root(c), x, k')
            && (p.Down? ==> m[p.node] == HookCell(p, x) && p.node != x && p.node != y && p.node != Root(b))
            && (b.Fork? ==> b.node != x && b.node != y) && x != y
            && m' == SetParent(SetSlot(m, p, y), Root(b), x)
                       [x := SideCell(side, Root(a), Root(b), y, k)]
                       [y := SideCell(side, x, Root(c), Hook(p), k')]
  {
    var t, t' := Unspun(side, x, k, a, y, k', b, c), Spun(side, x, k, a, y, k', b, c);
    Unplug(p, t);
    SpinSets(side, x, k, a, y, k', b, c);
    SpunSets(side, x, k, a, y, k', b, c);
    PlugDistinct(p, t');
    Unplug(p, t');
    SpinLocal(side, x, k, a, y, k', b, c, Hook(p));
    PathCellsSlot(p, x, y);
    SpinBelow(PathCells(p, x), Cells(t, Hook(p)), p, Root(b), x, y,
              SideCell(side, Root(a), Root(b), y, k), SideCell(side, x, Root(c), Hook(p), k'));
  }

  /** The cells when the slot below `parent` that held `elm` holds `child`. */
  ghost function Rehung(m: map<Node, Cell>, parent: Node?, elm: Node?, child: Node?): (r: map<Node, Cell>)
    requires parent != null ==> parent in m
    ensures r.Keys == m.Keys
  {
    if parent == null then m
    else if m[parent].left == elm then m[parent := m[parent].(left := child)]
    else m[parent := m[parent].(right := child)]
  }

  lemma SlotRehung(m: map<Node, Cell>, p: Path, x: Node, n: Node?)
    requires p.Down? ==> p.node in m && m[p.node] == HookCell(p, x) && x != Root(p.sibling)
    ensures SetSlot(m, p, n) == Rehung(m, Hook(p), x, n)
  {
  }

  ghost predicate CanTurnLeft(m: map<Node, Cell>, x: Node) {
    && x in m
    && var y, u := m[x].right, m[x].parent;
    && y != null && y in m && y != x
    && var b := m[y].left;
    && (b != null ==> b in m && b != x && b != y)
    && (u != null ==> u in m && u != x && u != y && u != b)
  }

  /** The cells after rotating left at `x`. */
  ghost function TurnedLeft(m: map<Node, Cell>, x: Node): (r: map<Node, Cell>)
    requires CanTurnLeft(m, x)
    ensures r.Keys == m.Keys
  {
    var y, u := m[x].right, m[x].parent;
    var b := m[y].left;
    map n | n in m ::
      if n == x then m[x].(right := b, parent := y)
      else if n == y then m[y].(left := x, parent := u)
      else if n == b then m[b].(parent := x)
      else if n == u then if m[u].left == x then m[u].(left := y) else m[u].(right := y)
      else m[n]
  }

  ghost predicate CanTurnRight(m: map<Node, Cell>, x: Node) {
    && x in m
    && var y, u := m[x].left, m[x].parent;
    && y != null && y in m && y != x
    && var b := m[y].right;
    && (b != null ==> b in m && b != x && b != y)
    && (u != null ==> u in m && u != x && u != y && u != b)
  }

  /** The cells after rotating right at `x`. */
  ghost function TurnedRight(m: map<Node, Cell>, x: Node): (r: map<Node, Cell>)
    requires CanTurnRight(m, x)
    ensures r.Keys == m.Keys
  {
    var y, u := m[x].left, m[x].parent;
    var b := m[y].right;
    map n | n in m ::
      if n == x then m[x].(left := b, parent := y)
      else if n == y then m[y].(right := x, parent := u)
      else if n == b then m[b].(parent := x)
      else if n == u then if m[u].left == x then m[u].(left := y) else m[u].(right := y)
      else m[n]
  }

  lemma TurnedLeftUpdates(m: map<Node, Cell>, x: Node)
    requires CanTurnLeft(m, x)
    ensures var y, u := m[x].right, m[x].parent;
            var b := m[y].left;
            TurnedLeft(m, x) == SetParent(Rehung(m, u, x, y), b, x)
                                 [x := m[x].(right := b, parent := y)][y := m[y].(left := x, parent := u)]
  {
  }

  lemma TurnLeftPicture(p: Path, t: Tree)
    requires Distinct(Plug(p, t)) && t.Fork? && t.right.Fork?
    ensures var r := t.right;
            var t' := Spun(L, t.node, t.colour, t.left, r.node, r.colour, r.left, r.right);
            var m := Cells(Plug(p, t), null);
            && Distinct(Plug(p, t')) && CanTurnLeft(m, t.node)
            && m[t.node].right == r.node && m[t.node].parent == Hook(p)
            && Cells(Plug(p, t'), null) == TurnedLeft(m, t.node)
            && Root(Plug(p, t')) == if p.Top? then r.node else Root(Plug(p, t))
  {
    var r := t.right;
    SpinCells(p, L, t.node, t.colour, t.left, r.node, r.colour, r.left, r.right);
    if p.Down? {
      Unplug(p, t);
    }
    SlotRehung(Cells(Plug(p, t), null), p, t.node, r.node);
    TurnedLeftUpdates(Cells(Plug(p, t), null), t.node);
    PlugRoot(p, t);
    PlugRoot(p, Spun(L, t.node, t.colour, t.left, r.node, r.colour, r.left, r.right));
  }

  lemma TurnedRightUpdates(m: map<Node, Cell>, x: Node)
    requires CanTurnRight(m, x)
    ensures var y, u := m[x].left, m[x].parent;
            var b := m[y].right;
            TurnedRight(m, x) == SetParent(Rehung(m, u, x, y), b, x)
                                 [x := m[x].(left := b, parent := y)][y := m[y].(right := x, parent := u)]
  {
  }

  lemma TurnRightPicture(p: Path, t: Tree)
    requires Distinct(Plug(p, t)) && t.Fork? && t.left.Fork?
    ensures var r := t.left;
            var t' := Spun(R, t.node, t.colour, t.right, r.node, r.colour, r.right, r.left);
            var m := Cells(Plug(p, t), null);
            && Distinct(Plug(p, t')) && CanTurnRight(m, t.node)
            && m[t.node].left == r.node && m[t.node].parent == Hook(p)
            && Cells(Plug(p, t'), null) == TurnedRight(m, t.node)
            && Root(Plug(p, t')) == if p.Top? then r.node else Root(Plug(p, t))
  {
    var r := t.left;
    SpinCells(p, R, t.node, t.colour, t.right, r.node, r.colour, r.right, r.left);
    if p.Down? {
      Unplug(p, t);
    }
    SlotRehung(Cells(Plug(p, t), null), p, t.node, r.node);
    TurnedRightUpdates(Cells(Plug(p, t), null), t.node);
    PlugRoot(p, t);
    PlugRoot(p, Spun(R, t.node, t.colour, t.right, r.node, r.colour, r.right, r.left));
  }

  lemma PaintCells(t: Tree, up: Node?, k: Colour)
    requires t.Fork?
    ensures Cells(t.(colour := k), up) == Cells(t, up)[t.node := Cells(t, up)[t.node].(colour := k)]
    ensures Nodes(t.(colour := k)) == Nodes(t) && t.node in Nodes(t)
    ensures Distinct(t) ==> Distinct(t.(colour := k))
  {
  }

  lemma UpdateLater<K, V>(a: map<K, V>, b: map<K, V>, x: K, v: V)
    ensures a + b[x := v] == (a + b)[x := v]
  {
  }

  lemma PaintPicture(p: Path, t: Tree, k: Colour)
    requires Distinct(Plug(p, t)) && t.Fork?
    ensures var pic, pic' := Plug(p, t), Plug(p, t.(colour := k));
            && Distinct(pic') && Nodes(pic') == Nodes(pic) && Root(pic') == Root(pic) && t.node in Nodes(pic)
            && Cells(pic', null) == Cells(pic, null)[t.node := Cells(pic, null)[t.node].(colour := k)]
  {
    var t' := t.(colour := k);
    PaintCells(t, Hook(p), k);
    PlugNodes(p, t);
    PlugNodes(p, t');
    PlugDistinct(p, t);
    PlugDistinct(p, t');
    PlugCells(p, t);
    PlugCells(p, t');
    UpdateLater(PathCells(p, t.node), Cells(t, Hook(p)), t.node, Cells(t, Hook(p))[t.node].(colour := k));
    PlugRoot(p, t);
    PlugRoot(p, t');
  }

  /** Rotating and recolouring keep the in-order sequence. */
  lemma SpinInorder(side: Side, x: Node, k: Colour, j: Colour, a: Tree, y: Node, k': Colour, j': Colour, b: Tree, c: Tree)
    ensures Inorder(Unspun(side, x, k, a, y, k', b, c)) == Inorder(Spun(side, x, j, a, y, j', b, c))
  {
    var p, q, r := Inorder(a), Inorder(b), Inorder(c);
    if side == L {
      assert p + [x] + (q + [y] + r) == p + [x] + q + [y] + r;
    } else {
      assert r + [y] + (q + [x] + p) == r + [y] + q + [x] + p;
    }
  }

  lemma LinkSets(p: Path, x: Node)
    requires Distinct(Plug(p, Leaf)) && x !in Nodes(Plug(p, Leaf))
    ensures Distinct(Plug(p, Fork(x, Red, Leaf, Leaf)))
    ensures Nodes(Plug(p, Fork(x, Red, Leaf, Leaf))) == Nodes(Plug(p, Leaf)) + {x}
  {
    PlugNodes(p, Leaf);
    PlugNodes(p, Fork(x, Red, Leaf, Leaf));
    PlugDistinct(p, Leaf);
    PlugDistinct(p, Fork(x, Red, Leaf, Leaf));
  }

  lemma LeafMaps(o: map<Node, Cell>, p: Path, x: Node, c: Cell)
    requires p.Down? ==> p.node in o
    ensures SetSlot(o, p, x) + map[x := c] == SetSlot(o + map[], p, x)[x := c]
    ensures o + map[] == o
  {
  }

  lemma LinkPicture(p: Path, x: Node)
    requires Distinct(Plug(p, Leaf)) && x !in Nodes(Plug(p, Leaf))
    ensures var pic, pic' := Plug(p, Leaf), Plug(p, Fork(x, Red, Leaf, Leaf));
            && Root(pic') == (if p.Top? then x else Root(pic))
            && (p.Down? ==> p.node in Cells(pic, null) && Cells(pic, null)[p.node] == HookCell(p, null))
            && Cells(pic', null) == SetSlot(Cells(pic, null), p, x)[x := Cell(null, null, Hook(p), Red)]
  {
    var s := Fork(x, Red, Leaf, Leaf);
    LinkSets(p, x);
    PlugCells(p, Leaf);
    PlugCells(p, s);
    PlugDistinct(p, Leaf);
    PlugRoot(p, Leaf);
    PlugRoot(p, s);
    PathCellsSlot(p, null, x);
    var c := Cell(null, null, Hook(p), Red);
    assert Cells(s, Hook(p)) == map[x := c];
    LeafMaps(PathCells(p, null), p, x, c);
  }

  /** `t` without its root, which has at most the child `c`. */
  ghost predicate OnlyChild(t: Tree, c: Tree) {
    t.Fork? && ((t.left.Leaf? && c == t.right) || (t.right.Leaf? && c == t.left))
  }

  lemma OnlyChildCells(t: Tree, c: Tree, up: Node?)
    requires OnlyChild(t, c)
    ensures Nodes(t) == Nodes(c) + {t.node}
    ensures Distinct(t) ==> Distinct(c) && t.node !in Nodes(c)
    ensures t.node in Cells(t, up)
    ensures Cells(t, up) == Cells(c, t.node)[t.node := Cells(t, up)[t.node]]
  {
  }

  lemma SpliceSets(p: Path, t: Tree, c: Tree)
    requires Distinct(Plug(p, t)) && OnlyChild(t, c)
    ensures Distinct(Plug(p, c)) && t.node in Nodes(Plug(p, t)) && t.node !in Nodes(Plug(p, c))
    ensures Nodes(Plug(p, c)) == Nodes(Plug(p, t)) - {t.node}
    ensures t.node !in PathNodes(p) && Nodes(c) !! PathNodes(p)
  {
    OnlyChildCells(t, c, null);
    PlugNodes(p, t);
    PlugNodes(p, c);
    PlugDistinct(p, t);
    PlugDistinct(p, c);
  }

  lemma SpliceMaps(o: map<Node, Cell>, m: map<Node, Cell>, p: Path, r: Node?, up: Node?, x: Node, u: Cell)
    requires o.Keys !! m.Keys && x !in m && x !in o
    requires p.Down? ==> p.node in o
    requires r == null || r in m
    ensures r == null || r in SetSlot(o + m[x := u], p, r)
    ensures SetSlot(o, p, r) + SetParent(m, r, up) ==
            SetParent(SetSlot(o + m[x := u], p, r), r, up) - {x}
  {
  }

  lemma SplicePicture(p: Path, t: Tree, c: Tree)
    requires Distinct(Plug(p, t)) && OnlyChild(t, c)
    ensures var m, m' := Cells(Plug(p, t), null), Cells(Plug(p, c), null);
            && t.node in m && (c.Fork? ==> c.node in m && c.node != t.node && c.node != Hook(p))
            && (p.Down? ==> p.node in m && p.node != t.node && m[p.node] == HookCell(p, t.node))
            && m[t.node].parent == Hook(p)
            && m' == SetParent(Rehung(m, Hook(p), t.node, Root(c)), Root(c), Hook(p)) - {t.node}
    ensures Root(Plug(p, c)) == if p.Top? then Root(c) else Root(Plug(p, t))
  {
    PlugRoot(p, t);
    PlugRoot(p, c);
    SpliceSets(p, t, c);
    PlugCells(p, t);
    PlugCells(p, c);
    PlugDistinct(p, t);
    PathCellsSlot(p, t.node, Root(c));
    CellsReparent(c, t.node, Hook(p));
    OnlyChildCells(t, c, Hook(p));
    SlotRehung(Cells(Plug(p, t), null), p, t.node, Root(c));
    SpliceMaps(PathCells(p, t.node), Cells(c, t.node), p, Root(c), Hook(p), t.node, Cells(t, Hook(p))[t.node]);
  }

  lemma ReplaceSets(p: Path, x: Node, y: Node, k: Colour, l: Tree, r: Tree)
    requires Distinct(Plug(p, Fork(x, k, l, r))) && y !in Nodes(Plug(p, Fork(x, k, l, r)))
    ensures Distinct(Plug(p, Fork(y, k, l, r)))
    ensures Nodes(Plug(p, Fork(y, k, l, r))) == Nodes(Plug(p, Fork(x, k, l, r))) - {x} + {y}
    ensures x !in PathNodes(p) + Nodes(l) + Nodes(r) && y !in PathNodes(p) + Nodes(l) + Nodes(r) && x != y
    ensures PathNodes(p) !! Nodes(l) !! Nodes(r)
  {
    var t, t' := Fork(x, k, l, r), Fork(y, k, l, r);
    PlugNodes(p, t);
    PlugNodes(p, t');
    PlugDistinct(p, t);
    PlugDistinct(p, t');
    assert Nodes(t) == {x} + Nodes(l) + Nodes(r);
    assert Nodes(t') == {y} + Nodes(l) + Nodes(r);
  }

  lemma SlotMaps(o: map<Node, Cell>, m: map<Node, Cell>, p: Path, n: Node?)
    requires p.Down? ==> p.node !in m
    ensures SetSlot(o + m, p, n) == SetSlot(o, p, n) + m
  {
  }

  lemma ParentMaps(o: map<Node, Cell>, l: map<Node, Cell>, r: map<Node, Cell>, a: Node?, x: Node, y: Node, u: Cell)
    requires l.Keys !! r.Keys && x !in l && x !in r
    requires a == null || a in l || a in r
    ensures a == null || a in o + (l + r)[x := u]
    ensures a == null || a in l ==> SetParent(o + (l + r)[x := u], a, y) == o + (SetParent(l, a, y) + r)[x := u]
    ensures a == null || a in r ==> SetParent(o + (l + r)[x := u], a, y) == o + (l + SetParent(r, a, y))[x := u]
  {
  }

  lemma RenameMaps(o: map<Node, Cell>, m: map<Node, Cell>, x: Node, y: Node, u: Cell)
    requires x !in o && x !in m && x != y
    ensures (o + m[x := u])[y := u] - {x} == o + m[y := u]
  {
  }

  lemma ReplaceMaps(o: map<Node, Cell>, l: map<Node, Cell>, r: map<Node, Cell>, p: Path,
                    a: Node?, b: Node?, x: Node, y: Node, u: Cell)
    requires o.Keys !! l.Keys !! r.Keys
    requires x !in o && x !in l && x !in r && x != y
    requires p.Down? ==> p.node in o
    requires (a == null || a in l) && (b == null || b in r)
    ensures var m := o + (l + r)[x := u];
            && (a == null || a in SetSlot(m, p, y)) && (b == null || b in SetParent(SetSlot(m, p, y), a, y))
            && SetSlot(o, p, y) + (SetParent(l, a, y) + SetParent(r, b, y))[y := u] ==
               SetParent(SetParent(SetSlot(m, p, y), a, y), b, y)[y := u] - {x}
  {
    SlotMaps(o, (l + r)[x := u], p, y);
    ParentMaps(SetSlot(o, p, y), l, r, a, x, y, u);
    ParentMaps(SetSlot(o, p, y), SetParent(l, a, y), r, b, x, y, u);
    RenameMaps(SetSlot(o, p, y), SetParent(l, a, y) + SetParent(r, b, y), x, y, u);
  }

  ghost predicate CanReplace(m: map<Node, Cell>, x: Node) {
    && x in m
    && var a, b, u := m[x].left, m[x].right, m[x].parent;
    && (a != null ==> a in m && a != x && a != b && a != u)
    && (b != null ==> b in m && b != x && b != u)
    && (u != null ==> u in m && u != x)
  }

  /** The cells when the links to `x` lead to `y`. */
  ghost function Relinked(m: map<Node, Cell>, x: Node, y: Node): (r: map<Node, Cell>)
    requires CanReplace(m, x)
    ensures r.Keys == m.Keys
  {
    var a, b, u := m[x].left, m[x].right, m[x].parent;
    map n | n in m ::
      if n == a || n == b then m[n].(parent := y)
      else if n == u then if m[u].left == x then m[u].(left := y) else m[u].(right := y)
      else m[n]
  }

  lemma RelinkedUpdates(m: map<Node, Cell>, x: Node, y: Node)
    requires CanReplace(m, x)
    ensures Relinked(m, x, y) ==
            SetParent(SetParent(Rehung(m, m[x].parent, x, y), m[x].left, y), m[x].right, y)
  {
  }

  /** The cells when `y` has moreover taken over the fields of `x`. */
  ghost function Replaced(m: map<Node, Cell>, x: Node, y: Node): (r: map<Node, Cell>)
    requires CanReplace(m, x) && y !in m
    ensures y in r && r[y] == m[x]
    ensures forall n :: n in r && n != y ==> n in m && n != x && r[n] == Relinked(m, x, y)[n]
  {
    Relinked(m, x, y)[y := m[x]] - {x}
  }

  lemma ReplacePicture(p: Path, x: Node, y: Node, k: Colour, l: Tree, r: Tree)
    requires Distinct(Plug(p, Fork(x, k, l, r))) && y !in Nodes(Plug(p, Fork(x, k, l, r)))
    ensures var m, m' := Cells(Plug(p, Fork(x, k, l, r)), null), Cells(Plug(p, Fork(y, k, l, r)), null);
            && x in m && m[x] == Cell(Root(l), Root(r), Hook(p), k)
            && CanReplace(m, x) && m' == Replaced(m, x, y)
    ensures Distinct(Plug(p, Fork(y, k, l, r)))
    ensures Nodes(Plug(p, Fork(y, k, l, r))) == Nodes(Plug(p, Fork(x, k, l, r))) - {x} + {y}
    ensures Root(Plug(p, Fork(y, k, l, r))) == if p.Top? then y else Root(Plug(p, Fork(x, k, l, r)))
  {
    PlugRoot(p, Fork(x, k, l, r));
    PlugRoot(p, Fork(y, k, l, r));
    var t, t' := Fork(x, k, l, r), Fork(y, k, l, r);
    ReplaceSets(p, x, y, k, l, r);
    PlugCells(p, t);
    PlugCells(p, t');
    PlugDistinct(p, t);
    PathCellsSlot(p, x, y);
    CellsReparent(l, x, y);
    CellsReparent(r, x, y);
    SlotRehung(Cells(Plug(p, t), null), p, x, y);
    RelinkedUpdates(Cells(Plug(p, t), null), x, y);
    ReplaceMaps(PathCells(p, x), Cells(l, x), Cells(r, x), p, Root(l), Root(r), x, y, Cell(Root(l), Root(r), Hook(p), k));
  }
}
