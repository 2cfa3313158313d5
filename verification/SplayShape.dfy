/** The pointer shape of a splay tree while it is taken apart (`include/uv/tree.h`).

    A `Tree` names the nodes of a subtree.  A `Chain` is what `SPLAY` collects below its scratch
    node on one side: nodes all smaller, or all greater, than what it looks for, each with one
    finished subtree, linked through the side that is still open. */
module SplayShape {
  import opened Ordering

  class Node {
    const key: int
    var left: Node?
    var right: Node?

    constructor (key: int)
      ensures this.key == key && left == null && right == null
    {
      this.key := key;
      left, right := null, null;
    }
  }

  datatype Side = L | R

  datatype Tree = Leaf | Fork(node: Node, left: Tree, right: Tree)

  datatype Chain = Nil | Snoc(outer: Chain, node: Node, tree: Tree)

  ghost function Root(t: Tree): Node? {
    if t.Leaf? then null else t.node
  }

  ghost function Size(t: Tree): nat {
    if t.Leaf? then 0 else 1 + Size(t.left) + Size(t.right)
  }

  /** A node with its finished subtree on `side`, and `open` on the other. */
  ghost function Join(side: Side, x: Node, done: Tree, open: Tree): Tree {
    if side == L then Fork(x, done, open) else Fork(x, open, done)
  }

  /** The tree of a chain when `t` closes its open end. */
  ghost function Close(side: Side, c: Chain, t: Tree): Tree
    decreases c
  {
    if c.Nil? then t else Close(side, c.outer, Join(side, c.node, c.tree, t))
  }

  /** The first node of a chain whose open end points to `e`. */
  ghost function First(c: Chain, e: Node?): Node?
    decreases c
  {
    if c.Nil? then e else First(c.outer, c.node)
  }

  /** The node with the open end: the scratch node as long as there is none other. */
  ghost function End(c: Chain, scratch: Node): Node {
    if c.Nil? then scratch else c.node
  }

  ghost function Nodes(t: Tree): set<Node> {
    if t.Leaf? then {} else {t.node} + Nodes(t.left) + Nodes(t.right)
  }

  ghost function ChainNodes(c: Chain): set<Node> {
    if c.Nil? then {} else {c.node} + Nodes(c.tree) + ChainNodes(c.outer)
  }

  ghost predicate Distinct(t: Tree) {
    t.Fork? ==>
      && t.node !in Nodes(t.left) && t.node !in Nodes(t.right)
      && Nodes(t.left) !! Nodes(t.right)
      && Distinct(t.left) && Distinct(t.right)
  }

  ghost predicate ChainDistinct(c: Chain) {
    c.Snoc? ==>
      && c.node !in Nodes(c.tree) && c.node !in ChainNodes(c.outer)
      && Nodes(c.tree) !! ChainNodes(c.outer)
      && Distinct(c.tree) && ChainDistinct(c.outer)
  }

  // ---------- cells ----------

  /** What the two fields of a node hold. */
  datatype Cell = Cell(left: Node?, right: Node?)

  ghost function Cells(t: Tree): (m: map<Node, Cell>)
    ensures m.Keys == Nodes(t)
  {
    if t.Leaf? then map[]
    else (Cells(t.left) + Cells(t.right))[t.node := Cell(Root(t.left), Root(t.right))]
  }

  ghost function LinkCell(side: Side, done: Node?, open: Node?): Cell {
    if side == L then Cell(done, open) else Cell(open, done)
  }

  /** The fields of a chain's nodes when its open end points to `e`. */
  ghost function ChainCells(side: Side, c: Chain, e: Node?): (m: map<Node, Cell>)
    ensures m.Keys == ChainNodes(c)
  {
    if c.Nil? then map[]
    else (ChainCells(side, c.outer, c.node) + Cells(c.tree))[c.node := LinkCell(side, Root(c.tree), e)]
  }

  lemma {:induction false} CloseRoot(side: Side, c: Chain, t: Tree)
    ensures Root(Close(side, c, t)) == First(c, Root(t))
    decreases c
  {
    if c.Nil? {
    } else {
      CloseRoot(side, c.outer, Join(side, c.node, c.tree, t));
    }
  }

  lemma {:induction false} CloseDistinct(side: Side, c: Chain, t: Tree)
    ensures Nodes(Close(side, c, t)) == ChainNodes(c) + Nodes(t)
    ensures Distinct(Close(side, c, t)) <==> ChainDistinct(c) && Distinct(t) && ChainNodes(c) !! Nodes(t)
    decreases c
  {
    if c.Nil? {
    } else {
      CloseDistinct(side, c.outer, Join(side, c.node, c.tree, t));
    }
  }

  lemma MergeJoin<K, V>(a: map<K, V>, b: map<K, V>, c: map<K, V>, x: K, v: V)
    requires x !in c
    ensures a + (b + c)[x := v] == (a + b)[x := v] + c
  {
  }

  lemma MergeSwap<K, V>(a: map<K, V>, b: map<K, V>)
    requires a.Keys !! b.Keys
    ensures a + b == b + a
  {
  }

  lemma {:induction false} CloseCells(side: Side, c: Chain, t: Tree)
    requires Distinct(Close(side, c, t))
    ensures Cells(Close(side, c, t)) == ChainCells(side, c, Root(t)) + Cells(t)
    decreases c
  {
    if c.Nil? {
    } else {
      var x, j := c.node, Join(side, c.node, c.tree, t);
      CloseCells(side, c.outer, j);
      CloseDistinct(side, c.outer, j);
      MergeSwap(Cells(c.tree), Cells(t));
      MergeJoin(ChainCells(side, c.outer, x), Cells(c.tree), Cells(t), x, LinkCell(side, Root(c.tree), Root(t)));
    }
  }

  // ---------- a splay in progress ----------

  /** The left chain, the tree still to be searched, and the right chain share no node. */
  ghost predicate Apart(lc: Chain, t: Tree, rc: Chain) {
    && ChainDistinct(lc) && Distinct(t) && ChainDistinct(rc)
    && ChainNodes(lc) !! Nodes(t) && ChainNodes(lc) !! ChainNodes(rc) && Nodes(t) !! ChainNodes(rc)
  }

  ghost function MidNodes(lc: Chain, t: Tree, rc: Chain): set<Node> {
    ChainNodes(lc) + Nodes(t) + ChainNodes(rc)
  }

  ghost function MidCells(lc: Chain, le: Node?, t: Tree, rc: Chain, re: Node?): (m: map<Node, Cell>)
    ensures m.Keys == MidNodes(lc, t, rc)
  {
    ChainCells(L, lc, le) + Cells(t) + ChainCells(R, rc, re)
  }

  lemma MidRoot(lc: Chain, le: Node?, t: Tree, rc: Chain, re: Node?)
    requires Apart(lc, t, rc) && t.Fork?
    ensures MidCells(lc, le, t, rc, re)[t.node] == Cell(Root(t.left), Root(t.right))
  {
  }

  /** `SPLAY_LINKLEFT`: the root goes to the right chain with its right subtree. */
  lemma LinkLeftCells(lc: Chain, le: Node?, t: Tree, rc: Chain, re: Node?)
    requires Apart(lc, t, rc) && t.Fork?
    ensures var m, rc' := MidCells(lc, le, t, rc, re), Snoc(rc, t.node, t.right);
            && Apart(lc, t.left, rc') && MidNodes(lc, t.left, rc') == MidNodes(lc, t, rc)
            && MidCells(lc, le, t.left, rc', Root(t.left))
               == (if rc.Nil? then m else m[rc.node := m[rc.node].(left := t.node)])
  {
    ghost var x := t.node;
    OpenEnd(R, rc, re, x);
    MovedRight(ChainCells(L, lc, le), Cells(t.left), Cells(t.right), ChainCells(R, rc, x), x,
               Cell(Root(t.left), Root(t.right)));
    if rc.Snoc? {
      ChangedRight(ChainCells(L, lc, le) + Cells(t), ChainCells(R, rc, re), rc.node, ChainCells(R, rc, x)[rc.node]);
    }
  }

  /** `SPLAY_LINKRIGHT`: the root goes to the left chain with its left subtree. */
  lemma LinkRightCells(lc: Chain, le: Node?, t: Tree, rc: Chain, re: Node?)
    requires Apart(lc, t, rc) && t.Fork?
    ensures var m, lc' := MidCells(lc, le, t, rc, re), Snoc(lc, t.node, t.left);
            && Apart(lc', t.right, rc) && MidNodes(lc', t.right, rc) == MidNodes(lc, t, rc)
            && MidCells(lc', Root(t.right), t.right, rc, re)
               == (if lc.Nil? then m else m[lc.node := m[lc.node].(right := t.node)])
  {
    ghost var x := t.node;
    OpenEnd(L, lc, le, x);
    MovedLeft(ChainCells(L, lc, x), Cells(t.left), Cells(t.right), ChainCells(R, rc, re), x,
              Cell(Root(t.left), Root(t.right)));
    if lc.Snoc? {
      ChangedLeft(ChainCells(L, lc, le), Cells(t), ChainCells(R, rc, re), lc.node, ChainCells(L, lc, x)[lc.node]);
    }
  }

  lemma OpenEnd(side: Side, c: Chain, e: Node?, e': Node?)
    ensures ChainCells(side, c, e') ==
            if c.Nil? then map[] else ChainCells(side, c, e)[c.node := LinkCell(side, Root(c.tree), e')]
    ensures c.Snoc? ==> First(c, e') == First(c, e)
  {
  }

  lemma MovedRight<K, V>(l: map<K, V>, a: map<K, V>, b: map<K, V>, r: map<K, V>, x: K, v: V)
    requires x !in a && x !in r && a.Keys !! b.Keys && b.Keys !! r.Keys
    ensures l + a + (r + b)[x := v] == l + (a + b)[x := v] + r
  {
  }

  lemma MovedLeft<K, V>(l: map<K, V>, a: map<K, V>, b: map<K, V>, r: map<K, V>, x: K, v: V)
    requires x !in b && a.Keys !! b.Keys
    ensures (l + a)[x := v] + b + r == l + (a + b)[x := v] + r
  {
  }

  lemma ChangedRight<K, V>(a: map<K, V>, r: map<K, V>, x: K, v: V)
    requires x in r
    ensures a + r[x := v] == (a + r)[x := v]
  {
  }

  lemma ChangedLeft<K, V>(l: map<K, V>, a: map<K, V>, r: map<K, V>, x: K, v: V)
    requires x in l && x !in a && x !in r
    ensures l[x := v] + a + r == (l + a + r)[x := v]
  {
  }

  /** `SPLAY_ROTATE_RIGHT`. */
  ghost function TurnedRight(t: Tree): Tree
    requires t.Fork? && t.left.Fork?
  {
    Fork(t.left.node, t.left.left, Fork(t.node, t.left.right, t.right))
  }

  /** `SPLAY_ROTATE_LEFT`. */
  ghost function TurnedLeft(t: Tree): Tree
    requires t.Fork? && t.right.Fork?
  {
    Fork(t.right.node, Fork(t.node, t.left, t.right.left), t.right.right)
  }

  lemma RotateMaps<K, V>(a: map<K, V>, b: map<K, V>, c: map<K, V>, x: K, y: K, u: V, v: V, u': V, v': V)
    requires x != y && y !in b && y !in c && x !in a && x !in b
    ensures (a + (b + c)[x := v'])[y := u'] == ((a + b)[y := u] + c)[x := v][x := v'][y := u']
    ensures ((a + b)[y := u'] + c)[x := v'] == (a + (b + c)[x := v])[y := u][y := u'][x := v']
  {
  }

  lemma ChangedMiddle<K, V>(l: map<K, V>, t: map<K, V>, r: map<K, V>, x: K, v: V)
    requires x !in r
    ensures l + t[x := v] + r == (l + t + r)[x := v]
  {
  }

  lemma TurnRightTree(t: Tree)
    requires Distinct(t) && t.Fork? && t.left.Fork?
    ensures Distinct(TurnedRight(t)) && Nodes(TurnedRight(t)) == Nodes(t)
    ensures Cells(t)[t.node] == Cell(t.left.node, Root(t.right))
    ensures Cells(t)[t.left.node] == Cell(Root(t.left.left), Root(t.left.right))
    ensures Cells(TurnedRight(t)) == Cells(t)[t.node := Cell(Root(t.left.right), Root(t.right))]
                                             [t.left.node := Cell(Root(t.left.left), t.node)]
  {
    var x, y := t.node, t.left.node;
    RotateMaps(Cells(t.left.left), Cells(t.left.right), Cells(t.right), x, y,
               Cell(Root(t.left.left), Root(t.left.right)), Cell(y, Root(t.right)),
               Cell(Root(t.left.left), x), Cell(Root(t.left.right), Root(t.right)));
  }

  lemma TurnLeftTree(t: Tree)
    requires Distinct(t) && t.Fork? && t.right.Fork?
    ensures Distinct(TurnedLeft(t)) && Nodes(TurnedLeft(t)) == Nodes(t)
    ensures Cells(t)[t.node] == Cell(Root(t.left), t.right.node)
    ensures Cells(t)[t.right.node] == Cell(Root(t.right.left), Root(t.right.right))
    ensures Cells(TurnedLeft(t)) == Cells(t)[t.node := Cell(Root(t.left), Root(t.right.left))]
                                            [t.right.node := Cell(t.node, Root(t.right.right))]
  {
    var x, y := t.node, t.right.node;
    RotateMaps(Cells(t.left), Cells(t.right.left), Cells(t.right.right), y, x,
               Cell(Root(t.left), y), Cell(Root(t.right.left), Root(t.right.right)),
               Cell(Root(t.left), Root(t.right.left)), Cell(x, Root(t.right.right)));
  }

  lemma TurnRightCells(lc: Chain, le: Node?, t: Tree, rc: Chain, re: Node?)
    requires Apart(lc, t, rc) && t.Fork? && t.left.Fork?
    ensures var m := MidCells(lc, le, t, rc, re);
            && Apart(lc, TurnedRight(t), rc) && Nodes(TurnedRight(t)) == Nodes(t)
            && m[t.node] == Cell(t.left.node, Root(t.right))
            && m[t.left.node] == Cell(Root(t.left.left), Root(t.left.right))
            && MidCells(lc, le, TurnedRight(t), rc, re)
               == m[t.node := Cell(Root(t.left.right), Root(t.right))][t.left.node := Cell(Root(t.left.left), t.node)]
  {
    TurnRightTree(t);
    var l, c, r := ChainCells(L, lc, le), Cells(t), ChainCells(R, rc, re);
    var v, u := Cell(Root(t.left.right), Root(t.right)), Cell(Root(t.left.left), t.node);
    ChangedMiddle(l, c, r, t.node, v);
    ChangedMiddle(l, c[t.node := v], r, t.left.node, u);
  }

  lemma TurnLeftCells(lc: Chain, le: Node?, t: Tree, rc: Chain, re: Node?)
    requires Apart(lc, t, rc) && t.Fork? && t.right.Fork?
    ensures var m := MidCells(lc, le, t, rc, re);
            && Apart(lc, TurnedLeft(t), rc) && Nodes(TurnedLeft(t)) == Nodes(t)
            && m[t.node] == Cell(Root(t.left), t.right.node)
            && m[t.right.node] == Cell(Root(t.right.left), Root(t.right.right))
            && MidCells(lc, le, TurnedLeft(t), rc, re)
               == m[t.node := Cell(Root(t.left), Root(t.right.left))][t.right.node := Cell(t.node, Root(t.right.right))]
  {
    TurnLeftTree(t);
    var l, c, r := ChainCells(L, lc, le), Cells(t), ChainCells(R, rc, re);
    var v, u := Cell(Root(t.left), Root(t.right.left)), Cell(t.node, Root(t.right.right));
    ChangedMiddle(l, c, r, t.node, v);
    ChangedMiddle(l, c[t.node := v], r, t.right.node, u);
  }

  /** `SPLAY_ASSEMBLE`: the chains are closed by the root's subtrees and become them. */
  ghost function Assembled(lc: Chain, t: Tree, rc: Chain): Tree
    requires t.Fork?
  {
    Fork(t.node, Close(L, lc, t.left), Close(R, rc, t.right))
  }

  lemma AssembledCells(lc: Chain, t: Tree, rc: Chain)
    requires Apart(lc, t, rc) && t.Fork?
    ensures var a := Assembled(lc, t, rc);
            && Distinct(a) && Nodes(a) == MidNodes(lc, t, rc)
            && Cells(a) == MidCells(lc, Root(t.left), t, rc, Root(t.right))
                           [t.node := Cell(First(lc, Root(t.left)), First(rc, Root(t.right)))]
  {
    CloseDistinct(L, lc, t.left);
    CloseDistinct(R, rc, t.right);
    CloseCells(L, lc, t.left);
    CloseCells(R, rc, t.right);
    CloseRoot(L, lc, t.left);
    CloseRoot(R, rc, t.right);
    MergeMiddle(ChainCells(L, lc, Root(t.left)), Cells(t.left), Cells(t.right), ChainCells(R, rc, Root(t.right)),
                t.node, Cell(Root(t.left), Root(t.right)), Cell(First(lc, Root(t.left)), First(rc, Root(t.right))));
  }

  /** Rewriting the open ends of the two chains. */
  ghost function Knit(m: map<Node, Cell>, lc: Chain, e: Node?, rc: Chain, f: Node?): map<Node, Cell>
    requires ChainNodes(lc) <= m.Keys && ChainNodes(rc) <= m.Keys
  {
    var m1 := if lc.Nil? then m else m[lc.node := m[lc.node].(right := e)];
    if rc.Nil? then m1 else m1[rc.node := m1[rc.node].(left := f)]
  }

  lemma KnitCells(lc: Chain, le: Node?, e: Node?, t: Tree, rc: Chain, re: Node?, f: Node?)
    requires Apart(lc, t, rc)
    ensures MidCells(lc, e, t, rc, f) == Knit(MidCells(lc, le, t, rc, re), lc, e, rc, f)
  {
    OpenEnd(L, lc, le, e);
    OpenEnd(R, rc, re, f);
    if lc.Snoc? {
      ChangedLeft(ChainCells(L, lc, le), Cells(t), ChainCells(R, rc, re), lc.node, ChainCells(L, lc, e)[lc.node]);
    }
    if rc.Snoc? {
      ChangedRight(ChainCells(L, lc, e) + Cells(t), ChainCells(R, rc, re), rc.node, ChainCells(R, rc, f)[rc.node]);
    }
  }

  lemma MergeMiddle<K, V>(l: map<K, V>, a: map<K, V>, b: map<K, V>, r: map<K, V>, x: K, u: V, v: V)
    requires b.Keys !! r.Keys
    ensures ((l + a) + (r + b))[x := v] == (l + (a + b)[x := u] + r)[x := v]
  {
  }

  /** What the assembly writes makes the cells of the assembled tree. */
  lemma AssembledKnit(lc: Chain, le: Node?, t: Tree, rc: Chain, re: Node?, below: Node?, above: Node?)
    requires Apart(lc, t, rc) && t.Fork? && below == First(lc, le) && above == First(rc, re)
    ensures var m := MidCells(lc, le, t, rc, re);
            && t.node in m && m[t.node] == Cell(Root(t.left), Root(t.right))
            && ChainNodes(lc) <= m.Keys && ChainNodes(rc) <= m.Keys && ChainNodes(lc) !! ChainNodes(rc)
            && t.node !in ChainNodes(lc) && t.node !in ChainNodes(rc)
            && Distinct(Assembled(lc, t, rc)) && Nodes(Assembled(lc, t, rc)) == MidNodes(lc, t, rc)
            && Cells(Assembled(lc, t, rc))
               == Knit(m, lc, Root(t.left), rc, Root(t.right))
                  [t.node := Cell(if lc.Nil? then Root(t.left) else below, if rc.Nil? then Root(t.right) else above)]
  {
    AssembledCells(lc, t, rc);
    MidRoot(lc, le, t, rc, re);
    OpenEnd(L, lc, le, Root(t.left));
    OpenEnd(R, rc, re, Root(t.right));
    KnitCells(lc, le, Root(t.left), t, rc, re, Root(t.right));
  }

  // ---------- in-order sequence ----------

  ghost function Inorder(t: Tree): seq<Node> {
    if t.Leaf? then [] else Inorder(t.left) + [t.node] + Inorder(t.right)
  }

  /** The nodes of a left chain, in order. */
  ghost function Lows(c: Chain): seq<Node> {
    if c.Nil? then [] else Lows(c.outer) + Inorder(c.tree) + [c.node]
  }

  /** The nodes of a right chain, in order. */
  ghost function Highs(c: Chain): seq<Node> {
    if c.Nil? then [] else [c.node] + Inorder(c.tree) + Highs(c.outer)
  }

  ghost function MidOrder(lc: Chain, t: Tree, rc: Chain): seq<Node> {
    Lows(lc) + Inorder(t) + Highs(rc)
  }

  lemma LinkOrder(lc: Chain, t: Tree, rc: Chain)
    requires t.Fork?
    ensures MidOrder(lc, t.left, Snoc(rc, t.node, t.right)) == MidOrder(lc, t, rc)
    ensures MidOrder(Snoc(lc, t.node, t.left), t.right, rc) == MidOrder(lc, t, rc)
  {
    MoveAcross(Lows(lc), Inorder(t.left), t.node, Inorder(t.right), Highs(rc));
  }

  lemma MoveAcross(l: seq<Node>, a: seq<Node>, x: Node, b: seq<Node>, r: seq<Node>)
    ensures l + a + ([x] + b + r) == l + (a + [x] + b) + r
    ensures (l + a + [x]) + b + r == l + (a + [x] + b) + r
  {
  }

  lemma TurnSequence(a: seq<Node>, y: Node, b: seq<Node>, x: Node, c: seq<Node>)
    ensures a + [y] + (b + [x] + c) == (a + [y] + b) + [x] + c
  {
  }

  lemma TurnOrder(t: Tree)
    requires t.Fork?
    ensures t.left.Fork? ==> Inorder(TurnedRight(t)) == Inorder(t) && Size(TurnedRight(t)) == Size(t)
    ensures t.right.Fork? ==> Inorder(TurnedLeft(t)) == Inorder(t) && Size(TurnedLeft(t)) == Size(t)
  {
    if t.left.Fork? {
      TurnSequence(Inorder(t.left.left), t.left.node, Inorder(t.left.right), t.node, Inorder(t.right));
    }
    if t.right.Fork? {
      TurnSequence(Inorder(t.left), t.node, Inorder(t.right.left), t.right.node, Inorder(t.right.right));
    }
  }

  lemma LowSequence(l: seq<Node>, a: seq<Node>, x: Node, b: seq<Node>)
    ensures l + (a + [x] + b) == l + a + [x] + b
  {
  }

  lemma HighSequence(b: seq<Node>, x: Node, a: seq<Node>, r: seq<Node>)
    ensures b + [x] + a + r == b + ([x] + a + r)
  {
  }

  lemma {:induction false} CloseOrder(c: Chain, t: Tree)
    ensures Inorder(Close(L, c, t)) == Lows(c) + Inorder(t)
    ensures Inorder(Close(R, c, t)) == Inorder(t) + Highs(c)
    decreases c
  {
    if c.Nil? {
    } else {
      var done, rest := Inorder(c.tree), Inorder(t);
      CloseOrder(c.outer, Join(L, c.node, c.tree, t));
      CloseOrder(c.outer, Join(R, c.node, c.tree, t));
      LowSequence(Lows(c.outer), done, c.node, rest);
      HighSequence(rest, c.node, done, Highs(c.outer));
    }
  }

  lemma AssembledOrder(lc: Chain, t: Tree, rc: Chain)
    requires t.Fork?
    ensures Inorder(Assembled(lc, t, rc)) == MidOrder(lc, t, rc)
    ensures Inorder(Assembled(lc, t, rc).left) == Lows(lc) + Inorder(t.left)
    ensures Inorder(Assembled(lc, t, rc).right) == Inorder(t.right) + Highs(rc)
  {
    CloseOrder(lc, t.left);
    CloseOrder(rc, t.right);
    RegroupMiddle(Lows(lc), Inorder(t.left), t.node, Inorder(t.right), Highs(rc));
  }

  lemma RegroupMiddle(l: seq<Node>, a: seq<Node>, x: Node, b: seq<Node>, r: seq<Node>)
    ensures (l + a) + [x] + (b + r) == l + (a + [x] + b) + r
  {
  }

  lemma {:induction false} InorderNodes(t: Tree, x: Node)
    ensures x in Inorder(t) <==> x in Nodes(t)
    decreases t
  {
    if t.Leaf? {
    } else {
      InorderNodes(t.left, x);
      InorderNodes(t.right, x);
    }
  }

  // ---------- order of keys ----------

  ghost function Key(n: Node): int {
    n.key
  }

  ghost predicate Sorted(s: seq<Node>) {
    Increasing(s, Key)
  }

  ghost predicate Below(s: seq<Node>, key: int) {
    AllBelow(s, Key, key)
  }

  ghost predicate Above(s: seq<Node>, key: int) {
    AllAbove(s, Key, key)
  }

  /** The root of a sorted tree and the keys on its two sides. */
  lemma RootBetween(t: Tree)
    requires t.Fork? && Sorted(Inorder(t))
    ensures Below(Inorder(t.left), t.node.key) && Above(Inorder(t.right), t.node.key)
    ensures Sorted(Inorder(t.left)) && Sorted(Inorder(t.right))
  {
    Around(Inorder(t.left), t.node, Inorder(t.right), Key);
  }

  /** The root carries the key, or is its immediate successor or predecessor. */
  ghost predicate Nearest(t: Tree, key: int) {
    t.Fork? &&
    (t.node.key == key
     || (key < t.node.key && Below(Inorder(t.left), key))
     || (t.node.key < key && Above(Inorder(t.right), key)))
  }

  /** A key that is in the tree is found at the root. */
  lemma NearestFinds(t: Tree, key: int, n: Node)
    requires Sorted(Inorder(t)) && Nearest(t, key) && n in Inorder(t)
    ensures n.key == key ==> n == t.node
    ensures t.node.key < n.key ==> key < n.key
    ensures n.key < t.node.key ==> n.key < key
  {
    RootBetween(t);
  }

  // ---------- the search of a splay ----------

  /** The two chains hold what is below and what is above the key; nothing has been lost or
      reordered. */
  ghost predicate Sought(lc: Chain, t: Tree, rc: Chain, key: int, was: seq<Node>) {
    MidOrder(lc, t, rc) == was && Sorted(was) && Below(Lows(lc), key) && Above(Highs(rc), key)
  }

  lemma SortedMiddle(a: seq<Node>, b: seq<Node>, c: seq<Node>)
    requires Sorted(a + b + c)
    ensures Sorted(b)
  {
    var s := a + b + c;
    assert forall i :: 0 <= i < |b| ==> b[i] == s[|a| + i];
  }

  lemma SoughtLink(lc: Chain, t: Tree, rc: Chain, key: int, was: seq<Node>)
    requires Sought(lc, t, rc, key, was) && t.Fork?
    ensures key < t.node.key ==> Sought(lc, t.left, Snoc(rc, t.node, t.right), key, was)
    ensures t.node.key < key ==> Sought(Snoc(lc, t.node, t.left), t.right, rc, key, was)
  {
    LinkOrder(lc, t, rc);
    SortedMiddle(Lows(lc), Inorder(t), Highs(rc));
    RootBetween(t);
  }

  lemma SoughtTurn(lc: Chain, t: Tree, rc: Chain, key: int, was: seq<Node>)
    requires Sought(lc, t, rc, key, was) && t.Fork?
    ensures t.left.Fork? ==> Sought(lc, TurnedRight(t), rc, key, was)
    ensures t.right.Fork? ==> Sought(lc, TurnedLeft(t), rc, key, was)
  {
    TurnOrder(t);
  }

  /** The search is over: the key is at the root, or there is nothing left on its side. */
  ghost predicate Stops(t: Tree, key: int) {
    t.Fork? &&
    (t.node.key == key || (key < t.node.key && t.left.Leaf?) || (t.node.key < key && t.right.Leaf?))
  }

  lemma SoughtDone(lc: Chain, t: Tree, rc: Chain, key: int, was: seq<Node>)
    requires Sought(lc, t, rc, key, was) && Stops(t, key)
    ensures Nearest(Assembled(lc, t, rc), key) && Inorder(Assembled(lc, t, rc)) == was
  {
    AssembledOrder(lc, t, rc);
  }

  lemma SoughtFirst(t: Tree, key: int)
    requires Sorted(Inorder(t))
    ensures Sought(Nil, t, Nil, key, Inorder(t))
  {
    assert [] + Inorder(t) + [] == Inorder(t);
  }

  lemma {:induction false} KeyBelow(s: seq<Node>) returns (key: int)
    ensures Above(s, key)
  {
    key := 0;
    if s == [] {
    } else {
      var k := KeyBelow(s[1..]);
      key := if k < s[0].key then k else s[0].key - 1;
    }
  }

  lemma {:induction false} KeyAbove(s: seq<Node>) returns (key: int)
    ensures Below(s, key)
  {
    key := 0;
    if s == [] {
    } else {
      var k := KeyAbove(s[1..]);
      key := if s[0].key < k then k else s[0].key + 1;
    }
  }

  lemma InOrderHere(lc: Chain, t: Tree, rc: Chain)
    ensures t.Fork? ==> t.node in MidOrder(lc, t, rc)
  {
  }

  lemma FirstBelow(t: Tree)
    requires t.Fork?
    ensures Inorder(t) != [] && Inorder(t)[0] == if t.left.Leaf? then t.node else Inorder(t.left)[0]
    ensures Inorder(t)[|Inorder(t)| - 1] == if t.right.Leaf? then t.node else Inorder(t.right)[|Inorder(t.right)| - 1]
  {
  }

  /** The cells of a tree's root and of its subtrees. */
  lemma SubCells(t: Tree)
    requires t.Fork? && Distinct(t)
    ensures Cells(t)[t.node] == Cell(Root(t.left), Root(t.right))
    ensures forall n :: n in Cells(t.left) ==> n in Cells(t) && Cells(t)[n] == Cells(t.left)[n]
    ensures forall n :: n in Cells(t.right) ==> n in Cells(t) && Cells(t)[n] == Cells(t.right)[n]
  {
  }

  lemma NearestKeys(t: Tree, key: int)
    requires Sorted(Inorder(t)) && Nearest(t, key)
    ensures t.node.key == key <==> exists n :: n in Inorder(t) && n.key == key
  {
    assert t.node in Inorder(t);
    forall n | n in Inorder(t) && n.key == key ensures n == t.node {
      NearestFinds(t, key, n);
    }
  }

  /** `y` comes right after `x` in `s`, or `x` is last and `y` is null. */
  ghost predicate Follows(s: seq<Node>, x: Node, y: Node?) {
    exists i: nat :: FollowsHere(s, i, x, y)
  }

  ghost predicate FollowsHere(s: seq<Node>, i: nat, x: Node, y: Node?) {
    i < |s| && s[i] == x && y == if i + 1 < |s| then s[i + 1] else null
  }

  /** In a sorted sequence the place after a node is unique. */
  lemma FollowsAt(s: seq<Node>, i: nat, y: Node?)
    requires Sorted(s) && i < |s| && Follows(s, s[i], y)
    ensures y == if i + 1 < |s| then s[i + 1] else null
  {
    var j: nat :| FollowsHere(s, j, s[i], y);
    OnePlace(s, Key, i, j);
  }

  lemma FollowsRoot(t: Tree)
    requires t.Fork?
    ensures t.right.Fork? ==> Inorder(t.right) != []
    ensures Follows(Inorder(t), t.node, if t.right.Leaf? then null else Inorder(t.right)[0])
  {
    FollowsMiddle(Inorder(t.left), t.node, Inorder(t.right));
    if t.right.Fork? {
      FirstBelow(t.right);
    }
  }

  lemma FollowsMiddle(a: seq<Node>, x: Node, b: seq<Node>)
    ensures Follows(a + [x] + b, x, if b == [] then null else b[0])
  {
    var s := a + [x] + b;
    assert s[|a|] == x && (b != [] ==> s[|a| + 1] == b[0]);
    assert FollowsHere(s, |a|, x, if b == [] then null else b[0]);
  }

  // ---------- insertion and removal ----------

  /** `now` is `was` without a node of that key. */
  ghost predicate LacksKey(was: seq<Node>, key: int, now: seq<Node>) {
    exists n: Node :: n in was && n.key == key && Lacks(was, n, now)
  }

  /** `elm` above the root, which goes to its right without its left subtree. */
  ghost function PutAbove(t: Tree, elm: Node): Tree
    requires t.Fork?
  {
    Fork(elm, t.left, Fork(t.node, Leaf, t.right))
  }

  /** `elm` above the root, which goes to its left without its right subtree. */
  ghost function PutBelow(t: Tree, elm: Node): Tree
    requires t.Fork?
  {
    Fork(elm, Fork(t.node, t.left, Leaf), t.right)
  }

  lemma PutMaps<K, V>(a: map<K, V>, b: map<K, V>, x: K, y: K, u: V, v: V, w: V)
    requires x != y && x !in a && x !in b && y !in a && y !in b
    ensures (a + b[x := v])[y := w] == (a + b)[x := u][x := v][y := w]
    ensures (a[x := v] + b)[y := w] == (a + b)[x := u][x := v][y := w]
  {
  }

  lemma PutAboveCells(t: Tree, elm: Node)
    requires t.Fork? && Distinct(t) && elm !in Nodes(t)
    ensures Distinct(PutAbove(t, elm)) && Nodes(PutAbove(t, elm)) == Nodes(t) + {elm}
    ensures Cells(t)[t.node] == Cell(Root(t.left), Root(t.right))
    ensures Cells(PutAbove(t, elm)) == Cells(t)[t.node := Cell(null, Root(t.right))][elm := Cell(Root(t.left), t.node)]
  {
    var f := Fork(t.node, Leaf, t.right);
    assert map[] + Cells(t.right) == Cells(t.right);
    assert Cells(f) == Cells(t.right)[t.node := Cell(null, Root(t.right))];
    PutMaps(Cells(t.left), Cells(t.right), t.node, elm, Cell(Root(t.left), Root(t.right)),
            Cell(null, Root(t.right)), Cell(Root(t.left), t.node));
  }

  lemma PutBelowCells(t: Tree, elm: Node)
    requires t.Fork? && Distinct(t) && elm !in Nodes(t)
    ensures Distinct(PutBelow(t, elm)) && Nodes(PutBelow(t, elm)) == Nodes(t) + {elm}
    ensures Cells(t)[t.node] == Cell(Root(t.left), Root(t.right))
    ensures Cells(PutBelow(t, elm)) == Cells(t)[t.node := Cell(Root(t.left), null)][elm := Cell(t.node, Root(t.right))]
  {
    var f := Fork(t.node, t.left, Leaf);
    assert Cells(t.left) + map[] == Cells(t.left);
    assert Cells(f) == Cells(t.left)[t.node := Cell(Root(t.left), null)];
    PutMaps(Cells(t.left), Cells(t.right), t.node, elm, Cell(Root(t.left), Root(t.right)),
            Cell(Root(t.left), null), Cell(t.node, Root(t.right)));
  }

  lemma InsertBefore(a: seq<Node>, e: Node, x: Node, b: seq<Node>)
    requires Sorted(a + [x] + b) && Below(a, e.key) && e.key < x.key
    ensures Sorted(a + [e] + ([] + [x] + b)) && Lacks(a + [e] + ([] + [x] + b), e, a + [x] + b)
  {
    Around(a, x, b, Key);
    assert a + [x] + b == a + ([x] + b) && [] + [x] + b == [x] + b;
    Placed(a, e, [x] + b, Key);
  }

  lemma InsertAfter(a: seq<Node>, x: Node, e: Node, b: seq<Node>)
    requires Sorted(a + [x] + b) && Above(b, e.key) && x.key < e.key
    ensures Sorted((a + [x] + []) + [e] + b) && Lacks((a + [x] + []) + [e] + b, e, a + [x] + b)
  {
    Around(a, x, b, Key);
    assert a + [x] + [] == a + [x];
    Placed(a + [x], e, b, Key);
  }

  lemma PutAboveOrder(t: Tree, elm: Node)
    requires t.Fork? && Sorted(Inorder(t)) && Nearest(t, elm.key) && elm.key < t.node.key
    ensures Sorted(Inorder(PutAbove(t, elm))) && Lacks(Inorder(PutAbove(t, elm)), elm, Inorder(t))
  {
    assert Inorder(Fork(t.node, Leaf, t.right)) == Inorder(Leaf) + [t.node] + Inorder(t.right);
    InsertBefore(Inorder(t.left), elm, t.node, Inorder(t.right));
  }

  lemma PutBelowOrder(t: Tree, elm: Node)
    requires t.Fork? && Sorted(Inorder(t)) && Nearest(t, elm.key) && t.node.key < elm.key
    ensures Sorted(Inorder(PutBelow(t, elm))) && Lacks(Inorder(PutBelow(t, elm)), elm, Inorder(t))
  {
    assert Inorder(Fork(t.node, t.left, Leaf)) == Inorder(t.left) + [t.node] + Inorder(Leaf);
    InsertAfter(Inorder(t.left), t.node, elm, Inorder(t.right));
  }

  /** What is left without the root: the splayed left subtree with the right one hung on. */
  ghost function Without(l: Tree, r: Tree): Tree
    requires l.Fork?
  {
    Fork(l.node, l.left, r)
  }

  lemma WithoutCells(l: Tree, r: Tree)
    requires l.Fork? && l.right.Leaf? && Distinct(l) && Distinct(r) && Nodes(l) !! Nodes(r)
    ensures Distinct(Without(l, r)) && Nodes(Without(l, r)) == Nodes(l) + Nodes(r)
    ensures Cells(Without(l, r)) == (Cells(l) + Cells(r))[l.node := Cell(Root(l.left), Root(r))]
    ensures Inorder(Without(l, r)) == Inorder(l) + Inorder(r)
  {
    assert Cells(l.left) + map[] == Cells(l.left);
    assert Inorder(l) == Inorder(l.left) + [l.node];
  }

  lemma RightRootIn(t: Tree)
    requires t.Fork? && t.right.Fork?
    ensures t.right.node in Inorder(t.right) && t.right.node in Inorder(t)
  {
  }

  /** Splayed for a key above all its nodes, a tree has its last node at the root. */
  lemma LastAtRoot(t: Tree, key: int)
    requires Nearest(t, key) && Below(Inorder(t), key)
    ensures t.right.Leaf?
  {
    assert t.node in Inorder(t);
    if t.right.Fork? {
      RightRootIn(t);
    }
  }

  // ---------- a set of keys ----------

  ghost function Keys(s: seq<Node>): set<int> {
    set n | n in s :: n.key
  }

  lemma KeysAround(a: seq<Node>, x: Node, b: seq<Node>)
    ensures Keys(a + [x] + b) == Keys(a + b) + {x.key}
  {
    assert forall n :: n in a + [x] + b <==> n in a + b || n == x;
  }

  lemma KeysInserted(was: seq<Node>, x: Node, now: seq<Node>)
    requires Lacks(now, x, was)
    ensures Keys(now) == Keys(was) + {x.key}
  {
    var i :| 0 <= i < |now| && now[i] == x && was == now[..i] + now[i + 1..];
    assert now == now[..i] + [x] + now[i + 1..];
    KeysAround(now[..i], x, now[i + 1..]);
  }

  lemma KeysApart(a: seq<Node>, key: int, b: seq<Node>)
    requires Below(a, key) && Above(b, key)
    ensures key !in Keys(a + b)
  {
    assert forall n :: n in a + b ==> n in a || n in b;
  }

  lemma KeysRemoved(was: seq<Node>, x: Node, now: seq<Node>)
    requires Sorted(was) && Lacks(was, x, now)
    ensures Keys(now) == Keys(was) - {x.key}
  {
    var i :| 0 <= i < |was| && was[i] == x && now == was[..i] + was[i + 1..];
    assert was == was[..i] + [x] + was[i + 1..];
    KeysAround(was[..i], x, was[i + 1..]);
    Around(was[..i], x, was[i + 1..], Key);
    KeysApart(was[..i], x.key, was[i + 1..]);
  }

  lemma SortedTail(s: seq<Node>)
    requires Sorted(s) && s != []
    ensures Sorted(s[1..]) && Above(s[1..], s[0].key)
  {
    assert forall i :: 0 <= i < |s| - 1 ==> s[1..][i] == s[i + 1];
  }

  lemma HasFirst(s: seq<Node>)
    requires s != []
    ensures s[0] in s
  {
  }

  /** The order of the nodes is the only one there is: it does not depend on the tree's shape. */
  lemma {:induction false} SortedUnique(a: seq<Node>, b: seq<Node>)
    requires Sorted(a) && Sorted(b) && forall n :: n in a <==> n in b
    ensures a == b
    decreases |a|
  {
    if a == [] {
      if b != [] {
        HasFirst(b);
      }
    } else {
      HasFirst(a);
      assert a[0] in b;
      assert b[0] in a;
      SortedTail(a);
      SortedTail(b);
      assert forall n :: n in a <==> n == a[0] || n in a[1..];
      assert forall n :: n in b <==> n == b[0] || n in b[1..];
      assert a[0] == b[0];
      SortedUnique(a[1..], b[1..]);
      assert a == [a[0]] + a[1..] && b == [b[0]] + b[1..];
    }
  }
}
