/** The read-only walks over a red-black tree: `RB_FIND`, `RB_NFIND`, `RB_NEXT`, `RB_PREV`
    and `RB_MINMAX`, each against the in-order sequence. */
module RbWalk {
  import opened Ordering
  import opened RbShape
  import opened RbColour
  import opened RbTree

  ghost function First(s: seq<Node>): Node? {
    if s == [] then null else s[0]
  }

  ghost function Last(s: seq<Node>): Node? {
    if s == [] then null else s[|s| - 1]
  }

  method Find(head: RedBlackTree, key: int) returns (r: Node?)
    requires head.Valid()
    ensures r != null ==> r in head.Contents() && r.key == key
    ensures r == null ==> forall n :: n in head.Contents() ==> n.key != key
  {
    var tmp := head.root;
    ghost var p, t := Top, head.pic;
    while tmp != null
      invariant head.Valid() && head.pic == Plug(p, t) && tmp == Root(t) && Brackets(p, key)
      decreases t
    {
      head.LookSide(p, t);
      Descend(p, t, key);
      var comp := Cmp(key, tmp.key);
      if comp < 0 {
        tmp := tmp.left;
        p, t := Down(L, t.node, t.colour, t.right, p), t.left;
      } else if comp > 0 {
        tmp := tmp.right;
        p, t := Down(R, t.node, t.colour, t.left, p), t.right;
      } else {
        Located(p, t, key);
        return tmp;
      }
    }
    Located(p, t, key);
    return null;
  }

  /** The first node at or above the key: the end of `Before` is below it, `After` above it. */
  method NFind(head: RedBlackTree, key: int) returns (res: Node?)
    requires head.Valid()
    ensures res == null ==> forall n :: n in head.Contents() ==> n.key < key
    ensures res != null ==> res in head.Contents() && key <= res.key
    ensures res != null ==> forall n :: n in head.Contents() && key <= n.key ==> res.key <= n.key
  {
    var tmp := head.root;
    ghost var p, t := Top, head.pic;
    res := null;
    while tmp != null
      invariant head.Valid() && head.pic == Plug(p, t) && tmp == Root(t) && Brackets(p, key)
      invariant res == First(After(p))
      decreases t
    {
      head.LookSide(p, t);
      Descend(p, t, key);
      var comp := Cmp(key, tmp.key);
      if comp < 0 {
        res := tmp;
        tmp := tmp.left;
        p, t := Down(L, t.node, t.colour, t.right, p), t.left;
      } else if comp > 0 {
        tmp := tmp.right;
        p, t := Down(R, t.node, t.colour, t.left, p), t.right;
      } else {
        Located(p, t, key);
        return tmp;
      }
    }
    FirstAfter(p, key);
  }

  lemma FirstAfter(p: Path, key: int)
    requires Sorted(Inorder(Plug(p, Leaf))) && Brackets(p, key)
    ensures var s, b := Inorder(Plug(p, Leaf)), After(p);
            && (b == [] ==> forall n :: n in s ==> n.key < key)
            && (b != [] ==> b[0] in s && key < b[0].key)
            && (b != [] ==> forall n :: n in s && key <= n.key ==> b[0].key <= n.key)
  {
    PlugInorder(p, Leaf);
    var a, b := Before(p), After(p);
    NothingBetween(a, b);
    if b != [] {
      assert a + b == a + [b[0]] + b[1..];
      Around(a, b[0], b[1..], Key);
    }
  }

  /** Down the left links from the root of `t`. */
  method Leftmost(head: RedBlackTree, node: Node, ghost p: Path, ghost t: Tree) returns (elm: Node)
    requires head.Holds() && head.pic == Plug(p, t) && t.Fork? && node == t.node
    ensures elm == First(Inorder(t))
  {
    elm := node;
    ghost var inner, s := Top, t;
    PlugAppend(inner, p, s);
    head.LookSide(Append(inner, p), s);
    while elm.left != null
      invariant head.Holds() && s.Fork? && elm == s.node && elm.left == Root(s.left)
      invariant t == Plug(inner, s) && Before(inner) == []
      decreases s
    {
      elm := elm.left;
      inner, s := Down(L, s.node, s.colour, s.right, inner), s.left;
      PlugAppend(inner, p, s);
      head.LookSide(Append(inner, p), s);
    }
    PlugInorder(inner, s);
  }

  /** Down the right links from the root of `t`. */
  method Rightmost(head: RedBlackTree, node: Node, ghost p: Path, ghost t: Tree) returns (elm: Node)
    requires head.Holds() && head.pic == Plug(p, t) && t.Fork? && node == t.node
    ensures elm == Last(Inorder(t))
  {
    elm := node;
    ghost var inner, s := Top, t;
    PlugAppend(inner, p, s);
    head.LookSide(Append(inner, p), s);
    while elm.right != null
      invariant head.Holds() && s.Fork? && elm == s.node && elm.right == Root(s.right)
      invariant t == Plug(inner, s) && After(inner) == []
      decreases s
    {
      elm := elm.right;
      inner, s := Down(R, s.node, s.colour, s.left, inner), s.right;
      PlugAppend(inner, p, s);
      head.LookSide(Append(inner, p), s);
    }
    PlugInorder(inner, s);
  }

  /** `r` is what stands right after `x`, null at the end. */
  ghost predicate NextIn(s: seq<Node>, x: Node, r: Node?) {
    exists i :: 0 <= i < |s| && s[i] == x && r == First(s[i + 1..])
  }

  /** `r` is what stands right before `x`, null at the start. */
  ghost predicate PrevIn(s: seq<Node>, x: Node, r: Node?) {
    exists i :: 0 <= i < |s| && s[i] == x && r == Last(s[..i])
  }

  lemma Between(a: seq<Node>, x: Node, b: seq<Node>)
    ensures NextIn(a + [x] + b, x, First(b)) && PrevIn(a + [x] + b, x, Last(a))
  {
    var s := a + [x] + b;
    assert s[|a|] == x && s[|a| + 1..] == b && s[..|a|] == a;
  }

  /** The neighbours of the focus in the in-order sequence. */
  lemma Neighbours(p: Path, t: Tree)
    requires t.Fork?
    ensures NextIn(Inorder(Plug(p, t)), t.node, First(Inorder(t.right) + After(p)))
    ensures PrevIn(Inorder(Plug(p, t)), t.node, Last(Before(p) + Inorder(t.left)))
  {
    AroundFocus(p, t);
    Between(Before(p) + Inorder(t.left), t.node, Inorder(t.right) + After(p));
  }

  lemma FirstOf(a: seq<Node>, b: seq<Node>)
    ensures First(a + b) == if a == [] then First(b) else First(a)
    ensures Last(a + b) == if b == [] then Last(a) else Last(b)
  {
  }

  /** Up the parent links as long as they lead to the left. */
  method ClimbRight(head: RedBlackTree, node: Node, ghost p0: Path, ghost t0: Tree) returns (elm: Node?)
    requires head.Holds() && head.pic == Plug(p0, t0) && t0.Fork? && node == t0.node
    ensures elm == First(After(p0))
  {
    elm := node;
    ghost var p, t := p0, t0;
    head.LookSide(p, t);
    while elm.parent != null && elm == elm.parent.right
      invariant head.Holds() && head.pic == Plug(p, t) && t.Fork? && elm == t.node && After(p) == After(p0)
      invariant elm.parent == Hook(p)
      invariant p.Down? ==> (elm == elm.parent.right <==> p.side == R)
      decreases Depth(p)
    {
      elm := elm.parent;
      p, t := p.up, Join(p.side, p.node, p.colour, t, p.sibling);
      head.LookSide(p, t);
    }
    elm := elm.parent;
  }

  method ClimbLeft(head: RedBlackTree, node: Node, ghost p0: Path, ghost t0: Tree) returns (elm: Node?)
    requires head.Holds() && head.pic == Plug(p0, t0) && t0.Fork? && node == t0.node
    ensures elm == Last(Before(p0))
  {
    elm := node;
    ghost var p, t := p0, t0;
    head.LookSide(p, t);
    while elm.parent != null && elm == elm.parent.left
      invariant head.Holds() && head.pic == Plug(p, t) && t.Fork? && elm == t.node && Before(p) == Before(p0)
      invariant elm.parent == Hook(p)
      invariant p.Down? ==> (elm == elm.parent.left <==> p.side == L)
      decreases Depth(p)
    {
      elm := elm.parent;
      p, t := p.up, Join(p.side, p.node, p.colour, t, p.sibling);
      head.LookSide(p, t);
    }
    elm := elm.parent;
  }

  method Next(head: RedBlackTree, elm: Node) returns (r: Node?)
    requires head.Valid() && elm in head.Contents()
    ensures NextIn(head.Contents(), elm, r)
  {
    InorderNodes(head.pic, elm);
    ghost var p, t := Focus(head.pic, elm);
    Neighbours(p, t);
    FirstOf(Inorder(t.right), After(p));
    head.LookSide(p, t);
    if elm.right != null {
      r := Leftmost(head, elm.right, Down(R, t.node, t.colour, t.left, p), t.right);
    } else {
      if elm.parent != null && elm == elm.parent.left {
        r := elm.parent;
      } else {
        r := ClimbRight(head, elm, p, t);
      }
    }
  }

  method Prev(head: RedBlackTree, elm: Node) returns (r: Node?)
    requires head.Valid() && elm in head.Contents()
    ensures PrevIn(head.Contents(), elm, r)
  {
    InorderNodes(head.pic, elm);
    ghost var p, t := Focus(head.pic, elm);
    Neighbours(p, t);
    FirstOf(Before(p), Inorder(t.left));
    head.LookSide(p, t);
    if elm.left != null {
      r := Rightmost(head, elm.left, Down(L, t.node, t.colour, t.right, p), t.left);
    } else {
      if elm.parent != null && elm == elm.parent.right {
        r := elm.parent;
      } else {
        r := ClimbLeft(head, elm, p, t);
      }
    }
  }

  ghost predicate AlongLeft(p: Path) {
    Before(p) == [] && First(After(p)) == Hook(p)
  }

  ghost predicate AlongRight(p: Path) {
    After(p) == [] && Last(Before(p)) == Hook(p)
  }

  lemma Along(p: Path, t: Tree)
    requires t.Fork?
    ensures AlongLeft(p) ==> AlongLeft(Down(L, t.node, t.colour, t.right, p))
    ensures AlongRight(p) ==> AlongRight(Down(R, t.node, t.colour, t.left, p))
  {
  }

  lemma AlongEnd(p: Path)
    ensures AlongLeft(p) ==> First(Inorder(Plug(p, Leaf))) == Hook(p)
    ensures AlongRight(p) ==> Last(Inorder(Plug(p, Leaf))) == Hook(p)
  {
    PlugInorder(p, Leaf);
    NothingBetween(Before(p), After(p));
    FirstOf(Before(p), After(p));
  }

  method MinMax(head: RedBlackTree, val: int) returns (parent: Node?)
    requires head.Valid()
    ensures parent == if val < 0 then First(head.Contents()) else Last(head.Contents())
  {
    var tmp := head.root;
    parent := null;
    ghost var p, t := Top, head.pic;
    while tmp != null
      invariant head.Holds() && head.pic == Plug(p, t) && tmp == Root(t)
      invariant parent == Hook(p)
      invariant if val < 0 then AlongLeft(p) else AlongRight(p)
      decreases t
    {
      head.LookSide(p, t);
      Along(p, t);
      parent := tmp;
      if val < 0 {
        tmp := tmp.left;
        p, t := Down(L, t.node, t.colour, t.right, p), t.left;
      } else {
        tmp := tmp.right;
        p, t := Down(R, t.node, t.colour, t.left, p), t.right;
      }
    }
    AlongEnd(p);
  }

  /** What validity means for the fields of one node. */
  lemma NodeInvariants(head: RedBlackTree, n: Node)
    requires head.Valid() && n in head.Contents()
    ensures n.left != null ==> n.left in head.Contents() && n.left.parent == n && n.left.key < n.key
    ensures n.right != null ==> n.right in head.Contents() && n.right.parent == n && n.key < n.right.key
    ensures n.parent == null <==> n == head.root
    ensures n.parent != null ==> n.parent in head.Contents() && (n == n.parent.left || n == n.parent.right)
    ensures n.colour == Red ==> n.parent != null && n.parent.colour == Black
  {
    InorderNodes(head.pic, n);
    var p, t := Focus(head.pic, n);
    head.Look(p, t);
    ChildInvariants(head, p, t);
    ParentInvariants(head, p, t);
  }

  lemma ChildInvariants(head: RedBlackTree, p: Path, t: Tree)
    requires head.Valid() && head.pic == Plug(p, t) && t.Fork?
    ensures var n := t.node;
            && (n.left != null ==> n.left in head.Contents() && n.left.parent == n && n.left.key < n.key)
            && (n.right != null ==> n.right in head.Contents() && n.right.parent == n && n.key < n.right.key)
  {
    head.Look(p, t);
    AroundFocus(p, t);
    Around(Before(p) + Inorder(t.left), t.node, Inorder(t.right) + After(p), Key);
    if t.left.Fork? {
      head.Look(Down(L, t.node, t.colour, t.right, p), t.left);
      InorderNodes(t.left, t.left.node);
    }
    if t.right.Fork? {
      head.Look(Down(R, t.node, t.colour, t.left, p), t.right);
      InorderNodes(t.right, t.right.node);
    }
  }

  lemma ParentInvariants(head: RedBlackTree, p: Path, t: Tree)
    requires head.Valid() && head.pic == Plug(p, t) && t.Fork?
    ensures var n := t.node;
            && (n.parent == null <==> n == head.root)
            && (n.parent != null ==> n.parent in head.Contents() && (n == n.parent.left || n == n.parent.right))
            && (n.colour == Red ==> n.parent != null && n.parent.colour == Black)
  {
    head.Look(p, t);
    PlugRedBlack(p, t);
    if p.Down? {
      InorderNodes(head.pic, p.node);
    }
  }

  /** The bound of the header comment, for every tree that inserts and removes can build. */
  lemma TreeHeightBound(head: RedBlackTree)
    requires head.Valid()
    ensures var n := |head.Contents()|; Pow2(Height(head.pic)) <= (n + 1) * (n + 1)
  {
    HeightBound(head.pic);
  }
}
