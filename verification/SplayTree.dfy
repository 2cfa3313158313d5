/** The splay tree of `include/uv/tree.h`: every operation, in place, as a sorted set of nodes. */
module SplayTree {
  import opened Ordering
  import opened SplayShape

  /** The nodes of a tree exist. */
  lemma Exist(t: Tree)
    ensures forall n :: n in Nodes(t) ==> allocated(n)
  {
    if t.Leaf? {
    } else {
      Exist(t.left);
      Exist(t.right);
    }
  }

  class SplayTree {
    var root: Node?
    /** The picture the pointers draw. */
    ghost var pic: Tree

    ghost predicate Stored(n: Node, c: Cell)
      reads n
    {
      n.left == c.left && n.right == c.right
    }

    /** `t` can be read off the fields of its nodes. */
    ghost predicate Matches(t: Tree)
      reads Nodes(t)
    {
      Distinct(t) && forall n :: n in Cells(t) ==> Stored(n, Cells(t)[n])
    }

    /** The fields of all nodes are those the picture prescribes. */
    ghost predicate Holds()
      reads this, Nodes(pic)
    {
      root == Root(pic) && Matches(pic)
    }

    ghost predicate Valid()
      reads this, Nodes(pic)
    {
      Holds() && Sorted(Inorder(pic))
    }

    ghost function Contents(): seq<Node>
      reads this
    {
      Inorder(pic)
    }

    constructor ()
      ensures Valid() && Contents() == []
    {
      root, pic := null, Leaf;
    }

    // ---------- SPLAY, step by step ----------

    /** A splay in progress: the fields are those of the two chains, whose open ends are `left` and
        `right`, and of the tree between them. */
    ghost predicate Mid(scratch: Node, left: Node, right: Node, lc: Chain, t: Tree, rc: Chain)
      reads this, scratch, left, right, MidNodes(lc, t, rc)
    {
      && t.Fork? && root == t.node && Apart(lc, t, rc) && scratch !in MidNodes(lc, t, rc)
      && left == End(lc, scratch) && right == End(rc, scratch)
      && scratch.right == First(lc, left.right) && scratch.left == First(rc, right.left)
      && var m := MidCells(lc, left.right, t, rc, right.left);
      forall n :: n in m ==> Stored(n, m[n])
    }

    lemma LookMid(scratch: Node, left: Node, right: Node, lc: Chain, t: Tree, rc: Chain)
      requires Mid(scratch, left, right, lc, t, rc)
      ensures root.left == Root(t.left) && root.right == Root(t.right)
      ensures t.left.Fork? ==> t.left.node.left == Root(t.left.left) && t.left.node.right == Root(t.left.right)
      ensures t.right.Fork? ==> t.right.node.left == Root(t.right.left) && t.right.node.right == Root(t.right.right)
    {
      var m := MidCells(lc, left.right, t, rc, right.left);
      assert m[t.node] == Cell(Root(t.left), Root(t.right));
      if t.left.Fork? {
        TurnRightCells(lc, left.right, t, rc, right.left);
      }
      if t.right.Fork? {
        TurnLeftCells(lc, left.right, t, rc, right.left);
      }
    }

    /** The pointer surgery of `SPLAY_ROTATE_RIGHT`, seen cell by cell. */
    method SpinRight(tmp: Node, ghost m: map<Node, Cell>, ghost x: Node)
      requires forall n :: n in m ==> Stored(n, m[n])
      requires root == x && x in m && tmp in m && tmp != x
      modifies `root, x, tmp
      ensures root == tmp
      ensures var m' := m[x := Cell(m[tmp].right, m[x].right)][tmp := Cell(m[tmp].left, x)];
              forall n :: n in m ==> Stored(n, m'[n])
    {
      root.left := tmp.right;
      tmp.right := root;
      root := tmp;
    }

    /** The pointer surgery of `SPLAY_ROTATE_LEFT`, seen cell by cell. */
    method SpinLeft(tmp: Node, ghost m: map<Node, Cell>, ghost x: Node)
      requires forall n :: n in m ==> Stored(n, m[n])
      requires root == x && x in m && tmp in m && tmp != x
      modifies `root, x, tmp
      ensures root == tmp
      ensures var m' := m[x := Cell(m[x].left, m[tmp].left)][tmp := Cell(x, m[tmp].right)];
              forall n :: n in m ==> Stored(n, m'[n])
    {
      root.right := tmp.left;
      tmp.left := root;
      root := tmp;
    }

    /** `SPLAY_ROTATE_RIGHT`. */
    method RotateRight(tmp: Node, ghost scratch: Node, ghost left: Node, ghost right: Node,
                       ghost lc: Chain, ghost t: Tree, ghost rc: Chain)
      requires Mid(scratch, left, right, lc, t, rc) && t.left.Fork? && tmp == t.left.node
      modifies `root, Nodes(t)
      ensures Mid(scratch, left, right, lc, TurnedRight(t), rc)
    {
      ghost var m := MidCells(lc, left.right, t, rc, right.left);
      TurnRightCells(lc, left.right, t, rc, right.left);
      SpinRight(tmp, m, t.node);
    }

    /** `SPLAY_ROTATE_LEFT`. */
    method RotateLeft(tmp: Node, ghost scratch: Node, ghost left: Node, ghost right: Node,
                      ghost lc: Chain, ghost t: Tree, ghost rc: Chain)
      requires Mid(scratch, left, right, lc, t, rc) && t.right.Fork? && tmp == t.right.node
      modifies `root, Nodes(t)
      ensures Mid(scratch, left, right, lc, TurnedLeft(t), rc)
    {
      ghost var m := MidCells(lc, left.right, t, rc, right.left);
      TurnLeftCells(lc, left.right, t, rc, right.left);
      SpinLeft(tmp, m, t.node);
    }

    /** The pointer surgery of `SPLAY_LINKLEFT`, seen cell by cell. */
    method PushLeft(right: Node, ghost m: map<Node, Cell>, ghost x: Node, ghost scratch: Node, ghost rc: Chain)
      returns (next: Node)
      requires forall n :: n in m ==> Stored(n, m[n])
      requires root == x && x in m && scratch !in m && ChainNodes(rc) <= m.Keys && x !in ChainNodes(rc)
      requires right == End(rc, scratch)
      modifies `root, right`left
      ensures next == x && root == m[x].left && right.left == x
      ensures scratch.left == (if rc.Nil? then x else old(scratch.left)) && scratch.right == old(scratch.right)
      ensures var m' := if rc.Nil? then m else m[rc.node := m[rc.node].(left := x)];
              forall n :: n in m ==> Stored(n, m'[n])
    {
      right.left := root;
      next := root;
      root := root.left;
    }

    /** The pointer surgery of `SPLAY_LINKRIGHT`, seen cell by cell. */
    method PushRight(left: Node, ghost m: map<Node, Cell>, ghost x: Node, ghost scratch: Node, ghost lc: Chain)
      returns (next: Node)
      requires forall n :: n in m ==> Stored(n, m[n])
      requires root == x && x in m && scratch !in m && ChainNodes(lc) <= m.Keys && x !in ChainNodes(lc)
      requires left == End(lc, scratch)
      modifies `root, left`right
      ensures next == x && root == m[x].right && left.right == x
      ensures scratch.right == (if lc.Nil? then x else old(scratch.right)) && scratch.left == old(scratch.left)
      ensures var m' := if lc.Nil? then m else m[lc.node := m[lc.node].(right := x)];
              forall n :: n in m ==> Stored(n, m'[n])
    {
      left.right := root;
      next := root;
      root := root.right;
    }

    /** `SPLAY_LINKLEFT`. */
    method LinkLeft(right: Node, ghost scratch: Node, ghost left: Node,
                    ghost lc: Chain, ghost t: Tree, ghost rc: Chain) returns (next: Node)
      requires Mid(scratch, left, right, lc, t, rc) && t.left.Fork?
      modifies `root, right`left
      ensures Mid(scratch, left, next, lc, t.left, Snoc(rc, t.node, t.right))
    {
      LinkLeftCells(lc, left.right, t, rc, right.left);
      MidRoot(lc, left.right, t, rc, right.left);
      OpenEnd(R, rc, right.left, t.node);
      ghost var le, m := left.right, MidCells(lc, left.right, t, rc, right.left);
      next := PushLeft(right, m, t.node, scratch, rc);
      assert left.right == le && next.left == Root(t.left);
    }

    /** `SPLAY_LINKRIGHT`. */
    method LinkRight(left: Node, ghost scratch: Node, ghost right: Node,
                     ghost lc: Chain, ghost t: Tree, ghost rc: Chain) returns (next: Node)
      requires Mid(scratch, left, right, lc, t, rc) && t.right.Fork?
      modifies `root, left`right
      ensures Mid(scratch, next, right, Snoc(lc, t.node, t.left), t.right, rc)
    {
      LinkRightCells(lc, left.right, t, rc, right.left);
      MidRoot(lc, left.right, t, rc, right.left);
      OpenEnd(L, lc, left.right, t.node);
      ghost var re, m := right.left, MidCells(lc, left.right, t, rc, right.left);
      next := PushRight(left, m, t.node, scratch, lc);
      assert right.left == re && next.right == Root(t.right);
    }

    /** The pointer surgery of `SPLAY_ASSEMBLE`, from the cells `m` to the cells `a`. */
    method KnitEnds(scratch: Node, left: Node, right: Node, ghost m: map<Node, Cell>, ghost x: Node,
                    ghost lc: Chain, ghost e: Node?, ghost rc: Chain, ghost f: Node?, ghost a: map<Node, Cell>)
      requires forall n :: n in m ==> Stored(n, m[n])
      requires root == x && x in m && scratch !in m && ChainNodes(lc) <= m.Keys && ChainNodes(rc) <= m.Keys
      requires ChainNodes(lc) !! ChainNodes(rc) && x !in ChainNodes(lc) && x !in ChainNodes(rc)
      requires left == End(lc, scratch) && right == End(rc, scratch)
      requires m[x] == Cell(e, f)
      requires a == Knit(m, lc, e, rc, f)
                    [x := Cell(if lc.Nil? then e else scratch.right, if rc.Nil? then f else scratch.left)]
      modifies scratch, left, right, x
      ensures forall n :: n in a ==> Stored(n, a[n])
    {
      left.right := root.left;
      right.left := root.right;
      root.left := scratch.right;
      root.right := scratch.left;
    }

    /** The two chains are closed. */
    method CloseChains(scratch: Node, left: Node, right: Node, ghost lc: Chain, ghost t: Tree, ghost rc: Chain)
      requires Mid(scratch, left, right, lc, t, rc)
      modifies scratch, left, right, root
      ensures Matches(Assembled(lc, t, rc))
    {
      ghost var m, a := MidCells(lc, left.right, t, rc, right.left), Assembled(lc, t, rc);
      AssembledKnit(lc, left.right, t, rc, right.left, scratch.right, scratch.left);
      KnitEnds(scratch, left, right, m, t.node, lc, Root(t.left), rc, Root(t.right), Cells(a));
    }

    /** `SPLAY_ASSEMBLE`. */
    method Assemble(scratch: Node, left: Node, right: Node, ghost lc: Chain, ghost t: Tree, ghost rc: Chain)
      requires Mid(scratch, left, right, lc, t, rc)
      modifies this`pic, scratch, left, right, root
      ensures pic == Assembled(lc, t, rc) && Holds()
      ensures Nodes(pic) == MidNodes(lc, t, rc)
    {
      AssembledCells(lc, t, rc);
      CloseChains(scratch, left, right, lc, t, rc);
      pic := Assembled(lc, t, rc);
    }

    /** One round of the loop to the left; `SPLAY_MINMAX` has no `elm` and always rotates. */
    method StepLeft(elm: Node?, right: Node, ghost scratch: Node, ghost left: Node,
                    ghost lc: Chain, ghost t0: Tree, ghost rc0: Chain, ghost key: int, ghost was: seq<Node>)
      returns (next: Node, stop: bool, ghost t: Tree, ghost rc: Chain)
      requires Mid(scratch, left, right, lc, t0, rc0) && Sought(lc, t0, rc0, key, was) && key < t0.node.key
      requires if elm == null then Above(was, key) else elm.key == key
      modifies `root, right, Nodes(t0)
      ensures Mid(scratch, left, next, lc, t, rc) && Sought(lc, t, rc, key, was)
      ensures MidNodes(lc, t, rc) == MidNodes(lc, t0, rc0)
      ensures if stop then key < t.node.key && t.left.Leaf? else Size(t) < Size(t0)
    {
      next, t, rc := right, t0, rc0;
      LookMid(scratch, left, right, lc, t, rc);
      var tmp := root.left;
      if tmp == null {
        return next, true, t, rc;
      }
      if elm == null || Cmp(elm.key, tmp.key) < 0 {
        SoughtTurn(lc, t, rc, key, was);
        TurnRightTree(t);
        TurnOrder(t);
        RotateRight(tmp, scratch, left, right, lc, t, rc);
        t := TurnedRight(t);
        InOrderHere(lc, t, rc);
        LookMid(scratch, left, right, lc, t, rc);
        if root.left == null {
          return next, true, t, rc;
        }
      }
      SoughtLink(lc, t, rc, key, was);
      LinkLeftCells(lc, left.right, t, rc, right.left);
      next := LinkLeft(right, scratch, left, lc, t, rc);
      return next, false, t.left, Snoc(rc, t.node, t.right);
    }

    /** One round of the loop to the right. */
    method StepRight(elm: Node?, left: Node, ghost scratch: Node, ghost right: Node,
                     ghost lc0: Chain, ghost t0: Tree, ghost rc: Chain, ghost key: int, ghost was: seq<Node>)
      returns (next: Node, stop: bool, ghost lc: Chain, ghost t: Tree)
      requires Mid(scratch, left, right, lc0, t0, rc) && Sought(lc0, t0, rc, key, was) && t0.node.key < key
      requires if elm == null then Below(was, key) else elm.key == key
      modifies `root, left, Nodes(t0)
      ensures Mid(scratch, next, right, lc, t, rc) && Sought(lc, t, rc, key, was)
      ensures MidNodes(lc, t, rc) == MidNodes(lc0, t0, rc)
      ensures if stop then t.node.key < key && t.right.Leaf? else Size(t) < Size(t0)
    {
      next, lc, t := left, lc0, t0;
      LookMid(scratch, left, right, lc, t, rc);
      var tmp := root.right;
      if tmp == null {
        return next, true, lc, t;
      }
      if elm == null || Cmp(elm.key, tmp.key) > 0 {
        SoughtTurn(lc, t, rc, key, was);
        TurnLeftTree(t);
        TurnOrder(t);
        RotateLeft(tmp, scratch, left, right, lc, t, rc);
        t := TurnedLeft(t);
        InOrderHere(lc, t, rc);
        LookMid(scratch, left, right, lc, t, rc);
        if root.right == null {
          return next, true, lc, t;
        }
      }
      SoughtLink(lc, t, rc, key, was);
      LinkRightCells(lc, left.right, t, rc, right.left);
      next := LinkRight(left, scratch, right, lc, t, rc);
      return next, false, Snoc(lc, t.node, t.left), t.right;
    }

    /** The empty chains at the start. */
    method Begin() returns (scratch: Node)
      requires Holds() && root != null
      ensures fresh(scratch) && Mid(scratch, scratch, scratch, Nil, pic, Nil)
    {
      Exist(pic);
      scratch := new Node(0);
      assert MidNodes(Nil, pic, Nil) == Nodes(pic);
      assert MidCells(Nil, scratch.right, pic, Nil, scratch.left) == Cells(pic);
    }

    /** `SPLAY`: the order of the nodes is kept, and the root is as near to the key as can be. */
    method Splay(elm: Node)
      requires Valid() && root != null
      modifies this, Nodes(pic)
      ensures Valid() && Contents() == old(Contents()) && Nodes(pic) == old(Nodes(pic))
      ensures Nearest(pic, elm.key)
    {
      ghost var was, nodes := Contents(), Nodes(pic);
      var scratch := Begin();
      var left, right := scratch, scratch;
      ghost var lc, t, rc := Nil, pic, Nil;
      SoughtFirst(t, elm.key);
      while Cmp(elm.key, root.key) != 0
        invariant Mid(scratch, left, right, lc, t, rc) && fresh(scratch)
        invariant Sought(lc, t, rc, elm.key, was) && MidNodes(lc, t, rc) == nodes
        decreases Size(t)
      {
        var stop;
        if Cmp(elm.key, root.key) < 0 {
          right, stop, t, rc := StepLeft(elm, right, scratch, left, lc, t, rc, elm.key, was);
        } else {
          left, stop, lc, t := StepRight(elm, left, scratch, right, lc, t, rc, elm.key, was);
        }
        if stop {
          break;
        }
      }
      SoughtDone(lc, t, rc, elm.key, was);
      Assemble(scratch, left, right, lc, t, rc);
    }

    // ---------- SPLAY_MINMAX ----------

    /** Both splays to an end of the tree; the loop of the source only ends for a sign. */
    method SplayMinMax(comp: int)
      requires Valid() && root != null && comp != 0
      modifies this, Nodes(pic)
      ensures Valid() && Contents() == old(Contents()) && Nodes(pic) == old(Nodes(pic))
      ensures pic.Fork? && if comp < 0 then pic.left.Leaf? else pic.right.Leaf?
    {
      ghost var was, nodes := Contents(), Nodes(pic);
      ghost var low := KeyBelow(was);
      ghost var high := KeyAbove(was);
      ghost var key := if comp < 0 then low else high;
      var scratch := Begin();
      var left, right := scratch, scratch;
      ghost var lc, t, rc := Nil, pic, Nil;
      SoughtFirst(t, key);
      while true
        invariant Mid(scratch, left, right, lc, t, rc) && fresh(scratch)
        invariant Sought(lc, t, rc, key, was) && MidNodes(lc, t, rc) == nodes
        invariant if comp < 0 then lc.Nil? && left == scratch else rc.Nil? && right == scratch
        decreases Size(t)
      {
        var stop;
        InOrderHere(lc, t, rc);
        if comp < 0 {
          right, stop, t, rc := StepLeft(null, right, scratch, left, lc, t, rc, key, was);
        } else {
          left, stop, lc, t := StepRight(null, left, scratch, right, lc, t, rc, key, was);
        }
        if stop {
          break;
        }
      }
      SoughtDone(lc, t, rc, key, was);
      Assemble(scratch, left, right, lc, t, rc);
    }

    /** `SPLAY_MIN` and `SPLAY_MAX`. */
    method MinMax(comp: int) returns (res: Node?)
      requires Valid() && comp != 0
      modifies this, Nodes(pic)
      ensures Valid() && Contents() == old(Contents()) && Nodes(pic) == old(Nodes(pic))
      ensures var s := Contents();
              res == if s == [] then null else if comp < 0 then s[0] else s[|s| - 1]
    {
      if root == null {
        return null;
      }
      SplayMinMax(comp);
      FirstBelow(pic);
      return root;
    }

    // ---------- the operations ----------

    /** `SPLAY_FIND`. */
    method Find(elm: Node) returns (res: Node?)
      requires Valid()
      modifies this, Nodes(pic)
      ensures Valid() && Contents() == old(Contents()) && Nodes(pic) == old(Nodes(pic))
      ensures res != null <==> elm.key in Keys(Contents())
      ensures res != null ==> res in Contents() && res.key == elm.key
    {
      if root == null {
        return null;
      }
      Splay(elm);
      NearestKeys(pic, elm.key);
      if Cmp(elm.key, root.key) == 0 {
        return root;
      }
      return null;
    }

    /** The left spine below `x`, down to its first node. */
    method Leftmost(x: Node, ghost t: Tree) returns (res: Node)
      requires t.Fork? && t.node == x
      requires Matches(t)
      ensures res == Inorder(t)[0]
    {
      res := x;
      ghost var s := t;
      FirstBelow(s);
      while res.left != null
        invariant s.Fork? && s.node == res && Inorder(s)[0] == Inorder(t)[0]
        invariant Matches(s)
        decreases Size(s)
      {
        SubCells(s);
        FirstBelow(s);
        res := res.left;
        s := s.left;
      }
      SubCells(s);
      FirstBelow(s);
    }

    /** The first node of the right subtree of `elm`, which is at the root. */
    method AfterRoot(elm: Node) returns (res: Node?)
      requires Holds() && root == elm
      ensures Follows(Contents(), elm, res)
    {
      SubCells(pic);
      FollowsRoot(pic);
      assert Stored(elm, Cells(pic)[elm]);
      if elm.right == null {
        return null;
      }
      res := Leftmost(elm.right, pic.right);
    }

    /** `SPLAY_NEXT`: the node after `elm` in order. */
    method Next(elm: Node) returns (res: Node?)
      requires Valid() && elm in Contents()
      modifies this, Nodes(pic)
      ensures Valid() && Contents() == old(Contents()) && Nodes(pic) == old(Nodes(pic))
      ensures Follows(Contents(), elm, res)
    {
      Splay(elm);
      NearestFinds(pic, elm.key, elm);
      Exist(pic);
      res := AfterRoot(elm);
    }

    /** `SPLAY_INSERT`: the equal node there is, or null and `elm` is in. */
    method Insert(elm: Node) returns (res: Node?)
      requires Valid()
      modifies this, Nodes(pic), elm
      ensures Valid()
      ensures res == null <==> elm.key !in Keys(old(Contents()))
      ensures Keys(Contents()) == Keys(old(Contents())) + {elm.key}
      ensures res == null ==> Lacks(Contents(), elm, old(Contents()))
      ensures res != null ==> Contents() == old(Contents()) && res in Contents() && res.key == elm.key
    {
      ghost var was := Contents();
      if root == null {
        PutAlone(elm);
        KeysInserted(was, elm, Contents());
        return null;
      }
      Splay(elm);
      NearestKeys(pic, elm.key);
      InorderNodes(pic, elm);
      var comp := Cmp(elm.key, root.key);
      if comp < 0 {
        PutOverRoot(elm);
      } else if comp > 0 {
        PutUnderRoot(elm);
      } else {
        return root;
      }
      KeysInserted(was, elm, Contents());
      return null;
    }

    method PutAlone(elm: Node)
      requires Valid() && root == null
      modifies this, elm
      ensures Valid() && Contents() == [elm] && Lacks(Contents(), elm, old(Contents()))
    {
      elm.left, elm.right := null, null;
      Drop([], elm, []);
      assert [] + [elm] + [] == [elm];
      pic := Fork(elm, Leaf, Leaf);
      root := elm;
    }

    /** The pointer surgery of `SPLAY_INSERT` for a smaller key, seen cell by cell. */
    method SplitLeft(elm: Node, ghost m: map<Node, Cell>, ghost x: Node)
      requires forall n :: n in m ==> Stored(n, m[n])
      requires root == x && x in m && elm !in m
      modifies `root, x, elm
      ensures root == elm && Stored(elm, Cell(m[x].left, x))
      ensures var m' := m[x := Cell(null, m[x].right)];
              forall n :: n in m ==> Stored(n, m'[n])
    {
      elm.left := root.left;
      elm.right := root;
      root.left := null;
      root := elm;
    }

    /** The pointer surgery of `SPLAY_INSERT` for a greater key, seen cell by cell. */
    method SplitRight(elm: Node, ghost m: map<Node, Cell>, ghost x: Node)
      requires forall n :: n in m ==> Stored(n, m[n])
      requires root == x && x in m && elm !in m
      modifies `root, x, elm
      ensures root == elm && Stored(elm, Cell(x, m[x].right))
      ensures var m' := m[x := Cell(m[x].left, null)];
              forall n :: n in m ==> Stored(n, m'[n])
    {
      elm.right := root.right;
      elm.left := root;
      root.right := null;
      root := elm;
    }

    /** The root goes to the right of `elm`, its left subtree to the left. */
    method PutOverRoot(elm: Node)
      requires Valid() && pic.Fork? && Nearest(pic, elm.key) && elm.key < root.key && elm !in Nodes(pic)
      modifies this, root, elm
      ensures Valid() && Lacks(Contents(), elm, old(Contents()))
    {
      PutAboveCells(pic, elm);
      PutAboveOrder(pic, elm);
      SplitLeft(elm, Cells(pic), pic.node);
      pic := PutAbove(pic, elm);
    }

    /** The root goes to the left of `elm`, its right subtree to the right. */
    method PutUnderRoot(elm: Node)
      requires Valid() && pic.Fork? && Nearest(pic, elm.key) && root.key < elm.key && elm !in Nodes(pic)
      modifies this, root, elm
      ensures Valid() && Lacks(Contents(), elm, old(Contents()))
    {
      PutBelowCells(pic, elm);
      PutBelowOrder(pic, elm);
      SplitRight(elm, Cells(pic), pic.node);
      pic := PutBelow(pic, elm);
    }

    /** `SPLAY_REMOVE`: the node with the key of `elm` goes, if there is one. */
    method Remove(elm: Node) returns (res: Node?)
      requires Valid()
      modifies this, Nodes(pic)
      ensures Valid()
      ensures res == null <==> elm.key !in Keys(old(Contents()))
      ensures Keys(Contents()) == Keys(old(Contents())) - {elm.key}
      ensures res == null ==> Contents() == old(Contents())
      ensures res != null ==> res == elm && LacksKey(old(Contents()), elm.key, Contents())
    {
      if root == null {
        return null;
      }
      Splay(elm);
      NearestKeys(pic, elm.key);
      if Cmp(elm.key, root.key) != 0 {
        return null;
      }
      ghost var was, x := Contents(), pic.node;
      RemoveRoot(elm);
      KeysRemoved(was, x, Contents());
      return elm;
    }

    /** The root goes. */
    method RemoveRoot(elm: Node)
      requires Valid() && pic.Fork? && root.key == elm.key
      modifies this, Nodes(pic)
      ensures Valid() && Lacks(old(Contents()), old(root), Contents())
    {
      ghost var t := pic;
      SubCells(t);
      TakenOut(Inorder(t.left), t.node, Inorder(t.right), Key);
      assert Stored(root, Cells(t)[root]);
      if root.left == null {
        root := root.right;
        pic := t.right;
        assert [] + Inorder(t.right) == Inorder(t.right);
      } else {
        RootBetween(t);
        JoinSides(elm, t);
      }
    }

    /** The two subtrees of the root are joined at the last node of the left one, which a second
        splay brings up with no right child. */
    method JoinSides(elm: Node, ghost t: Tree)
      requires root != null && t.Fork? && t.left.Fork? && Stored(root, Cell(t.left.node, Root(t.right)))
      requires Matches(t.left) && Matches(t.right) && Nodes(t.left) !! Nodes(t.right)
      requires Sorted(Inorder(t.left)) && Below(Inorder(t.left), elm.key)
      modifies this, Nodes(t.left)
      ensures Holds() && Contents() == Inorder(t.left) + Inorder(t.right)
    {
      var tmp := root.right;
      root := root.left;
      pic := t.left;
      SplayAside(elm, t.right);
      LastAtRoot(pic, elm.key);
      HangRight(tmp, t.right);
    }

    /** A splay leaves a tree that shares no node as it was. */
    method SplayAside(elm: Node, ghost r: Tree)
      requires Valid() && root != null && Nodes(pic) !! Nodes(r)
      requires Matches(r)
      modifies this, Nodes(pic)
      ensures Valid() && Contents() == old(Contents()) && Nodes(pic) == old(Nodes(pic))
      ensures Nearest(pic, elm.key) && Matches(r)
    {
      Exist(r);
      Splay(elm);
    }

    /** A subtree is hung where the root has no right child. */
    method HangRight(tmp: Node?, ghost r: Tree)
      requires Holds() && pic.Fork? && pic.right.Leaf? && tmp == Root(r) && Nodes(pic) !! Nodes(r)
      requires Matches(r)
      modifies this`pic, root
      ensures Holds() && Contents() == old(Contents()) + Inorder(r)
    {
      WithoutCells(pic, r);
      assert Cells(pic)[root] == Cell(Root(pic.left), null);
      root.right := tmp;
      pic := Without(pic, r);
    }

    /** One step of the iteration, at place `i`. */
    method Step(x: Node, ghost i: nat) returns (y: Node?)
      requires Valid() && i < |Contents()| && Contents()[i] == x
      modifies this, Nodes(pic)
      ensures Valid() && Contents() == old(Contents()) && Nodes(pic) == old(Nodes(pic))
      ensures y == if i + 1 < |Contents()| then Contents()[i + 1] else null
    {
      y := Next(x);
      FollowsAt(Contents(), i, y);
    }

    /** `SPLAY_FOREACH`: every node once, in order, while each step moves another node to the root. */
    method Foreach() returns (visited: seq<Node>)
      requires Valid()
      modifies this, Nodes(pic)
      ensures Valid() && Contents() == old(Contents()) && Nodes(pic) == old(Nodes(pic))
      ensures visited == Contents()
    {
      ghost var s := Contents();
      var x := MinMax(-1);
      visited := [];
      ghost var i := 0;
      while x != null
        invariant Valid() && Contents() == s && Nodes(pic) == old(Nodes(pic)) && 0 <= i <= |s|
        invariant visited == s[..i] && x == if i < |s| then s[i] else null
        decreases |s| - i
      {
        visited := visited + [x];
        x := Step(x, i);
        i := i + 1;
      }
    }
  }
}
