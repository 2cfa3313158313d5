/** The head of a red-black tree, with `RB_INSERT` and `RB_REMOVE` over real nodes. */
module RbTree {
  import opened Ordering
  import opened RbShape
  import opened RbColour
  import opened RbSurgery
  import opened RbInsertion
  import opened RbRemoval

  ghost predicate Stored(n: Node, c: Cell)
    reads n
  {
    n.left == c.left && n.right == c.right && n.parent == c.parent && n.colour == c.colour
  }

  class RedBlackTree {
    var root: Node?
    ghost var pic: Tree

    ghost predicate Holds()
      reads this, Nodes(pic)
    {
      && root == Root(pic) && Distinct(pic)
      && forall n :: n in Nodes(pic) ==> Stored(n, Cells(pic, null)[n])
    }

    ghost predicate Valid()
      reads this, Nodes(pic)
    {
      Holds() && RedBlack(pic) && Sorted(Inorder(pic))
    }

    ghost function Contents(): seq<Node>
      reads this
    {
      Inorder(pic)
    }

    constructor ()
      ensures Valid() && Contents() == []
    {
      root, pic := null, Leaf;
    }

    /** The pointer surgery of `RB_ROTATE_LEFT`, seen cell by cell. */
    method SpinLeft(elm: Node, ghost m: map<Node, Cell>)
      requires forall n :: n in m ==> Stored(n, m[n])
      requires CanTurnLeft(m, elm)
      modifies `root, m.Keys
      ensures forall n :: n in m ==> Stored(n, TurnedLeft(m, elm)[n])
      ensures root == if m[elm].parent == null then m[elm].right else old(root)
    {
      var tmp := elm.right;
      elm.right := tmp.left;
      if elm.right != null {
        tmp.left.parent := elm;
      }
      tmp.parent := elm.parent;
      if tmp.parent != null {
        if elm == elm.parent.left {
          elm.parent.left := tmp;
        } else {
          elm.parent.right := tmp;
        }
      } else {
        root := tmp;
      }
      tmp.left := elm;
      elm.parent := tmp;
    }

    method RotateLeft(elm: Node, ghost p: Path, ghost t: Tree)
      requires Holds() && pic == Plug(p, t)
      requires t.Fork? && t.node == elm && t.right.Fork?
      modifies this, Nodes(pic)
      ensures Holds()
      ensures pic == Plug(p, Spun(L, elm, t.colour, t.left, t.right.node, t.right.colour, t.right.left, t.right.right))
      ensures Nodes(pic) == old(Nodes(pic))
    {
      TurnLeftPicture(p, t);
      ghost var m := Cells(pic, null);
      SpinLeft(elm, m);
      pic := Plug(p, Spun(L, elm, t.colour, t.left, t.right.node, t.right.colour, t.right.left, t.right.right));
      assert Cells(pic, null) == TurnedLeft(m, elm);
    }

    /** The pointer surgery of `RB_ROTATE_RIGHT`, seen cell by cell. */
    method SpinRight(elm: Node, ghost m: map<Node, Cell>)
      requires forall n :: n in m ==> Stored(n, m[n])
      requires CanTurnRight(m, elm)
      modifies `root, m.Keys
      ensures forall n :: n in m ==> Stored(n, TurnedRight(m, elm)[n])
      ensures root == if m[elm].parent == null then m[elm].left else old(root)
    {
      var tmp := elm.left;
      elm.left := tmp.right;
      if elm.left != null {
        tmp.right.parent := elm;
      }
      tmp.parent := elm.parent;
      if tmp.parent != null {
        if elm == elm.parent.left {
          elm.parent.left := tmp;
        } else {
          elm.parent.right := tmp;
        }
      } else {
        root := tmp;
      }
      tmp.right := elm;
      elm.parent := tmp;
    }

    method RotateRight(elm: Node, ghost p: Path, ghost t: Tree)
      requires Holds() && pic == Plug(p, t)
      requires t.Fork? && t.node == elm && t.left.Fork?
      modifies this, Nodes(pic)
      ensures Holds()
      ensures pic == Plug(p, Spun(R, elm, t.colour, t.right, t.left.node, t.left.colour, t.left.right, t.left.left))
      ensures Nodes(pic) == old(Nodes(pic))
    {
      TurnRightPicture(p, t);
      ghost var m := Cells(pic, null);
      SpinRight(elm, m);
      pic := Plug(p, Spun(R, elm, t.colour, t.right, t.left.node, t.left.colour, t.left.right, t.left.left));
      assert Cells(pic, null) == TurnedRight(m, elm);
    }

    method PaintCell(x: Node, k: Colour, ghost m: map<Node, Cell>)
      requires (forall n :: n in m ==> Stored(n, m[n])) && x in m
      modifies x`colour
      ensures var m' := m[x := m[x].(colour := k)];
              forall n :: n in m ==> Stored(n, m'[n])
    {
      x.colour := k;
    }

    /** `RB_COLOR(x) = k`. */
    method Paint(x: Node, k: Colour, ghost p: Path, ghost t: Tree)
      requires Holds() && pic == Plug(p, t) && t.Fork? && t.node == x
      modifies this`pic, Nodes(pic)
      ensures Holds()
      ensures pic == Plug(p, t.(colour := k))
      ensures Nodes(pic) == old(Nodes(pic))
    {
      PaintPicture(p, t, k);
      PaintCell(x, k, Cells(pic, null));
      pic := Plug(p, t.(colour := k));
    }

    /** What the fields around the focus hold. */
    lemma Look(p: Path, t: Tree)
      requires Holds() && pic == Plug(p, t)
      ensures t.Fork? ==> t.node in Nodes(pic) && Stored(t.node, Cell(Root(t.left), Root(t.right), Hook(p), t.colour))
      ensures p.Down? ==> p.node in Nodes(pic) && Stored(p.node, HookCell(p, Root(t)))
      ensures t.Fork? && p.Down? ==> t.node != Root(p.sibling) && t.node != p.node
      ensures p.Down? ==> root != Root(t)
      ensures p.Top? ==> root == Root(t)
    {
      Unplug(p, t);
      PlugRoot(p, t);
    }

    /** The links at the focus, and on which side of its parent it hangs. */
    lemma LookSide(p: Path, t: Tree)
      requires Holds() && pic == Plug(p, t) && t.Fork?
      ensures t.node.left == Root(t.left) && t.node.right == Root(t.right) && t.node.parent == Hook(p)
      ensures p.Down? ==> (t.node == p.node.left <==> p.side == L) && (t.node == p.node.right <==> p.side == R)
    {
      Look(p, t);
    }

    /** `RB_SET_BLACKRED(parent, gparent)` on the two nodes above the focus. */
    method SetBlackRed(black: Node, red: Node, ghost p: Path, ghost t: Tree)
      requires Holds() && pic == Plug(p, t)
      requires p.Down? && p.up.Down? && p.node == black && p.up.node == red
      modifies this`pic, Nodes(pic)
      ensures Holds()
      ensures pic == Plug(p.(colour := Black, up := p.up.(colour := Red)), t)
      ensures Nodes(pic) == old(Nodes(pic))
    {
      Paint(black, Black, p.up, Join(p.side, p.node, p.colour, t, p.sibling));
      Paint(red, Red, p.up.up, Join(p.up.side, p.up.node, p.up.colour, Join(p.side, p.node, Black, t, p.sibling), p.up.sibling));
    }

    /** One round of `RB_INSERT_COLOR` whose parent is a left child. */
    method RepairLeft(node: Node, up: Node, gparent: Node, ghost p0: Path, ghost t0: Tree)
      returns (elm: Node, ghost p: Path, ghost t: Tree)
      requires Holds() && pic == Plug(p0, t0) && RedAt(p0, t0) && t0.node == node
      requires p0.Down? && p0.colour == Red && p0.node == up && p0.up.Down? && p0.up.node == gparent
      requires p0.up.side == L
      modifies this, Nodes(pic)
      ensures Holds() && pic == Plug(p, t) && RedAt(p, t) && t.node == elm
      ensures Contents() == old(Contents()) && Nodes(pic) == old(Nodes(pic))
      ensures Depth(p) < Depth(p0)
    {
      elm, p, t := node, p0, t0;
      var parent := up;
      ghost var g, j := p.up, Join(p.side, p.node, p.colour, t, p.sibling);
      Look(p, t);
      Look(g, j);
      Look(Down(R, g.node, g.colour, j, g.up), g.sibling);
      var tmp := gparent.right;
      if tmp != null && tmp.colour == Red {
        Paint(tmp, Black, Down(R, g.node, g.colour, j, g.up), g.sibling);
        SetBlackRed(parent, gparent, p.(up := g.(sibling := Blackened(g.sibling))), t);
        LiftedRedAt(p, t);
        elm := gparent;
        p, t := g.up, Lifted(p, t);
      } else {
        if parent.right == elm {
          RotateLeft(parent, g, j);
          StraightRedAt(p, t);
          parent, elm := elm, parent;
          p, t := StraightPath(p, t), StraightTree(p, t);
        }
        SetBlackRed(parent, gparent, p, t);
        RotateRight(gparent, g.up, Join(L, g.node, Red, Join(L, parent, Black, t, p.sibling), g.sibling));
        SettledRedAt(p, t);
        p := SettledPath(p);
      }
    }

    /** One round of `RB_INSERT_COLOR` whose parent is a right child. */
    method RepairRight(node: Node, up: Node, gparent: Node, ghost p0: Path, ghost t0: Tree)
      returns (elm: Node, ghost p: Path, ghost t: Tree)
      requires Holds() && pic == Plug(p0, t0) && RedAt(p0, t0) && t0.node == node
      requires p0.Down? && p0.colour == Red && p0.node == up && p0.up.Down? && p0.up.node == gparent
      requires p0.up.side == R
      modifies this, Nodes(pic)
      ensures Holds() && pic == Plug(p, t) && RedAt(p, t) && t.node == elm
      ensures Contents() == old(Contents()) && Nodes(pic) == old(Nodes(pic))
      ensures Depth(p) < Depth(p0)
    {
      elm, p, t := node, p0, t0;
      var parent := up;
      ghost var g, j := p.up, Join(p.side, p.node, p.colour, t, p.sibling);
      Look(p, t);
      Look(g, j);
      Look(Down(L, g.node, g.colour, j, g.up), g.sibling);
      var tmp := gparent.left;
      if tmp != null && tmp.colour == Red {
        Paint(tmp, Black, Down(L, g.node, g.colour, j, g.up), g.sibling);
        SetBlackRed(parent, gparent, p.(up := g.(sibling := Blackened(g.sibling))), t);
        LiftedRedAt(p, t);
        elm := gparent;
        p, t := g.up, Lifted(p, t);
      } else {
        if parent.left == elm {
          RotateRight(parent, g, j);
          StraightRedAt(p, t);
          parent, elm := elm, parent;
          p, t := StraightPath(p, t), StraightTree(p, t);
        }
        SetBlackRed(parent, gparent, p, t);
        RotateLeft(gparent, g.up, Join(R, g.node, Red, Join(R, parent, Black, t, p.sibling), g.sibling));
        SettledRedAt(p, t);
        p := SettledPath(p);
      }
    }

    lemma LookUp(p: Path, t: Tree)
      requires Holds() && pic == Plug(p, t) && p.Down? && p.up.Down?
      ensures p.node.parent == p.up.node
      ensures p.node == p.up.node.left <==> p.up.side == L
    {
      Look(p.up, Join(p.side, p.node, p.colour, t, p.sibling));
    }

    /** `RB_INSERT_COLOR`. */
    method InsertColour(node: Node, ghost p0: Path, ghost t0: Tree)
      requires Holds() && pic == Plug(p0, t0) && RedAt(p0, t0) && t0.node == node
      modifies this, Nodes(pic)
      ensures Holds() && RedBlack(pic)
      ensures Contents() == old(Contents()) && Nodes(pic) == old(Nodes(pic))
    {
      var elm := node;
      ghost var p, t := p0, t0;
      Look(p, t);
      while elm.parent != null && elm.parent.colour == Red
        invariant Holds() && pic == Plug(p, t) && RedAt(p, t) && t.node == elm
        invariant elm.parent == Hook(p) && (p.Down? ==> p.node.colour == p.colour)
        invariant Contents() == old(Contents()) && Nodes(pic) == old(Nodes(pic))
        decreases Depth(p)
      {
        var parent := elm.parent;
        ParentRed(p, t);
        LookUp(p, t);
        var gparent := parent.parent;
        if parent == gparent.left {
          elm, p, t := RepairLeft(elm, parent, gparent, p, t);
        } else {
          elm, p, t := RepairRight(elm, parent, gparent, p, t);
        }
        Look(p, t);
      }
      RepairedByBlackRoot(p, t);
      Paint(root, Black, Top, pic);
    }

    /** `RB_SET` on `elm` and its linking below `parent`, seen cell by cell. */
    method Hang(elm: Node, parent: Node?, comp: int, ghost m: map<Node, Cell>)
      requires forall n :: n in m ==> Stored(n, m[n])
      requires elm !in m && (parent != null ==> parent in m)
      modifies `root, m.Keys, elm
      ensures var m' := if parent == null then m
                        else if comp < 0 then m[parent := m[parent].(left := elm)]
                        else m[parent := m[parent].(right := elm)];
              forall n :: n in m ==> Stored(n, m'[n])
      ensures Stored(elm, Cell(null, null, parent, Red))
      ensures root == if parent == null then elm else old(root)
    {
      elm.parent := parent;
      elm.left, elm.right := null, null;
      elm.colour := Red;
      if parent != null {
        if comp < 0 {
          parent.left := elm;
        } else {
          parent.right := elm;
        }
      } else {
        root := elm;
      }
    }

    method Link(elm: Node, parent: Node?, comp: int, ghost p: Path)
      requires Holds() && pic == Plug(p, Leaf) && elm !in Nodes(pic)
      requires parent == Hook(p) && (p.Down? ==> comp != 0 && (comp < 0 <==> p.side == L))
      modifies this, Nodes(pic), elm
      ensures Holds() && pic == Plug(p, Fork(elm, Red, Leaf, Leaf))
      ensures Nodes(pic) == old(Nodes(pic)) + {elm}
    {
      LinkSets(p, elm);
      LinkPicture(p, elm);
      Hang(elm, parent, comp, Cells(pic, null));
      pic := Plug(p, Fork(elm, Red, Leaf, Leaf));
    }

    /** The search of `RB_INSERT`: the node with the key, or the slot where it belongs. */
    method Locate(key: int) returns (tmp: Node?, parent: Node?, comp: int, ghost p: Path, ghost t: Tree)
      requires Valid()
      ensures Valid() && pic == Plug(p, t) && tmp == Root(t) && parent == Hook(p)
      ensures p.Down? ==> comp != 0 && (comp < 0 <==> p.side == L)
      ensures Brackets(p, key) && (tmp != null ==> tmp.key == key)
    {
      tmp, parent, comp := root, null, 0;
      p, t := Top, pic;
      while tmp != null
        invariant Valid() && pic == Plug(p, t) && tmp == Root(t) && parent == Hook(p)
        invariant p.Down? ==> comp != 0 && (comp < 0 <==> p.side == L)
        invariant Brackets(p, key)
        decreases t
      {
        Look(p, t);
        Descend(p, t, key);
        if Cmp(key, tmp.key) == 0 {
          return;
        }
        parent := tmp;
        comp := Cmp(key, parent.key);
        if comp < 0 {
          tmp := tmp.left;
          p, t := Down(L, t.node, t.colour, t.right, p), t.left;
        } else {
          tmp := tmp.right;
          p, t := Down(R, t.node, t.colour, t.left, p), t.right;
        }
      }
    }

    /** The tail of `RB_INSERT`: link `elm` into the slot found for it and repair the colours. */
    method Attach(elm: Node, parent: Node?, comp: int, ghost p: Path)
      requires Valid() && pic == Plug(p, Leaf) && elm !in Nodes(pic)
      requires parent == Hook(p) && (p.Down? ==> comp != 0 && (comp < 0 <==> p.side == L))
      requires Brackets(p, elm.key)
      modifies this, Nodes(pic), elm
      ensures Valid() && Lacks(Contents(), elm, old(Contents()))
      ensures Nodes(pic) == old(Nodes(pic)) + {elm}
    {
      ghost var s := Fork(elm, Red, Leaf, Leaf);
      LinkInorder(p, s);
      NewLeafRedAt(p, s);
      Link(elm, parent, comp, p);
      InsertColour(elm, p, s);
    }

    /** `RB_INSERT`. */
    method Insert(elm: Node) returns (r: Node?)
      requires Valid()
      modifies this, Nodes(pic), elm
      ensures Valid()
      ensures r != null ==> r in old(Contents()) && r.key == elm.key && pic == old(pic) && unchanged(elm)
      ensures r == null ==>
                (forall n :: n in old(Contents()) ==> n.key != elm.key) && Lacks(Contents(), elm, old(Contents()))
    {
      var tmp, parent, comp, p, t := Locate(elm.key);
      Located(p, t, elm.key);
      if tmp != null {
        return tmp;
      }
      InorderNodes(pic, elm);
      Attach(elm, parent, comp, p);
      return null;
    }

    // ---------- removal ----------

    /** What the sibling of the focus and the nephews hold. */
    lemma LookNephews(p: Path, t: Tree)
      requires Holds() && pic == Plug(p, t) && p.Down? && p.sibling.Fork?
      ensures var s := p.sibling;
              && Stored(s.node, Cell(Root(s.left), Root(s.right), p.node, s.colour))
              && (s.left.Fork? ==> s.left.node.colour == s.left.colour)
              && (s.right.Fork? ==> s.right.node.colour == s.right.colour)
    {
      var s, q := p.sibling, Down(Other(p.side), p.node, p.colour, t, p.up);
      Look(q, s);
      Look(Down(L, s.node, s.colour, s.right, q), s.left);
      Look(Down(R, s.node, s.colour, s.left, q), s.right);
    }

    /** The tests `RB_REMOVE_COLOR` makes on the sibling and the nephews, in terms of the picture. */
    lemma LookShort(p: Path, t: Tree)
      requires Holds() && pic == Plug(p, t) && p.Down? && ShortAt(p, t)
      ensures p.node.colour == p.colour && p.node.parent == Hook(p.up) && p.sibling.Fork?
      ensures (if p.side == L then p.node.right else p.node.left) == p.sibling.node
      ensures p.sibling.node.colour == Red <==> IsRed(p.sibling)
      ensures var s := p.sibling.node;
              && ((s.left == null || s.left.colour == Black) <==> !IsRed(p.sibling.left))
              && ((s.right == null || s.right.colour == Black) <==> !IsRed(p.sibling.right))
    {
      SiblingExists(p, t);
      LookNephews(p, t);
      Look(p, t);
    }

    /** `RB_REMOVE_COLOR`, red sibling: it is painted black and rotated above the parent. */
    method RaiseRedSiblingLeft(parent: Node, tmp: Node, ghost p: Path, ghost t: Tree)
      requires Holds() && pic == Plug(p, t) && ShortAt(p, t)
      requires p.Down? && p.side == L && p.node == parent && IsRed(p.sibling) && p.sibling.node == tmp
      modifies this, Nodes(pic)
      ensures Holds() && pic == Plug(BelowRedSibling(p), t)
      ensures Nodes(pic) == old(Nodes(pic))
    {
      ghost var s := p.sibling;
      Paint(tmp, Black, Down(R, p.node, p.colour, t, p.up), s);
      Paint(parent, Red, p.up, Fork(parent, p.colour, t, Blackened(s)));
      RotateLeft(parent, p.up, Fork(parent, Red, t, Blackened(s)));
    }

    /** `RB_REMOVE_COLOR`, only the near nephew is red: it is rotated above the sibling. */
    method RaiseNephewLeft(parent: Node, tmp: Node, ghost p: Path, ghost t: Tree)
      requires Holds() && pic == Plug(p, t) && ShortAt(p, t)
      requires p.Down? && p.side == L && p.node == parent
      requires p.sibling.Fork? && p.sibling.node == tmp && IsRed(p.sibling.left)
      modifies this, Nodes(pic)
      ensures Holds() && pic == Plug(p.(sibling := NephewAbove(L, p.sibling)), t)
      ensures Nodes(pic) == old(Nodes(pic))
    {
      ghost var s, q := p.sibling, Down(R, p.node, p.colour, t, p.up);
      LookNephews(p, t);
      var oleft := tmp.left;
      if oleft != null {
        Paint(oleft, Black, Down(L, tmp, s.colour, s.right, q), s.left);
      }
      Paint(tmp, Red, q, Fork(tmp, s.colour, Blackened(s.left), s.right));
      RotateRight(tmp, q, Fork(tmp, Red, Blackened(s.left), s.right));
    }

    /** `RB_REMOVE_COLOR`, red far nephew: the sibling takes the parent's place and colour. */
    method FinishLeft(parent: Node, tmp: Node, ghost p: Path, ghost t: Tree)
      requires Holds() && pic == Plug(p, t) && ShortAt(p, t)
      requires p.Down? && p.side == L && p.node == parent
      requires p.sibling.Fork? && p.sibling.node == tmp
      modifies this, Nodes(pic)
      ensures Holds() && pic == Plug(p.up, FarNephewDone(p, t))
      ensures Nodes(pic) == old(Nodes(pic))
    {
      ghost var s, q := p.sibling, Down(R, p.node, p.colour, t, p.up);
      Look(p, t);
      Paint(tmp, parent.colour, q, s);
      ghost var s1 := s.(colour := p.colour);
      Paint(parent, Black, p.up, Fork(parent, p.colour, t, s1));
      LookNephews(p.(colour := Black, sibling := s1), t);
      if tmp.right != null {
        Paint(tmp.right, Black, Down(R, tmp, p.colour, s.left, q.(colour := Black)), s.right);
      }
      RotateLeft(parent, p.up, Fork(parent, Black, t, Fork(tmp, p.colour, s.left, Blackened(s.right))));
    }

    /** One round of `RB_REMOVE_COLOR` whose short subtree is a left child. */
    method RestoreLeft(node: Node?, up: Node, ghost p0: Path, ghost t0: Tree)
      returns (elm: Node?, parent: Node?, done: bool, ghost p: Path, ghost t: Tree)
      requires Holds() && pic == Plug(p0, t0) && ShortAt(p0, t0) && Root(t0) == node && !IsRed(t0)
      requires p0.Down? && p0.node == up && p0.side == L
      modifies this, Nodes(pic)
      ensures Holds() && Contents() == old(Contents()) && Nodes(pic) == old(Nodes(pic))
      ensures done ==> RedBlack(pic) && elm == root
      ensures !done ==> pic == Plug(p, t) && ShortAt(p, t) && elm == Root(t) && parent == Hook(p)
      ensures !done ==> Depth(p) < Depth(p0) || (Depth(p) == Depth(p0) && IsRed(t))
    {
      elm, parent, done, p, t := node, up, false, p0, t0;
      LookShort(p, t);
      var tmp := parent.right;
      if tmp.colour == Red {
        RaiseRedSiblingLeft(parent, tmp, p, t);
        RedSiblingShortAt(p, t);
        p := BelowRedSibling(p);
        LookShort(p, t);
        tmp := parent.right;
      }
      if (tmp.left == null || tmp.left.colour == Black) && (tmp.right == null || tmp.right.colour == Black) {
        Paint(tmp, Red, Down(R, p.node, p.colour, t, p.up), p.sibling);
        BlackNephewsShortAt(p, t);
        p, t := p.up, WithRedSibling(p, t);
        Look(p, t);
        elm := parent;
        parent := elm.parent;
      } else {
        if tmp.right == null || tmp.right.colour == Black {
          RaiseNephewLeft(parent, tmp, p, t);
          NearNephewShortAt(p, t);
          p := p.(sibling := NephewAbove(L, p.sibling));
          LookShort(p, t);
          tmp := parent.right;
        }
        FinishLeft(parent, tmp, p, t);
        FarNephewRepairs(p, t);
        elm, done := root, true;
      }
    }

    /** `RB_REMOVE_COLOR`, red sibling: it is painted black and rotated above the parent. */
    method RaiseRedSiblingRight(parent: Node, tmp: Node, ghost p: Path, ghost t: Tree)
      requires Holds() && pic == Plug(p, t) && ShortAt(p, t)
      requires p.Down? && p.side == R && p.node == parent && IsRed(p.sibling) && p.sibling.node == tmp
      modifies this, Nodes(pic)
      ensures Holds() && pic == Plug(BelowRedSibling(p), t)
      ensures Nodes(pic) == old(Nodes(pic))
    {
      ghost var s := p.sibling;
      Paint(tmp, Black, Down(L, p.node, p.colour, t, p.up), s);
      Paint(parent, Red, p.up, Fork(parent, p.colour, Blackened(s), t));
      RotateRight(parent, p.up, Fork(parent, Red, Blackened(s), t));
    }

    /** `RB_REMOVE_COLOR`, only the near nephew is red: it is rotated above the sibling. */
    method RaiseNephewRight(parent: Node, tmp: Node, ghost p: Path, ghost t: Tree)
      requires Holds() && pic == Plug(p, t) && ShortAt(p, t)
      requires p.Down? && p.side == R && p.node == parent
      requires p.sibling.Fork? && p.sibling.node == tmp && IsRed(p.sibling.right)
      modifies this, Nodes(pic)
      ensures Holds() && pic == Plug(p.(sibling := NephewAbove(R, p.sibling)), t)
      ensures Nodes(pic) == old(Nodes(pic))
    {
      ghost var s, q := p.sibling, Down(L, p.node, p.colour, t, p.up);
      LookNephews(p, t);
      var oleft := tmp.right;
      if oleft != null {
        Paint(oleft, Black, Down(R, tmp, s.colour, s.left, q), s.right);
      }
      Paint(tmp, Red, q, Fork(tmp, s.colour, s.left, Blackened(s.right)));
      RotateLeft(tmp, q, Fork(tmp, Red, s.left, Blackened(s.right)));
    }

    /** `RB_REMOVE_COLOR`, red far nephew: the sibling takes the parent's place and colour. */
    method FinishRight(parent: Node, tmp: Node, ghost p: Path, ghost t: Tree)
      requires Holds() && pic == Plug(p, t) && ShortAt(p, t)
      requires p.Down? && p.side == R && p.node == parent
      requires p.sibling.Fork? && p.sibling.node == tmp
      modifies this, Nodes(pic)
      ensures Holds() && pic == Plug(p.up, FarNephewDone(p, t))
      ensures Nodes(pic) == old(Nodes(pic))
    {
      ghost var s, q := p.sibling, Down(L, p.node, p.colour, t, p.up);
      Look(p, t);
      Paint(tmp, parent.colour, q, s);
      ghost var s1 := s.(colour := p.colour);
      Paint(parent, Black, p.up, Fork(parent, p.colour, s1, t));
      LookNephews(p.(colour := Black, sibling := s1), t);
      if tmp.left != null {
        Paint(tmp.left, Black, Down(L, tmp, p.colour, s.right, q.(colour := Black)), s.left);
      }
      RotateRight(parent, p.up, Fork(parent, Black, Fork(tmp, p.colour, Blackened(s.left), s.right), t));
    }

    /** One round of `RB_REMOVE_COLOR` whose short subtree is a right child. */
    method RestoreRight(node: Node?, up: Node, ghost p0: Path, ghost t0: Tree)
      returns (elm: Node?, parent: Node?, done: bool, ghost p: Path, ghost t: Tree)
      requires Holds() && pic == Plug(p0, t0) && ShortAt(p0, t0) && Root(t0) == node && !IsRed(t0)
      requires p0.Down? && p0.node == up && p0.side == R
      modifies this, Nodes(pic)
      ensures Holds() && Contents() == old(Contents()) && Nodes(pic) == old(Nodes(pic))
      ensures done ==> RedBlack(pic) && elm == root
      ensures !done ==> pic == Plug(p, t) && ShortAt(p, t) && elm == Root(t) && parent == Hook(p)
      ensures !done ==> Depth(p) < Depth(p0) || (Depth(p) == Depth(p0) && IsRed(t))
    {
      elm, parent, done, p, t := node, up, false, p0, t0;
      LookShort(p, t);
      var tmp := parent.left;
      if tmp.colour == Red {
        RaiseRedSiblingRight(parent, tmp, p, t);
        RedSiblingShortAt(p, t);
        p := BelowRedSibling(p);
        LookShort(p, t);
        tmp := parent.left;
      }
      if (tmp.right == null || tmp.right.colour == Black) && (tmp.left == null || tmp.left.colour == Black) {
        Paint(tmp, Red, Down(L, p.node, p.colour, t, p.up), p.sibling);
        BlackNephewsShortAt(p, t);
        p, t := p.up, WithRedSibling(p, t);
        Look(p, t);
        elm := parent;
        parent := elm.parent;
      } else {
        if tmp.left == null || tmp.left.colour == Black {
          RaiseNephewRight(parent, tmp, p, t);
          NearNephewShortAt(p, t);
          p := p.(sibling := NephewAbove(R, p.sibling));
          LookShort(p, t);
          tmp := parent.left;
        }
        FinishRight(parent, tmp, p, t);
        FarNephewRepairs(p, t);
        elm, done := root, true;
      }
    }

    /** `RB_REMOVE_COLOR`. */
    method RemoveColour(up: Node?, node: Node?, ghost p0: Path, ghost t0: Tree)
      requires Holds() && pic == Plug(p0, t0) && ShortAt(p0, t0)
      requires node == Root(t0) && up == Hook(p0)
      modifies this, Nodes(pic)
      ensures Holds() && RedBlack(pic)
      ensures Contents() == old(Contents()) && Nodes(pic) == old(Nodes(pic))
    {
      var elm, parent, done := node, up, false;
      ghost var p, t := p0, t0;
      Look(p, t);
      while !done && (elm == null || elm.colour == Black) && elm != root
        invariant Holds() && Contents() == old(Contents()) && Nodes(pic) == old(Nodes(pic))
        invariant done ==> RedBlack(pic) && elm == root
        invariant !done ==> pic == Plug(p, t) && ShortAt(p, t) && elm == Root(t) && parent == Hook(p)
        invariant !done ==> (p.Top? <==> elm == root) && (elm != null ==> elm.colour == t.colour)
        decreases !done, Depth(p), !IsRed(t)
      {
        LookShort(p, t);
        Look(p, t);
        if parent.left == elm {
          elm, parent, done, p, t := RestoreLeft(elm, parent, p, t);
        } else {
          elm, parent, done, p, t := RestoreRight(elm, parent, p, t);
        }
        if !done {
          Look(p, t);
        }
      }
      if done {
        p, t := Top, pic;
      } else {
        BlackenedSuffices(p, t);
      }
      if elm != null {
        Paint(elm, Black, p, t);
      }
    }

    /** The slot below `parent` (the root slot when it is null) that held `elm` now holds `child`. */
    method Rehang(parent: Node?, elm: Node, child: Node?, ghost m: map<Node, Cell>)
      requires forall n :: n in m ==> Stored(n, m[n])
      requires parent != null ==> parent in m
      modifies `root, if parent == null then {} else {parent}
      ensures forall n :: n in m ==> Stored(n, Rehung(m, parent, elm, child)[n])
      ensures root == if parent == null then child else old(root)
    {
      if parent != null {
        if parent.left == elm {
          parent.left := child;
        } else {
          parent.right := child;
        }
      } else {
        root := child;
      }
    }

    /** `child`, possibly null, takes the place of `elm` below `parent`, seen cell by cell. */
    method Unlink(elm: Node, child: Node?, parent: Node?, ghost m: map<Node, Cell>)
      requires forall n :: n in m ==> Stored(n, m[n])
      requires child != null ==> child in m && child != parent
      requires parent != null ==> parent in m
      modifies `root, m.Keys
      ensures forall n :: n in m ==> Stored(n, SetParent(Rehung(m, parent, elm, child), child, parent)[n])
      ensures root == if parent == null then child else old(root)
    {
      if child != null {
        child.parent := parent;
      }
      Rehang(parent, elm, child, SetParent(m, child, parent));
    }

    method Splice(elm: Node, child: Node?, parent: Node?, ghost p: Path, ghost t: Tree, ghost c: Tree)
      requires Holds() && pic == Plug(p, t) && OnlyChild(t, c)
      requires elm == t.node && child == Root(c) && parent == Hook(p)
      modifies this, Nodes(pic)
      ensures Holds() && pic == Plug(p, c)
      ensures Nodes(pic) == old(Nodes(pic)) - {elm}
      ensures elm.parent == Hook(p)
    {
      SpliceSets(p, t, c);
      SplicePicture(p, t, c);
      ghost var m := Cells(pic, null);
      Unlink(elm, child, parent, m);
      pic := Plug(p, c);
      assert Cells(pic, null) == SetParent(Rehung(m, parent, elm, child), child, parent) - {elm};
    }

    /** `elm` receives the fields of `old` and the links to it, seen cell by cell. */
    method TakePlace(elm: Node, gone: Node, ghost m: map<Node, Cell>)
      requires forall n :: n in m ==> Stored(n, m[n])
      requires elm !in m && CanReplace(m, gone) && m[gone].left != null
      modifies `root, m.Keys, elm
      ensures forall n :: n in m ==> Stored(n, Relinked(m, gone, elm)[n])
      ensures Stored(elm, m[gone])
      ensures root == if m[gone].parent == null then elm else old(root)
    {
      elm.left, elm.right, elm.parent, elm.colour := gone.left, gone.right, gone.parent, gone.colour;
      if gone.parent != null {
        if gone.parent.left == gone {
          gone.parent.left := elm;
        } else {
          gone.parent.right := elm;
        }
      } else {
        root := elm;
      }
      gone.left.parent := elm;
      if gone.right != null {
        gone.right.parent := elm;
      }
    }

    method Substitute(elm: Node, gone: Node, ghost p: Path, ghost k: Colour, ghost l: Tree, ghost r: Tree)
      requires Holds() && pic == Plug(p, Fork(gone, k, l, r)) && l.Fork? && elm !in Nodes(pic)
      modifies this, Nodes(pic), elm
      ensures Holds() && pic == Plug(p, Fork(elm, k, l, r))
      ensures Nodes(pic) == old(Nodes(pic)) - {gone} + {elm}
    {
      ReplacePicture(p, gone, elm, k, l, r);
      ghost var m := Cells(pic, null);
      ghost var next := Plug(p, Fork(elm, k, l, r));
      PlugRoot(p, Fork(gone, k, l, r));
      TakePlace(elm, gone, m);
      assert forall n :: n in Nodes(next) && n != elm ==> n in m && Stored(n, Cells(next, null)[n]);
      pic := next;
    }

    /** The end of `RB_REMOVE`, once `child` hangs where a node of the colour `color` was. */
    method AfterRemoval(parent: Node?, child: Node?, color: Colour, ghost p: Path, ghost c: Tree)
      requires Holds() && pic == Plug(p, c) && parent == Hook(p) && child == Root(c)
      requires if color == Black then ShortAt(p, c) else RedBlack(pic)
      modifies this, Nodes(pic)
      ensures Holds() && RedBlack(pic)
      ensures Contents() == old(Contents()) && Nodes(pic) == old(Nodes(pic))
    {
      if color == Black {
        RemoveColour(parent, child, p, c);
      }
    }

    /** `RB_REMOVE` of a node with at most one child. */
    method RemoveOuter(elm: Node, child: Node?, ghost p: Path, ghost t: Tree, ghost c: Tree)
      requires Valid() && pic == Plug(p, t) && OnlyChild(t, c) && elm == t.node && child == Root(c)
      modifies this, Nodes(pic)
      ensures Valid() && Lacks(old(Contents()), elm, Contents())
      ensures Nodes(pic) == old(Nodes(pic)) - {elm}
    {
      Look(p, t);
      SplicedShortAt(p, t, c);
      SplicedInorder(p, t, c);
      SortedWithout(Inorder(Plug(p, t)), elm, Inorder(Plug(p, c)));
      var parent, color := elm.parent, elm.colour;
      Splice(elm, child, parent, p, t, c);
      AfterRemoval(parent, child, color, p, c);
    }

    /** The walk of `RB_REMOVE` to the leftmost node below the right child. */
    method Successor(gone: Node, ghost p: Path, ghost t: Tree) returns (elm: Node, ghost inner: Path, ghost s: Tree)
      requires Valid() && pic == Plug(p, t) && t.Fork? && gone == t.node && t.right.Fork?
      ensures Valid() && s.Fork? && s.left.Leaf? && elm == s.node
      ensures t.right == Plug(inner, s) && Before(inner) == []
    {
      Look(p, t);
      ghost var q := Down(R, t.node, t.colour, t.left, p);
      elm := gone.right;
      inner, s := Top, t.right;
      PlugAppend(inner, q, s);
      Look(Append(inner, q), s);
      while elm.left != null
        invariant Valid() && s.Fork? && elm == s.node && elm.left == Root(s.left)
        invariant t.right == Plug(inner, s) && Before(inner) == []
        decreases s
      {
        elm := elm.left;
        inner, s := Down(L, s.node, s.colour, s.right, inner), s.left;
        PlugAppend(inner, q, s);
        Look(Append(inner, q), s);
      }
    }

    lemma LookSuccessor(inner: Path, outer: Path, s: Tree)
      requires Holds() && outer.Down? && s.Fork? && pic == Plug(outer, Plug(inner, s))
      ensures var q := Append(inner, outer);
              && pic == Plug(q, s) && Plug(q, s.right) == Plug(outer, Plug(inner, s.right))
              && Stored(s.node, Cell(Root(s.left), Root(s.right), Hook(q), s.colour))
              && (Hook(q) == outer.node <==> inner.Top?) && s.node in Nodes(pic)
    {
      PlugAppend(inner, outer, s);
      PlugAppend(inner, outer, s.right);
      HookAppend(inner, outer);
      if inner.Down? {
        HookApart(inner, outer, s);
      }
      Look(Append(inner, outer), s);
    }

    /** The successor `elm` leaves its place to its child and takes that of `gone`. */
    method Transplant(gone: Node, elm: Node, ghost p: Path, ghost t: Tree, ghost inner: Path, ghost s: Tree)
      returns (parent: Node?, child: Node?, color: Colour)
      requires Holds() && pic == Plug(p, t) && t.Fork? && gone == t.node && t.left.Fork?
      requires s.Fork? && s.left.Leaf? && elm == s.node && t.right == Plug(inner, s)
      modifies this, Nodes(pic)
      ensures Holds() && pic == Plug(p, Fork(elm, t.colour, t.left, Plug(inner, s.right)))
      ensures Nodes(pic) == old(Nodes(pic)) - {gone}
      ensures child == Root(s.right) && color == s.colour
      ensures parent == Hook(Append(inner, Down(R, elm, t.colour, t.left, p)))
    {
      ghost var outer := Down(R, gone, t.colour, t.left, p);
      ghost var q := Append(inner, outer);
      LookSuccessor(inner, outer, s);
      HookAppend(inner, outer.(node := elm));
      child, parent, color := elm.right, elm.parent, elm.colour;
      Splice(elm, child, parent, q, s, s.right);
      if elm.parent == gone {
        parent := elm;
      }
      Substitute(elm, gone, p, t.colour, t.left, Plug(inner, s.right));
    }

    /** `RB_REMOVE` of a node with two children: its successor is taken out and put in its place. */
    method RemoveInner(gone: Node, ghost p: Path, ghost t: Tree)
      requires Valid() && pic == Plug(p, t) && t.Fork? && gone == t.node && t.left.Fork? && t.right.Fork?
      modifies this, Nodes(pic)
      ensures Valid() && Lacks(old(Contents()), gone, Contents())
      ensures Nodes(pic) == old(Nodes(pic)) - {gone}
    {
      var elm, inner, s := Successor(gone, p, t);
      SuccessorGone(p, t, inner, s);
      var parent, child, color := Transplant(gone, elm, p, t, inner, s);
      AfterRemoval(parent, child, color, Append(inner, Down(R, elm, t.colour, t.left, p)), s.right);
    }

    /** `RB_REMOVE`. */
    method Remove(elm: Node) returns (r: Node)
      requires Valid() && elm in Contents()
      modifies this, Nodes(pic)
      ensures Valid() && Lacks(old(Contents()), elm, Contents())
      ensures r == elm
    {
      InorderNodes(pic, elm);
      ghost var p, t := Focus(pic, elm);
      Look(p, t);
      if elm.left == null {
        RemoveOuter(elm, elm.right, p, t, t.right);
      } else if elm.right == null {
        RemoveOuter(elm, elm.left, p, t, t.left);
      } else {
        RemoveInner(elm, p, t);
      }
      return elm;
    }
  }
}
