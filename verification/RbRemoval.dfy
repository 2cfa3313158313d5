/** Restoring the black height after a removal (`RB_REMOVE_COLOR`), on pictures. */
module RbRemoval {
  import opened Ordering
  import opened RbShape
  import opened RbColour
  import opened RbSurgery

  /** The subtree `t` lacks one black node, and a red root of `t` may have red children or a red
      parent; all else is in order. */
  ghost predicate ShortAt(p: Path, t: Tree) {
    && Balanced(t) && PathBalanced(p, BlackHeight(t) + 1)
    && NoRedRed(Blackened(t)) && PathNoRedRed(p, false) && PathBlackRoot(p)
  }

  ghost function Near(side: Side, s: Tree): Tree
    requires s.Fork?
  {
    if side == L then s.left else s.right
  }

  ghost function Far(side: Side, s: Tree): Tree
    requires s.Fork?
  {
    if side == L then s.right else s.left
  }

  /** The sibling of a short subtree is never null. */
  lemma SiblingExists(p: Path, t: Tree)
    requires ShortAt(p, t) && p.Down?
    ensures p.sibling.Fork?
    ensures IsRed(p.sibling) ==> p.colour == Black && p.sibling.left.Fork? && p.sibling.right.Fork?
  {
    var s := p.sibling;
    assert BlackHeight(s) == BlackHeight(t) + 1;
  }

  lemma Nephews(side: Side, s: Tree)
    requires s.Fork? && Balanced(s) && NoRedRed(s)
    ensures Balanced(Near(side, s)) && Balanced(Far(side, s)) && NoRedRed(Near(side, s)) && NoRedRed(Far(side, s))
    ensures BlackHeight(s) == BlackHeight(Near(side, s)) + Weight(s.colour) == BlackHeight(Far(side, s)) + Weight(s.colour)
  {
  }

  lemma JoinBlack(side: Side, x: Node, t: Tree, u: Tree)
    requires Balanced(t) && Balanced(u) && BlackHeight(t) == BlackHeight(u) && NoRedRed(t) && NoRedRed(u)
    ensures var j := Join(side, x, Black, t, u);
            Balanced(j) && NoRedRed(j) && !IsRed(j) && BlackHeight(j) == BlackHeight(t) + 1
  {
  }

  lemma JoinRed(side: Side, x: Node, t: Tree, u: Tree)
    requires Balanced(t) && Balanced(u) && BlackHeight(t) == BlackHeight(u) && NoRedRed(t) && NoRedRed(u)
    requires !IsRed(t) && !IsRed(u)
    ensures var j := Join(side, x, Red, t, u); Balanced(j) && NoRedRed(j) && BlackHeight(j) == BlackHeight(t)
  {
  }

  lemma BlackenedSuffices(p: Path, t: Tree)
    requires ShortAt(p, t) && (IsRed(t) || p.Top?)
    ensures RedBlack(Plug(p, Blackened(t)))
    ensures Inorder(Plug(p, Blackened(t))) == Inorder(Plug(p, t))
  {
    PlugBalanced(p, Blackened(t));
    PlugNoRedRed(p, Blackened(t));
    PlugBlackRoot(p, Blackened(t));
    SameInorder(p, Blackened(t), t);
  }

  /** A red sibling, rotated above the parent. */
  ghost function BelowRedSibling(p: Path): Path
    requires p.Down? && p.sibling.Fork?
  {
    var s := p.sibling;
    Down(p.side, p.node, Red, Near(p.side, s), Down(p.side, s.node, Black, Far(p.side, s), p.up))
  }

  lemma RedSiblingShortAt(p: Path, t: Tree)
    requires ShortAt(p, t) && p.Down? && IsRed(p.sibling)
    ensures ShortAt(BelowRedSibling(p), t)
    ensures !IsRed(BelowRedSibling(p).sibling)
    ensures Inorder(Plug(BelowRedSibling(p), t)) == Inorder(Plug(p, t))
  {
    SiblingExists(p, t);
    var s := p.sibling;
    SpinInorder(p.side, p.node, p.colour, Red, t, s.node, Red, Black, Near(p.side, s), Far(p.side, s));
    SameInorder(p.up, Unspun(p.side, p.node, p.colour, t, s.node, Red, Near(p.side, s), Far(p.side, s)),
                Spun(p.side, p.node, Red, t, s.node, Black, Near(p.side, s), Far(p.side, s)));
  }

  /** A black sibling without red children, coloured red: the parent's subtree is now short. */
  ghost function WithRedSibling(p: Path, t: Tree): Tree
    requires p.Down? && p.sibling.Fork?
  {
    Join(p.side, p.node, p.colour, t, p.sibling.(colour := Red))
  }

  lemma BlackNephewsShortAt(p: Path, t: Tree)
    requires ShortAt(p, t) && p.Down? && p.sibling.Fork? && !IsRed(p.sibling) && !IsRed(t)
    requires !IsRed(p.sibling.left) && !IsRed(p.sibling.right)
    ensures ShortAt(p.up, WithRedSibling(p, t))
    ensures Inorder(Plug(p.up, WithRedSibling(p, t))) == Inorder(Plug(p, t))
  {
    SameInorder(p.up, WithRedSibling(p, t), Join(p.side, p.node, p.colour, t, p.sibling));
    assert NoRedRed(t);
    assert PathNoRedRed(p.up, p.colour == Red);
    PathAllowsBlack(p.up, p.colour == Red);
  }

  /** The red near nephew, rotated above the sibling. */
  ghost function NephewAbove(side: Side, s: Tree): Tree
    requires s.Fork? && Near(side, s).Fork?
  {
    var n := Near(side, s);
    Spun(Other(side), s.node, Red, Far(side, s), n.node, Black, Far(side, n), Near(side, n))
  }

  lemma NearNephewShortAt(p: Path, t: Tree)
    requires ShortAt(p, t) && p.Down? && p.sibling.Fork? && !IsRed(p.sibling)
    requires IsRed(Near(p.side, p.sibling)) && !IsRed(Far(p.side, p.sibling))
    ensures var p' := p.(sibling := NephewAbove(p.side, p.sibling));
            && ShortAt(p', t)
            && p'.sibling.Fork? && !IsRed(p'.sibling) && IsRed(Far(p.side, p'.sibling))
            && Inorder(Plug(p', t)) == Inorder(Plug(p, t))
  {
    var s := p.sibling;
    var n := Near(p.side, s);
    var s' := NephewAbove(p.side, s);
    Nephews(p.side, s);
    Nephews(p.side, n);
    JoinRed(Other(p.side), s.node, Far(p.side, s), Far(p.side, n));
    JoinBlack(Other(p.side), n.node, Join(Other(p.side), s.node, Red, Far(p.side, s), Far(p.side, n)), Near(p.side, n));
    assert Balanced(s') && NoRedRed(s') && BlackHeight(s') == BlackHeight(s);
    SpinInorder(Other(p.side), s.node, s.colour, Red, Far(p.side, s), n.node, Red, Black, Far(p.side, n), Near(p.side, n));
    assert Inorder(s') == Inorder(s);
    SameInorder(p.up, Join(p.side, p.node, p.colour, t, s'), Join(p.side, p.node, p.colour, t, s));
  }

  /** The sibling, in the parent's colour, above two black children: nothing is short any more. */
  ghost function FarNephewDone(p: Path, t: Tree): Tree
    requires p.Down? && p.sibling.Fork?
  {
    var s := p.sibling;
    Spun(p.side, p.node, Black, t, s.node, p.colour, Near(p.side, s), Blackened(Far(p.side, s)))
  }

  lemma FarNephewRepairs(p: Path, t: Tree)
    requires ShortAt(p, t) && p.Down? && p.sibling.Fork? && !IsRed(p.sibling) && !IsRed(t)
    requires IsRed(Far(p.side, p.sibling))
    ensures RedBlack(Plug(p.up, FarNephewDone(p, t)))
    ensures Inorder(Plug(p.up, FarNephewDone(p, t))) == Inorder(Plug(p, t))
  {
    var s := p.sibling;
    var f, n, d := Far(p.side, s), Near(p.side, s), FarNephewDone(p, t);
    assert NoRedRed(t);
    Nephews(p.side, s);
    if f.Fork? {
      JoinBlack(L, f.node, f.left, f.right);
    }
    JoinBlack(p.side, p.node, t, n);
    if p.colour == Black {
      JoinBlack(p.side, s.node, Join(p.side, p.node, Black, t, n), Blackened(f));
    } else {
      JoinRed(p.side, s.node, Join(p.side, p.node, Black, t, n), Blackened(f));
    }
    assert Balanced(d) && NoRedRed(d) && BlackHeight(d) == BlackHeight(t) + 1 + Weight(p.colour);
    PlugBalanced(p.up, d);
    PlugNoRedRed(p.up, d);
    PlugBlackRoot(p.up, d);
    SpinInorder(p.side, p.node, p.colour, Black, t, s.node, s.colour, p.colour, n, f);
    assert Inorder(Blackened(f)) == Inorder(f);
    var j := Unspun(p.side, p.node, p.colour, t, s.node, s.colour, n, f);
    assert Inorder(d) == Inorder(Spun(p.side, p.node, Black, t, s.node, p.colour, n, f));
    SameInorder(p.up, d, j);
  }

  // ---------- taking a node out ----------

  lemma OnlyChildColours(t: Tree, c: Tree)
    requires OnlyChild(t, c) && Balanced(t) && NoRedRed(t)
    ensures Balanced(c) && NoRedRed(c) && NoRedRed(Blackened(c))
    ensures BlackHeight(t) == BlackHeight(c) + Weight(t.colour)
    ensures t.colour == Red ==> !IsRed(c)
  {
  }

  lemma SplicedBlack(p: Path, t: Tree, c: Tree)
    requires RedBlack(Plug(p, t)) && OnlyChild(t, c) && t.colour == Black
    ensures ShortAt(p, c)
  {
    PlugRedBlack(p, t);
    OnlyChildColours(t, c);
  }

  lemma SplicedRed(p: Path, t: Tree, c: Tree)
    requires RedBlack(Plug(p, t)) && OnlyChild(t, c) && t.colour == Red
    ensures RedBlack(Plug(p, c))
  {
    PlugRedBlack(p, t);
    OnlyChildColours(t, c);
    PathAllowsBlack(p, true);
    assert p.Down? && IsRed(c) == false && BlackHeight(c) == BlackHeight(t);
    PlugRedBlack(p, c);
  }

  lemma SplicedShortAt(p: Path, t: Tree, c: Tree)
    requires RedBlack(Plug(p, t)) && OnlyChild(t, c)
    ensures if t.colour == Black then ShortAt(p, c) else RedBlack(Plug(p, c))
  {
    if t.colour == Black {
      SplicedBlack(p, t, c);
    } else {
      SplicedRed(p, t, c);
    }
  }

  lemma SplicedInorder(p: Path, t: Tree, c: Tree)
    requires OnlyChild(t, c)
    ensures Lacks(Inorder(Plug(p, t)), t.node, Inorder(Plug(p, c)))
  {
    var l, r := Inorder(t.left), Inorder(t.right);
    AroundFocus(p, t);
    PlugInorder(p, c);
    assert Inorder(c) == l + r;
    Regroup(Before(p), l, r, After(p));
    Drop(Before(p) + l, t.node, r + After(p));
  }

  /** Which node sits at a place on a path does not matter for colour and balance. */
  lemma {:induction false} RenamedPath(inner: Path, outer: Path, x: Node)
    requires outer.Down?
    ensures var q, q' := Append(inner, outer), Append(inner, outer.(node := x));
            && (forall h :: PathBalanced(q, h) <==> PathBalanced(q', h))
            && (forall b :: PathNoRedRed(q, b) <==> PathNoRedRed(q', b))
            && (PathBlackRoot(q) <==> PathBlackRoot(q'))
    decreases inner
  {
    if inner.Top? {
    } else {
      RenamedPath(inner.up, outer, x);
    }
  }

  lemma RenamedShortAt(inner: Path, outer: Path, x: Node, t: Tree)
    requires outer.Down?
    ensures ShortAt(Append(inner, outer), t) <==> ShortAt(Append(inner, outer.(node := x)), t)
    ensures RedBlack(Plug(Append(inner, outer), t)) <==> RedBlack(Plug(Append(inner, outer.(node := x)), t))
  {
    RenamedPath(inner, outer, x);
    var q, q' := Append(inner, outer), Append(inner, outer.(node := x));
    PlugRedBlack(q, t);
    PlugRedBlack(q', t);
  }

  lemma LeftmostFirst(inner: Path, s: Tree)
    requires s.Fork? && s.left.Leaf? && Before(inner) == []
    ensures Inorder(Plug(inner, s)) == [s.node] + Inorder(Plug(inner, s.right))
  {
    PlugInorder(inner, s);
    PlugInorder(inner, s.right);
  }

  /** The successor `s.node`, leftmost below the right child, takes the place of `x`. */
  lemma ReplacedInorder(p: Path, x: Node, k: Colour, l: Tree, inner: Path, s: Tree)
    requires s.Fork? && s.left.Leaf? && Before(inner) == []
    ensures Lacks(Inorder(Plug(p, Fork(x, k, l, Plug(inner, s)))), x,
                  Inorder(Plug(p, Fork(s.node, k, l, Plug(inner, s.right)))))
  {
    var y, r := s.node, Inorder(Plug(inner, s.right));
    var a, b := Before(p) + Inorder(l), After(p);
    assert Inorder(Plug(p, Fork(x, k, l, Plug(inner, s)))) == a + [x] + ([y] + r + b) by {
      AroundFocus(p, Fork(x, k, l, Plug(inner, s)));
      LeftmostFirst(inner, s);
    }
    assert Inorder(Plug(p, Fork(y, k, l, Plug(inner, s.right)))) == a + [y] + (r + b) by {
      AroundFocus(p, Fork(y, k, l, Plug(inner, s.right)));
    }
    DropThird(a, x, y, r, b);
  }

  /** Taking the successor out of its place and putting it where `t.node` was. */
  lemma SuccessorGone(p: Path, t: Tree, inner: Path, s: Tree)
    requires RedBlack(Plug(p, t)) && Sorted(Inorder(Plug(p, t)))
    requires t.Fork? && s.Fork? && s.left.Leaf? && t.right == Plug(inner, s) && Before(inner) == []
    ensures var outer := Down(R, t.node, t.colour, t.left, p);
            var q', c := Append(inner, outer.(node := s.node)), s.right;
            var now := Plug(p, Fork(s.node, t.colour, t.left, Plug(inner, c)));
            && Plug(q', c) == now
            && (if s.colour == Black then ShortAt(q', c) else RedBlack(now))
            && Lacks(Inorder(Plug(p, t)), t.node, Inorder(now)) && Sorted(Inorder(now))
  {
    var outer := Down(R, t.node, t.colour, t.left, p);
    var q, c := Append(inner, outer), s.right;
    PlugAppend(inner, outer, s);
    PlugAppend(inner, outer, c);
    PlugAppend(inner, outer.(node := s.node), c);
    SplicedShortAt(q, s, c);
    RenamedShortAt(inner, outer, s.node, c);
    ReplacedInorder(p, t.node, t.colour, t.left, inner, s);
    SortedWithout(Inorder(Plug(p, t)), t.node, Inorder(Plug(p, Fork(s.node, t.colour, t.left, Plug(inner, c)))));
  }
}
