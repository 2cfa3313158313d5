/** Repairing a red-red edge after an insertion (`RB_INSERT_COLOR`), on pictures. */
module RbInsertion {
  import opened RbShape
  import opened RbColour
  import opened RbSurgery

  /** The only defect may be a red node, the root of `t`, below a red parent. */
  ghost predicate RedAt(p: Path, t: Tree) {
    && t.Fork? && t.colour == Red
    && Balanced(Plug(p, t)) && NoRedRed(t) && PathNoRedRed(p, false) && PathBlackRoot(p)
  }

  lemma ParentRed(p: Path, t: Tree)
    requires RedAt(p, t) && p.Down? && p.colour == Red
    ensures p.up.Down? && p.up.colour == Black && !IsRed(p.sibling)
    ensures PathBalanced(p, BlackHeight(t)) && Balanced(t)
    ensures Balanced(p.sibling) && BlackHeight(p.sibling) == BlackHeight(t)
    ensures Balanced(p.up.sibling) && BlackHeight(p.up.sibling) == BlackHeight(t)
    ensures PathBalanced(p.up.up, BlackHeight(t) + 1)
    ensures NoRedRed(p.sibling) && NoRedRed(p.up.sibling) && PathNoRedRed(p.up.up, false)
    ensures p.up.up.Down? ==> PathBlackRoot(p.up.up)
  {
    PlugBalanced(p, t);
    assert PathNoRedRed(p.up, true);
    assert PathBlackRoot(p.up);
    assert PathBalanced(p.up, BlackHeight(t));
  }

  ghost function Lifted(p: Path, t: Tree): Tree
    requires p.Down? && p.up.Down?
  {
    Join(p.up.side, p.up.node, Red, Join(p.side, p.node, Black, t, p.sibling), Blackened(p.up.sibling))
  }

  lemma LiftedRedAt(p: Path, t: Tree)
    requires RedAt(p, t) && p.Down? && p.colour == Red && p.up.Down? && IsRed(p.up.sibling)
    ensures RedAt(p.up.up, Lifted(p, t))
    ensures Inorder(Plug(p.up.up, Lifted(p, t))) == Inorder(Plug(p, t))
  {
    ParentRed(p, t);
    var g, j := p.up, Join(p.side, p.node, Red, t, p.sibling);
    var j', u := j.(colour := Black), Blackened(g.sibling);
    assert Balanced(j') && NoRedRed(j') && BlackHeight(j') == BlackHeight(t) + 1;
    assert Balanced(u) && NoRedRed(u) && BlackHeight(u) == BlackHeight(t) + 1;
    PlugBalanced(g.up, Lifted(p, t));
    assert Inorder(j) == Inorder(j') && Inorder(u) == Inorder(g.sibling);
    SameInorder(g.up, Lifted(p, t), Join(g.side, g.node, g.colour, j, g.sibling));
  }

  /** The inner grandchild and its parent change places, both red. */
  ghost function StraightTree(p: Path, t: Tree): Tree
    requires p.Down? && p.up.Down? && t.Fork?
  {
    if p.up.side == L then Fork(p.node, Red, p.sibling, t.left) else Fork(p.node, Red, t.right, p.sibling)
  }

  ghost function StraightPath(p: Path, t: Tree): Path
    requires p.Down? && p.up.Down? && t.Fork?
  {
    Down(p.up.side, t.node, Red, if p.up.side == L then t.right else t.left, p.up)
  }

  lemma StraightRedAt(p: Path, t: Tree)
    requires RedAt(p, t) && p.Down? && p.colour == Red && p.up.Down? && p.side != p.up.side
    ensures RedAt(StraightPath(p, t), StraightTree(p, t))
    ensures Inorder(Plug(StraightPath(p, t), StraightTree(p, t))) == Inorder(Plug(p, t))
  {
    ParentRed(p, t);
    var p', t' := StraightPath(p, t), StraightTree(p, t);
    assert Balanced(t') && NoRedRed(t') && BlackHeight(t') == BlackHeight(t);
    PlugBalanced(p', t');
    var j := Join(p.side, p.node, p.colour, t, p.sibling);
    var j' := Join(p'.side, p'.node, p'.colour, t', p'.sibling);
    if p.up.side == L {
      SpinInorder(L, p.node, p.colour, Red, p.sibling, t.node, Red, Red, t.left, t.right);
    } else {
      SpinInorder(R, p.node, p.colour, Red, p.sibling, t.node, Red, Red, t.right, t.left);
    }
    SameInorder(p.up, j', j);
  }

  /** The red parent, now black, above its child and the old grandparent, now red. */
  ghost function SettledPath(p: Path): Path
    requires p.Down? && p.up.Down?
  {
    var g := p.up;
    Down(p.side, p.node, Black, Join(p.side, g.node, Red, p.sibling, g.sibling), g.up)
  }

  lemma SettledRedAt(p: Path, t: Tree)
    requires RedAt(p, t) && p.Down? && p.colour == Red && p.up.Down? && p.side == p.up.side
    requires !IsRed(p.up.sibling)
    ensures RedAt(SettledPath(p), t)
    ensures Inorder(Plug(SettledPath(p), t)) == Inorder(Plug(p, t))
  {
    ParentRed(p, t);
    var p', g := SettledPath(p), p.up;
    assert Balanced(p'.sibling) && NoRedRed(p'.sibling) && BlackHeight(p'.sibling) == BlackHeight(t);
    PlugBalanced(p', t);
    var j := Join(p.side, g.node, g.colour, Join(p.side, p.node, p.colour, t, p.sibling), g.sibling);
    var j' := Join(p.side, p.node, Black, t, p'.sibling);
    SpinInorder(Other(p.side), g.node, g.colour, Red, g.sibling, p.node, p.colour, Black, p.sibling, t);
    SameInorder(g.up, j', j);
  }

  lemma RepairedByBlackRoot(p: Path, t: Tree)
    requires RedAt(p, t) && (p.Down? ==> p.colour == Black)
    ensures Plug(p, t).Fork? && RedBlack(Blackened(Plug(p, t)))
    ensures Inorder(Blackened(Plug(p, t))) == Inorder(Plug(p, t))
  {
    PlugBalanced(p, t);
    PlugBlackRoot(p, t);
    PlugNoRedRed(p, t);
    PlugRoot(p, t);
  }

  lemma NewLeafRedAt(p: Path, s: Tree)
    requires RedBlack(Plug(p, Leaf))
    requires s.Fork? && s.colour == Red && s.left.Leaf? && s.right.Leaf?
    ensures RedAt(p, s)
  {
    PlugBalanced(p, Leaf);
    PlugNoRedRed(p, Leaf);
    PlugBlackRoot(p, Leaf);
    PlugBalanced(p, s);
  }
}
