/** Colour and balance of red-black pictures, and the height bound they give. */
module RbColour {
  import opened RbShape

  ghost predicate IsRed(t: Tree) {
    t.Fork? && t.colour == Red
  }

  ghost function Weight(k: Colour): nat {
    if k == Black then 1 else 0
  }

  /** Black nodes on the leftmost path; by `Balanced`, on every path. */
  ghost function BlackHeight(t: Tree): nat {
    if t.Leaf? then 0 else BlackHeight(t.left) + Weight(t.colour)
  }

  ghost predicate Balanced(t: Tree) {
    t.Fork? ==> Balanced(t.left) && Balanced(t.right) && BlackHeight(t.left) == BlackHeight(t.right)
  }

  /** No red node has a red child. */
  ghost predicate NoRedRed(t: Tree) {
    t.Fork? ==>
      && (t.colour == Red ==> !IsRed(t.left) && !IsRed(t.right))
      && NoRedRed(t.left) && NoRedRed(t.right)
  }

  ghost predicate RedBlack(t: Tree) {
    Balanced(t) && NoRedRed(t) && !IsRed(t)
  }

  /** Plugging a balanced tree of black height `h` into `p` leaves the whole balanced. */
  ghost predicate PathBalanced(p: Path, h: nat) {
    p.Down? ==>
      Balanced(p.sibling) && BlackHeight(p.sibling) == h && PathBalanced(p.up, h + Weight(p.colour))
  }

  /** Plugging a tree whose root is red iff `red` brings no red-red edge above it. */
  ghost predicate PathNoRedRed(p: Path, red: bool) {
    p.Down? ==>
      && (p.colour == Red ==> !red && !IsRed(p.sibling))
      && NoRedRed(p.sibling) && PathNoRedRed(p.up, p.colour == Red)
  }

  /** The topmost node of the path, if any, is black. */
  ghost predicate PathBlackRoot(p: Path) {
    p.Down? ==> if p.up.Top? then p.colour == Black else PathBlackRoot(p.up)
  }

  ghost function Blackened(t: Tree): Tree {
    if t.Leaf? then Leaf else t.(colour := Black)
  }

  lemma {:induction false} PlugBalanced(p: Path, t: Tree)
    ensures Balanced(Plug(p, t)) <==> Balanced(t) && PathBalanced(p, BlackHeight(t))
    decreases p
  {
    if p.Top? {
    } else {
      PlugBalanced(p.up, Join(p.side, p.node, p.colour, t, p.sibling));
    }
  }

  lemma {:induction false} PlugNoRedRed(p: Path, t: Tree)
    ensures NoRedRed(Plug(p, t)) <==> NoRedRed(t) && PathNoRedRed(p, IsRed(t))
    decreases p
  {
    if p.Top? {
    } else {
      PlugNoRedRed(p.up, Join(p.side, p.node, p.colour, t, p.sibling));
    }
  }

  lemma {:induction false} PlugBlackRoot(p: Path, t: Tree)
    ensures !IsRed(Plug(p, t)) <==> if p.Top? then !IsRed(t) else PathBlackRoot(p)
    decreases p
  {
    if p.Top? {
    } else {
      PlugBlackRoot(p.up, Join(p.side, p.node, p.colour, t, p.sibling));
    }
  }

  lemma PlugRedBlack(p: Path, t: Tree)
    ensures RedBlack(Plug(p, t)) <==>
            && Balanced(t) && PathBalanced(p, BlackHeight(t))
            && NoRedRed(t) && PathNoRedRed(p, IsRed(t))
            && if p.Top? then !IsRed(t) else PathBlackRoot(p)
  {
    PlugBalanced(p, t);
    PlugNoRedRed(p, t);
    PlugBlackRoot(p, t);
  }

  /** A path that tolerates a red tree tolerates a black one. */
  lemma PathAllowsBlack(p: Path, red: bool)
    requires PathNoRedRed(p, red)
    ensures PathNoRedRed(p, false)
  {
  }

  /** Black nodes among those on the way down to the slot of `p`. */
  ghost function BlacksOn(p: Path): nat {
    if p.Top? then 0 else BlacksOn(p.up) + Weight(p.colour)
  }

  lemma {:induction false} BlacksBelow(p: Path, t: Tree)
    requires Balanced(Plug(p, t))
    ensures BlacksOn(p) + BlackHeight(t) == BlackHeight(Plug(p, t))
    decreases p
  {
    if p.Top? {
    } else {
      PlugBalanced(p, t);
      BlacksBelow(p.up, Join(p.side, p.node, p.colour, t, p.sibling));
    }
  }

  /** Every search path from the root to an empty slot has the same number of black nodes. */
  lemma EqualBlackCounts(t: Tree, p: Path, q: Path)
    requires RedBlack(t) && t == Plug(p, Leaf) == Plug(q, Leaf)
    ensures BlacksOn(p) == BlacksOn(q)
  {
    BlacksBelow(p, Leaf);
    BlacksBelow(q, Leaf);
  }

  // ---------- height ----------

  ghost function Height(t: Tree): nat {
    if t.Leaf? then 0
    else 1 + if Height(t.left) < Height(t.right) then Height(t.right) else Height(t.left)
  }

  ghost function Pow2(n: nat): nat {
    if n == 0 then 1 else 2 * Pow2(n - 1)
  }

  lemma {:induction false} Pow2Monotone(m: nat, n: nat)
    requires m <= n
    ensures 1 <= Pow2(m) <= Pow2(n)
    decreases n
  {
    if m < n {
      Pow2Monotone(m, n - 1);
    } else if 0 < n {
      Pow2Monotone(m - 1, n - 1);
    }
  }

  lemma {:induction false} Pow2Double(n: nat)
    ensures Pow2(2 * n) == Pow2(n) * Pow2(n)
  {
    if n == 0 {
    } else {
      Pow2Double(n - 1);
      assert Pow2(2 * n) == 4 * Pow2(2 * (n - 1));
      var a := Pow2(n - 1);
      assert (2 * a) * (2 * a) == 4 * (a * a);
    }
  }

  lemma SquareMonotone(a: nat, b: nat)
    requires a <= b
    ensures a * a <= b * b
  {
    assert a * a <= a * b <= b * b;
  }

  lemma {:induction false} HeightBelowBlackHeight(t: Tree)
    requires Balanced(t) && NoRedRed(t)
    ensures Height(t) <= 2 * BlackHeight(t) + (if IsRed(t) then 1 else 0)
    decreases t
  {
    if t.Leaf? {
    } else {
      HeightBelowBlackHeight(t.left);
      HeightBelowBlackHeight(t.right);
    }
  }

  lemma {:induction false} BlackHeightBelowSize(t: Tree)
    requires Balanced(t)
    ensures Pow2(BlackHeight(t)) <= |Inorder(t)| + 1
    decreases t
  {
    if t.Leaf? {
    } else {
      BlackHeightBelowSize(t.left);
      BlackHeightBelowSize(t.right);
    }
  }

  /** The maximum height of a red-black tree with n nodes is 2 lg (n + 1). */
  lemma HeightBound(t: Tree)
    requires RedBlack(t)
    ensures var n := |Inorder(t)|; Pow2(Height(t)) <= (n + 1) * (n + 1)
  {
    var b, n := Pow2(BlackHeight(t)), |Inorder(t)| + 1;
    HeightBelowBlackHeight(t);
    Pow2Monotone(Height(t), 2 * BlackHeight(t));
    Pow2Double(BlackHeight(t));
    BlackHeightBelowSize(t);
    SquareMonotone(b, n);
  }
}
