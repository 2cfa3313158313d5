/** Iteration over a red-black tree (`RB_FOREACH` and its relatives in `include/uv/tree.h`). */
module RbForeach {
  import opened Ordering
  import opened RbShape
  import opened RbTree
  import opened RbWalk

  /** The nodes of a tree exist. */
  lemma Exist(t: Tree)
    ensures forall n :: n in Nodes(t) ==> allocated(n)
  {
    if t.Leaf? {
    } else {
      Exist(t.left);
      Exist(t.right);
    }
  }

  lemma NextAt(s: seq<Node>, i: nat, r: Node?)
    requires Sorted(s) && i < |s| && NextIn(s, s[i], r)
    ensures r == First(s[i + 1..])
  {
    var j :| 0 <= j < |s| && s[j] == s[i] && r == First(s[j + 1..]);
    OnePlace(s, Key, i, j);
  }

  lemma PrevAt(s: seq<Node>, i: nat, r: Node?)
    requires Sorted(s) && i < |s| && PrevIn(s, s[i], r)
    ensures r == Last(s[..i])
  {
    var j :| 0 <= j < |s| && s[j] == s[i] && r == Last(s[..j]);
    OnePlace(s, Key, i, j);
  }

  lemma Advance(s: seq<Node>, i: nat)
    requires i < |s|
    ensures First(s[i..]) == s[i] && s[..i] + [s[i]] == s[..i + 1]
    ensures Last(s[..i + 1]) == s[i] && s[i..][1..] == s[i + 1..]
  {
  }

  /** `RB_FOREACH`: every node once, in order. */
  method Foreach(head: RedBlackTree) returns (visited: seq<Node>)
    requires head.Valid()
    ensures visited == head.Contents()
  {
    ghost var s := head.Contents();
    Exist(head.pic);
    assert s[0..] == s;
    var x := MinMax(head, -1);
    visited := [];
    ghost var i := 0;
    while x != null
      invariant head.Valid() && head.Contents() == s && 0 <= i <= |s|
      invariant visited == s[..i] && x == First(s[i..])
      decreases |s| - i
    {
      Advance(s, i);
      visited := visited + [x];
      Exist(head.pic);
      x := Next(head, x);
      NextAt(s, i, x);
      i := i + 1;
    }
  }

  /** `RB_FOREACH_REVERSE`: every node once, backwards. */
  method ForeachReverse(head: RedBlackTree) returns (visited: seq<Node>)
    requires head.Valid()
    ensures |visited| == |head.Contents()|
    ensures forall i :: 0 <= i < |visited| ==> visited[i] == head.Contents()[|visited| - 1 - i]
  {
    ghost var s := head.Contents();
    Exist(head.pic);
    assert s[..|s|] == s;
    var x := MinMax(head, 1);
    visited := [];
    ghost var i := |s|;
    while x != null
      invariant head.Valid() && head.Contents() == s && 0 <= i <= |s|
      invariant |visited| == |s| - i && forall k :: 0 <= k < |visited| ==> visited[k] == s[|s| - 1 - k]
      invariant x == Last(s[..i])
      decreases i
    {
      i := i - 1;
      Advance(s, i);
      visited := visited + [x];
      Exist(head.pic);
      x := Prev(head, x);
      PrevAt(s, i, x);
    }
  }

  lemma FirstLacks(was: seq<Node>, now: seq<Node>)
    requires Sorted(was) && was != [] && Lacks(was, was[0], now)
    ensures now == was[1..]
  {
    var i :| 0 <= i < |was| && was[i] == was[0] && now == was[..i] + was[i + 1..];
    OnePlace(was, Key, i, 0);
  }

  /** One round of the loop: the first node goes, and the one after it is then first. */
  method RemoveFirst(head: RedBlackTree, x: Node) returns (y: Node?)
    requires head.Valid() && head.Contents() != [] && x == head.Contents()[0]
    modifies head, Nodes(head.pic)
    ensures head.Valid() && head.Contents() == old(head.Contents())[1..] && y == First(head.Contents())
    ensures Nodes(head.pic) <= old(Nodes(head.pic))
  {
    ghost var was, nodes := head.Contents(), Nodes(head.pic);
    Exist(head.pic);
    y := Next(head, x);
    NextAt(was, 0, y);
    AllIn(head.pic);
    var r := head.Remove(x);
    FirstLacks(was, head.Contents());
    Shrunk(head.pic, was, nodes);
  }

  lemma AllIn(t: Tree)
    ensures forall n :: n in Inorder(t) ==> n in Nodes(t)
  {
    forall n | n in Inorder(t) ensures n in Nodes(t) {
      InorderNodes(t, n);
    }
  }

  /** `RB_FOREACH_SAFE` with `RB_REMOVE` of the node visited: the successor found before the removal
      is still the right one after it, and the tree ends up empty. */
  method RemoveEach(head: RedBlackTree) returns (visited: seq<Node>)
    requires head.Valid()
    modifies head, Nodes(head.pic)
    ensures head.Valid() && head.Contents() == [] && visited == old(head.Contents())
  {
    ghost var s := head.Contents();
    Exist(head.pic);
    assert s[0..] == s;
    var x := MinMax(head, -1);
    visited := [];
    ghost var i := 0;
    while x != null
      invariant head.Valid() && Nodes(head.pic) <= old(Nodes(head.pic)) && 0 <= i <= |s|
      invariant visited == s[..i] && head.Contents() == s[i..] && x == First(s[i..])
      decreases |s| - i
    {
      Advance(s, i);
      var y := RemoveFirst(head, x);
      visited := visited + [x];
      i := i + 1;
      x := y;
    }
  }

  lemma Shrunk(t: Tree, was: seq<Node>, nodes: set<Node>)
    requires forall n :: n in Inorder(t) ==> n in was
    requires forall n :: n in was ==> n in nodes
    ensures Nodes(t) <= nodes
  {
    forall n | n in Nodes(t) ensures n in nodes {
      InorderNodes(t, n);
    }
  }
}
