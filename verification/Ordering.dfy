/** What both trees of `include/uv/tree.h` share: the comparison, sorted sequences, and sequences
    that differ by one element. */
module Ordering {

  /** The total order on keys: negative, zero or positive. */
  function Cmp(a: int, b: int): int {
    if a < b then -1 else if a == b then 0 else 1
  }

  ghost predicate Increasing<T>(s: seq<T>, key: T -> int) {
    forall i, j :: 0 <= i < j < |s| ==> key(s[i]) < key(s[j])
  }

  ghost predicate AllBelow<T>(s: seq<T>, key: T -> int, bound: int) {
    forall x :: x in s ==> key(x) < bound
  }

  ghost predicate AllAbove<T>(s: seq<T>, key: T -> int, bound: int) {
    forall x :: x in s ==> bound < key(x)
  }

  /** `now` is `was` without its element `x`. */
  ghost predicate Lacks<T>(was: seq<T>, x: T, now: seq<T>) {
    exists i :: 0 <= i < |was| && was[i] == x && now == was[..i] + was[i + 1..]
  }

  lemma Drop<T>(a: seq<T>, x: T, b: seq<T>)
    ensures Lacks(a + [x] + b, x, a + b)
  {
    var s := a + [x] + b;
    assert s[|a|] == x && s[..|a|] == a && s[|a| + 1..] == b;
  }

  /** An element splits a sorted sequence into what is below and what is above it. */
  lemma Around<T>(a: seq<T>, x: T, b: seq<T>, key: T -> int)
    requires Increasing(a + [x] + b, key)
    ensures AllBelow(a, key, key(x)) && AllAbove(b, key, key(x)) && Increasing(a, key) && Increasing(b, key)
  {
    var s := a + [x] + b;
    assert s[|a|] == x;
    assert forall i :: 0 <= i < |a| ==> a[i] == s[i];
    assert forall i :: 0 <= i < |b| ==> b[i] == s[|a| + 1 + i];
  }

  /** An element put between what is below and what is above it keeps a sequence sorted. */
  lemma Placed<T>(a: seq<T>, x: T, b: seq<T>, key: T -> int)
    requires Increasing(a + b, key) && AllBelow(a, key, key(x)) && AllAbove(b, key, key(x))
    ensures Increasing(a + [x] + b, key) && Lacks(a + [x] + b, x, a + b)
  {
    var s, s' := a + b, a + [x] + b;
    forall i, j | 0 <= i < j < |s'| ensures key(s'[i]) < key(s'[j]) {
      if i != |a| && j != |a| {
        var i', j' := if i < |a| then i else i - 1, if j < |a| then j else j - 1;
        assert s'[i] == s[i'] && s'[j] == s[j'];
      } else if i == |a| {
        assert s'[j] in b;
      } else {
        assert s'[i] in a;
      }
    }
    Drop(a, x, b);
  }

  /** An element taken out leaves a sequence sorted. */
  lemma TakenOut<T>(a: seq<T>, x: T, b: seq<T>, key: T -> int)
    requires Increasing(a + [x] + b, key)
    ensures Increasing(a + b, key) && Lacks(a + [x] + b, x, a + b)
  {
    var s, s' := a + [x] + b, a + b;
    assert forall j :: 0 <= j < |s'| ==> s'[j] == s[if j < |a| then j else j + 1];
    Drop(a, x, b);
  }

  /** An element stands in one place of a sorted sequence only. */
  lemma OnePlace<T>(s: seq<T>, key: T -> int, i: nat, j: nat)
    requires Increasing(s, key) && i < |s| && j < |s| && s[i] == s[j]
    ensures i == j
  {
  }
}
