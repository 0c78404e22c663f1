/**
  `flatten` (pynocle/utils.py:140-149): the generator that yields a node and
  then, recursively, everything under each of its children in order.

  The callable `getchildren` is modelled by the tree itself: each node
  carries the children `getchildren` returns for it, in order. The
  generator's output is the finite sequence it yields.
 */
module Flatten {

  /** A node and the children `getchildren(node)` returns. */
  datatype Tree<T> = Node(value: T, children: seq<Tree<T>>)

  /** The number of nodes of a tree. */
  function Size<T>(t: Tree<T>): nat {
    1 + ForestSize(t.children)
  }

  function ForestSize<T>(ts: seq<Tree<T>>): nat {
    if ts == [] then 0 else Size(ts[0]) + ForestSize(ts[1..])
  }

  /** `v` is the value of some node of `t`. */
  predicate InTree<T(==)>(v: T, t: Tree<T>) {
    v == t.value || InForest(v, t.children)
  }

  predicate InForest<T(==)>(v: T, ts: seq<Tree<T>>) {
    ts != [] && (InTree(v, ts[0]) || InForest(v, ts[1..]))
  }

  /** What `flatten(node, getchildren)` yields. */
  function Flatten<T>(t: Tree<T>): (r: seq<T>)
    ensures |r| >= 1 && r[0] == t.value
  {
    [t.value] + FlattenAll(t.children)
  }

  /** The walks of several trees, one after the other. */
  function FlattenAll<T>(ts: seq<Tree<T>>): seq<T> {
    if ts == [] then [] else Flatten(ts[0]) + FlattenAll(ts[1..])
  }

  lemma {:induction false} FlattenAllAppend<T>(a: seq<Tree<T>>, b: seq<Tree<T>>)
    ensures FlattenAll(a + b) == FlattenAll(a) + FlattenAll(b)
  {
    if a == [] {
      assert a + b == b;
    } else {
      assert (a + b)[0] == a[0] && (a + b)[1..] == a[1..] + b;
      FlattenAllAppend(a[1..], b);
    }
  }

  lemma {:induction false} ForestSizeAppend<T>(a: seq<Tree<T>>, b: seq<Tree<T>>)
    ensures ForestSize(a + b) == ForestSize(a) + ForestSize(b)
  {
    if a == [] {
      assert a + b == b;
    } else {
      assert (a + b)[0] == a[0] && (a + b)[1..] == a[1..] + b;
      ForestSizeAppend(a[1..], b);
    }
  }

  /** The walk yields every node exactly once: its length is the node count. */
  lemma {:induction false} FlattenLength<T>(t: Tree<T>)
    ensures |Flatten(t)| == Size(t)
  {
    FlattenAllLength(t.children);
  }

  lemma {:induction false} FlattenAllLength<T>(ts: seq<Tree<T>>)
    ensures |FlattenAll(ts)| == ForestSize(ts)
  {
    if ts != [] {
      FlattenLength(ts[0]);
      FlattenAllLength(ts[1..]);
    }
  }

  /** The walk yields exactly the values of the tree's nodes. */
  lemma {:induction false} FlattenMembers<T>(t: Tree<T>, v: T)
    ensures v in Flatten(t) <==> InTree(v, t)
  {
    FlattenAllMembers(t.children, v);
  }

  lemma {:induction false} FlattenAllMembers<T>(ts: seq<Tree<T>>, v: T)
    ensures v in FlattenAll(ts) <==> InForest(v, ts)
  {
    if ts != [] {
      FlattenMembers(ts[0], v);
      FlattenAllMembers(ts[1..], v);
    }
  }

  /** Where the walk of the `i`-th child starts: after the node itself and the
      walks of the earlier children. */
  function ChildOffset<T>(t: Tree<T>, i: nat): nat
    requires i <= |t.children|
  {
    1 + ForestSize(t.children[..i])
  }

  /** The walks of a forest split around its `i`-th tree. */
  lemma FlattenAllAround<T>(cs: seq<Tree<T>>, i: nat)
    requires i < |cs|
    ensures FlattenAll(cs) == FlattenAll(cs[..i]) + Flatten(cs[i]) + FlattenAll(cs[i + 1..])
  {
    var before, rest, after := cs[..i], cs[i..], cs[i + 1..];
    assert cs == before + rest;
    FlattenAllAppend(before, rest);
    assert rest[0] == cs[i] && rest[1..] == after;
    assert FlattenAll(rest) == Flatten(cs[i]) + FlattenAll(after);
  }

  /** Pre-order: the walk of each child is one contiguous block of the node's
      walk, placed after the node and after the blocks of the earlier
      children. */
  lemma ChildBlock<T>(t: Tree<T>, i: nat)
    requires i < |t.children|
    ensures ChildOffset(t, i) + Size(t.children[i]) <= |Flatten(t)|
    ensures Flatten(t)[ChildOffset(t, i)..ChildOffset(t, i) + Size(t.children[i])] == Flatten(t.children[i])
  {
    var cs := t.children;
    FlattenAllAround(cs, i);
    FlattenAllLength(cs[..i]);
    FlattenLength(cs[i]);
    var pre := [t.value] + FlattenAll(cs[..i]);
    var w := Flatten(t);
    assert w == pre + Flatten(cs[i]) + FlattenAll(cs[i + 1..]);
    assert |pre| == ChildOffset(t, i);
  }

  /** The walk computed with an explicit stack instead of recursion: the top of
      the stack is its first element, and a node is replaced by its children. */
  method FlattenIter<T>(root: Tree<T>) returns (out: seq<T>)
    ensures out == Flatten(root)
  {
    out := [];
    var stack := [root];
    assert FlattenAll(stack) == Flatten(root) by {
      assert stack[1..] == [];
    }
    while stack != []
      invariant out + FlattenAll(stack) == Flatten(root)
      decreases ForestSize(stack)
    {
      var t := stack[0];
      var rest := stack[1..];
      FlattenAllAppend(t.children, rest);
      ForestSizeAppend(t.children, rest);
      assert ForestSize(stack) == 1 + ForestSize(t.children) + ForestSize(rest);
      out := out + [t.value];
      stack := t.children + rest;
    }
  }

  /** Node 1 with children 2 and 3, where 2 has child 4, is walked 1, 2, 4, 3. */
  lemma Example()
    ensures Flatten(Node(1, [Node(2, [Node(4, [])]), Node(3, [])])) == [1, 2, 4, 3]
  {
    var n4 := Node(4, []);
    var n2 := Node(2, [n4]);
    var n3 := Node(3, []);
    assert [n4][1..] == [];
    assert Flatten(n4) == [4];
    assert Flatten(n2) == [2, 4];
    assert Flatten(n3) == [3];
    assert [n2, n3][1..] == [n3] && [n3][1..] == [];
    assert FlattenAll([n2, n3]) == [2, 4] + [3];
  }
}
