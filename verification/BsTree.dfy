/** bstree.c: an unbalanced binary search tree under a caller's comparison function. */
module BsTree {

  import opened Machine

  // ------------------------------------------------------------------ trees as values

  datatype Tree<T> = Leaf | Branch(left: Tree<T>, data: T, right: Tree<T>)

  type Cmp<!T> = (T, T) -> int

  ghost predicate TotalOrder<T(!new)>(cmp: Cmp<T>) {
    && (forall a, b :: cmp(a, b) < 0 <==> cmp(b, a) > 0)
    && (forall a, b, c :: cmp(a, b) <= 0 && cmp(b, c) <= 0 ==> cmp(a, c) <= 0)
  }

  /** The data in the order in which bstree_walk meets them. */
  function Preorder<T>(t: Tree<T>): seq<T> {
    match t
    case Leaf => []
    case Branch(l, d, r) => [d] + Preorder(l) + Preorder(r)
  }

  /** The root first, then all of its left subtree, then all of its right one. */
  lemma WalkOrder()
    ensures Preorder(Branch(Branch(Leaf, 1, Leaf), 2, Branch(Leaf, 3, Leaf))) == [2, 1, 3]
    ensures Preorder(Branch(Branch(Leaf, 1, Branch(Leaf, 2, Leaf)), 3, Leaf)) == [3, 1, 2]
  {
  }

  /** The data from the leftmost to the rightmost node. */
  function Inorder<T>(t: Tree<T>): seq<T> {
    match t
    case Leaf => []
    case Branch(l, d, r) => Inorder(l) + [d] + Inorder(r)
  }

  predicate Sorted<T>(s: seq<T>, cmp: Cmp<T>) {
    forall i, j :: 0 <= i < j < |s| ==> cmp(s[i], s[j]) < 0
  }

  /** In a search tree smaller data are on the left: read from left to right it is sorted. */
  lemma {:induction false} OrderedIsSorted<T(!new)>(t: Tree<T>, cmp: Cmp<T>)
    requires TotalOrder(cmp) && Ordered(t, cmp)
    ensures forall i, j :: 0 <= i < j < |Inorder(t)| ==> cmp(Inorder(t)[i], Inorder(t)[j]) < 0
  {
    match t {
      case Leaf =>
      case Branch(l, d, r) =>
        OrderedIsSorted(l, cmp);
        OrderedIsSorted(r, cmp);
        SameElements(l);
        SameElements(r);
        forall i | 0 <= i < |Inorder(l)| ensures cmp(Inorder(l)[i], d) < 0 {
          assert Inorder(l)[i] in Preorder(l);
        }
        forall i | 0 <= i < |Inorder(r)| ensures cmp(Inorder(r)[i], d) > 0 {
          assert Inorder(r)[i] in Preorder(r);
        }
        SortedAround(Inorder(l), d, Inorder(r), cmp);
        assert Inorder(t) == Inorder(l) + [d] + Inorder(r);
    }
  }

  lemma SortedAround<T(!new)>(a: seq<T>, d: T, b: seq<T>, cmp: Cmp<T>)
    requires TotalOrder(cmp) && Sorted(a, cmp) && Sorted(b, cmp) && Below(a, d, cmp) && Above(b, d, cmp)
    ensures Sorted(a + [d] + b, cmp)
  {
    var s := a + [d] + b;
    forall i, j | 0 <= i < j < |s| ensures cmp(s[i], s[j]) < 0 {
      if i < |a| < j { Transitive(s[i], d, s[j], cmp); }
    }
  }

  lemma Transitive<T(!new)>(x: T, y: T, z: T, cmp: Cmp<T>)
    requires TotalOrder(cmp) && cmp(x, y) < 0 && cmp(z, y) > 0
    ensures cmp(x, z) < 0
  {
    assert cmp(y, x) > 0 && cmp(y, z) < 0;
    assert cmp(z, x) <= 0 && cmp(x, y) <= 0 ==> cmp(z, y) <= 0;
    assert cmp(x, z) < 0 <==> cmp(z, x) > 0;
  }

  lemma {:induction false} SameElements<T>(t: Tree<T>)
    ensures multiset(Inorder(t)) == multiset(Preorder(t))
    ensures forall x :: x in Inorder(t) ==> x in Preorder(t)
  {
    match t {
      case Leaf =>
      case Branch(l, d, r) =>
        SameElements(l);
        SameElements(r);
    }
  }

  /** Comparing integers is such an order; so is comparing them the other way round. */
  lemma IntegersAreOrdered()
    ensures TotalOrder((a: int, b: int) => a - b) && TotalOrder((a: int, b: int) => b - a)
  {
  }

  predicate Below<T>(s: seq<T>, d: T, cmp: Cmp<T>) {
    forall i :: 0 <= i < |s| ==> cmp(s[i], d) < 0
  }

  predicate Above<T>(s: seq<T>, d: T, cmp: Cmp<T>) {
    forall i :: 0 <= i < |s| ==> cmp(s[i], d) > 0
  }

  predicate Ordered<T>(t: Tree<T>, cmp: Cmp<T>) {
    match t
    case Leaf => true
    case Branch(l, d, r) =>
      Ordered(l, cmp) && Ordered(r, cmp) && Below(Preorder(l), d, cmp) && Above(Preorder(r), d, cmp)
  }

  /** The first element of a list that compares equal to x. */
  function FirstEqual<T>(s: seq<T>, x: T, cmp: Cmp<T>): Option<T> {
    if s == [] then None else if cmp(x, s[0]) == 0 then Some(s[0]) else FirstEqual(s[1..], x, cmp)
  }

  function Added<T>(t: Tree<T>, x: T, cmp: Cmp<T>): Tree<T> {
    match t
    case Leaf => Branch(Leaf, x, Leaf)
    case Branch(l, d, r) =>
      if cmp(x, d) == 0 then t
      else if cmp(x, d) > 0 then Branch(l, d, Added(r, x, cmp))
      else Branch(Added(l, x, cmp), d, r)
  }

  function AllAdded<T>(t: Tree<T>, s: seq<T>, cmp: Cmp<T>): Tree<T>
    decreases |s|
  {
    if s == [] then t else AllAdded(Added(t, s[0], cmp), s[1..], cmp)
  }

  /** What bstree_search finds in a tree: it follows one path only. */
  function Lookup<T>(t: Tree<T>, x: T, cmp: Cmp<T>): Option<T> {
    match t
    case Leaf => None
    case Branch(l, d, r) =>
      if cmp(x, d) == 0 then Some(d) else if cmp(x, d) > 0 then Lookup(r, x, cmp) else Lookup(l, x, cmp)
  }

  lemma {:induction false} FirstEqualOfConcat<T>(a: seq<T>, b: seq<T>, x: T, cmp: Cmp<T>)
    ensures FirstEqual(a + b, x, cmp) ==
            if FirstEqual(a, x, cmp).None? then FirstEqual(b, x, cmp) else FirstEqual(a, x, cmp)
  {
    if a == [] {
      assert a + b == b;
    } else {
      assert (a + b)[1..] == a[1..] + b;
      FirstEqualOfConcat(a[1..], b, x, cmp);
    }
  }

  lemma {:induction false} NoneEqual<T>(s: seq<T>, x: T, cmp: Cmp<T>)
    requires forall i :: 0 <= i < |s| ==> cmp(x, s[i]) != 0
    ensures FirstEqual(s, x, cmp).None?
  {
    if s != [] { NoneEqual(s[1..], x, cmp); }
  }

  /** Where an element belongs no other subtree holds one equal to it. */
  lemma OnlyOneSide<T(!new)>(l: seq<T>, r: seq<T>, d: T, x: T, cmp: Cmp<T>)
    requires TotalOrder(cmp) && Below(l, d, cmp) && Above(r, d, cmp)
    ensures cmp(x, d) >= 0 ==> FirstEqual(l, x, cmp).None?
    ensures cmp(x, d) <= 0 ==> FirstEqual(r, x, cmp).None?
  {
    if cmp(x, d) >= 0 {
      forall i | 0 <= i < |l| ensures cmp(x, l[i]) != 0 {
        assert cmp(d, x) <= 0;
        assert cmp(l[i], d) < 0;
      }
      NoneEqual(l, x, cmp);
    }
    if cmp(x, d) <= 0 {
      forall i | 0 <= i < |r| ensures cmp(x, r[i]) != 0 {
        assert cmp(r[i], d) > 0;
      }
      NoneEqual(r, x, cmp);
    }
  }

  /** The single path loses nothing: the search is a linear scan of the whole tree. */
  lemma {:induction false} LookupScansTheTree<T(!new)>(t: Tree<T>, x: T, cmp: Cmp<T>)
    requires TotalOrder(cmp) && Ordered(t, cmp)
    ensures Lookup(t, x, cmp) == FirstEqual(Preorder(t), x, cmp)
  {
    match t {
      case Leaf =>
      case Branch(l, d, r) =>
        LookupScansTheTree(l, x, cmp);
        LookupScansTheTree(r, x, cmp);
        OnlyOneSide(Preorder(l), Preorder(r), d, x, cmp);
        FirstEqualOfConcat([d] + Preorder(l), Preorder(r), x, cmp);
        FirstEqualOfConcat([d], Preorder(l), x, cmp);
        assert FirstEqual([d], x, cmp) == if cmp(x, d) == 0 then Some(d) else None;
    }
  }

  lemma Population<T>(l: Tree<T>, d: T, r: Tree<T>)
    ensures multiset(Preorder(Branch(l, d, r))) == multiset{d} + multiset(Preorder(l)) + multiset(Preorder(r))
    ensures Preorder<T>(Leaf) == []
  {
  }

  lemma OneMoreLeft<T>(a: multiset<T>, b: multiset<T>, c: multiset<T>, x: multiset<T>)
    ensures (a + (b + x)) + c == ((a + b) + c) + x
  {
  }

  /** An add changes nothing or puts the new element in. */
  lemma {:induction false} AddKeepsElements<T>(t: Tree<T>, x: T, cmp: Cmp<T>)
    ensures Lookup(t, x, cmp).Some? ==> Added(t, x, cmp) == t
    ensures Lookup(t, x, cmp).None? ==> multiset(Preorder(Added(t, x, cmp))) == multiset(Preorder(t)) + multiset{x}
  {
    hide Preorder;
    Population(Leaf, x, Leaf);
    if t.Branch? {
      var l, d, r := t.left, t.data, t.right;
      Population(l, d, r);
      if cmp(x, d) > 0 {
        AddKeepsElements(r, x, cmp);
        Population(l, d, Added(r, x, cmp));
      } else if cmp(x, d) < 0 {
        AddKeepsElements(l, x, cmp);
        Population(Added(l, x, cmp), d, r);
        OneMoreLeft(multiset{d}, multiset(Preorder(l)), multiset(Preorder(r)), multiset{x});
      }
    }
  }

  lemma {:induction false} AddKeepsOrder<T(!new)>(t: Tree<T>, x: T, cmp: Cmp<T>)
    requires TotalOrder(cmp) && Ordered(t, cmp)
    ensures Ordered(Added(t, x, cmp), cmp)
  {
    match t {
      case Leaf =>
      case Branch(l, d, r) =>
        if cmp(x, d) > 0 {
          AddKeepsOrder(r, x, cmp);
          KeepsSide(r, x, d, cmp);
        } else if cmp(x, d) < 0 {
          AddKeepsOrder(l, x, cmp);
          KeepsSide(l, x, d, cmp);
        }
    }
  }

  lemma KeepsSide<T(!new)>(t: Tree<T>, x: T, d: T, cmp: Cmp<T>)
    ensures Above(Preorder(t), d, cmp) && cmp(x, d) > 0 ==> Above(Preorder(Added(t, x, cmp)), d, cmp)
    ensures Below(Preorder(t), d, cmp) && cmp(x, d) < 0 ==> Below(Preorder(Added(t, x, cmp)), d, cmp)
  {
    AddKeepsElements(t, x, cmp);
    hide Added, Preorder, Lookup;
    var s, s' := Preorder(t), Preorder(Added(t, x, cmp));
    forall i | 0 <= i < |s'|
      ensures s'[i] == x || s'[i] in s
    {
      assert s'[i] in multiset(s');
    }
  }

  /** What a search finds after one more add. */
  lemma {:induction false} LookupAfterAdd<T(!new)>(t: Tree<T>, x: T, y: T, cmp: Cmp<T>)
    requires TotalOrder(cmp) && Ordered(t, cmp)
    ensures Lookup(Added(t, x, cmp), y, cmp) ==
            if Lookup(t, y, cmp).Some? then Lookup(t, y, cmp) else if cmp(y, x) == 0 then Some(x) else None
  {
    match t {
      case Leaf =>
      case Branch(l, d, r) =>
        assert cmp(y, x) == 0 ==> (cmp(x, d) > 0 <==> cmp(y, d) > 0) && (cmp(x, d) < 0 <==> cmp(y, d) < 0) by {
          if cmp(y, x) == 0 {
            SameSide(x, y, d, cmp);
            SameSide(y, x, d, cmp);
          }
        }
        LookupAfterAdd(l, x, y, cmp);
        LookupAfterAdd(r, x, y, cmp);
    }
  }

  lemma SameSide<T(!new)>(x: T, y: T, d: T, cmp: Cmp<T>)
    requires TotalOrder(cmp) && cmp(x, y) == 0
    ensures cmp(x, d) <= 0 ==> cmp(y, d) <= 0
    ensures cmp(x, d) >= 0 ==> cmp(y, d) >= 0
  {
    assert cmp(y, x) == 0;
    if cmp(x, d) >= 0 {
      assert cmp(d, x) <= 0;
      assert cmp(d, y) <= 0;
    }
  }

  /** From an empty tree, a search finds the first equal element of all that were added,
      if there was one. */
  lemma SearchFindsFirstAdded<T(!new)>(s: seq<T>, y: T, cmp: Cmp<T>)
    requires TotalOrder(cmp)
    ensures var t := AllAdded(Leaf, s, cmp); Ordered(t, cmp) && Lookup(t, y, cmp) == FirstEqual(s, y, cmp)
  {
    SearchAfterAdds(Leaf, s, y, cmp);
  }

  lemma {:induction false} SearchAfterAdds<T(!new)>(t: Tree<T>, s: seq<T>, y: T, cmp: Cmp<T>)
    requires TotalOrder(cmp) && Ordered(t, cmp)
    ensures Ordered(AllAdded(t, s, cmp), cmp)
    ensures Lookup(AllAdded(t, s, cmp), y, cmp) ==
            if Lookup(t, y, cmp).Some? then Lookup(t, y, cmp) else FirstEqual(s, y, cmp)
    decreases |s|
  {
    if s != [] {
      AddKeepsOrder(t, s[0], cmp);
      LookupAfterAdd(t, s[0], y, cmp);
      SearchAfterAdds(Added(t, s[0], cmp), s[1..], y, cmp);
    }
  }

  /** A search finds something exactly when an equal element was added, and then such a one. */
  lemma FoundIffAdded<T(!new)>(s: seq<T>, y: T, cmp: Cmp<T>)
    requires TotalOrder(cmp)
    ensures var found := Lookup(AllAdded(Leaf, s, cmp), y, cmp);
      && (found.Some? <==> exists i :: 0 <= i < |s| && cmp(y, s[i]) == 0)
      && (found.Some? ==> found.value in s && cmp(y, found.value) == 0)
  {
    SearchFindsFirstAdded(s, y, cmp);
    FirstEqualIff(s, y, cmp);
  }

  lemma {:induction false} FirstEqualIff<T>(s: seq<T>, y: T, cmp: Cmp<T>)
    ensures FirstEqual(s, y, cmp).Some? <==> exists i :: 0 <= i < |s| && cmp(y, s[i]) == 0
    ensures FirstEqual(s, y, cmp).Some? ==> FirstEqual(s, y, cmp).value in s && cmp(y, FirstEqual(s, y, cmp).value) == 0
  {
    if s != [] {
      FirstEqualIff(s[1..], y, cmp);
      if exists i :: 0 <= i < |s| && cmp(y, s[i]) == 0 {
        var i :| 0 <= i < |s| && cmp(y, s[i]) == 0;
        assert i > 0 ==> s[1..][i - 1] == s[i];
      }
      if i :| 0 <= i < |s| - 1 && cmp(y, s[1..][i]) == 0 {
        assert s[1..][i] == s[i + 1];
      }
    }
  }

  /** Walking a tree and adding what was met, in that order, to an empty tree rebuilds it. */
  lemma {:induction false} WalkRebuilds<T(!new)>(t: Tree<T>, cmp: Cmp<T>)
    requires TotalOrder(cmp) && Ordered(t, cmp)
    ensures AllAdded(Leaf, Preorder(t), cmp) == t
  {
    match t {
      case Leaf =>
      case Branch(l, d, r) =>
        AddsConcat(Leaf, [d] + Preorder(l), Preorder(r), cmp);
        AddsConcat(Leaf, [d], Preorder(l), cmp);
        assert AllAdded(Added(Leaf, d, cmp), [d][1..], cmp) == Branch(Leaf, d, Leaf);
        AddsGoLeft(Leaf, d, Leaf, Preorder(l), cmp);
        WalkRebuilds(l, cmp);
        AddsGoRight(l, d, Leaf, Preorder(r), cmp);
        WalkRebuilds(r, cmp);
    }
  }

  lemma {:induction false} AddsConcat<T>(t: Tree<T>, a: seq<T>, b: seq<T>, cmp: Cmp<T>)
    ensures AllAdded(t, a + b, cmp) == AllAdded(AllAdded(t, a, cmp), b, cmp)
    decreases |a|
  {
    if a == [] {
      assert a + b == b;
    } else {
      assert (a + b)[1..] == a[1..] + b;
      AddsConcat(Added(t, a[0], cmp), a[1..], b, cmp);
    }
  }

  lemma {:induction false} AddsGoLeft<T>(l: Tree<T>, d: T, r: Tree<T>, s: seq<T>, cmp: Cmp<T>)
    requires Below(s, d, cmp)
    ensures AllAdded(Branch(l, d, r), s, cmp) == Branch(AllAdded(l, s, cmp), d, r)
    decreases |s|
  {
    if s != [] { AddsGoLeft(Added(l, s[0], cmp), d, r, s[1..], cmp); }
  }

  lemma {:induction false} AddsGoRight<T>(l: Tree<T>, d: T, r: Tree<T>, s: seq<T>, cmp: Cmp<T>)
    requires Above(s, d, cmp)
    ensures AllAdded(Branch(l, d, r), s, cmp) == Branch(l, d, AllAdded(r, s, cmp))
    decreases |s|
  {
    if s != [] { AddsGoRight(l, d, Added(r, s[0], cmp), s[1..], cmp); }
  }

  // ------------------------------------------------------------------ trees in memory

  class Node<T> {
    const data: T
    var left: Node?<T>
    var right: Node?<T>

    constructor (data: T)
      ensures this.data == data
    {
      this.data := data;
    }
  }

  /** Which nodes make up a tree. */
  datatype Shape<T> = Nil | At(node: Node<T>, left: Shape<T>, right: Shape<T>)

  ghost function Nodes<T>(s: Shape<T>): set<Node<T>> {
    match s
    case Nil => {}
    case At(n, l, r) => {n} + Nodes(l) + Nodes(r)
  }

  ghost function TreeOf<T>(s: Shape<T>): Tree<T> {
    match s
    case Nil => Leaf
    case At(n, l, r) => Branch(TreeOf(l), n.data, TreeOf(r))
  }

  /** The node is the root of a tree of the given shape; no node occurs in it twice. */
  ghost predicate IsTree<T>(n: Node?<T>, s: Shape<T>)
    reads Nodes(s)
  {
    match s
    case Nil => n == null
    case At(m, l, r) =>
      && n == m && m !in Nodes(l) && m !in Nodes(r) && Nodes(l) !! Nodes(r)
      && IsTree(m.left, l) && IsTree(m.right, r)
  }

  /** bstree_search_recursive. */
  function SearchFrom<T>(n: Node<T>, needle: T, cmp: Cmp<T>, ghost s: Shape<T>): (found: Option<T>)
    requires s.At? && IsTree(n, s)
    reads Nodes(s)
    ensures found == Lookup(TreeOf(s), needle, cmp)
    decreases s
  {
    var d := cmp(needle, n.data);
    if d == 0 then Some(n.data)
    else
      var dn := if d > 0 then n.right else n.left;
      ghost var side := if d > 0 then s.right else s.left;
      assert IsTree(dn, side);
      if dn != null then SearchFrom(dn, needle, cmp, side) else None
  }

  /** bstree_search. */
  function Search<T>(root: Node?<T>, needle: T, cmp: Cmp<T>, ghost s: Shape<T>): (found: Option<T>)
    requires IsTree(root, s)
    reads Nodes(s)
    ensures found == Lookup(TreeOf(s), needle, cmp)
  {
    if root == null then None else SearchFrom(root, needle, cmp, s)
  }

  /** bstree_walk: the data the action is called with, call by call. */
  function Walk<T>(n: Node?<T>, ghost s: Shape<T>): (calls: seq<T>)
    requires IsTree(n, s)
    reads Nodes(s)
    ensures calls == Preorder(TreeOf(s))
    decreases s
  {
    if n == null then [] else [n.data] + Walk(n.left, s.left) + Walk(n.right, s.right)
  }

  /** bstree_insert. */
  method Insert<T>(treeNode: Node<T>, node: Node<T>, cmp: Cmp<T>, ghost s: Shape<T>, ghost repr: set<Node<T>>)
    returns (code: int, ghost s': Shape<T>)
    requires s.At? && repr == Nodes(s) && IsTree(treeNode, s) && node !in repr
    modifies repr, node
    ensures IsTree(treeNode, s') && TreeOf(s') == Added(TreeOf(s), node.data, cmp)
    ensures code == if Lookup(TreeOf(s), node.data, cmp).Some? then -1 else 0
    ensures Nodes(s') == if code == 0 then Nodes(s) + {node} else Nodes(s)
    ensures code == -1 ==> s' == s
    decreases s
  {
    var d := cmp(node.data, treeNode.data);
    if d == 0 {
      return -1, s;
    }
    if d > 0 {
      if treeNode.right == null {
        treeNode.right := node;
        node.left, node.right := null, null;
        code, s' := 0, s.(right := At(node, Nil, Nil));
        assert IsTree(treeNode.left, s.left);
      } else {
        ghost var r;
        assert IsTree(treeNode.left, s.left);
        code, r := Insert(treeNode.right, node, cmp, s.right, Nodes(s.right));
        s' := s.(right := r);
        assert IsTree(treeNode.left, s.left);
      }
    } else {
      if treeNode.left == null {
        treeNode.left := node;
        node.left, node.right := null, null;
        code, s' := 0, s.(left := At(node, Nil, Nil));
        assert IsTree(treeNode.right, s.right);
      } else {
        ghost var l;
        assert IsTree(treeNode.right, s.right);
        code, l := Insert(treeNode.left, node, cmp, s.left, Nodes(s.left));
        s' := s.(left := l);
        assert IsTree(treeNode.right, s.right);
      }
    }
  }

  /** The caller's root pointer. */
  class Root<T> {
    var node: Node?<T>
    ghost var shape: Shape<T>
    ghost var repr: set<Node<T>>

    ghost predicate Valid()
      reads this, repr
    {
      repr == Nodes(shape) && IsTree(node, shape)
    }

    constructor ()
      ensures Valid() && shape == Nil
    {
      node, shape, repr := null, Nil, {};
    }

    /** bstree_add; None is the null pointer. */
    method Add(data: Option<T>, cmp: Cmp<T>) returns (code: int)
      requires Valid()
      modifies this, repr
      ensures Valid() && fresh(repr - old(repr))
      ensures code == if data.None? || old(Lookup(TreeOf(shape), data.value, cmp)).Some? then -1 else 0
      ensures TreeOf(shape) == if data.None? then old(TreeOf(shape)) else Added(old(TreeOf(shape)), data.value, cmp)
      ensures code == -1 ==> shape == old(shape)
    {
      if data == None {
        return -1;
      }
      var leaf := new Node(data.value);
      if node == null {
        node := leaf;
        leaf.left, leaf.right := null, null;
        shape, repr := At(leaf, Nil, Nil), {leaf};
        return 0;
      }
      ghost var s;
      code, s := Insert(node, leaf, cmp, shape, repr);
      shape, repr := s, Nodes(s);
    }
  }

  /** The nodes of a tree, one level down. */
  lemma Level<T>(n: Node?<T>, s: Shape<T>)
    requires IsTree(n, s)
    ensures TreeOf(s) == Leaf <==> n == null
    ensures n != null ==> s.At? && n == s.node && IsTree(n.left, s.left) && IsTree(n.right, s.right)
    ensures n != null ==> TreeOf(s) == Branch(TreeOf(s.left), n.data, TreeOf(s.right))
  {
  }

  lemma OneNode<T>(n: Node?<T>, s: Shape<T>, x: T)
    requires IsTree(n, s) && TreeOf(s) == Branch(Leaf, x, Leaf)
    ensures n != null && n.data == x && n.left == n.right == null
  {
    Level(n, s);
    Level(n.left, s.left);
    Level(n.right, s.right);
  }

  /** Three adds to an empty tree, node by node. */
  method SmallTree() returns (t: Root<int>)
    ensures t.node != null && t.node.data == 2
    ensures t.node.left != null && t.node.left.data == 1 && t.node.left.left == t.node.left.right == null
    ensures t.node.right != null && t.node.right.data == 3 && t.node.right.left == t.node.right.right == null
  {
    var cmp := (a: int, b: int) => a - b;
    t := new Root();
    var code := t.Add(Some(2), cmp);
    code := t.Add(Some(1), cmp);
    code := t.Add(Some(3), cmp);
    assert TreeOf(t.shape) == Branch(Branch(Leaf, 1, Leaf), 2, Branch(Leaf, 3, Leaf));
    Level(t.node, t.shape);
    OneNode(t.node.left, t.shape.left, 1);
    OneNode(t.node.right, t.shape.right, 3);
  }
}
