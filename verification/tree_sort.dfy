/** `TreeSort.Sort(int[])`: the elements are inserted one by one into an unbalanced binary
    search tree, which is then read back in order. The mutable `TreeNode` objects are modelled
    as an immutable tree; `Insert` returns the tree the C# code leaves behind. */
module TreeSort {
  import opened Order

  /** A `TreeNode?`: `Nil` is `null`, a `Node` holds `Left`, `Value` and `Right`. */
  datatype Tree = Nil | Node(left: Tree, value: int, right: Tree)

  /** The values stored in a tree, with their multiplicities. */
  function Contents(t: Tree): multiset<int>
  {
    match t
    case Nil => multiset{}
    case Node(l, v, r) => Contents(l) + multiset{v} + Contents(r)
  }

  /** The search-tree ordering: below every node, the left subtree holds only strictly smaller
      values and the right subtree only values at least as large, so duplicates sit on the
      right. */
  ghost predicate SearchTree(t: Tree)
  {
    match t
    case Nil => true
    case Node(l, v, r) =>
      && SearchTree(l) && SearchTree(r)
      && (forall x :: x in Contents(l) ==> x < v)
      && (forall x :: x in Contents(r) ==> v <= x)
  }

  /** `Insert(node, value)`: an empty place gets a new leaf; otherwise the value descends left
      when it is smaller than the node's value and right when it is not, and the node itself is
      returned. Exactly one occurrence of `value` is added and nothing else changes. */
  function Insert(t: Tree, x: int): (r: Tree)
    ensures r.Node? && Contents(r) == Contents(t) + multiset{x}
    ensures t.Node? ==> r.value == t.value
    ensures t.Nil? ==> r == Node(Nil, x, Nil)
  {
    match t
    case Nil => Node(Nil, x, Nil)
    case Node(l, v, rt) =>
      if x < v then Node(Insert(l, x), v, rt) else Node(l, v, Insert(rt, x))
  }

  /** `Insert` keeps the search-tree ordering. */
  lemma {:induction false} InsertSearchTree(t: Tree, x: int)
    requires SearchTree(t)
    ensures SearchTree(Insert(t, x))
  {
    match t
    case Nil =>
    case Node(l, v, r) =>
      if x < v {
        var l' := Insert(l, x);
        assert Insert(t, x) == Node(l', v, r);
        InsertSearchTree(l, x);
        BelowAfterInsert(l, x, v);
        NodeSearchTree(l', v, r);
      } else {
        var r' := Insert(r, x);
        assert Insert(t, x) == Node(l, v, r');
        InsertSearchTree(r, x);
        AboveAfterInsert(r, x, v);
        NodeSearchTree(l, v, r');
      }
  }

  /** A node over two search trees that its value separates is a search tree. */
  lemma NodeSearchTree(l: Tree, v: int, r: Tree)
    requires SearchTree(l) && SearchTree(r)
    requires forall y :: y in Contents(l) ==> y < v
    requires forall y :: y in Contents(r) ==> v <= y
    ensures SearchTree(Node(l, v, r))
  {
  }

  /** Inserting a value below a bound into a subtree below the bound keeps it below. */
  lemma BelowAfterInsert(t: Tree, x: int, v: int)
    requires x < v && forall y :: y in Contents(t) ==> y < v
    ensures forall y :: y in Contents(Insert(t, x)) ==> y < v
  {
  }

  /** Inserting a value at least a bound into a subtree at least the bound keeps it so. */
  lemma AboveAfterInsert(t: Tree, x: int, v: int)
    requires v <= x && forall y :: y in Contents(t) ==> v <= y
    ensures forall y :: y in Contents(Insert(t, x)) ==> v <= y
  {
  }

  /** The in-order sequence of a tree: left subtree, node, right subtree. */
  function InOrder(t: Tree): seq<int>
  {
    match t
    case Nil => []
    case Node(l, v, r) => InOrder(l) + [v] + InOrder(r)
  }

  /** The in-order sequence holds exactly the contents of the tree. */
  lemma {:induction false} InOrderContents(t: Tree)
    ensures multiset(InOrder(t)) == Contents(t)
  {
    match t
    case Nil =>
    case Node(l, v, r) =>
      InOrderContents(l);
      InOrderContents(r);
  }

  /** `InOrder(node, result)`: the traversal appends to the list it is given. */
  function Visit(t: Tree, acc: seq<int>): seq<int>
  {
    match t
    case Nil => acc
    case Node(l, v, r) => Visit(r, Visit(l, acc) + [v])
  }

  /** The traversal appends exactly the in-order sequence of the tree. */
  lemma {:induction false} VisitAppends(t: Tree, acc: seq<int>)
    ensures Visit(t, acc) == acc + InOrder(t)
  {
    match t
    case Nil =>
    case Node(l, v, r) =>
      VisitAppends(l, acc);
      VisitAppends(r, Visit(l, acc) + [v]);
      assert (acc + InOrder(l) + [v]) + InOrder(r) == acc + InOrder(t);
  }

  /** The in-order sequence of a search tree is sorted. */
  lemma {:induction false} InOrderSorted(t: Tree)
    requires SearchTree(t)
    ensures Sorted(InOrder(t))
  {
    match t
    case Nil =>
    case Node(l, v, r) =>
      InOrderSorted(l);
      InOrderSorted(r);
      InOrderContents(l);
      InOrderContents(r);
      var sl, sr := InOrder(l), InOrder(r);
      forall k | 0 <= k < |sl|
        ensures sl[k] < v
      {
        assert sl[k] in multiset(sl);
      }
      forall k | 0 <= k < |sr|
        ensures v <= sr[k]
      {
        assert sr[k] in multiset(sr);
      }
      JoinSorted(sl, v, sr);
  }

  /** Two sorted runs joined around a value that separates them form a sorted run. */
  lemma JoinSorted(sl: seq<int>, v: int, sr: seq<int>)
    requires Sorted(sl) && Sorted(sr)
    requires forall k :: 0 <= k < |sl| ==> sl[k] < v
    requires forall k :: 0 <= k < |sr| ==> v <= sr[k]
    ensures Sorted(sl + [v] + sr)
  {
    var s := sl + [v] + sr;
    forall p, q | 0 <= p < q < |s|
      ensures s[p] <= s[q]
    {
      if q < |sl| {
        assert s[p] == sl[p] && s[q] == sl[q];
      } else if p > |sl| {
        assert s[p] == sr[p - |sl| - 1] && s[q] == sr[q - |sl| - 1];
      } else if p < |sl| {
        assert s[p] == sl[p];
        if q > |sl| {
          assert s[q] == sr[q - |sl| - 1];
        }
      } else if q > |sl| {
        assert s[q] == sr[q - |sl| - 1];
      }
    }
  }

  /** The first loop of `Sort`: every element of the array is inserted, in order, into an
      initially empty tree, which ends up a search tree holding exactly the array's elements. */
  method Build(a: seq<int>) returns (root: Tree)
    ensures SearchTree(root) && Contents(root) == multiset(a)
  {
    root := Nil;
    var i := 0;
    while i < |a|
      invariant 0 <= i <= |a|
      invariant SearchTree(root) && Contents(root) == multiset(a[..i])
    {
      BuildStep(a, i, root);
      root := Insert(root, a[i]);
      i := i + 1;
    }
    assert a[..i] == a;
  }

  /** One iteration of the build loop: inserting `a[i]` extends the tree to hold `a[..i + 1]`. */
  lemma BuildStep(a: seq<int>, i: int, root: Tree)
    requires 0 <= i < |a| && SearchTree(root) && Contents(root) == multiset(a[..i])
    ensures SearchTree(Insert(root, a[i])) && Contents(Insert(root, a[i])) == multiset(a[..i + 1])
  {
    InsertSearchTree(root, a[i]);
    BagPrefix(a, i);
  }

  /** The whole routine: the tree built from the array holds exactly its elements, so the
      in-order list has `array.Length` entries and the write-back stays in bounds; the array
      ends up sorted and a permutation of the input. */
  method Sort(a: seq<int>) returns (r: seq<int>)
    ensures Sorted(r) && multiset(r) == multiset(a)
    ensures |a| == 0 ==> r == a
  {
    var root := Build(a);
    var sortedValues := Visit(root, []);
    Traversal(root, a);
    r := CopyInto(a, sortedValues);
  }

  /** The traversal of the tree built from `a` lists the elements of `a` in order, exactly
      `|a|` of them. */
  lemma Traversal(root: Tree, a: seq<int>)
    requires SearchTree(root) && Contents(root) == multiset(a)
    ensures Sorted(Visit(root, [])) && multiset(Visit(root, [])) == multiset(a)
    ensures |Visit(root, [])| == |a|
  {
    VisitAppends(root, []);
    assert [] + InOrder(root) == InOrder(root);
    InOrderContents(root);
    InOrderSorted(root);
    assert |multiset(Visit(root, []))| == |multiset(a)|;
  }
}
