/** The ordered set of extraCredit/treeset.c, and the abstract runs its operations follow. */
module TreeSets {
  import opened Options
  import opened AvlTree
  import opened TreeNodes
  import opened TreeOrder

  // ----- the abstract set with its size field

  datatype Op = Add(e: Element) | Remove(e: Element) | PollFirst | PollLast | Clear

  /** `size` is the stored field, which need not be the number of elements. */
  datatype SetState = SetState(elements: set<Element>, size: int)

  ghost function Without(s: set<Element>, key: real): set<Element> {
    set x | x in s && x.key != key
  }

  ghost predicate Least(x: Element, s: set<Element>) {
    x in s && forall y <- s :: x.key <= y.key
  }

  ghost predicate Greatest(x: Element, s: set<Element>) {
    x in s && forall y <- s :: y.key <= x.key
  }

  /** What one operation does to the set and to the size field. Polls leave the size field alone. */
  ghost function Next(s: SetState, op: Op): SetState {
    match op
    case Add(e) => if Has(s.elements, e.key) then s else SetState(s.elements + {e}, s.size + 1)
    case Remove(e) => if Has(s.elements, e.key) then SetState(Without(s.elements, e.key), s.size - 1) else s
    case PollFirst => s.(elements := set x | x in s.elements && !Least(x, s.elements))
    case PollLast => s.(elements := set x | x in s.elements && !Greatest(x, s.elements))
    case Clear => SetState({}, 0)
  }

  ghost function Run(ops: seq<Op>): SetState {
    if ops == [] then SetState({}, 0) else Next(Run(ops[..|ops| - 1]), ops[|ops| - 1])
  }

  /** The polls that found an element, counted since the beginning or the last clear. */
  ghost function PollsSinceClear(ops: seq<Op>): nat {
    if ops == [] then 0
    else
      var before, op := ops[..|ops| - 1], ops[|ops| - 1];
      if op.Clear? then 0
      else if (op.PollFirst? || op.PollLast?) && Run(before).elements != {} then PollsSinceClear(before) + 1
      else PollsSinceClear(before)
  }

  ghost predicate DistinctKeys(s: set<Element>) {
    forall x <- s, y <- s :: x.key == y.key ==> x == y
  }

  lemma {:induction false} HasLeast(s: set<Element>) returns (x: Element)
    requires s != {}
    ensures Least(x, s)
  {
    x :| x in s;
    if y :| y in s && y.key < x.key {
      assert y in s - {x};
      var z := HasLeast(s - {x});
      x := z;
    }
  }

  lemma {:induction false} HasGreatest(s: set<Element>) returns (x: Element)
    requires s != {}
    ensures Greatest(x, s)
  {
    x :| x in s;
    if y :| y in s && x.key < y.key {
      assert y in s - {x};
      var z := HasGreatest(s - {x});
      x := z;
    }
  }

  /** Whether `op` is a poll that finds an element. */
  ghost predicate PollHits(s: SetState, op: Op) {
    (op.PollFirst? || op.PollLast?) && s.elements != {}
  }

  /** One operation changes size and cardinality alike, except that a poll that hits leaves the size behind. */
  lemma NextDrift(s: SetState, op: Op)
    requires DistinctKeys(s.elements) && !op.Clear?
    ensures var s' := Next(s, op);
      && DistinctKeys(s'.elements)
      && s'.size - |s'.elements| == s.size - |s.elements| + if PollHits(s, op) then 1 else 0
  {
    match op
    case Add(e) =>
    case Remove(e) => WithoutOne(s.elements, e.key);
    case PollFirst => WithoutLeast(s.elements);
    case PollLast => WithoutGreatest(s.elements);
  }

  lemma WithoutOne(s: set<Element>, key: real)
    requires DistinctKeys(s)
    ensures |Without(s, key)| == |s| - if Has(s, key) then 1 else 0
  {
    if Has(s, key) {
      var x :| x in s && x.key == key;
      assert Without(s, key) == s - {x};
    } else {
      assert Without(s, key) == s;
    }
  }

  lemma WithoutLeast(s: set<Element>)
    requires DistinctKeys(s)
    ensures |set x | x in s && !Least(x, s)| == |s| - if s == {} then 0 else 1
  {
    if s != {} {
      var x := HasLeast(s);
      assert (set x | x in s && !Least(x, s)) == s - {x};
    }
  }

  lemma WithoutGreatest(s: set<Element>)
    requires DistinctKeys(s)
    ensures |set x | x in s && !Greatest(x, s)| == |s| - if s == {} then 0 else 1
  {
    if s != {} {
      var x := HasGreatest(s);
      assert (set x | x in s && !Greatest(x, s)) == s - {x};
    }
  }

  /** In every run the size field exceeds the number of elements by exactly the number of successful polls
      since the last clear; so it is the size the header promises exactly when there was no such poll. */
  lemma {:induction false} SizeDrift(ops: seq<Op>)
    ensures DistinctKeys(Run(ops).elements)
    ensures Run(ops).size == |Run(ops).elements| + PollsSinceClear(ops)
  {
    if ops != [] {
      var before, op := ops[..|ops| - 1], ops[|ops| - 1];
      SizeDrift(before);
      if !op.Clear? {
        NextDrift(Run(before), op);
      }
    }
  }

  /** The operation takes element `x` out of the set. */
  ghost predicate Takes(s: set<Element>, op: Op, x: Element) {
    match op
    case Add(_) => false
    case Remove(e) => e.key == x.key
    case PollFirst => forall y <- s :: x.key <= y.key
    case PollLast => forall y <- s :: y.key <= x.key
    case Clear => true
  }

  /** Element `x` has been added by operation `i`, when its key was absent, and no later operation takes it. */
  ghost predicate AddedFor(ops: seq<Op>, i: nat, x: Element)
    requires i < |ops|
  {
    && ops[i] == Op.Add(x) && !Has(Run(ops[..i]).elements, x.key)
    && forall j :: i < j < |ops| ==> !Takes(Run(ops[..j]).elements, ops[j], x)
  }

  /** One operation keeps exactly the elements it does not take, and brings in an added one whose key is absent. */
  lemma NextMembers(s: SetState, op: Op, x: Element)
    ensures x in Next(s, op).elements <==>
      (x in s.elements && !Takes(s.elements, op, x)) || (op == Op.Add(x) && !Has(s.elements, x.key))
  {
  }

  /** An element is in the set, identity included, exactly when some addition has brought it in while its key was
      absent, and since then there was no removal of its key, no poll that took it and no clear. */
  lemma {:induction false} MembersOfRun(ops: seq<Op>, x: Element)
    ensures x in Run(ops).elements <==> exists i :: 0 <= i < |ops| && AddedFor(ops, i, x)
  {
    if ops != [] {
      var n := |ops| - 1;
      var before := ops[..n];
      MembersOfRun(before, x);
      NextMembers(Run(before), ops[n], x);
      forall i | 0 <= i < n
        ensures AddedFor(ops, i, x) <==> AddedFor(before, i, x) && !Takes(Run(before).elements, ops[n], x)
      {
        AddedForSnoc(ops, i, x);
      }
      assert AddedFor(ops, n, x) <==> ops[n] == Op.Add(x) && !Has(Run(before).elements, x.key);
    }
  }

  lemma AddedForSnoc(ops: seq<Op>, i: nat, x: Element)
    requires i < |ops| - 1
    ensures var n := |ops| - 1;
      AddedFor(ops, i, x) <==> AddedFor(ops[..n], i, x) && !Takes(Run(ops[..n]).elements, ops[n], x)
  {
    var n := |ops| - 1;
    assert forall j :: 0 <= j <= n ==> ops[..n][..j] == ops[..j];
  }

  // ----- searching

  /** The number of nodes on the way from the root to the key, or to where it would be. */
  function PathLength(t: Tree, key: real): (n: nat)
    ensures n <= Height(t)
  {
    if t.Leaf? then 0
    else if key < t.elem.key then 1 + PathLength(t.left, key)
    else if t.elem.key < key then 1 + PathLength(t.right, key)
    else 1
  }

  method Find(element: Element, tree: TNode?, ghost t: Tree) returns (r: TNode?, ghost compares: nat)
    requires tree == Root(t) && Heap(t) && Ordered(t)
    ensures r == null ==> !Has(Elems(t), element.key)
    ensures r != null ==> r.element in Elems(t) && r.element.key == element.key
    ensures compares == PathLength(t, element.key)
    decreases t
  {
    compares := 0;
    if tree == null {
      return null, 0;
    }
    var result := Cmp(element, tree.element);
    if result < 0 {
      r, compares := Find(element, tree.link[0], t.left);
    } else if result > 0 {
      r, compares := Find(element, tree.link[1], t.right);
    } else {
      r := tree;
    }
    compares := compares + 1;
  }

  method FindMin(tree: TNode?, ghost t: Tree) returns (r: TNode?)
    requires tree == Root(t) && Heap(t)
    ensures t.Leaf? ==> r == null
    ensures t.Node? ==> r != null && r.element == Leftmost(t)
  {
    r := tree;
    if r != null {
      ghost var c := t;
      while r.link[0] != null
        invariant r != null && c.Node? && r == c.node && Heap(c) && Leftmost(c) == Leftmost(t)
        decreases c
      {
        r := r.link[0];
        c := c.left;
      }
    }
  }

  method FindMax(tree: TNode?, ghost t: Tree) returns (r: TNode?)
    requires tree == Root(t) && Heap(t)
    ensures t.Leaf? ==> r == null
    ensures t.Node? ==> r != null && r.element == Rightmost(t)
  {
    r := tree;
    if r != null {
      ghost var c := t;
      while r.link[1] != null
        invariant r != null && c.Node? && r == c.node && Heap(c) && Rightmost(c) == Rightmost(t)
        decreases c
      {
        r := r.link[1];
        c := c.right;
      }
    }
  }

  method Min(n1: TNode?, n2: TNode?) returns (r: TNode?)
    ensures n1 == null ==> r == n2
    ensures n2 == null ==> r == n1
    ensures n1 != null && n2 != null ==> r == (if n2.element.key < n1.element.key then n2 else n1)
  {
    if n1 == null { return n2; }
    if n2 == null { return n1; }
    r := n1;
    if Cmp(n1.element, n2.element) > 0 { r := n2; }
  }

  method Max(n1: TNode?, n2: TNode?) returns (r: TNode?)
    ensures n1 == null ==> r == n2
    ensures n2 == null ==> r == n1
    ensures n1 != null && n2 != null ==> r == (if n1.element.key < n2.element.key then n2 else n1)
  {
    if n1 == null { return n2; }
    if n2 == null { return n1; }
    r := n1;
    if Cmp(n1.element, n2.element) < 0 { r := n2; }
  }

  // ----- the in-order dump

  function Somes(s: seq<Element>): (r: seq<Option<Element>>)
    ensures |r| == |s| && forall i :: 0 <= i < |s| ==> r[i] == Some(s[i])
  {
    seq(|s|, i requires 0 <= i < |s| => Some(s[i]))
  }

  class PopStruct {
    var a: array<Option<Element>>
    var len: nat

    constructor (a: array<Option<Element>>)
      ensures this.a == a && len == 0
    {
      this.a := a;
      len := 0;
    }
  }

  /** A buffer `before`, filled up to `from`, has become `after`, filled up to `to`, by appending `new`. */
  ghost predicate Appended(before: seq<Option<Element>>, from: nat, after: seq<Option<Element>>, to: nat, added: seq<Element>) {
    && to == from + |added| <= |before| == |after|
    && after[..to] == before[..from] + Somes(added) && after[to..] == before[to..]
  }

  lemma AppendedThrice(s: seq<Option<Element>>, i: nat, s1: seq<Option<Element>>, i1: nat, s2: seq<Option<Element>>, i2: nat,
                       s3: seq<Option<Element>>, i3: nat, a: seq<Element>, x: Element, b: seq<Element>)
    requires Appended(s, i, s1, i1, a) && Appended(s1, i1, s2, i2, [x]) && Appended(s2, i2, s3, i3, b)
    ensures Appended(s, i, s3, i3, a + [x] + b)
  {
    AppendedTwice(s, i, s1, i1, s2, i2, a, [x]);
    AppendedTwice(s, i, s2, i2, s3, i3, a + [x], b);
  }

  lemma AppendedTwice(s: seq<Option<Element>>, i: nat, s1: seq<Option<Element>>, i1: nat, s2: seq<Option<Element>>, i2: nat,
                      a: seq<Element>, b: seq<Element>)
    requires Appended(s, i, s1, i1, a) && Appended(s1, i1, s2, i2, b)
    ensures Appended(s, i, s2, i2, a + b)
  {
    assert Somes(a + b) == Somes(a) + Somes(b);
    assert s2[i2..] == s1[i1..][i2 - i1..] == s[i1..][i2 - i1..] == s[i2..];
  }

  /** Appends the in-order walk of the tree to the first `len` cells and leaves the cells after it alone. */
  method Populate(ps: PopStruct, node: TNode?, ghost t: Tree)
    requires node == Root(t) && Heap(t) && ps.len + Count(t) <= ps.a.Length
    modifies ps`len, ps.a
    ensures Appended(old(ps.a[..]), old(ps.len), ps.a[..], ps.len, Inorder(t)) && |Inorder(t)| == Count(t)
    decreases t
  {
    InorderElems(t);
    if node == null {
      assert ps.a[..][..ps.len] == ps.a[..][..ps.len] + Somes([]);
    } else {
      NodesAllocated(t);
      assert forall x <- Nodes(t) :: x as object != ps && x as object != ps.a;
      ghost var s, i := ps.a[..], ps.len;
      Populate(ps, node.link[0], t.left);
      ghost var s1, i1 := ps.a[..], ps.len;
      PutNext(ps, node.element);
      ghost var s2, i2 := ps.a[..], ps.len;
      Populate(ps, node.link[1], t.right);
      AppendedThrice(s, i, s1, i1, s2, i2, ps.a[..], ps.len, Inorder(t.left), t.elem, Inorder(t.right));
    }
  }

  method PutNext(ps: PopStruct, e: Element)
    requires ps.len < ps.a.Length
    modifies ps`len, ps.a
    ensures Appended(old(ps.a[..]), old(ps.len), ps.a[..], ps.len, [e])
  {
    ps.a[ps.len] := Some(e);
    ps.len := ps.len + 1;
  }

  /** Walks the whole tree into the front of an array. */
  method Fill(a: array<Option<Element>>, root: TNode?, ghost t: Tree)
    requires root == Root(t) && Heap(t) && Count(t) <= a.Length
    modifies a
    ensures a[..] == Somes(Inorder(t)) + old(a[Count(t)..])
  {
    NodesAllocated(t);
    var ps := new PopStruct(a);
    Populate(ps, root, t);
    assert a[..] == a[..][..ps.len] + a[..][ps.len..];
  }

  // ----- the set object

  /** What removing one element from a tree does to the abstract set. */
  lemma OneLessIsWithout(t: Tree, u: Tree, key: real, gone: Element, freed: TNode)
    requires Ordered(t) && OneLess(t, u, key, gone, freed)
    ensures Has(Elems(t), key) && Elems(u) == Without(Elems(t), key)
    ensures Leftmost(t).key == key ==> Elems(u) == set x | x in Elems(t) && !Least(x, Elems(t))
    ensures Rightmost(t).key == key ==> Elems(u) == set x | x in Elems(t) && !Greatest(x, Elems(t))
  {
    LeftmostIsLeast(t);
    RightmostIsGreatest(t);
    forall x | x in Elems(t)
      ensures x.key == key ==> x == gone
      ensures Least(x, Elems(t)) ==> x == Leftmost(t)
      ensures Greatest(x, Elems(t)) ==> x == Rightmost(t)
    {
      if x.key == key {
        UniqueKeys(t, x, gone);
      }
      if Least(x, Elems(t)) {
        UniqueKeys(t, x, Leftmost(t));
      }
      if Greatest(x, Elems(t)) {
        UniqueKeys(t, x, Rightmost(t));
      }
    }
  }

  lemma PolledFirst(t: Tree, u: Tree, gone: Element, freed: TNode)
    requires t.Node? && Ordered(t) && Ordered(u) && OneLess(t, u, Leftmost(t).key, gone, freed)
    ensures Elems(u) == set x | x in Elems(t) && !Least(x, Elems(t))
    ensures Inorder(t) == [Leftmost(t)] + Inorder(u)
  {
    OneLessIsWithout(t, u, Leftmost(t).key, gone, freed);
    LeftmostIsLeast(t);
    UniqueKeys(t, gone, Leftmost(t));
    FirstRemoved(t, u);
  }

  lemma PolledLast(t: Tree, u: Tree, gone: Element, freed: TNode)
    requires t.Node? && Ordered(t) && Ordered(u) && OneLess(t, u, Rightmost(t).key, gone, freed)
    ensures Elems(u) == set x | x in Elems(t) && !Greatest(x, Elems(t))
    ensures Inorder(t) == Inorder(u) + [Rightmost(t)]
  {
    OneLessIsWithout(t, u, Rightmost(t).key, gone, freed);
    RightmostIsGreatest(t);
    UniqueKeys(t, gone, Rightmost(t));
    LastRemoved(t, u);
  }

  class TreeSet {
    var size: int
    var root: TNode?
    ghost var tree: Tree
    ghost var polls: nat

    /** An AVL search tree, and a size field that counts the elements and the polls that went uncounted. */
    ghost predicate Valid()
      reads this, Nodes(tree)
    {
      root == Root(tree) && Heap(tree) && Avl(tree) && size == Count(tree) + polls
    }

    ghost function State(): SetState
      reads this
    {
      SetState(Elems(tree), size)
    }

    constructor ()
      ensures Valid() && State() == Run([]) && polls == 0 && tree == Leaf
    {
      size := 0;
      root := null;
      tree := Leaf;
      polls := 0;
    }

    method Add(element: Element) returns (added: bool)
      requires Valid()
      modifies this, Nodes(tree)
      ensures Valid() && fresh(Nodes(tree) - old(Nodes(tree)))
      ensures State() == Next(old(State()), Op.Add(element)) && polls == old(polls)
      ensures added == !old(Has(Elems(tree), element.key))
      ensures Elems(tree) == old(Elems(tree)) + if added then {element} else {}
      ensures size == old(size) + if added then 1 else 0
    {
      NodesAllocated(tree);
      var node, _ := Find(element, root, tree);
      if node != null {
        assert Has(Elems(tree), element.key);
        return false;
      }
      ghost var u;
      var r, done;
      r, done, u := Insert(root, element, tree);
      root := r;
      tree := u;
      size := size + 1;
      added := true;
    }

    method Remove(element: Element) returns (removed: bool, released: Option<Element>)
      requires Valid()
      modifies this, Nodes(tree)
      ensures Valid() && Nodes(tree) <= old(Nodes(tree))
      ensures State() == Next(old(State()), Op.Remove(element)) && polls == old(polls)
      ensures removed == old(Has(Elems(tree), element.key))
      ensures forall x :: x in Elems(tree) <==> x in old(Elems(tree)) && x.key != element.key
      ensures size == old(size) - if removed then 1 else 0
      ensures released == if removed then Some(Released(old(tree), element.key)) else None
    {
      NodesAllocated(tree);
      var node, _ := Find(element, root, tree);
      if node == null {
        return false, None;
      }
      assert Has(Elems(tree), element.key);
      var rel := RemovePresent(element);
      removed, released := true, Some(rel);
    }

    method RemovePresent(element: Element) returns (released: Element)
      requires Valid() && Has(Elems(tree), element.key)
      modifies this, Nodes(tree)
      ensures Valid() && Nodes(tree) <= old(Nodes(tree)) && polls == old(polls)
      ensures Elems(tree) == Without(old(Elems(tree)), element.key) && size == old(size) - 1
      ensures released == Released(old(tree), element.key)
    {
      ghost var u, gone, freed;
      var r, done;
      r, done, released, u, gone, freed := TreeNodes.Remove(root, element, tree);
      OneLessIsWithout(tree, u, element.key, gone, freed);
      root := r;
      tree := u;
      size := size - 1;
    }

    /** The removal that the two polls share; it leaves the size field alone. */
    method Take(element: Element) returns (ghost gone: Element, ghost freed: TNode)
      requires Valid() && Has(Elems(tree), element.key)
      modifies this, Nodes(tree)
      ensures Valid() && Nodes(tree) <= old(Nodes(tree)) && size == old(size) && polls == old(polls) + 1
      ensures OneLess(old(tree), tree, element.key, gone, freed)
    {
      ghost var u;
      var r, done, rel;
      r, done, rel, u, gone, freed := TreeNodes.Remove(root, element, tree);
      root := r;
      tree := u;
      polls := polls + 1;
    }

    method PollFirst() returns (element: Option<Element>)
      requires Valid()
      modifies this, Nodes(tree)
      ensures Valid() && Nodes(tree) <= old(Nodes(tree))
      ensures State() == Next(old(State()), Op.PollFirst)
      ensures element == None <==> old(Elems(tree)) == {}
      ensures element == None ==> tree == old(tree) && polls == old(polls)
      ensures size == old(size)
      ensures element.Some? ==>
        && polls == old(polls) + 1
        && old(Inorder(tree)) == [element.value] + Inorder(tree)
    {
      NodesAllocated(tree);
      var node := FindMin(root, tree);
      if node == null {
        return None;
      }
      LeftmostIsLeast(tree);
      assert Has(Elems(tree), node.element.key);
      element := Some(node.element);
      ghost var gone, freed := Take(node.element);
      PolledFirst(old(tree), tree, gone, freed);
    }

    method PollLast() returns (element: Option<Element>)
      requires Valid()
      modifies this, Nodes(tree)
      ensures Valid() && Nodes(tree) <= old(Nodes(tree))
      ensures State() == Next(old(State()), Op.PollLast)
      ensures element == None <==> old(Elems(tree)) == {}
      ensures element == None ==> tree == old(tree) && polls == old(polls)
      ensures size == old(size)
      ensures element.Some? ==>
        && polls == old(polls) + 1
        && old(Inorder(tree)) == Inorder(tree) + [element.value]
    {
      NodesAllocated(tree);
      var node := FindMax(root, tree);
      if node == null {
        return None;
      }
      RightmostIsGreatest(tree);
      assert Has(Elems(tree), node.element.key);
      element := Some(node.element);
      ghost var gone, freed := Take(node.element);
      PolledLast(old(tree), tree, gone, freed);
    }

    method Clear()
      requires Valid()
      modifies this
      ensures Valid() && State() == Next(old(State()), Op.Clear) && polls == 0
      ensures Elems(tree) == {} && tree == Leaf && size == 0
    {
      root := null;
      size := 0;
      tree := Leaf;
      polls := 0;
    }

    /** Membership, with a number of comparisons logarithmic in the number of elements. */
    method Contains(element: Element) returns (r: bool, ghost compares: nat)
      requires Valid()
      ensures r == Has(Elems(tree), element.key)
      ensures compares == PathLength(tree, element.key) && Pow2(compares / 2) <= Count(tree) + 1
    {
      NodesAllocated(tree);
      var node;
      node, compares := Find(element, root, tree);
      r := node != null;
      HeightLogarithmic(tree, compares);
    }

    /** The emptiness test reads the size field: it is right unless polls have emptied the set. */
    method IsEmpty() returns (r: bool)
      requires Valid()
      ensures r == (Elems(tree) == {}) <==> polls == 0 || Elems(tree) != {}
    {
      r := size == 0;
      CountIsCardinality(tree);
    }

    method First() returns (r: Option<Element>)
      requires Valid()
      ensures r == None <==> Elems(tree) == {}
      ensures r.Some? ==> Least(r.value, Elems(tree))
    {
      NodesAllocated(tree);
      var current := FindMin(root, tree);
      if current == null {
        return None;
      }
      LeftmostIsLeast(tree);
      r := Some(current.element);
    }

    method Last() returns (r: Option<Element>)
      requires Valid()
      ensures r == None <==> Elems(tree) == {}
      ensures r.Some? ==> Greatest(r.value, Elems(tree))
    {
      NodesAllocated(tree);
      var current := FindMax(root, tree);
      if current == null {
        return None;
      }
      RightmostIsGreatest(tree);
      r := Some(current.element);
    }

    method Ceiling(element: Element) returns (r: Option<Element>)
      requires Valid()
      ensures r == None <==> forall x <- Elems(tree) :: x.key < element.key
      ensures r.Some? ==> Least(r.value, set x | x in Elems(tree) && element.key <= x.key)
    {
      NodesAllocated(tree);
      var t := root;
      var current: TNode? := null;
      ghost var c := tree;
      while t != null
        invariant t == Root(c) && Heap(c) && Ordered(c) && Elems(c) <= Elems(tree) && Nodes(c) <= Nodes(tree)
        invariant current != null ==> current.element in Elems(tree) && element.key < current.element.key
        invariant forall x <- Elems(tree) :: element.key <= x.key ==>
          x in Elems(c) || (current != null && current.element.key <= x.key)
        invariant current != null ==> forall x <- Elems(c) :: x.key < current.element.key
        decreases c
      {
        var cmp := Cmp(element, t.element);
        if cmp == 0 {
          current := t;
          break;
        } else if cmp < 0 {
          current := Min(t, current);
          t := t.link[0];
          c := c.left;
        } else {
          t := t.link[1];
          c := c.right;
        }
      }
      if current == null {
        return None;
      }
      r := Some(current.element);
    }

    method Floor(element: Element) returns (r: Option<Element>)
      requires Valid()
      ensures r == None <==> forall x <- Elems(tree) :: element.key < x.key
      ensures r.Some? ==> Greatest(r.value, set x | x in Elems(tree) && x.key <= element.key)
    {
      NodesAllocated(tree);
      var t := root;
      var current: TNode? := null;
      ghost var c := tree;
      while t != null
        invariant t == Root(c) && Heap(c) && Ordered(c) && Elems(c) <= Elems(tree) && Nodes(c) <= Nodes(tree)
        invariant current != null ==> current.element in Elems(tree) && current.element.key < element.key
        invariant forall x <- Elems(tree) :: x.key <= element.key ==>
          x in Elems(c) || (current != null && x.key <= current.element.key)
        invariant current != null ==> forall x <- Elems(c) :: current.element.key < x.key
        decreases c
      {
        var cmp := Cmp(element, t.element);
        if cmp == 0 {
          current := t;
          break;
        } else if cmp > 0 {
          current := Max(t, current);
          t := t.link[1];
          c := c.right;
        } else {
          t := t.link[0];
          c := c.left;
        }
      }
      if current == null {
        return None;
      }
      r := Some(current.element);
    }

    method Higher(element: Element) returns (r: Option<Element>)
      requires Valid()
      ensures r == None <==> forall x <- Elems(tree) :: x.key <= element.key
      ensures r.Some? ==> Least(r.value, set x | x in Elems(tree) && element.key < x.key)
    {
      NodesAllocated(tree);
      var t := root;
      var current: TNode? := null;
      ghost var c := tree;
      while t != null
        invariant t == Root(c) && Heap(c) && Ordered(c) && Elems(c) <= Elems(tree) && Nodes(c) <= Nodes(tree)
        invariant current != null ==> current.element in Elems(tree) && element.key < current.element.key
        invariant forall x <- Elems(tree) :: element.key < x.key ==>
          x in Elems(c) || (current != null && current.element.key <= x.key)
        invariant current != null ==> forall x <- Elems(c) :: x.key < current.element.key
        decreases c
      {
        var cmp := Cmp(element, t.element);
        if cmp < 0 {
          current := Min(t, current);
          t := t.link[0];
          c := c.left;
        } else {
          t := t.link[1];
          c := c.right;
        }
      }
      if current == null {
        return None;
      }
      r := Some(current.element);
    }

    method Lower(element: Element) returns (r: Option<Element>)
      requires Valid()
      ensures r == None <==> forall x <- Elems(tree) :: element.key <= x.key
      ensures r.Some? ==> Greatest(r.value, set x | x in Elems(tree) && x.key < element.key)
    {
      NodesAllocated(tree);
      var t := root;
      var current: TNode? := null;
      ghost var c := tree;
      while t != null
        invariant t == Root(c) && Heap(c) && Ordered(c) && Elems(c) <= Elems(tree) && Nodes(c) <= Nodes(tree)
        invariant current != null ==> current.element in Elems(tree) && current.element.key < element.key
        invariant forall x <- Elems(tree) :: x.key < element.key ==>
          x in Elems(c) || (current != null && x.key <= current.element.key)
        invariant current != null ==> forall x <- Elems(c) :: current.element.key < x.key
        decreases c
      {
        var cmp := Cmp(element, t.element);
        if cmp > 0 {
          current := Max(t, current);
          t := t.link[1];
          c := c.right;
        } else {
          t := t.link[0];
          c := c.left;
        }
      }
      if current == null {
        return None;
      }
      r := Some(current.element);
    }

    /** The array of the in-order walk. It has `size` cells, of which the walk fills the first ones: all of
        them exactly when no poll went uncounted. `None` stands for a cell that is never written. */
    method GenArray() returns (tmp: array?<Option<Element>>)
      requires Valid()
      ensures tmp == null <==> Elems(tree) == {} && polls == 0
      ensures tmp != null ==>
        && fresh(tmp) && tmp.Length == size
        && tmp[..] == Somes(Inorder(tree)) + seq(polls, _ => None)
    {
      CountIsCardinality(tree);
      tmp := null;
      if size > 0 {
        tmp := new Option<Element>[size](_ => None);
        Fill(tmp, root, tree);
      }
    }
  }
  // ----- draining, and what the polls and removals do not do

  /** Polling until nothing is left yields the in-order walk. */
  method Drain(ts: TreeSet) returns (s: seq<Element>)
    requires ts.Valid()
    modifies ts, Nodes(ts.tree)
    ensures ts.Valid() && Elems(ts.tree) == {}
    ensures s == old(Inorder(ts.tree)) && ts.polls == old(ts.polls) + |s|
  {
    hide Next, Inorder, Elems, Nodes;
    s := [];
    NodesAllocated(ts.tree);
    ghost var walk := Inorder(ts.tree);
    while true
      invariant ts.Valid() && Nodes(ts.tree) <= old(Nodes(ts.tree))
      invariant walk == s + Inorder(ts.tree) && ts.polls == old(ts.polls) + |s|
      decreases |Inorder(ts.tree)|
    {
      var e := ts.PollFirst();
      if e == None {
        break;
      }
      s := s + [e.value];
    }
    EmptyWalk(ts.tree);
  }

  lemma EmptyWalk(t: Tree)
    requires Elems(t) == {}
    ensures Inorder(t) == []
  {
    assert t.Leaf?;
  }

  /** One addition and one poll leave an empty set with size 1. */
  lemma SizeCanDrift(e: Element)
    ensures Run([Op.Add(e), PollFirst]) == SetState({}, 1)
  {
    var ops := [Op.Add(e), PollFirst];
    assert ops[..1] == [Op.Add(e)] && [Op.Add(e)][..0] == [];
    assert Run([]) == SetState({}, 0);
    assert Run([Op.Add(e)]) == SetState({e}, 1);
    assert Least(e, {e});
  }

  /** In a set of three elements the middle one is at the root, with two subtrees. */
  lemma MiddleOfThree(t: Tree)
    requires Avl(t) && Count(t) == 3
    ensures t.left.Node? && t.right.Node? && Elems(t) == {t.left.elem, t.elem, t.right.elem}
    ensures t.left.elem.key < t.elem.key < t.right.elem.key
    ensures Released(t, t.elem.key) == t.left.elem
  {
    CountAtLeastFib(t.left);
    CountAtLeastFib(t.right);
  }

  method AddNew(ts: TreeSet, e: Element)
    requires ts.Valid() && !Has(Elems(ts.tree), e.key)
    modifies ts, Nodes(ts.tree)
    ensures ts.Valid() && ts.polls == old(ts.polls) && ts.size == old(ts.size) + 1
    ensures Elems(ts.tree) == old(Elems(ts.tree)) + {e}
    ensures forall x <- Nodes(ts.tree) :: x in old(Nodes(ts.tree)) || fresh(x)
  {
    var _ := ts.Add(e);
  }

  method AddThree(a: Element, b: Element, c: Element) returns (ts: TreeSet)
    requires a.key < b.key < c.key
    ensures fresh(ts) && fresh(Nodes(ts.tree)) && ts.Valid() && ts.polls == 0 && ts.size == 3
    ensures Elems(ts.tree) == {a, b, c}
  {
    ts := new TreeSet();
    AddNew(ts, b);
    assert Elems(ts.tree) == {b} && fresh(Nodes(ts.tree));
    AddNew(ts, c);
    assert Elems(ts.tree) == {b, c} && fresh(Nodes(ts.tree));
    AddNew(ts, a);
    assert Elems(ts.tree) == {a, b, c};
  }

  /** Removing the middle one of three elements applies the caller's function to the lowest one, which stays. */
  method RemoveMiddle(a: Element, b: Element, c: Element) returns (ts: TreeSet, released: Option<Element>)
    requires a.key < b.key < c.key
    ensures ts.Valid() && Elems(ts.tree) == {a, c} && released == Some(a)
  {
    ts := AddThree(a, b, c);
    MiddleIs(ts.tree, a, b, c);
    var removed;
    removed, released := ts.Remove(b);
    assert Without({a, b, c}, b.key) == {a, c};
  }

  lemma MiddleIs(t: Tree, a: Element, b: Element, c: Element)
    requires Avl(t) && Elems(t) == {a, b, c} && Count(t) == 3 && a.key < b.key < c.key
    ensures t.Node? && Released(t, b.key) == a && Has(Elems(t), b.key)
  {
    MiddleOfThree(t);
    var l, m, r := t.left.elem, t.elem, t.right.elem;
    assert {l, m, r} == {a, b, c};
    assert b in {l, m, r} && a in {l, m, r} && c in {l, m, r};
    assert l in {a, b, c} && m in {a, b, c} && r in {a, b, c};
  }
}
