/** Consequences of AVL balance and search order: how high a tree can be, what an in-order walk meets,
    and the set whose runs the operations of extraCredit/treeset.c follow. */
module TreeOrder {
  import opened AvlTree
  import opened TreeNodes

  // ----- height

  function Fib(n: nat): nat {
    if n < 2 then n else Fib(n - 1) + Fib(n - 2)
  }

  function Pow2(n: nat): nat {
    if n == 0 then 1 else 2 * Pow2(n - 1)
  }

  lemma {:induction false} FibGrows(n: nat)
    ensures Fib(n) <= Fib(n + 1)
  {
    if n >= 2 {
      FibGrows(n - 1);
      FibGrows(n - 2);
    }
  }

  /** An AVL tree of height h has at least Fib(h + 2) - 1 nodes. */
  lemma {:induction false} CountAtLeastFib(t: Tree)
    requires Balanced(t)
    ensures Count(t) >= Fib(Height(t) + 2) - 1
  {
    if t.Node? {
      CountAtLeastFib(t.left);
      CountAtLeastFib(t.right);
      var l, r := Height(t.left), Height(t.right);
      FibGrows(Height(t));
      assert Fib(Height(t) + 2) == Fib(Height(t) + 1) + Fib(Height(t));
      assert l + 2 == r + 1 || l == r || l + 1 == r + 2;
    }
  }

  lemma {:induction false} FibAtLeastPow2(h: nat)
    ensures Fib(h + 2) >= Pow2(h / 2)
  {
    if h >= 2 {
      FibAtLeastPow2(h - 2);
      FibGrows(h);
      assert Fib(h + 2) == Fib(h + 1) + Fib(h) && h / 2 == (h - 2) / 2 + 1;
    }
  }

  /** So the height is at most twice the base-two logarithm of the node count, and a bit. */
  lemma HeightLogarithmic(t: Tree, steps: nat)
    requires Balanced(t) && steps <= Height(t)
    ensures Pow2(steps / 2) <= Count(t) + 1
  {
    CountAtLeastFib(t);
    FibAtLeastPow2(Height(t));
    Pow2Grows(steps / 2, Height(t) / 2);
  }

  lemma {:induction false} Pow2Grows(a: nat, b: nat)
    requires a <= b
    ensures Pow2(a) <= Pow2(b)
  {
    if a < b {
      Pow2Grows(a, b - 1);
    }
  }

  // ----- in-order walk

  function Inorder(t: Tree): seq<Element> {
    if t.Leaf? then [] else Inorder(t.left) + [t.elem] + Inorder(t.right)
  }

  ghost predicate Increasing(s: seq<Element>) {
    forall i, j :: 0 <= i < j < |s| ==> s[i].key < s[j].key
  }

  ghost function SetOf(s: seq<Element>): set<Element> {
    set x | x in s
  }

  lemma {:induction false} InorderElems(t: Tree)
    ensures SetOf(Inorder(t)) == Elems(t) && |Inorder(t)| == Count(t)
  {
    if t.Node? {
      InorderElems(t.left);
      InorderElems(t.right);
    }
  }

  /** The walk of a search tree meets its elements in strictly increasing order. */
  lemma {:induction false} InorderIncreasing(t: Tree)
    requires Ordered(t)
    ensures Increasing(Inorder(t))
  {
    if t.Node? {
      var l, r := Inorder(t.left), Inorder(t.right);
      InorderIncreasing(t.left);
      InorderIncreasing(t.right);
      InorderElems(t.left);
      InorderElems(t.right);
      IncreasingJoin(l, t.elem, r);
    }
  }

  lemma IncreasingJoin(l: seq<Element>, x: Element, r: seq<Element>)
    requires Increasing(l) && Increasing(r)
    requires (forall y <- SetOf(l) :: y.key < x.key) && (forall y <- SetOf(r) :: x.key < y.key)
    ensures Increasing(l + [x] + r)
  {
    assert forall i :: 0 <= i < |l| ==> l[i] in SetOf(l);
    assert forall i :: 0 <= i < |r| ==> r[i] in SetOf(r);
  }

  /** There is only one increasing sequence of a given set. */
  lemma {:induction false} IncreasingUnique(a: seq<Element>, b: seq<Element>)
    requires Increasing(a) && Increasing(b) && SetOf(a) == SetOf(b)
    ensures a == b
  {
    if a == [] {
      if b != [] { NonemptySet(b); }
    } else if b == [] {
      NonemptySet(a);
    } else {
      var a', b' := a[1..], b[1..];
      FirstIsLeast(a);
      FirstIsLeast(b);
      assert a[0] in SetOf(b) && b[0] in SetOf(a);
      assert a[0] == b[0];
      IncreasingUnique(a', b');
    }
  }

  lemma NonemptySet(a: seq<Element>)
    requires a != []
    ensures SetOf(a) != {}
  {
    assert a[0] in SetOf(a);
  }

  lemma FirstIsLeast(a: seq<Element>)
    requires Increasing(a) && a != []
    ensures forall x <- SetOf(a) :: x == a[0] || a[0].key < x.key
    ensures SetOf(a[1..]) == SetOf(a) - {a[0]} && Increasing(a[1..])
  {
    forall x | x in SetOf(a) && x != a[0]
      ensures a[0].key < x.key && x in SetOf(a[1..])
    {
      var i :| 0 <= i < |a| && a[i] == x;
      assert a[1..][i - 1] == x;
    }
    assert forall i :: 0 <= i < |a[1..]| ==> a[1..][i] == a[i + 1];
  }

  lemma LeastFirst(a: seq<Element>, x: Element, s: seq<Element>)
    requires Increasing(a) && Increasing(s) && SetOf(a) == {x} + SetOf(s)
    requires forall y <- SetOf(s) :: x.key < y.key
    ensures a == [x] + s
  {
    assert forall i :: 0 <= i < |s| ==> s[i] in SetOf(s);
    assert SetOf([x] + s) == {x} + SetOf(s);
    IncreasingUnique(a, [x] + s);
  }

  lemma GreatestLast(a: seq<Element>, x: Element, s: seq<Element>)
    requires Increasing(a) && Increasing(s) && SetOf(a) == SetOf(s) + {x}
    requires forall y <- SetOf(s) :: y.key < x.key
    ensures a == s + [x]
  {
    assert forall i :: 0 <= i < |s| ==> s[i] in SetOf(s);
    assert SetOf(s + [x]) == SetOf(s) + {x};
    IncreasingUnique(a, s + [x]);
  }

  /** Taking the least element out of the set takes the first one off the walk. */
  lemma FirstRemoved(t: Tree, u: Tree)
    requires t.Node? && Ordered(t) && Ordered(u) && Elems(u) == Elems(t) - {Leftmost(t)}
    ensures Inorder(t) == [Leftmost(t)] + Inorder(u)
  {
    InorderElems(t);
    InorderIncreasing(t);
    InorderElems(u);
    InorderIncreasing(u);
    LeftmostIsLeast(t);
    LeastFirst(Inorder(t), Leftmost(t), Inorder(u));
  }

  lemma LastRemoved(t: Tree, u: Tree)
    requires t.Node? && Ordered(t) && Ordered(u) && Elems(u) == Elems(t) - {Rightmost(t)}
    ensures Inorder(t) == Inorder(u) + [Rightmost(t)]
  {
    InorderElems(t);
    InorderIncreasing(t);
    InorderElems(u);
    InorderIncreasing(u);
    RightmostIsGreatest(t);
    GreatestLast(Inorder(t), Rightmost(t), Inorder(u));
  }

  lemma {:induction false} CountIsCardinality(t: Tree)
    requires Ordered(t)
    ensures Count(t) == |Elems(t)|
  {
    if t.Node? {
      CountIsCardinality(t.left);
      CountIsCardinality(t.right);
      assert Elems(t.left) !! Elems(t.right) && t.elem !in Elems(t.left) && t.elem !in Elems(t.right);
      assert |Elems(t.left) + {t.elem}| == |Elems(t.left)| + 1;
      assert |Elems(t)| == |Elems(t.left) + {t.elem}| + |Elems(t.right)|;
    }
  }
}
