/** The AVL tree of extraCredit/treeset.c: nodes, and the mathematical trees they stand for.
    A ghost `Tree` records, for every position, the heap node, the element and the balance stored there. */
module AvlTree {

  /** A set element: `key` is what the comparison function looks at, `id` is what it does not. */
  datatype Element = Element(key: real, id: int)

  /** The comparison function of the set, a total order on keys. */
  function Cmp(a: Element, b: Element): int {
    if a.key < b.key then -1 else if b.key < a.key then 1 else 0
  }

  /** 0 is left, 1 is right. */
  type Dir = d: int | 0 <= d <= 1

  type Links = s: seq<TNode?> | |s| == 2 witness [null, null]

  class TNode {
    var link: Links
    var element: Element
    var balance: int

    constructor (element: Element)
      ensures this.element == element && link == [null, null] && balance == 0
    {
      this.element := element;
      link := [null, null];
      balance := 0;
    }
  }

  datatype Tree = Leaf | Node(left: Tree, node: TNode, elem: Element, bal: int, right: Tree) {
    function Kid(d: Dir): Tree
      requires Node?
    {
      if d == 0 then left else right
    }

    function WithKid(d: Dir, t: Tree): (r: Tree)
      requires Node?
      ensures r.Node? && r.Kid(d) == t && r.Kid(1 - d) == Kid(1 - d)
    {
      if d == 0 then this.(left := t) else this.(right := t)
    }
  }

  /** The tree with `near` on side `d` and `far` on the other side. */
  function Join(d: Dir, near: Tree, node: TNode, elem: Element, bal: int, far: Tree): Tree {
    if d == 0 then Node(near, node, elem, bal, far) else Node(far, node, elem, bal, near)
  }

  function Root(t: Tree): TNode? {
    if t.Leaf? then null else t.node
  }

  ghost function Nodes(t: Tree): set<TNode> {
    if t.Leaf? then {} else Nodes(t.left) + {t.node} + Nodes(t.right)
  }

  ghost function Elems(t: Tree): set<Element> {
    if t.Leaf? then {} else Elems(t.left) + {t.elem} + Elems(t.right)
  }

  function Count(t: Tree): nat {
    if t.Leaf? then 0 else Count(t.left) + 1 + Count(t.right)
  }

  function Height(t: Tree): nat {
    if t.Leaf? then 0 else 1 + if Height(t.left) < Height(t.right) then Height(t.right) else Height(t.left)
  }

  /** No heap node occurs twice. */
  ghost predicate Distinct(t: Tree) {
    t.Node? ==>
      && t.node !in Nodes(t.left) && t.node !in Nodes(t.right) && Nodes(t.left) !! Nodes(t.right)
      && Distinct(t.left) && Distinct(t.right)
  }

  /** The root node's fields are as `t` says. */
  ghost predicate Stored(t: Tree)
    requires t.Node?
    reads t.node
  {
    t.node.link == [Root(t.left), Root(t.right)] && t.node.element == t.elem && t.node.balance == t.bal
  }

  /** The heap below Root(t) is exactly `t`. */
  ghost predicate Heap(t: Tree)
    reads Nodes(t)
  {
    t.Node? ==> Stored(t) && Heap(t.left) && Heap(t.right)
  }

  lemma {:induction false} NodesAllocated(t: Tree)
    ensures forall x <- Nodes(t) :: allocated(x)
  {
    if t.Node? {
      NodesAllocated(t.left);
      NodesAllocated(t.right);
    }
  }

  /** Search-tree order. */
  ghost predicate Ordered(t: Tree) {
    t.Node? ==>
      && (forall x <- Elems(t.left) :: x.key < t.elem.key)
      && (forall x <- Elems(t.right) :: t.elem.key < x.key)
      && Ordered(t.left) && Ordered(t.right)
  }

  /** Every stored balance is right height minus left height, and is -1, 0 or 1. */
  ghost predicate Balanced(t: Tree) {
    t.Node? ==>
      && t.bal == Height(t.right) - Height(t.left) && -1 <= t.bal <= 1
      && Balanced(t.left) && Balanced(t.right)
  }

  function Sign(d: Dir): int {
    if d == 0 then -1 else 1
  }

  /** The key of a search-tree element determines the element. */
  lemma {:induction false} UniqueKeys(t: Tree, x: Element, y: Element)
    requires Ordered(t) && x in Elems(t) && y in Elems(t) && x.key == y.key
    ensures x == y
  {
    if x in Elems(t.left) && y in Elems(t.left) {
      UniqueKeys(t.left, x, y);
    } else if x in Elems(t.right) && y in Elems(t.right) {
      UniqueKeys(t.right, x, y);
    }
  }

  function Rightmost(t: Tree): Element
    requires t.Node?
  {
    if t.right.Leaf? then t.elem else Rightmost(t.right)
  }

  function Leftmost(t: Tree): Element
    requires t.Node?
  {
    if t.left.Leaf? then t.elem else Leftmost(t.left)
  }

  lemma {:induction false} RightmostIsGreatest(t: Tree)
    requires t.Node? && Ordered(t)
    ensures Rightmost(t) in Elems(t) && forall x <- Elems(t) :: x == Rightmost(t) || x.key < Rightmost(t).key
  {
    if t.right.Node? {
      RightmostIsGreatest(t.right);
    }
  }

  lemma {:induction false} LeftmostIsLeast(t: Tree)
    requires t.Node? && Ordered(t)
    ensures Leftmost(t) in Elems(t) && forall x <- Elems(t) :: x == Leftmost(t) || Leftmost(t).key < x.key
  {
    if t.left.Node? {
      LeftmostIsLeast(t.left);
    }
  }

  // ----- rotations as functions on trees

  function SingleRotated(t: Tree, d: Dir): Tree
    requires t.Node? && t.Kid(1 - d).Node?
  {
    var s := t.Kid(1 - d);
    Join(d, Join(d, t.Kid(d), t.node, t.elem, t.bal, s.Kid(d)), s.node, s.elem, s.bal, s.Kid(1 - d))
  }

  function DoubleRotated(t: Tree, d: Dir): Tree
    requires t.Node? && t.Kid(1 - d).Node? && t.Kid(1 - d).Kid(d).Node?
  {
    var s := t.Kid(1 - d);
    var m := s.Kid(d);
    Join(d, Join(d, t.Kid(d), t.node, t.elem, t.bal, m.Kid(d)),
         m.node, m.elem, m.bal,
         Join(d, m.Kid(1 - d), s.node, s.elem, s.bal, s.Kid(1 - d)))
  }

  /** `t` with new balances at the root, at its child on side `d`, and 0 at the grandchild between them. */
  function Rebalanced(t: Tree, d: Dir, b: int, nb: int): Tree
    requires t.Node? && t.Kid(d).Node? && t.Kid(d).Kid(1 - d).Node?
  {
    var n := t.Kid(d);
    var nn := n.Kid(1 - d);
    t.(bal := b).WithKid(d, n.(bal := nb).WithKid(1 - d, nn.(bal := 0)))
  }

  /** The case table for the two upper balances before a double rotation. */
  function Adjusted(t: Tree, d: Dir, bal: int): Tree
    requires t.Node? && t.Kid(d).Node? && t.Kid(d).Kid(1 - d).Node?
  {
    var nn := t.Kid(d).Kid(1 - d);
    if nn.bal == 0 then Rebalanced(t, d, 0, 0)
    else if nn.bal == bal then Rebalanced(t, d, -bal, 0)
    else Rebalanced(t, d, 0, bal)
  }

  /** Same nodes, same elements, same search order, and the nodes stay distinct. */
  ghost predicate SameSet(t: Tree, u: Tree) {
    && Nodes(u) == Nodes(t) && Elems(u) == Elems(t) && Count(u) == Count(t)
    && (Ordered(t) ==> Ordered(u)) && (Distinct(t) ==> Distinct(u))
  }

  /** The one identity behind every rotation, (a x b) y c == a x (b y c): the middle subtree moves across. */
  ghost predicate MovesAcross(t: Tree, u: Tree) {
    && t.Node? && t.left.Node? && u.Node? && u.right.Node?
    && u.left == t.left.left && u.right.left == t.left.right && u.right.right == t.right
    && u.node == t.left.node && u.elem == t.left.elem && u.right.node == t.node && u.right.elem == t.elem
  }

  lemma MovesAcrossSame(t: Tree, u: Tree)
    requires MovesAcross(t, u)
    ensures SameSet(t, u) && SameSet(u, t)
  {
    var l, r := t.left, u.right;
    assert Elems(t) == Elems(l) + {t.elem} + Elems(r.right) && Elems(u) == Elems(l.left) + {u.elem} + Elems(r);
    assert Nodes(t) == Nodes(l) + {t.node} + Nodes(r.right) && Nodes(u) == Nodes(l.left) + {u.node} + Nodes(r);
    MovesAcrossOrder(t, u);
    MovesAcrossDistinct(t, u);
  }

  lemma MovesAcrossOrder(t: Tree, u: Tree)
    requires MovesAcross(t, u)
    ensures Ordered(t) == Ordered(u)
  {
    var l, r := t.left, u.right;
    assert l.elem in Elems(l) && Elems(l.right) <= Elems(l) && Elems(l.left) <= Elems(l);
    assert r.elem in Elems(r) && Elems(r.left) <= Elems(r) && Elems(r.right) <= Elems(r);
    if Ordered(t) {
      assert Ordered(l);
      assert Ordered(r);
    }
    if Ordered(u) {
      assert Ordered(r);
      assert Ordered(l);
    }
  }

  lemma MovesAcrossDistinct(t: Tree, u: Tree)
    requires MovesAcross(t, u)
    ensures Distinct(t) == Distinct(u)
  {
    var l, r := t.left, u.right;
    assert l.node in Nodes(l) && Nodes(l.right) <= Nodes(l) && Nodes(l.left) <= Nodes(l);
    assert r.node in Nodes(r) && Nodes(r.left) <= Nodes(r) && Nodes(r.right) <= Nodes(r);
    if Distinct(t) {
      assert Distinct(l);
      assert Distinct(r);
    }
    if Distinct(u) {
      assert Distinct(r);
      assert Distinct(l);
    }
  }

  lemma SingleRotatedSame(t: Tree, d: Dir)
    requires t.Node? && t.Kid(1 - d).Node?
    ensures SameSet(t, SingleRotated(t, d))
  {
    if d == 0 {
      MovesAcrossSame(SingleRotated(t, d), t);
    } else {
      MovesAcrossSame(t, SingleRotated(t, d));
    }
  }

  /** Replacing one subtree by one that holds the same set keeps the whole the same set. */
  lemma SameSetKid(t: Tree, d: Dir, k: Tree, b: int)
    requires t.Node? && SameSet(t.Kid(d), k)
    ensures SameSet(t, t.(bal := b).WithKid(d, k))
  {
  }

  lemma DoubleRotatedSame(t: Tree, d: Dir)
    requires t.Node? && t.Kid(1 - d).Node? && t.Kid(1 - d).Kid(d).Node?
    ensures SameSet(t, DoubleRotated(t, d))
  {
    var s := t.Kid(1 - d);
    var u := t.WithKid(1 - d, SingleRotated(s, 1 - d));
    SingleRotatedSame(s, 1 - d);
    SameSetKid(t, 1 - d, SingleRotated(s, 1 - d), t.bal);
    SingleRotatedSame(u, d);
  }

  lemma RebalancedSame(t: Tree, d: Dir, b: int, nb: int)
    requires t.Node? && t.Kid(d).Node? && t.Kid(d).Kid(1 - d).Node?
    ensures SameSet(t, Rebalanced(t, d, b, nb))
  {
    var n := t.Kid(d);
    var nn := n.Kid(1 - d);
    SameSetKid(nn, 0, nn.left, 0);
    SameSetKid(n, 1 - d, nn.(bal := 0), nb);
    SameSetKid(t, d, n.(bal := nb).WithKid(1 - d, nn.(bal := 0)), b);
  }

  // ----- what the rotations do to heights

  function MaxOf(a: nat, b: nat): nat {
    if a < b then b else a
  }

  lemma KidLevels(t: Tree, d: Dir)
    requires t.Node? && Balanced(t)
    ensures Balanced(t.Kid(d)) && Balanced(t.Kid(1 - d))
    ensures Height(t.Kid(d)) - Height(t.Kid(1 - d)) == (if d == 0 then -t.bal else t.bal)
    ensures Height(t) == 1 + MaxOf(Height(t.Kid(d)), Height(t.Kid(1 - d)))
  {
  }

  lemma JoinLevels(d: Dir, near: Tree, node: TNode, elem: Element, bal: int, far: Tree)
    requires Balanced(near) && Balanced(far) && -1 <= bal <= 1
    requires Height(near) - Height(far) == if d == 0 then -bal else bal
    ensures Balanced(Join(d, near, node, elem, bal, far))
    ensures Height(Join(d, near, node, elem, bal, far)) == 1 + MaxOf(Height(near), Height(far))
  {
  }

  /** The double rotation with its balance table, on the side that is two levels too high. */
  lemma DoubleRotationLevels(t: Tree, d: Dir, bal: int)
    requires t.Node? && Balanced(t.left) && Balanced(t.right)
    requires Height(t.Kid(d)) == Height(t.Kid(1 - d)) + 2
    requires t.Kid(d).bal == -bal && bal == Sign(d)
    ensures t.Kid(d).Kid(1 - d).Node?
    ensures var u := DoubleRotated(Adjusted(t, d, bal), 1 - d);
      Balanced(u) && Height(u) == Height(t) - 1
  {
    var n := t.Kid(d);
    KidLevels(n, d);
    var nn := n.Kid(1 - d);
    assert nn.Node?;
    InnerLevels(t, d, n, nn, bal);
  }

  lemma InnerLevels(t: Tree, d: Dir, n: Tree, nn: Tree, bal: int)
    requires t.Node? && n.Node? && nn.Node? && n == t.Kid(d) && nn == n.Kid(1 - d)
    requires Balanced(t.Kid(1 - d)) && Balanced(n.Kid(d)) && Balanced(nn)
    requires Height(t.Kid(1 - d)) == Height(n.Kid(d)) == Height(nn) - 1
    requires bal == Sign(d)
    ensures var u := DoubleRotated(Adjusted(t, d, bal), 1 - d);
      Balanced(u) && Height(u) == Height(n.Kid(d)) + 2
  {
    KidLevels(nn, d);
    var tb := if nn.bal == bal then -bal else 0;
    var nb := if nn.bal == -bal then bal else 0;
    var a, b, c, e := t.Kid(1 - d), nn.Kid(1 - d), nn.Kid(d), n.Kid(d);
    DoubleRotatedParts(t, d, tb, nb);
    assert Adjusted(t, d, bal) == Rebalanced(t, d, tb, nb);
    DoubleJoinLevels(1 - d, a, b, c, e, t, n, nn, tb, nb);
  }

  lemma DoubleRotatedParts(t: Tree, d: Dir, tb: int, nb: int)
    requires t.Node? && t.Kid(d).Node? && t.Kid(d).Kid(1 - d).Node?
    ensures var n := t.Kid(d); var nn := n.Kid(1 - d);
      DoubleRotated(Rebalanced(t, d, tb, nb), 1 - d) ==
      Join(1 - d, Join(1 - d, t.Kid(1 - d), t.node, t.elem, tb, nn.Kid(1 - d)),
           nn.node, nn.elem, 0, Join(1 - d, nn.Kid(d), n.node, n.elem, nb, n.Kid(d)))
  {
  }

  lemma DoubleJoinLevels(d: Dir, a: Tree, b: Tree, c: Tree, e: Tree, t: Tree, n: Tree, nn: Tree, tb: int, nb: int)
    requires t.Node? && n.Node? && nn.Node?
    requires Balanced(a) && Balanced(b) && Balanced(c) && Balanced(e)
    requires Height(a) == Height(e) == MaxOf(Height(b), Height(c))
    requires -1 <= tb <= 1 && -1 <= nb <= 1
    requires Height(a) - Height(b) == if d == 0 then -tb else tb
    requires Height(c) - Height(e) == if d == 0 then -nb else nb
    ensures var u := Join(d, Join(d, a, t.node, t.elem, tb, b), nn.node, nn.elem, 0, Join(d, c, n.node, n.elem, nb, e));
      Balanced(u) && Height(u) == Height(a) + 2
  {
    JoinLevels(d, a, t.node, t.elem, tb, b);
    JoinLevels(d, c, n.node, n.elem, nb, e);
    JoinLevels(d, Join(d, a, t.node, t.elem, tb, b), nn.node, nn.elem, 0, Join(d, c, n.node, n.elem, nb, e));
  }

  /** The single rotation on the side `d` that is two levels too high, when the child does not lean inward. */
  lemma SingleRotationLevels(t: Tree, d: Dir, b: int)
    requires t.Node? && Balanced(t.left) && Balanced(t.right)
    requires Height(t.Kid(d)) == Height(t.Kid(1 - d)) + 2
    requires if b == 0 then t.Kid(d).bal == Sign(d) else t.Kid(d).bal == 0 && b == Sign(d)
    ensures var u := SingleRotated(t.(bal := b).WithKid(d, t.Kid(d).(bal := -b)), 1 - d);
      Balanced(u) && Height(u) == if b == 0 then Height(t) - 1 else Height(t)
  {
    var n := t.Kid(d);
    KidLevels(n, d);
    assert Height(t) == 1 + Height(n);
    SingleJoinLevels(1 - d, t.Kid(1 - d), n.Kid(1 - d), n.Kid(d), t, n, b);
  }

  lemma SingleJoinLevels(d: Dir, a: Tree, b: Tree, c: Tree, t: Tree, n: Tree, tb: int)
    requires t.Node? && n.Node? && Balanced(a) && Balanced(b) && Balanced(c)
    requires Height(a) + 1 == Height(c) && -1 <= tb <= 1
    requires Height(a) - Height(b) == if d == 0 then -tb else tb
    requires tb == 0 || Height(b) == Height(c)
    ensures var u := Join(d, Join(d, a, t.node, t.elem, tb, b), n.node, n.elem, -tb, c);
      Balanced(u) && Height(u) == if tb == 0 then Height(c) + 1 else Height(c) + 2
  {
    JoinLevels(d, a, t.node, t.elem, tb, b);
    JoinLevels(d, Join(d, a, t.node, t.elem, tb, b), n.node, n.elem, -tb, c);
  }

  lemma SingleRotationSame(t: Tree, d: Dir, b: int)
    requires t.Node? && t.Kid(d).Node?
    ensures SameSet(t, SingleRotated(t.(bal := b).WithKid(d, t.Kid(d).(bal := -b)), 1 - d))
  {
    var n := t.Kid(d);
    SameSetKid(n, 0, n.left, -b);
    SameSetKid(t, d, n.(bal := -b), b);
    SingleRotatedSame(t.(bal := b).WithKid(d, n.(bal := -b)), 1 - d);
  }

  lemma DoubleRotationSame(t: Tree, d: Dir, bal: int)
    requires t.Node? && t.Kid(d).Node? && t.Kid(d).Kid(1 - d).Node?
    ensures SameSet(t, DoubleRotated(Adjusted(t, d, bal), 1 - d))
  {
    var t1 := Adjusted(t, d, bal);
    RebalancedSame(t, d, t1.bal, t1.Kid(d).bal);
    DoubleRotatedSame(t1, 1 - d);
  }

  /** Both at once: a single rotation gives a balanced tree of the same set. */
  lemma SingleRotationRestores(t: Tree, d: Dir, b: int)
    requires t.Node? && Balanced(t.left) && Balanced(t.right)
    requires Height(t.Kid(d)) == Height(t.Kid(1 - d)) + 2
    requires if b == 0 then t.Kid(d).bal == Sign(d) else t.Kid(d).bal == 0 && b == Sign(d)
    ensures var u := SingleRotated(t.(bal := b).WithKid(d, t.Kid(d).(bal := -b)), 1 - d);
      SameSet(t, u) && Balanced(u) && Height(u) == if b == 0 then Height(t) - 1 else Height(t)
  {
    SingleRotationLevels(t, d, b);
    SingleRotationSame(t, d, b);
  }

  lemma DoubleRotationRestores(t: Tree, d: Dir, bal: int)
    requires t.Node? && Balanced(t.left) && Balanced(t.right)
    requires Height(t.Kid(d)) == Height(t.Kid(1 - d)) + 2
    requires t.Kid(d).bal == -bal && bal == Sign(d)
    ensures t.Kid(d).Kid(1 - d).Node?
    ensures var u := DoubleRotated(Adjusted(t, d, bal), 1 - d);
      SameSet(t, u) && Balanced(u) && Height(u) == Height(t) - 1
  {
    DoubleRotationLevels(t, d, bal);
    DoubleRotationSame(t, d, bal);
  }

  // ----- rebalancing after an insertion

  function InsertBalanced(t: Tree, d: Dir): Tree
    requires t.Node? && t.Kid(d).Node?
    requires t.Kid(d).bal == Sign(d) || t.Kid(d).Kid(1 - d).Node?
  {
    var n := t.Kid(d);
    if n.bal == Sign(d) then
      SingleRotated(t.(bal := 0).WithKid(d, n.(bal := 0)), 1 - d)
    else
      DoubleRotated(Adjusted(t, d, Sign(d)), 1 - d)
  }

  /** When side `d` has grown two levels higher, the rotation restores the balance of every node
      and takes exactly one level off the height. */
  lemma InsertBalancedRestores(t: Tree, d: Dir)
    requires t.Node? && Balanced(t.left) && Balanced(t.right)
    requires Height(t.Kid(d)) == Height(t.Kid(1 - d)) + 2
    requires t.Kid(d).bal != 0
    ensures t.Kid(d).bal == Sign(d) || t.Kid(d).Kid(1 - d).Node?
    ensures var u := InsertBalanced(t, d);
      SameSet(t, u) && Balanced(u) && Height(u) == Height(t) - 1
  {
    if t.Kid(d).bal == Sign(d) {
      SingleRotationRestores(t, d, 0);
    } else {
      DoubleRotationRestores(t, d, Sign(d));
    }
  }

  // ----- rebalancing after a removal

  function RemoveBalanced(t: Tree, d: Dir): (Tree, bool)
    requires t.Node? && t.Kid(1 - d).Node?
    requires t.Kid(1 - d).bal == Sign(d) ==> t.Kid(1 - d).Kid(d).Node?
  {
    var n := t.Kid(1 - d);
    if n.bal == -Sign(d) then
      (SingleRotated(t.(bal := 0).WithKid(1 - d, n.(bal := 0)), d), false)
    else if n.bal == Sign(d) then
      (DoubleRotated(Adjusted(t, 1 - d, -Sign(d)), d), false)
    else
      (SingleRotated(t.(bal := -Sign(d)).WithKid(1 - d, n.(bal := Sign(d))), d), true)
  }

  lemma RemoveBalancedSingle(t: Tree, d: Dir, b: int)
    requires t.Node? && t.Kid(1 - d).Node?
    requires if b == 0 then t.Kid(1 - d).bal == -Sign(d) else t.Kid(1 - d).bal == 0 && b == -Sign(d)
    ensures RemoveBalanced(t, d) == (SingleRotated(t.(bal := b).WithKid(1 - d, t.Kid(1 - d).(bal := -b)), d), b != 0)
  {
  }

  /** When side `d` has become two levels lower, the rotation restores every balance; the flag is
      false exactly when the whole subtree lost a level. */
  lemma RemoveBalancedRestores(t: Tree, d: Dir)
    requires t.Node? && Balanced(t.left) && Balanced(t.right)
    requires Height(t.Kid(1 - d)) == Height(t.Kid(d)) + 2
    ensures t.Kid(1 - d).bal == Sign(d) ==> t.Kid(1 - d).Kid(d).Node?
    ensures var (u, done) := RemoveBalanced(t, d);
      SameSet(t, u) && Balanced(u) && Height(u) == if done then Height(t) else Height(t) - 1
  {
    var n := t.Kid(1 - d);
    if n.bal == Sign(d) {
      DoubleRotationRestores(t, 1 - d, -Sign(d));
    } else {
      var b := if n.bal == 0 then -Sign(d) else 0;
      RemoveBalancedSingle(t, d, b);
      SingleRotationRestores(t, 1 - d, b);
    }
  }
}
