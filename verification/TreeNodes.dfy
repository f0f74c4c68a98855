/** The in-place AVL operations of extraCredit/treeset.c on heap nodes. The ghost parameter `t` of each
    method is the tree the heap holds on entry; the result says which tree it holds on return. */
module TreeNodes {
  import opened AvlTree

  /** Distinct nodes, AVL balance and search order. */
  ghost predicate Avl(t: Tree) {
    Distinct(t) && Balanced(t) && Ordered(t)
  }

  /** Hangs the tree `v` below `root` on side `dir`. */
  method SetLink(root: TNode, dir: Dir, k: TNode?, ghost t: Tree, ghost v: Tree)
    requires t.Node? && root == t.node && Stored(t) && Heap(t.Kid(1 - dir))
    requires k == Root(v) && Heap(v)
    requires root !in Nodes(v) && root !in Nodes(t.Kid(1 - dir))
    modifies root`link
    ensures Heap(t.WithKid(dir, v))
  {
    root.link := root.link[dir := k];
    assert Heap(v) && Heap(t.Kid(1 - dir));
  }

  ghost predicate Has(s: set<Element>, key: real) {
    exists x :: x in s && x.key == key
  }

  method SingleRotate(root: TNode, dir: Dir, ghost t: Tree) returns (save: TNode)
    requires t.Node? && t.Kid(1 - dir).Node? && root == t.node && Heap(t) && Distinct(t)
    modifies Nodes(t)
    ensures Heap(SingleRotated(t, dir)) && save == SingleRotated(t, dir).node
  {
    save := root.link[1 - dir];
    root.link := root.link[1 - dir := save.link[dir]];
    save.link := save.link[dir := root];
  }

  lemma KidsApart(t: Tree, d: Dir)
    requires t.Node? && Distinct(t)
    ensures t.node !in Nodes(t.Kid(d)) && t.node !in Nodes(t.Kid(1 - d))
    ensures Nodes(t.Kid(d)) !! Nodes(t.Kid(1 - d))
    ensures Distinct(t.Kid(d)) && Distinct(t.Kid(1 - d))
  {
  }

  /** The six assignments of a double rotation, on the root, its child `s` and the grandchild `m` between them. */
  method RotateLinks(root: TNode, dir: Dir, ghost s: TNode, ghost m: TNode) returns (save: TNode)
    requires root.link[1 - dir] == s && s.link[dir] == m
    requires root != s && s != m && m != root
    modifies root`link, s`link, m`link
    ensures save == m && m.link[dir] == root && m.link[1 - dir] == s
    ensures root.link[dir] == old(root.link[dir]) && root.link[1 - dir] == old(m.link[dir])
    ensures s.link[dir] == old(m.link[1 - dir]) && s.link[1 - dir] == old(s.link[1 - dir])
  {
    save := root.link[1 - dir].link[dir];
    root.link[1 - dir].link := root.link[1 - dir].link[dir := save.link[1 - dir]];
    save.link := save.link[1 - dir := root.link[1 - dir]];
    root.link := root.link[1 - dir := save];
    save := root.link[1 - dir];
    root.link := root.link[1 - dir := save.link[dir]];
    save.link := save.link[dir := root];
  }

  /** The child and grandchild of a double rotation, and the four subtrees below. */
  lemma Parts(t: Tree, d: Dir) returns (n: Tree, nn: Tree, a: Tree, b: Tree, c: Tree, e: Tree)
    requires t.Node? && t.Kid(d).Node? && t.Kid(d).Kid(1 - d).Node? && Heap(t) && Distinct(t)
    ensures n == t.Kid(d) && nn == n.Kid(1 - d) && n.Node? && nn.Node?
    ensures a == t.Kid(1 - d) && b == nn.Kid(1 - d) && c == nn.Kid(d) && e == n.Kid(d)
    ensures Stored(t) && Stored(n) && Stored(nn) && Heap(a) && Heap(b) && Heap(c) && Heap(e)
    ensures t.node != n.node && t.node != nn.node && n.node != nn.node
    ensures var upper := {t.node, n.node, nn.node};
      upper <= Nodes(t) && Nodes(a) !! upper && Nodes(b) !! upper && Nodes(c) !! upper && Nodes(e) !! upper
  {
    n, nn := t.Kid(d), t.Kid(d).Kid(1 - d);
    a, b, c, e := t.Kid(1 - d), nn.Kid(1 - d), nn.Kid(d), n.Kid(d);
    assert Heap(n) && Heap(nn) && Distinct(n) && Distinct(nn);
  }

  lemma HeapJoin(d: Dir, near: Tree, node: TNode, elem: Element, bal: int, far: Tree)
    requires Heap(near) && Heap(far) && node.element == elem && node.balance == bal
    requires node.link[d] == Root(near) && node.link[1 - d] == Root(far)
    ensures Heap(Join(d, near, node, elem, bal, far))
  {
    assert node.link == if d == 0 then [Root(near), Root(far)] else [Root(far), Root(near)];
  }

  /** What the six assignments leave: three stored nodes above the four old subtrees. */
  lemma DoubleRotatedHeap(d: Dir, t: Tree, s: Tree, m: Tree, a: Tree, b: Tree, c: Tree, e: Tree)
    requires t.Node? && s.Node? && m.Node? && Heap(a) && Heap(b) && Heap(c) && Heap(e)
    requires m.node.link[d] == t.node && m.node.link[1 - d] == s.node
    requires t.node.link[d] == Root(a) && t.node.link[1 - d] == Root(b)
    requires s.node.link[d] == Root(c) && s.node.link[1 - d] == Root(e)
    requires t.node.element == t.elem && s.node.element == s.elem && m.node.element == m.elem
    requires t.node.balance == t.bal && s.node.balance == s.bal && m.node.balance == m.bal
    ensures Heap(Join(d, Join(d, a, t.node, t.elem, t.bal, b), m.node, m.elem, m.bal, Join(d, c, s.node, s.elem, s.bal, e)))
  {
    HeapJoin(d, a, t.node, t.elem, t.bal, b);
    HeapJoin(d, c, s.node, s.elem, s.bal, e);
    HeapJoin(d, Join(d, a, t.node, t.elem, t.bal, b), m.node, m.elem, m.bal, Join(d, c, s.node, s.elem, s.bal, e));
  }

  method DoubleRotate(root: TNode, dir: Dir, ghost t: Tree) returns (save: TNode)
    requires t.Node? && t.Kid(1 - dir).Node? && t.Kid(1 - dir).Kid(dir).Node?
    requires root == t.node && Heap(t) && Distinct(t)
    modifies Nodes(t)
    ensures Heap(DoubleRotated(t, dir)) && save == DoubleRotated(t, dir).node
  {
    NodesAllocated(t);
    ghost var s, m, a, b, c, e := Parts(t, 1 - dir);
    save := RotateLinks(root, dir, s.node, m.node);
    DoubleRotatedHeap(dir, t, s, m, a, b, c, e);
  }

  /** What new balances leave: the three upper nodes with their old links, above the four old subtrees. */
  lemma RebalancedHeap(d: Dir, t: Tree, n: Tree, nn: Tree, a: Tree, b: Tree, c: Tree, e: Tree, tb: int, nb: int)
    requires t.Node? && n.Node? && nn.Node? && Heap(a) && Heap(b) && Heap(c) && Heap(e)
    requires t.node.link[d] == n.node && t.node.link[1 - d] == Root(a)
    requires n.node.link[d] == Root(e) && n.node.link[1 - d] == nn.node
    requires nn.node.link[d] == Root(c) && nn.node.link[1 - d] == Root(b)
    requires t.node.element == t.elem && n.node.element == n.elem && nn.node.element == nn.elem
    requires t.node.balance == tb && n.node.balance == nb && nn.node.balance == 0
    ensures Heap(Join(d, Join(d, e, n.node, n.elem, nb, Join(d, c, nn.node, nn.elem, 0, b)), t.node, t.elem, tb, a))
  {
    HeapJoin(d, c, nn.node, nn.elem, 0, b);
    HeapJoin(d, e, n.node, n.elem, nb, Join(d, c, nn.node, nn.elem, 0, b));
    HeapJoin(d, Join(d, e, n.node, n.elem, nb, Join(d, c, nn.node, nn.elem, 0, b)), t.node, t.elem, tb, a);
  }

  lemma RebalancedParts(t: Tree, d: Dir, tb: int, nb: int)
    requires t.Node? && t.Kid(d).Node? && t.Kid(d).Kid(1 - d).Node?
    ensures var n := t.Kid(d); var nn := n.Kid(1 - d);
      Rebalanced(t, d, tb, nb) ==
      Join(d, Join(d, n.Kid(d), n.node, n.elem, nb, Join(d, nn.Kid(d), nn.node, nn.elem, 0, nn.Kid(1 - d))),
           t.node, t.elem, tb, t.Kid(1 - d))
  {
  }

  method AdjustBalance(root: TNode, dir: Dir, bal: int, n: TNode, nn: TNode)
    requires root.link[dir] == n && n.link[1 - dir] == nn
    requires root != n && n != nn && nn != root
    modifies root`balance, n`balance, nn`balance
    ensures nn.balance == 0
    ensures root.balance == if old(nn.balance) != 0 && old(nn.balance) == bal then -bal else 0
    ensures n.balance == if old(nn.balance) == 0 || old(nn.balance) == bal then 0 else bal
  {
    if nn.balance == 0 {
      root.balance, n.balance := 0, 0;
    } else if nn.balance == bal {
      root.balance := -bal;
      n.balance := 0;
    } else {
      root.balance := 0;
      n.balance := bal;
    }
    nn.balance := 0;
  }

  /** Sets the three balances before a double rotation. */
  method AdjustTree(root: TNode, dir: Dir, bal: int, ghost t: Tree)
    requires t.Node? && t.Kid(dir).Node? && t.Kid(dir).Kid(1 - dir).Node?
    requires root == t.node && Heap(t) && Distinct(t)
    modifies Nodes(t)
    ensures Heap(Adjusted(t, dir, bal)) && SameSet(t, Adjusted(t, dir, bal))
  {
    NodesAllocated(t);
    ghost var tn, tnn, a, b, c, e := Parts(t, dir);
    var n := root.link[dir];
    AdjustBalance(root, dir, bal, n, n.link[1 - dir]);
    RebalancedHeap(dir, t, tn, tnn, a, b, c, e, root.balance, n.balance);
    RebalancedParts(t, dir, root.balance, n.balance);
    RebalancedSame(t, dir, root.balance, n.balance);
  }

  /** The double-rotation branch that the two rebalancing routines share. */
  method AdjustAndRotate(root: TNode, dir: Dir, bal: int, ghost t: Tree) returns (r: TNode)
    requires t.Node? && t.Kid(dir).Node? && t.Kid(dir).Kid(1 - dir).Node?
    requires root == t.node && Heap(t) && Distinct(t)
    modifies Nodes(t)
    ensures var u := DoubleRotated(Adjusted(t, dir, bal), 1 - dir);
      Heap(u) && r == u.node
  {
    AdjustTree(root, dir, bal, t);
    r := DoubleRotate(root, 1 - dir, Adjusted(t, dir, bal));
  }

  /** The single-rotation branches: the two upper balances become `b` and `-b`. */
  method SetAndRotate(root: TNode, dir: Dir, b: int, ghost t: Tree) returns (r: TNode)
    requires t.Node? && t.Kid(1 - dir).Node? && root == t.node && Heap(t) && Distinct(t)
    modifies Nodes(t)
    ensures var u := SingleRotated(t.(bal := b).WithKid(1 - dir, t.Kid(1 - dir).(bal := -b)), dir);
      Heap(u) && r == u.node
  {
    ghost var s := t.Kid(1 - dir);
    KidsApart(t, dir);
    assert Heap(s);
    var n := root.link[1 - dir];
    root.balance, n.balance := b, -b;
    SameSetKid(s, 0, s.left, -b);
    SameSetKid(t, 1 - dir, s.(bal := -b), b);
    assert Heap(s.(bal := -b)) && Heap(t.Kid(dir));
    r := SingleRotate(root, dir, t.(bal := b).WithKid(1 - dir, s.(bal := -b)));
  }

  method InsertBalance(root: TNode, dir: Dir, ghost t: Tree) returns (r: TNode)
    requires t.Node? && t.Kid(dir).Node? && root == t.node && Heap(t) && Distinct(t)
    requires t.Kid(dir).bal == Sign(dir) || t.Kid(dir).Kid(1 - dir).Node?
    modifies Nodes(t)
    ensures Heap(InsertBalanced(t, dir)) && r == InsertBalanced(t, dir).node
  {
    var n := root.link[dir];
    var bal := if dir == 0 then -1 else 1;
    if n.balance == bal {
      r := SetAndRotate(root, 1 - dir, 0, t);
    } else {
      r := AdjustAndRotate(root, dir, bal, t);
    }
  }

  lemma AbsentBelow(t: Tree, dir: Dir, element: Element)
    requires t.Node? && !Has(Elems(t), element.key)
    ensures !Has(Elems(t.Kid(dir)), element.key) && t.elem.key != element.key
  {
    assert t.elem in Elems(t);
  }

  /** Replacing the subtree on side `dir` by one that holds one more element, on that side of the root. */
  lemma InsertedBelow(t: Tree, dir: Dir, v: Tree, element: Element)
    requires t.Node? && Distinct(t) && Ordered(t)
    requires if dir == 0 then element.key < t.elem.key else t.elem.key < element.key
    requires Elems(v) == Elems(t.Kid(dir)) + {element} && Count(v) == Count(t.Kid(dir)) + 1
    requires Distinct(v) && Ordered(v)
    requires Nodes(t.Kid(dir)) <= Nodes(v) && Nodes(v) - Nodes(t.Kid(dir)) !! Nodes(t)
    ensures var u := t.WithKid(dir, v);
      && Elems(u) == Elems(t) + {element} && Count(u) == Count(t) + 1
      && Distinct(u) && Ordered(u)
      && Nodes(t) <= Nodes(u) && Nodes(u) - Nodes(t) == Nodes(v) - Nodes(t.Kid(dir))
  {
    assert t.node !in Nodes(v);
    assert Nodes(v) !! Nodes(t.Kid(1 - dir));
  }

  /** `w` has balanced subtrees, and its stored balance was right when side `dir` was `h` high. */
  ghost predicate BalancedBefore(w: Tree, dir: Dir, h: nat) {
    && w.Node? && Balanced(w.left) && Balanced(w.right) && -1 <= w.bal <= 1
    && h - Height(w.Kid(1 - dir)) == if dir == 0 then -w.bal else w.bal
  }

  /** What one more level on side `dir` does to the balance of the parent. */
  lemma GrownLevels(w: Tree, dir: Dir, h: nat, b: int)
    requires BalancedBefore(w, dir, h)
    requires Height(w.Kid(dir)) == h + 1 && (h == 0 || w.Kid(dir).bal != 0)
    requires b == w.bal + Sign(dir)
    ensures var u := w.(bal := b);
      && (b == 0 ==> Balanced(u) && Height(u) == 1 + MaxOf(h, Height(w.Kid(1 - dir))))
      && (b == 1 || b == -1 ==> Balanced(u) && Height(u) == 2 + MaxOf(h, Height(w.Kid(1 - dir))))
      && (b < -1 || 1 < b ==>
            && Height(w.Kid(dir)) == Height(w.Kid(1 - dir)) + 2 && w.Kid(dir).bal != 0
            && Height(u) == 2 + MaxOf(h, Height(w.Kid(1 - dir))))
  {
  }

  /** The part of an insertion after the recursive call, when the subtree on side `dir` has grown. */
  method AfterInsert(root: TNode, dir: Dir, ghost w: Tree, ghost h: nat) returns (r: TNode, done: bool, ghost u: Tree)
    requires BalancedBefore(w, dir, h) && Height(w.Kid(dir)) == h + 1 && (h == 0 || w.Kid(dir).bal != 0)
    requires root == w.node && Heap(w) && Distinct(w)
    modifies Nodes(w)
    ensures r == Root(u) && Heap(u) && SameSet(w, u) && Balanced(u)
    ensures Height(u) == MaxOf(h, Height(w.Kid(1 - dir))) + if done then 1 else 2
    ensures !done ==> u.bal != 0
  {
    done := false;
    r := root;
    root.balance := root.balance + if dir == 0 then -1 else 1;
    u := w.(bal := root.balance);
    SameSetKid(w, 0, w.left, u.bal);
    GrownLevels(w, dir, h, u.bal);
    if root.balance == 0 {
      done := true;
    } else if root.balance > 1 || root.balance < -1 {
      InsertBalancedRestores(u, dir);
      ghost var b := InsertBalanced(u, dir);
      r := InsertBalance(root, dir, u);
      u := b;
      done := true;
    }
  }

  /** Hangs the subtree that the recursive insertion returned, and goes on with the heights if it has grown. */
  method HangInserted(root: TNode, dir: Dir, k: TNode, kDone: bool, ghost t: Tree, ghost v: Tree)
    returns (r: TNode, done: bool, ghost u: Tree)
    requires t.Node? && root == t.node && Stored(t) && Heap(t.Kid(1 - dir)) && Balanced(t)
    requires k == Root(v) && Heap(v) && Balanced(v) && Distinct(t.WithKid(dir, v))
    requires Height(v) == if kDone then Height(t.Kid(dir)) else Height(t.Kid(dir)) + 1
    requires !kDone ==> t.Kid(dir).Leaf? || v.bal != 0
    modifies Nodes(t.WithKid(dir, v))
    ensures r == Root(u) && Heap(u) && SameSet(t.WithKid(dir, v), u) && Balanced(u)
    ensures Height(u) == if done then Height(t) else Height(t) + 1
    ensures !done ==> u.bal != 0
  {
    KidLevels(t, dir);
    u := t.WithKid(dir, v);
    KidsApart(u, dir);
    SetLink(root, dir, k, t, v);
    r, done := root, kDone;
    if !done {
      r, done, u := AfterInsert(root, dir, u, Height(t.Kid(dir)));
    }
  }

  /** Inserts an absent key. `done` is false exactly when the tree has become one level higher. */
  method Insert(root: TNode?, element: Element, ghost t: Tree) returns (r: TNode, done: bool, ghost u: Tree)
    requires root == Root(t) && Heap(t) && Avl(t)
    requires !Has(Elems(t), element.key)
    modifies Nodes(t)
    ensures r == Root(u) && Heap(u) && Avl(u)
    ensures Elems(u) == Elems(t) + {element} && Count(u) == Count(t) + 1
    ensures Nodes(t) <= Nodes(u) && fresh(Nodes(u) - Nodes(t))
    ensures Height(u) == if done then Height(t) else Height(t) + 1
    ensures !done ==> t.Leaf? || u.bal != 0
    decreases t
  {
    done := false;
    if root == null {
      r := new TNode(element);
      u := Node(Leaf, r, element, 0, Leaf);
    } else {
      var dir: Dir := if Cmp(root.element, element) < 0 then 1 else 0;
      NodesAllocated(t);
      KidsApart(t, dir);
      AbsentBelow(t, dir, element);
      var k; ghost var v;
      k, done, v := Insert(root.link[dir], element, t.Kid(dir));
      InsertedBelow(t, dir, v, element);
      r, done, u := HangInserted(root, dir, k, done, t, v);
    }
  }

  // ----- removal

  method RemoveBalance(root: TNode, dir: Dir, ghost t: Tree) returns (r: TNode, done: bool)
    requires t.Node? && t.Kid(1 - dir).Node? && root == t.node && Heap(t) && Distinct(t)
    requires t.Kid(1 - dir).bal == Sign(dir) ==> t.Kid(1 - dir).Kid(dir).Node?
    modifies Nodes(t)
    ensures var (u, d) := RemoveBalanced(t, dir);
      Heap(u) && r == Root(u) && done == d
  {
    var n := root.link[1 - dir];
    var bal := if dir == 0 then -1 else 1;
    done := false;
    if n.balance == bal {
      r := AdjustAndRotate(root, 1 - dir, -bal, t);
    } else {
      var b := if n.balance == -bal then 0 else -bal;
      SingleRotationSame(t, 1 - dir, b);
      r := SetAndRotate(root, dir, b, t);
      done := b != 0;
    }
  }

  /** What one level less on side `dir` does to the balance of the parent. */
  lemma ShrunkLevels(w: Tree, dir: Dir, h: nat, b: int)
    requires BalancedBefore(w, dir, h) && Height(w.Kid(dir)) == h - 1
    requires b == w.bal - Sign(dir)
    ensures var u := w.(bal := b);
      && (b == 1 || b == -1 ==> Balanced(u) && Height(u) == 1 + MaxOf(h, Height(w.Kid(1 - dir))))
      && (b == 0 ==> Balanced(u) && Height(u) == MaxOf(h, Height(w.Kid(1 - dir))))
      && (b < -1 || 1 < b ==>
            Height(w.Kid(1 - dir)) == Height(w.Kid(dir)) + 2 && Height(u) == 1 + MaxOf(h, Height(w.Kid(1 - dir))))
  {
  }

  /** The part of a removal after the recursive call, when the subtree on side `dir` has lost a level. */
  method AfterRemove(root: TNode, dir: Dir, ghost w: Tree, ghost h: nat) returns (r: TNode, done: bool, ghost u: Tree)
    requires BalancedBefore(w, dir, h) && Height(w.Kid(dir)) == h - 1
    requires root == w.node && Heap(w) && Distinct(w)
    modifies Nodes(w)
    ensures r == Root(u) && Heap(u) && SameSet(w, u) && Balanced(u)
    ensures Height(u) == MaxOf(h, Height(w.Kid(1 - dir))) + if done then 1 else 0
  {
    done := false;
    r := root;
    root.balance := root.balance + if dir != 0 then -1 else 1;
    u := w.(bal := root.balance);
    SameSetKid(w, 0, w.left, u.bal);
    ShrunkLevels(w, dir, h, u.bal);
    if root.balance == 1 || root.balance == -1 {
      done := true;
    } else if root.balance > 1 || root.balance < -1 {
      RemoveBalancedRestores(u, dir);
      ghost var b := RemoveBalanced(u, dir).0;
      r, done := RemoveBalance(root, dir, u);
      u := b;
    }
  }

  /** `v` holds what `t` holds, less the element `gone` with the given key and the node `freed`. */
  ghost predicate OneLess(t: Tree, v: Tree, key: real, gone: Element, freed: TNode) {
    && gone in Elems(t) && gone.key == key && Elems(v) == Elems(t) - {gone} && Count(v) == Count(t) - 1
    && freed in Nodes(t) && Nodes(v) == Nodes(t) - {freed}
  }

  /** Taking one element and one node out of the subtree on side `dir`. */
  lemma RemovedBelow(t: Tree, dir: Dir, v: Tree, key: real, gone: Element, freed: TNode)
    requires t.Node? && Distinct(t) && Ordered(t)
    requires OneLess(t.Kid(dir), v, key, gone, freed) && Distinct(v) && Ordered(v)
    ensures var u := t.WithKid(dir, v);
      OneLess(t, u, key, gone, freed) && Distinct(u) && Ordered(u)
  {
    var u := t.WithKid(dir, v);
    KidsApart(t, dir);
    Sides(t, dir);
    Sides(u, dir);
    SmallerBelow(t, dir, v);
    TakenOut(Elems(t.Kid(dir)), t.elem, Elems(t.Kid(1 - dir)), gone);
    TakenOut(Nodes(t.Kid(dir)), t.node, Nodes(t.Kid(1 - dir)), freed);
  }

  lemma TakenOut<T>(a: set<T>, x: T, b: set<T>, y: T)
    requires y in a && y != x && y !in b
    ensures (a - {y}) + {x} + b == a + {x} + b - {y}
  {
  }

  lemma DistinctBelow(t: Tree, dir: Dir, v: Tree)
    requires t.Node? && Distinct(t) && Distinct(v) && Nodes(v) <= Nodes(t.Kid(dir))
    ensures Distinct(t.WithKid(dir, v))
  {
  }

  lemma SmallerBelow(t: Tree, dir: Dir, v: Tree)
    requires t.Node? && Distinct(t) && Ordered(t) && Distinct(v) && Ordered(v)
    requires Elems(v) <= Elems(t.Kid(dir)) && Nodes(v) <= Nodes(t.Kid(dir))
    ensures Distinct(t.WithKid(dir, v)) && Ordered(t.WithKid(dir, v))
  {
  }

  lemma Sides(t: Tree, d: Dir)
    requires t.Node?
    ensures Elems(t) == Elems(t.Kid(d)) + {t.elem} + Elems(t.Kid(1 - d))
    ensures Nodes(t) == Nodes(t.Kid(d)) + {t.node} + Nodes(t.Kid(1 - d))
    ensures Count(t) == Count(t.Kid(d)) + 1 + Count(t.Kid(1 - d))
  {
  }

  /** With a missing subtree: the other one takes the place of the whole. */
  lemma KidReplaces(t: Tree, dir: Dir)
    requires t.Node? && Avl(t) && t.Kid(1 - dir).Leaf?
    ensures Avl(t.Kid(dir)) && OneLess(t, t.Kid(dir), t.elem.key, t.elem, t.node)
    ensures Height(t.Kid(dir)) == Height(t) - 1
  {
    KidsApart(t, dir);
    assert t.elem !in Elems(t.Kid(dir));
  }

  /** With two subtrees: the greatest element of the left one takes the place of the root's. */
  lemma HeirReplaces(t: Tree, v: Tree, gone: Element, freed: TNode)
    requires t.Node? && t.left.Node? && Distinct(t) && Ordered(t)
    requires OneLess(t.left, v, Rightmost(t.left).key, gone, freed) && Distinct(v) && Ordered(v)
    ensures var u := t.(elem := Rightmost(t.left)).WithKid(0, v);
      OneLess(t, u, t.elem.key, t.elem, freed) && Distinct(u) && Ordered(u)
  {
    RightmostIsGreatest(t.left);
    UniqueKeys(t.left, gone, Rightmost(t.left));
    HeirSets(Elems(t.left), t.elem, Elems(t.right), gone);
    TakenOut(Nodes(t.left), t.node, Nodes(t.right), freed);
    HeirOrdered(t, v, gone);
    DistinctBelow(t, 0, v);
  }

  /** The heir leaves its side and takes the root's place. */
  lemma HeirSets<T>(a: set<T>, x: T, b: set<T>, y: T)
    requires y in a && x !in a && x !in b
    ensures (a - {y}) + {y} + b == a + {x} + b - {x}
  {
  }

  lemma HeirOrdered(t: Tree, v: Tree, heir: Element)
    requires t.Node? && Ordered(t) && Ordered(v) && Elems(v) == Elems(t.left) - {heir} && heir in Elems(t.left)
    requires forall x <- Elems(t.left) :: x == heir || x.key < heir.key
    ensures Ordered(t.(elem := heir).WithKid(0, v))
  {
  }

  /** The element the caller's function is applied to when `key` is removed from `t`. */
  function Released(t: Tree, key: real): Element
    requires t.Node?
  {
    if key < t.elem.key then (if t.left.Node? then Released(t.left, key) else t.elem)
    else if t.elem.key < key then (if t.right.Node? then Released(t.right, key) else t.elem)
    else if t.left.Node? && t.right.Node? then Rightmost(t.left)
    else t.elem
  }

  lemma {:induction false} ReleasedRightmost(t: Tree)
    requires t.Node? && Ordered(t)
    ensures Released(t, Rightmost(t).key) == Rightmost(t)
  {
    if t.right.Node? {
      RightmostIsGreatest(t.right);
      ReleasedRightmost(t.right);
    }
  }

  /** The subtree whose root has the given key, or a leaf. */
  function At(t: Tree, key: real): Tree {
    if t.Leaf? then t
    else if key < t.elem.key then At(t.left, key)
    else if t.elem.key < key then At(t.right, key)
    else t
  }

  /** The caller's function is applied to the removed element exactly when its node lacks a subtree;
      otherwise it is applied to the element that takes its place. */
  lemma {:induction false} ReleasedIsRemoved(t: Tree, gone: Element)
    requires Ordered(t) && gone in Elems(t)
    ensures At(t, gone.key).Node? && At(t, gone.key).elem == gone
    ensures Released(t, gone.key) == gone <==> At(t, gone.key).left.Leaf? || At(t, gone.key).right.Leaf?
  {
    if gone.key < t.elem.key {
      assert gone in Elems(t.left);
      ReleasedIsRemoved(t.left, gone);
    } else if t.elem.key < gone.key {
      assert gone in Elems(t.right);
      ReleasedIsRemoved(t.right, gone);
    } else {
      UniqueKeys(t, gone, t.elem);
      if t.left.Node? {
        RightmostIsGreatest(t.left);
      }
    }
  }

  /** Otherwise it is applied to the greatest of all elements below the removed one. */
  lemma {:induction false} ReleasedIsPredecessor(t: Tree, gone: Element)
    requires Ordered(t) && gone in Elems(t)
    requires At(t, gone.key).Node? && At(t, gone.key).left.Node? && At(t, gone.key).right.Node?
    ensures t.Node? && Released(t, gone.key) in Elems(t) && Released(t, gone.key).key < gone.key
    ensures forall x <- Elems(t) :: x.key < gone.key ==> x.key <= Released(t, gone.key).key
  {
    if gone.key < t.elem.key {
      ReleasedIsPredecessor(t.left, gone);
    } else if t.elem.key < gone.key {
      ReleasedIsPredecessor(t.right, gone);
    } else {
      RightmostIsGreatest(t.left);
    }
  }

  /** Overwrites the root's element by the greatest element of its left subtree. */
  method Heir(root: TNode, ghost t: Tree) returns (element: Element)
    requires t.Node? && t.left.Node? && root == t.node && Heap(t) && Distinct(t)
    modifies root`element
    ensures element == Rightmost(t.left) && Heap(t.(elem := element))
  {
    var heir := root.link[0];
    ghost var c := t.left;
    while heir.link[1] != null
      invariant c.Node? && heir == c.node && Heap(c) && Rightmost(c) == Rightmost(t.left)
      decreases c
    {
      heir := heir.link[1];
      c := c.right;
    }
    root.element := heir.element;
    element := heir.element;
    assert Heap(t.left) && Heap(t.right);
  }

  /** Hangs the subtree that the recursive removal returned, and goes on with the heights if it has shrunk. */
  method HangRemoved(root: TNode, dir: Dir, k: TNode?, kDone: bool, ghost t: Tree, ghost v: Tree)
    returns (r: TNode, done: bool, ghost u: Tree)
    requires t.Node? && root == t.node && Stored(t) && Heap(t.Kid(1 - dir)) && Balanced(t)
    requires k == Root(v) && Heap(v) && Balanced(v) && Distinct(t.WithKid(dir, v))
    requires Height(v) == if kDone then Height(t.Kid(dir)) else Height(t.Kid(dir)) - 1
    modifies Nodes(t.WithKid(dir, v))
    ensures r == Root(u) && Heap(u) && SameSet(t.WithKid(dir, v), u) && Balanced(u)
    ensures Height(u) == if done then Height(t) else Height(t) - 1
  {
    KidLevels(t, dir);
    u := t.WithKid(dir, v);
    KidsApart(u, dir);
    SetLink(root, dir, k, t, v);
    r, done := root, kDone;
    if !done {
      r, done, u := AfterRemove(root, dir, u, Height(t.Kid(dir)));
    }
  }

  /** Removes the element whose key equals that of `element`, which must be present. `done` is false exactly
      when the tree has become one level lower; `released` is what the caller's function is applied to. */
  method Remove(root: TNode, element: Element, ghost t: Tree)
    returns (r: TNode?, done: bool, released: Element, ghost u: Tree, ghost gone: Element, ghost freed: TNode)
    requires root == Root(t) && Heap(t) && Avl(t) && Has(Elems(t), element.key)
    modifies Nodes(t)
    ensures r == Root(u) && Heap(u) && Avl(u) && OneLess(t, u, element.key, gone, freed)
    ensures Height(u) == if done then Height(t) else Height(t) - 1
    ensures released == Released(t, element.key)
    decreases Count(t), 1
  {
    if Cmp(element, root.element) == 0 {
      if root.link[0] == null || root.link[1] == null {
        var dir: Dir := if root.link[0] == null then 1 else 0;
        r, done, released := root.link[dir], false, root.element;
        gone, freed, u := root.element, root, t.Kid(dir);
        KidReplaces(t, dir);
      } else {
        var heir := Heir(root, t);
        RightmostIsGreatest(t.left);
        ReleasedRightmost(t.left);
        ghost var v;
        r, done, released, u, v, gone, freed := RemoveBelow(root, heir, t.(elem := heir));
        HeirReplaces(t, v, gone, freed);
        gone := t.elem;
      }
    } else {
      ghost var v;
      ghost var dir: Dir := if Cmp(root.element, element) < 0 then 1 else 0;
      r, done, released, u, v, gone, freed := RemoveBelow(root, element, t);
      RemovedBelow(t, dir, v, element.key, gone, freed);
    }
  }

  /** The rest of a removal, from the choice of the side on. */
  method RemoveBelow(root: TNode, element: Element, ghost t: Tree)
    returns (r: TNode, done: bool, released: Element, ghost u: Tree, ghost v: Tree, ghost gone: Element, ghost freed: TNode)
    requires t.Node? && root == t.node && Heap(t) && Distinct(t) && Balanced(t)
    requires var k := t.Kid(if Cmp(root.element, element) < 0 then 1 else 0); Ordered(k) && Has(Elems(k), element.key)
    modifies Nodes(t)
    ensures var d := if Cmp(t.elem, element) < 0 then 1 else 0;
      && Distinct(v) && Ordered(v) && OneLess(t.Kid(d), v, element.key, gone, freed)
      && SameSet(t.WithKid(d, v), u)
      && released == Released(t.Kid(d), element.key)
    ensures r == Root(u) && Heap(u) && Distinct(u) && Balanced(u)
    ensures Height(u) == if done then Height(t) else Height(t) - 1
    decreases Count(t), 0
  {
    var dir: Dir := if Cmp(root.element, element) < 0 then 1 else 0;
    NodesAllocated(t);
    KidsApart(t, dir);
    KidLevels(t, dir);
    var k;
    k, done, released, v, gone, freed := Remove(root.link[dir], element, t.Kid(dir));
    DistinctBelow(t, dir, v);
    r, done, u := HangRemoved(root, dir, k, done, t, v);
  }
}
