/** The circular doubly linked list with a free list of extraCredit/linkedlist.c.
    `T` stands for the pointers stored; a node on the free list stores `None`. Allocation succeeds. */
module LinkedLists {
  import opened Options

  const FL_INCREMENT: nat := 128

  class LLNode<T> {
    var next: LLNode?<T>
    var prev: LLNode?<T>
    var element: Option<T>

    constructor ()
      ensures element == None
    {
      next, prev, element := null, null, None;
    }
  }

  predicate NoDuplicates<X(==)>(s: seq<X>) {
    forall i, j :: 0 <= i < j < |s| ==> s[i] != s[j]
  }

  // ----- sequence operations

  function Inserted<X>(s: seq<X>, i: nat, x: X): seq<X>
    requires i <= |s|
  {
    s[..i] + [x] + s[i..]
  }

  function Removed<X>(s: seq<X>, i: nat): seq<X>
    requires i < |s|
  {
    s[..i] + s[i + 1..]
  }

  /** Insertion puts the element at its index and shifts what follows; removal there undoes it. */
  lemma InsertThenRemove<X>(s: seq<X>, i: nat, x: X)
    requires i <= |s|
    ensures var r := Inserted(s, i, x);
      && |r| == |s| + 1 && r[i] == x
      && (forall k :: 0 <= k < i ==> r[k] == s[k]) && (forall k :: i < k < |r| ==> r[k] == s[k - 1])
      && Removed(r, i) == s
  {
    assert Removed(Inserted(s, i, x), i) == s[..i] + s[i..];
  }

  /** Removal closes the gap; insertion there undoes it. */
  lemma RemoveThenInsert<X>(s: seq<X>, i: nat)
    requires i < |s|
    ensures var r := Removed(s, i);
      && |r| == |s| - 1
      && (forall k :: 0 <= k < i ==> r[k] == s[k]) && (forall k :: i <= k < |r| ==> r[k] == s[k + 1])
      && Inserted(r, i, s[i]) == s
  {
    assert Inserted(Removed(s, i), i, s[i]) == s[..i] + [s[i]] + s[i + 1..];
  }

  /** The least multiple of the batch size that is at least `n`. */
  function RoundUp(n: nat): nat {
    (n + FL_INCREMENT - 1) / FL_INCREMENT * FL_INCREMENT
  }

  lemma RoundUpIsLeast(n: nat, k: nat)
    ensures RoundUp(n) % FL_INCREMENT == 0 && n <= RoundUp(n)
    ensures n <= k && k % FL_INCREMENT == 0 ==> RoundUp(n) <= k
  {
  }

  /** One more node in use: from the free list, or from a new batch when there is none. */
  lemma OneMoreInUse(size: nat, free: nat, high: nat)
    requires size <= high && size + free == RoundUp(high)
    ensures size + 1 + (if free == 0 then FL_INCREMENT - 1 else free - 1) == RoundUp(Larger(high, size + 1))
  {
  }

  function Larger(a: nat, b: nat): nat {
    if a < b then b else a
  }

  class LinkedList<T> {
    var size: nat
    var freel: LLNode?<T>
    const sentinel: LLNode<T>

    /** The sentinel, the nodes in use in list order, and the sentinel again. */
    ghost var ring: seq<LLNode<T>>
    /** The nodes of the free list. */
    ghost var free: seq<LLNode<T>>
    /** The greatest size so far. */
    ghost var high: nat
    /** The number of nodes allocated so far, the sentinel not counted. */
    ghost var mallocs: nat

    /** The `next` links lead along the ring, the `prev` links back along it. */
    ghost predicate Linked()
      reads this, ring
    {
      && |ring| >= 2 && ring[0] == ring[|ring| - 1] == sentinel
      && (forall i, j :: 0 <= i < j < |ring| - 1 ==> ring[i] != ring[j])
      && (forall i {:trigger ring[i].next} :: 0 <= i < |ring| - 1 ==> ring[i].next == ring[i + 1])
      && (forall i {:trigger ring[i].prev} :: 0 < i < |ring| ==> ring[i].prev == ring[i - 1])
      && (forall i {:trigger ring[i].element} :: 0 < i < |ring| - 1 ==> ring[i].element.Some?)
    }

    ghost predicate FreeLinked()
      reads this, free
    {
      && NoDuplicates(free)
      && freel == (if free == [] then null else free[0])
      && (forall i {:trigger free[i].next} :: 0 <= i < |free| ==>
            free[i].next == if i + 1 < |free| then free[i + 1] else null)
    }

    ghost predicate Shape()
      reads this, ring, free
    {
      Linked() && FreeLinked() && size == |ring| - 2 && forall x <- ring :: x !in free
    }

    /** Every node ever allocated is in use or free, and their number is the least multiple of the batch size
        that is at least the greatest size so far. */
    ghost predicate Valid()
      reads this, ring, free
    {
      Shape() && size <= high && mallocs == size + |free| == RoundUp(high)
    }

    /** The abstract list. */
    ghost function Contents(): seq<T>
      requires Linked()
      reads this, ring
    {
      seq(|ring| - 2, i requires 0 <= i < |ring| - 2 && Linked() reads this, ring => ring[i + 1].element.value)
    }

    /** Every node of the list was one of its nodes before, or is newly allocated. */
    twostate predicate Owned()
      reads this
    {
      && (forall x <- ring :: x in old(ring) || x in old(free) || fresh(x))
      && (forall x <- free :: x in old(ring) || x in old(free) || fresh(x))
    }

    constructor ()
      ensures Valid() && fresh(set x | x in ring + free) && Contents() == [] && high == 0
    {
      var s := new LLNode<T>();
      sentinel := s;
      size := 0;
      freel := null;
      ring := [s, s];
      free := [];
      high := 0;
      mallocs := 0;
      new;
      sentinel.next := sentinel;
      sentinel.prev := sentinel;
    }

    method PutEntry(p: LLNode<T>)
      requires FreeLinked() && p !in free
      modifies this`freel, this`free, p`element, p`next
      ensures FreeLinked() && free == [p] + old(free)
    {
      p.element := None;
      p.next := freel;
      freel := p;
      free := [p] + free;
    }

    method GetEntry() returns (p: LLNode<T>)
      requires Shape()
      modifies this`freel, this`free, this`mallocs
      ensures Shape() && p !in ring && p !in free
      ensures (fresh(p) || p in old(free)) && Owned()
      ensures |free| == if old(free) == [] then FL_INCREMENT - 1 else |old(free)| - 1
      ensures mallocs == old(mallocs) + if old(free) == [] then FL_INCREMENT else 0
      ensures Contents() == old(Contents())
    {
      if freel == null {
        for i := 0 to FL_INCREMENT
          invariant mallocs == old(mallocs) + i
          invariant FreeLinked() && |free| == i && fresh(set x | x in free) && unchanged(ring)
        {
          var q := new LLNode<T>();
          mallocs := mallocs + 1;
          PutEntry(q);
        }
      }
      p := freel;
      freel := p.next;
      free := free[1..];
    }

    /** Links `p` into the ring after position `i`; the neighbours may both be the sentinel. */
    method Link(before: LLNode<T>, p: LLNode<T>, after: LLNode<T>, ghost i: nat)
      requires Linked() && i + 1 < |ring| && before == ring[i] && after == ring[i + 1]
      requires p !in ring && p.element.Some?
      modifies this`ring, p`next, p`prev, before`next, after`prev
      ensures Linked() && ring == old(ring[..i + 1]) + [p] + old(ring[i + 1..])
      ensures Contents() == Inserted(old(Contents()), i, p.element.value)
    {
      SetLinks(before, p, after, i);
      assert Contents() == Inserted(old(Contents()), i, p.element.value);
    }

    method SetLinks(before: LLNode<T>, p: LLNode<T>, after: LLNode<T>, ghost i: nat)
      requires Linked() && i + 1 < |ring| && before == ring[i] && after == ring[i + 1]
      requires p !in ring && p.element.Some?
      modifies this`ring, p`next, p`prev, before`next, after`prev
      ensures Linked() && ring == old(ring[..i + 1]) + [p] + old(ring[i + 1..])
    {
      p.next := after;
      p.prev := before;
      after.prev := p;
      before.next := p;
      ring := ring[..i + 1] + [p] + ring[i + 1..];
    }

    /** Unlinks the node at position `i + 1` of the ring. */
    method Unlink(p: LLNode<T>, ghost i: nat)
      requires Linked() && i + 2 < |ring| && p == ring[i + 1] && p.prev == ring[i] && p.next == ring[i + 2]
      modifies this`ring, p.prev, p.next
      ensures Linked() && ring == old(ring[..i + 1]) + old(ring[i + 2..])
      ensures p !in ring
      ensures Contents() == Removed(old(Contents()), i)
    {
      p.prev.next := p.next;
      p.next.prev := p.prev;
      ring := ring[..i + 1] + ring[i + 2..];
    }

    /** Fills `p` and links it in after position `i`. */
    method LinkNew(before: LLNode<T>, p: LLNode<T>, after: LLNode<T>, element: T, ghost i: nat)
      requires Shape() && i + 1 < |ring| && before == ring[i] && after == ring[i + 1]
      requires p !in ring && p !in free
      modifies this`ring, this`size, p, before`next, after`prev
      ensures Shape() && size == old(size) + 1 && forall x <- ring :: x == p || x in old(ring)
      ensures Contents() == Inserted(old(Contents()), i, element)
    {
      assert before in ring && after in ring;
      p.element := Some(element);
      Link(before, p, after, i);
      size := size + 1;
    }

    /** The index loops: `index` steps along the `next` links. */
    method Walk(start: LLNode<T>, index: nat, ghost i: nat) returns (p: LLNode<T>)
      requires Linked() && i + index < |ring| && start == ring[i]
      ensures p == ring[i + index]
    {
      p := start;
      for n := 0 to index
        invariant p == ring[i + n]
      {
        p := p.next;
      }
    }

    /** Walks to the insertion point and links `p` in there. */
    method LinkAt(p: LLNode<T>, index: nat, element: T)
      requires Shape() && index <= size && p !in ring && p !in free
      modifies this`ring, this`size, p, ring
      ensures Shape() && size == old(size) + 1 && forall x <- ring :: x == p || x in old(ring)
      ensures Contents() == Inserted(old(Contents()), index, element)
    {
      var b := Walk(sentinel, index, 0);
      LinkNew(b, p, b.next, element, index);
    }

    method InsertNew(index: nat, element: T)
      requires Valid() && index <= size
      modifies this, ring, free
      ensures Valid() && Owned()
      ensures Contents() == Inserted(old(Contents()), index, element)
      ensures high == Larger(old(high), |Contents()|)
    {
      OneMoreInUse(size, |free|, high);
      var p := GetEntry();
      LinkAt(p, index, element);
      high := Larger(high, size);
    }

    method Insert(index: nat, element: T) returns (status: bool)
      requires Valid()
      modifies this, ring, free
      ensures Valid() && Owned()
      ensures status <==> index <= |old(Contents())|
      ensures Contents() == if status then Inserted(old(Contents()), index, element) else old(Contents())
      ensures high == Larger(old(high), |Contents()|)
    {
      status := false;
      if index <= size {
        InsertNew(index, element);
        status := true;
      }
    }

    method AddFirst(element: T) returns (status: bool)
      requires Valid()
      modifies this, ring, free
      ensures Valid() && Owned()
      ensures status && Contents() == Inserted(old(Contents()), 0, element)
      ensures high == Larger(old(high), |Contents()|)
    {
      OneMoreInUse(size, |free|, high);
      var p := GetEntry();
      status := true;
      LinkNew(sentinel, p, sentinel.next, element, 0);
      high := Larger(high, size);
    }

    method AddLast(element: T) returns (status: bool)
      requires Valid()
      modifies this, ring, free
      ensures Valid() && Owned()
      ensures status && Contents() == Inserted(old(Contents()), |old(Contents())|, element)
      ensures high == Larger(old(high), |Contents()|)
    {
      OneMoreInUse(size, |free|, high);
      var p := GetEntry();
      status := true;
      LinkNew(sentinel.prev, p, sentinel, element, size);
      high := Larger(high, size);
    }

    method Add(element: T) returns (status: bool)
      requires Valid()
      modifies this, ring, free
      ensures Valid() && Owned()
      ensures status && Contents() == old(Contents()) + [element]
      ensures high == Larger(old(high), |Contents()|)
    {
      status := AddLast(element);
    }

    // ----- removal and access

    /** Takes the node at position `i` of the list out and puts it on the free list. */
    method Drop(p: LLNode<T>, ghost i: nat) returns (element: T)
      requires Valid() && i < size && p == ring[i + 1]
      modifies this, ring
      ensures Valid() && Owned() && high == old(high)
      ensures element == old(Contents())[i] && Contents() == Removed(old(Contents()), i)
    {
      element := p.element.value;
      assert ring[i] in ring && ring[i + 2] in ring;
      Unlink(p, i);
      PutEntry(p);
      size := size - 1;
    }

    method Remove(index: nat) returns (element: Option<T>)
      requires Valid()
      modifies this, ring
      ensures Valid() && Owned() && high == old(high)
      ensures element == if index < |old(Contents())| then Some(old(Contents())[index]) else None
      ensures Contents() == if index < |old(Contents())| then Removed(old(Contents()), index) else old(Contents())
    {
      element := None;
      if index < size {
        var p := Walk(sentinel.next, index, 1);
        var e := Drop(p, index);
        element := Some(e);
      }
    }

    method RemoveFirst() returns (element: Option<T>)
      requires Valid()
      modifies this, ring
      ensures Valid() && Owned() && high == old(high)
      ensures old(Contents()) == [] ==> element == None && Contents() == []
      ensures old(Contents()) != [] ==> element.Some? && old(Contents()) == [element.value] + Contents()
    {
      element := None;
      var p := sentinel.next;
      if p != sentinel {
        var e := Drop(p, 0);
        element := Some(e);
      }
    }

    method RemoveLast() returns (element: Option<T>)
      requires Valid()
      modifies this, ring
      ensures Valid() && Owned() && high == old(high)
      ensures old(Contents()) == [] ==> element == None && Contents() == []
      ensures old(Contents()) != [] ==> element.Some? && old(Contents()) == Contents() + [element.value]
    {
      element := None;
      var p := sentinel.prev;
      if p != sentinel {
        var e := Drop(p, size - 1);
        element := Some(e);
      }
    }

    method Get(index: nat) returns (element: Option<T>)
      requires Valid()
      ensures element == if index < |Contents()| then Some(Contents()[index]) else None
    {
      element := None;
      if index < size {
        var p := Walk(sentinel.next, index, 1);
        element := p.element;
      }
    }

    method GetFirst() returns (element: Option<T>)
      requires Valid()
      ensures element == if Contents() == [] then None else Some(Contents()[0])
    {
      element := None;
      var p := sentinel.next;
      if p != sentinel {
        element := p.element;
      }
    }

    method GetLast() returns (element: Option<T>)
      requires Valid()
      ensures element == if Contents() == [] then None else Some(Contents()[|Contents()| - 1])
    {
      element := None;
      var p := sentinel.prev;
      if p != sentinel {
        element := p.element;
      }
    }

    method Set(index: nat, element: T) returns (previous: Option<T>)
      requires Valid()
      modifies ring
      ensures Valid()
      ensures previous == if index < |old(Contents())| then Some(old(Contents())[index]) else None
      ensures Contents() == if index < |old(Contents())| then old(Contents())[index := element] else old(Contents())
    {
      previous := None;
      if index < size {
        var p := Walk(sentinel.next, index, 1);
        previous := p.element;
        p.element := Some(element);
      }
    }

    /** Puts every node in use on the free list, which then holds them in reverse order. */
    method Purge()
      requires Shape()
      modifies this`freel, this`free, ring
      ensures FreeLinked() && sentinel !in free
      ensures free == Reversed(old(ring[1..|ring| - 1])) + old(free)
      ensures forall x <- free :: x in old(ring) || x in old(free)
    {
      var cur := sentinel.next;
      ghost var i := 1;
      ghost var done := [];
      while cur != sentinel
        invariant 1 <= i < |ring| && cur == ring[i] && done == Reversed(ring[1..i])
        invariant FreeLinked() && free == done + old(free)
        invariant forall j :: i <= j < |ring| ==> ring[j] !in free
        invariant forall x <- done :: x in ring
        invariant forall j {:trigger ring[j].next} :: i <= j < |ring| - 1 ==> ring[j].next == ring[j + 1]
        decreases |ring| - i
      {
        var next := cur.next;
        PurgedOne(ring, i, done, old(free));
        PutEntry(cur);
        done := [cur] + done;
        cur := next;
        i := i + 1;
      }
    }

    lemma PurgedOne(r: seq<LLNode<T>>, i: nat, done: seq<LLNode<T>>, rest: seq<LLNode<T>>)
      requires 1 <= i < |r| && done == Reversed(r[1..i])
      ensures [r[i]] + done == Reversed(r[1..i + 1])
      ensures [r[i]] + (done + rest) == ([r[i]] + done) + rest
    {
      ReversedSnoc(r[1..i], r[i]);
      assert r[1..i + 1] == r[1..i] + [r[i]];
    }

    method Clear()
      requires Valid()
      modifies this, ring
      ensures Valid() && Owned() && high == old(high)
      ensures Contents() == []
    {
      Purge();
      size := 0;
      sentinel.next := sentinel;
      sentinel.prev := sentinel;
      ring := [sentinel, sentinel];
    }

    method GenArray() returns (tmp: array?<Option<T>>)
      requires Valid()
      ensures tmp == null <==> Contents() == []
      ensures tmp != null ==> fresh(tmp) && tmp.Length == |Contents()|
      ensures tmp != null ==> forall i :: 0 <= i < tmp.Length ==> tmp[i] == Some(Contents()[i])
    {
      tmp := null;
      if size > 0 {
        tmp := new Option<T>[size](_ => None);
        var p := sentinel.next;
        for i := 0 to size
          invariant p == ring[i + 1]
          invariant forall j :: 0 <= j < i ==> tmp[j] == ring[j + 1].element
        {
          tmp[i] := p.element;
          p := p.next;
        }
      }
    }
  }

  lemma ReversedSnoc<X>(s: seq<X>, x: X)
    ensures Reversed(s + [x]) == [x] + Reversed(s)
  {
    assert (s + [x])[..|s|] == s;
  }

  function Reversed<X>(s: seq<X>): (r: seq<X>)
    ensures |r| == |s|
  {
    if s == [] then [] else [s[|s| - 1]] + Reversed(s[..|s| - 1])
  }
}
