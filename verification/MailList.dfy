/** The simple mailing list of project0/project0/mlistLL.c: a linked list, newest entry first. */
module MailLists {
  import opened Options
  import opened MailEntries

  class MListNode {
    var next: MListNode?
    var entry: MEntry

    constructor (entry: MEntry, next: MListNode?)
      ensures this.entry == entry && this.next == next
    {
      this.entry := entry;
      this.next := next;
    }
  }

  class MList {
    var first: MListNode?
    var last: MListNode?
    ghost var nodes: seq<MListNode>
    ghost var entries: seq<MEntry>   // what they hold

    ghost predicate Valid()
      reads this, nodes
    {
      && first == (if nodes == [] then null else nodes[0])
      && last == (if nodes == [] then null else nodes[|nodes| - 1])
      && (forall i {:trigger nodes[i].next} :: 0 <= i < |nodes| ==>
            nodes[i].next == if i + 1 < |nodes| then nodes[i + 1] else null)
      && |entries| == |nodes|
      && (forall i {:trigger nodes[i].entry} {:trigger entries[i]} :: 0 <= i < |nodes| ==> nodes[i].entry == entries[i])
      && DistinctKeys(Entries())
    }

    ghost function Entries(): set<MEntry>
      reads this
    {
      set e | e in entries
    }

    constructor ()
      ensures Valid() && Entries() == {}
    {
      first := null;
      last := null;
      nodes := [];
      entries := [];
    }

    method Lookup(me: MEntry) returns (r: Option<MEntry>)
      requires Valid()
      ensures IsLookup(Entries(), me, r)
    {
      var q := first;
      ghost var i := 0;
      while q != null
        invariant i <= |nodes| && q == if i < |nodes| then nodes[i] else null
        invariant forall j :: 0 <= j < i ==> !Same(entries[j], me)
        decreases |nodes| - i
      {
        if MeCompare(me, q.entry) == 0 {
          return Some(q.entry);
        }
        q := q.next;
        i := i + 1;
      }
      r := None;
    }

    method Add(me: MEntry)
      requires Valid()
      modifies this
      ensures Valid() && Entries() == Added(old(Entries()), me)
      ensures entries == (if old(Present(Entries(), me)) then [] else [me]) + old(entries)
    {
      var found := Lookup(me);
      if found == None {
        var q := new MListNode(me, first);
        first := q;
        if last == null {
          last := q;
        }
        nodes := [q] + nodes;
        entries := [me] + entries;
        assert Entries() == old(Entries()) + {me};
      }
    }
  }
}
