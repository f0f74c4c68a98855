/** The two mailing lists of project0 side by side: what a program that adds and looks up sees of either. */
module MailRuns {
  import opened Options
  import opened MailEntries
  import MailLists
  import MailTables

  /** Addition `i` finds more than `size` other entries in its chain. */
  ghost predicate Overflow(es: seq<MEntry>, i: nat, size: nat)
    requires i < |es| && size > 0
  {
    !Present(AddedAll(es[..i]), es[i]) && |Colliding(AddedAll(es[..i]), es[i], size)| > size
  }

  /** Adds the entries to a new list. */
  method FillList(es: seq<MEntry>) returns (l: MailLists.MList)
    ensures fresh(l) && l.Valid() && l.Entries() == AddedAll(es)
  {
    l := new MailLists.MList();
    for i := 0 to |es|
      invariant fresh(l) && l.Valid() && l.Entries() == AddedAll(es[..i])
    {
      assert es[..i + 1][..i] == es[..i];
      l.Add(es[i]);
    }
    assert es[..|es|] == es;
  }

  /** None of the first `n` additions overflows a chain of the table as it is created. */
  ghost predicate NoOverflow(es: seq<MEntry>, n: nat)
    requires n <= |es|
  {
    forall i :: 0 <= i < n ==> !Overflow(es, i, MailTables.BUCKETS)
  }

  /** The table after `n` additions, none of which made it resize. */
  ghost predicate Small(t: MailTables.MList, es: seq<MEntry>, n: nat)
    requires n <= |es|
    reads t, t.hash, t.cells
  {
    t.Valid() && t.size == MailTables.BUCKETS && t.Entries() == AddedAll(es[..n]) && NoOverflow(es, n)
  }

  /** The table after `n` additions, the last of which made it resize. */
  ghost predicate Grown(t: MailTables.MList, es: seq<MEntry>, n: nat)
    requires n <= |es|
    reads t, t.hash, t.cells
  {
    && t.Stores() && t.Packed() && t.Entries() == AddedAll(es[..n])
    && 0 < n && NoOverflow(es, n - 1) && Overflow(es, n - 1, MailTables.BUCKETS)
  }

  method AddNth(t: MailTables.MList, es: seq<MEntry>, n: nat) returns (r: MailTables.MList, resized: bool)
    requires n < |es| && Small(t, es, n)
    modifies t`chains, t`rows, t`place, t`cells, t.cells
    ensures if resized then Grown(r, es, n + 1)
            else r == t && Small(r, es, n + 1) && forall x <- r.cells :: x in old(t.cells) || fresh(x)
  {
    assert es[..n + 1][..n] == es[..n];
    ghost var doubled;
    r, doubled := MailTables.Add(t, es[n]);
    resized := r.size != t.size;
  }

  /** Adds the entries to a new table, up to the first that makes it resize; `n` is how many were added. */
  method FillTable(es: seq<MEntry>) returns (t: MailTables.MList, n: nat, resized: bool)
    ensures n <= |es| && if resized then Grown(t, es, n) else n == |es| && Small(t, es, n)
  {
    t := MailTables.Create();
    resized := false;
    n := 0;
    while n < |es| && !resized
      invariant n <= |es|
      invariant if resized then Grown(t, es, n) else Small(t, es, n) && fresh(t) && fresh(t.cells)
    {
      t, resized := AddNth(t, es, n);
      n := n + 1;
    }
  }

  /** Whatever is added, a lookup in the list answers with the first equal entry added; and so does a lookup in
      the table, as long as no addition overflowed a chain. */
  method LookupInBoth(es: seq<MEntry>, e: MEntry) returns (inList: Option<MEntry>, inTable: Option<MEntry>)
    ensures inList == FirstSame(es, e)
    ensures NoOverflow(es, |es|) ==> inTable == inList
  {
    var l := FillList(es);
    inList := l.Lookup(e);
    FirstSameIsLookup(es, e);
    LookupsAgree(es, e, inList, FirstSame(es, e));
    var t, n, resized := FillTable(es);
    inTable := t.Lookup(e);
    if !resized {
      assert es[..n] == es;
      LookupsAgree(es, e, inTable, inList);
    }
  }

  // ----- a run in which the table forgets an entry

  ghost predicate AllDifferent(es: seq<MEntry>) {
    forall i, j :: 0 <= i < j < |es| ==> !Same(es[i], es[j])
  }

  ghost function SetOf(es: seq<MEntry>): set<MEntry> {
    set x | x in es
  }

  /** The next of several different entries is not there yet, and is added. */
  lemma NextDifferent(es: seq<MEntry>, i: nat)
    requires AllDifferent(es) && i < |es|
    ensures !Present(SetOf(es[..i]), es[i]) && es[i] !in SetOf(es[..i])
    ensures SetOf(es[..i + 1]) == SetOf(es[..i]) + {es[i]}
    ensures AddedAll(es[..i + 1]) == Added(AddedAll(es[..i]), es[i])
  {
    forall x | x in SetOf(es[..i]) ensures !Same(x, es[i]) {
      var k :| 0 <= k < i && es[..i][k] == x;
    }
    assert es[..i + 1][..i] == es[..i];
  }

  lemma {:induction false} DifferentAdded(es: seq<MEntry>, n: nat)
    requires AllDifferent(es) && n <= |es|
    ensures AddedAll(es[..n]) == SetOf(es[..n]) && |SetOf(es[..n])| == n
  {
    if n > 0 {
      DifferentAdded(es, n - 1);
      NextDifferent(es, n - 1);
    }
  }

  /** Different entries with one hash overflow their chain from the one after the size of the table on. */
  lemma OverflowOfDifferent(es: seq<MEntry>, i: nat, size: nat)
    requires AllDifferent(es) && i < |es| && size > 0
    requires forall j :: 0 <= j < |es| ==> Hash(es[j], size) == Hash(es[i], size)
    ensures Overflow(es, i, size) <==> i > size
  {
    DifferentAdded(es, i);
    NextDifferent(es, i);
    assert Colliding(AddedAll(es[..i]), es[i], size) == AddedAll(es[..i]);
  }

  /** Entries that differ in the house number only, all with hash 0. */
  function Colliders(n: nat): (es: seq<MEntry>)
    ensures |es| == n && forall i :: 0 <= i < n ==> es[i] == MEntry([], [], MailTables.BUCKETS * i, [])
  {
    seq(n, i requires 0 <= i < n => MEntry([], [], MailTables.BUCKETS * i, []))
  }

  const RUN: nat := MailTables.BUCKETS + 2

  /** Of that many, the last one, and none before it, overflows the chain they share. */
  lemma CollidersOverflow(es: seq<MEntry>)
    requires es == Colliders(RUN)
    ensures NoOverflow(es, RUN - 1) && Overflow(es, RUN - 1, MailTables.BUCKETS) && AddedAll(es) == SetOf(es)
  {
    forall i | 0 <= i < RUN ensures Hash(es[i], MailTables.BUCKETS) == 0 {
      assert (MailTables.BUCKETS * i) % WORD == MailTables.BUCKETS * i;
    }
    forall i | 0 <= i < RUN ensures Overflow(es, i, MailTables.BUCKETS) <==> i > MailTables.BUCKETS {
      OverflowOfDifferent(es, i, MailTables.BUCKETS);
    }
    DifferentAdded(es, RUN);
    assert es[..RUN] == es;
  }

  /** Twenty-two additions make a new table resize, and after that some of what was added is not found any more. */
  method AddColliders(es: seq<MEntry>) returns (t: MailTables.MList)
    requires es == Colliders(RUN)
    ensures t.Stores() && t.Packed() && t.Entries() == SetOf(es) && t.HiddenOnes() != {}
  {
    CollidersOverflow(es);
    var n, resized;
    t, n, resized := FillTable(es);
    assert es[..n] == es;
    assert es[0] in t.Entries();
    MailTables.HiddenEntries(t);
  }
}
