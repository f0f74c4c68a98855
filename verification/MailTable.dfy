/** The chained hash table of project0/project0/mlist.c. Each chain ends in an empty dummy node, until the first
    resize, which does not put the dummies back. Nodes carry their table, chain and position as ghost labels. */
module MailTables {
  import opened Options
  import opened MailEntries

  const BUCKETS: nat := 20

  class Bucket {
    var next: Bucket?
    var entry: Option<MEntry>    // None: never written
    var inVal: int
    ghost var owner: MList?
    ghost var home: nat
    ghost var pos: nat

    constructor ()
      ensures next == null && entry == None && inVal == 0 && owner == null
    {
      next, entry, inVal := null, None, 0;
      owner, home, pos := null, 0, 0;
    }
  }

  // ----- which entries the chains hold

  /** Row `i` lists the entries of chain `i`: exactly the stored entries with that hash, each at its place. */
  ghost predicate Indexed(rows: seq<seq<MEntry>>, place: map<MEntry, nat>) {
    && |rows| > 0
    && (forall i, j {:trigger rows[i][j]} :: 0 <= i < |rows| && 0 <= j < |rows[i]| ==>
          rows[i][j] in place && place[rows[i][j]] == j && Hash(rows[i][j], |rows|) == i)
    && (forall e {:trigger e in place} :: e in place ==>
          place[e] < |rows[Hash(e, |rows|)]| && rows[Hash(e, |rows|)][place[e]] == e)
  }

  lemma IndexedAppend(rows: seq<seq<MEntry>>, place: map<MEntry, nat>, e: MEntry)
    requires Indexed(rows, place) && e !in place
    ensures var h := Hash(e, |rows|);
      Indexed(rows[h := rows[h] + [e]], place[e := |rows[h]|])
  {
    var h := Hash(e, |rows|);
    var rows', place' := rows[h := rows[h] + [e]], place[e := |rows[h]|];
    forall x | x in place' ensures place'[x] < |rows'[Hash(x, |rows'|)]| && rows'[Hash(x, |rows'|)][place'[x]] == x {
    }
  }

  lemma DistinctAdded(entries: set<MEntry>, e: MEntry)
    requires DistinctKeys(entries) && forall x <- entries :: !Same(x, e)
    ensures DistinctKeys(entries + {e}) && e !in entries
  {
  }

  lemma {:induction false} NoDuplicatesCount<T>(s: seq<T>)
    requires forall i, j :: 0 <= i < j < |s| ==> s[i] != s[j]
    ensures |set x | x in s| == |s|
  {
    if s != [] {
      var n := |s| - 1;
      NoDuplicatesCount(s[..n]);
      assert (set x | x in s) == (set x | x in s[..n]) + {s[n]};
    }
  }

  /** A row is as long as there are stored entries with its hash. */
  lemma RowLength(rows: seq<seq<MEntry>>, place: map<MEntry, nat>, me: MEntry)
    requires Indexed(rows, place)
    ensures |rows[Hash(me, |rows|)]| == |Colliding(place.Keys, me, |rows|)|
  {
    var h := Hash(me, |rows|);
    assert forall i, j :: 0 <= i < j < |rows[h]| ==> place[rows[h][i]] == i && place[rows[h][j]] == j;
    NoDuplicatesCount(rows[h]);
    assert (set x | x in rows[h]) == Colliding(place.Keys, me, |rows|) by {
      forall x | x in Colliding(place.Keys, me, |rows|) ensures x in rows[h] { assert rows[h][place[x]] == x; }
      forall x | x in rows[h] ensures x in place && Hash(x, |rows|) == h {
        var j :| 0 <= j < |rows[h]| && rows[h][j] == x;
        assert rows[h][j] in place;
      }
    }
  }

  /** What the search of one row means for the table. */
  lemma SearchMeaning(rows: seq<seq<MEntry>>, place: map<MEntry, nat>, me: MEntry, length: nat, r: Option<MEntry>, j: nat)
    requires Indexed(rows, place) && DistinctKeys(place.Keys)
    requires var row := rows[Hash(me, |rows|)];
      && 0 < length && length - 1 <= |row| <= length && j < length
      && (forall k :: 0 <= k < j ==> !Same(row[k], me))
      && if r == None then j == length - 1 else j < length - 1 && r == Some(row[j]) && Same(row[j], me)
    ensures r.Some? ==> r.value in place && Same(r.value, me)
    ensures forall e <- place.Keys :: Same(e, me) ==> (r == None <==> place[e] == length - 1)
    ensures length - 1 == |rows[Hash(me, |rows|)]| ==> IsLookup(place.Keys, me, r)
  {
    forall e | e in place && Same(e, me)
      ensures place[e] < |rows[Hash(me, |rows|)]| && (r == None <==> place[e] == length - 1)
    {
      SameHash(e, me, |rows|);
      assert rows[Hash(e, |rows|)][place[e]] == e;
    }
  }

  class MList {
    var size: nat
    var hash: array<Bucket>
    ghost var chains: seq<seq<Bucket>>
    ghost var rows: seq<seq<MEntry>>
    ghost var place: map<MEntry, nat>
    ghost var cells: set<Bucket>         // every node of the chains

    ghost predicate Linked()
      reads this`size, this`hash, this`chains, this`cells, hash, cells`next, cells`owner, cells`home, cells`pos
    {
      && hash.Length == size == |chains| && size > 0
      && (forall i :: 0 <= i < size ==> |chains[i]| > 0 && hash[i] == chains[i][0])
      && (forall i, j :: 0 <= i < size && 0 <= j < |chains[i]| ==> chains[i][j] in cells)
      && (forall x <- cells :: x.owner == this)
      && (forall i, j {:trigger chains[i][j]} :: 0 <= i < size && 0 <= j < |chains[i]| ==>
            chains[i][j].home == i && chains[i][j].pos == j)
      && (forall i, j {:trigger chains[i][j].next} :: 0 <= i < size && 0 <= j < |chains[i]| ==>
            chains[i][j].next == if j + 1 < |chains[i]| then chains[i][j + 1] else null)
    }

    /** The nodes of each chain, but perhaps the last one, hold the entries of its row. */
    ghost predicate Holds()
      requires Linked()
      reads this`size, this`hash, this`chains, this`cells, this`rows, hash, cells`next, cells`owner, cells`home, cells`pos, cells`entry
    {
      && |rows| == size
      && (forall i :: 0 <= i < size ==> |chains[i]| - 1 <= |rows[i]| <= |chains[i]|)
      && (forall i, j {:trigger chains[i][j].entry} :: 0 <= i < size && 0 <= j < |rows[i]| ==>
            chains[i][j].entry == Some(rows[i][j]))
    }

    /** Every chain ends in a node that holds no entry. */
    ghost predicate DummyTails()
      reads this`rows, this`chains
    {
      |rows| == |chains| && forall i :: 0 <= i < |chains| ==> |rows[i]| == |chains[i]| - 1
    }

    ghost predicate Stores()
      reads this, hash, cells
    {
      Linked() && Holds() && Indexed(rows, place) && DistinctKeys(Entries())
    }

    ghost predicate Valid()
      reads this, hash, cells
    {
      Stores() && DummyTails()
    }

    ghost function Entries(): set<MEntry>
      reads this
    {
      place.Keys
    }

    /** A table of empty chains. */
    constructor (size: nat)
      requires size > 0
      ensures Valid() && Packed() && this.size == size && Entries() == {} && fresh(hash) && fresh(cells)
    {
      this.size := size;
      var d := new Bucket();
      var h := new Bucket[size](_ => d);
      hash := h;
      place := map[];
      new;
      AddDummies();
    }

    /** Gives every chain its dummy. */
    method AddDummies()
      requires hash.Length == size > 0 && place == map[]
      modifies this`chains, this`rows, this`cells, hash
      ensures Valid() && Packed() && fresh(cells)
    {
      ghost var bs := NewDummies();
      chains := seq(size, i requires 0 <= i < |bs| => [bs[i]]);
      rows := seq(size, _ => []);
      cells := set x | x in bs;
      assert Linked();
    }

    method NewDummies() returns (ghost bs: seq<Bucket>)
      requires hash.Length == size
      modifies hash
      ensures |bs| == size && fresh(set x | x in bs)
      ensures forall k {:trigger bs[k]} :: 0 <= k < size ==>
        && hash[k] == bs[k] && bs[k].owner == this && bs[k].home == k && bs[k].pos == 0
        && bs[k].next == null && bs[k].inVal == 0
    {
      bs := [];
      for i := 0 to size
        invariant |bs| == i && fresh(set x | x in bs)
        invariant forall k {:trigger bs[k]} :: 0 <= k < i ==>
          && hash[k] == bs[k] && bs[k].owner == this && bs[k].home == k && bs[k].pos == 0
          && bs[k].next == null && bs[k].inVal == 0
      {
        var b := new Bucket();
        b.owner, b.home, b.pos := this, i, 0;
        hash[i] := b;
        bs := bs + [b];
      }
    }

    /** The comparison loop over the nodes of chain `h` that have a successor. */
    method Search(h: nat, me: MEntry) returns (r: Option<MEntry>, ghost j: nat)
      requires Linked() && Holds() && h < size
      ensures j < |chains[h]|
      ensures forall k :: 0 <= k < j ==> !Same(rows[h][k], me)
      ensures if r == None then j == |chains[h]| - 1 else j < |chains[h]| - 1 && r == Some(rows[h][j]) && Same(rows[h][j], me)
    {
      var b := hash[h];
      j := 0;
      while b.next != null
        invariant j < |chains[h]| && b == chains[h][j]
        invariant forall k :: 0 <= k < j ==> !Same(rows[h][k], me)
        decreases |chains[h]| - j
      {
        assert chains[h][j].entry == Some(rows[h][j]);
        if MeCompare(b.entry.value, me) == 0 {
          return b.entry, j;
        }
        b := b.next;
        j := j + 1;
      }
      r := None;
    }

    /** Entry `e` is stored in the last node of its chain, where no lookup looks. */
    ghost predicate Hidden(e: MEntry)
      requires Stores()
      reads this, hash, cells
    {
      e in place && place[e] == |chains[Hash(e, size)]| - 1
    }

    ghost function HiddenOnes(): set<MEntry>
      requires Stores()
      reads this, hash, cells
    {
      set e | e in place && Hidden(e)
    }

    /** A lookup finds the entry that is the same, except when it sits in the last node of its chain. */
    method Lookup(me: MEntry) returns (r: Option<MEntry>)
      requires Stores()
      ensures DummyTails() ==> IsLookup(Entries(), me, r)
      ensures r.Some? ==> r.value in Entries() && Same(r.value, me)
      ensures forall e <- Entries() :: Same(e, me) ==> (r == None <==> e in HiddenOnes())
    {
      var h := MeHash(me, size);
      ghost var j;
      r, j := Search(h, me);
      SearchMeaning(rows, place, me, |chains[h]|, r, j);
    }

    /** The walk to the end of a chain; the result is the number of nodes before it. */
    method Tail(h: nat) returns (cur: Bucket, bucketSize: nat)
      requires Linked() && h < size
      ensures bucketSize == |chains[h]| - 1 && cur == chains[h][bucketSize]
    {
      cur := hash[h];
      bucketSize := 0;
      while cur.next != null
        invariant bucketSize < |chains[h]| && cur == chains[h][bucketSize]
        decreases |chains[h]| - bucketSize
      {
        cur := cur.next;
        bucketSize := bucketSize + 1;
      }
    }

    /** Hangs the node `b` behind the last node `cur` of chain `h`. */
    method Hang(h: nat, cur: Bucket, b: Bucket)
      requires Linked() && h < size && cur == chains[h][|chains[h]| - 1] && b.owner != this && b.next == null
      modifies this`chains, this`cells, cur`next, b`owner, b`home, b`pos
      ensures Linked() && chains == old(chains)[h := old(chains)[h] + [b]] && cells == old(cells) + {b}
    {
      cur.next := b;
      b.owner, b.home, b.pos := this, h, |chains[h]|;
      chains := chains[h := chains[h] + [b]];
      cells := cells + {b};
    }

    /** Writes an absent entry into the dummy at the end of its chain and hangs a new dummy behind it.
        The result is the number of entries that were in the chain before. */
    method Append(me: MEntry) returns (bucketSize: nat)
      requires Valid() && forall e <- Entries() :: !Same(e, me)
      modifies this`chains, this`rows, this`place, this`cells, cells
      ensures Valid() && Entries() == old(Entries()) + {me}
      ensures bucketSize == |old(rows)[Hash(me, size)]| && fresh(cells - old(cells))
      ensures rows == old(rows)[Hash(me, size) := old(rows)[Hash(me, size)] + [me]]
    {
      var h := MeHash(me, size);
      IndexedAppend(rows, place, me);
      DistinctAdded(Entries(), me);
      bucketSize := Extend(h, me);
    }

    method Extend(h: nat, me: MEntry) returns (bucketSize: nat)
      requires Linked() && Holds() && DummyTails() && h < size
      modifies this`chains, this`rows, this`place, this`cells, cells
      ensures Linked() && Holds() && DummyTails() && fresh(cells - old(cells))
      ensures bucketSize == |old(rows)[h]| && rows == old(rows)[h := old(rows)[h] + [me]]
      ensures place == old(place)[me := bucketSize]
    {
      var newBucket := new Bucket();
      var cur;
      cur, bucketSize := Tail(h);
      WriteAndHang(h, bucketSize, cur, newBucket, me);
    }

    method WriteAndHang(h: nat, ghost n: nat, cur: Bucket, newBucket: Bucket, me: MEntry)
      requires Linked() && Holds() && DummyTails() && h < size && n == |rows[h]| && cur == chains[h][n]
      requires newBucket.owner == null && newBucket.next == null
      modifies this`chains, this`rows, this`place, this`cells, cur, newBucket
      ensures Linked() && Holds() && DummyTails() && cells == old(cells) + {newBucket}
      ensures rows == old(rows)[h := old(rows)[h] + [me]] && place == old(place)[me := n]
    {
      rows, place := rows[h := rows[h] + [me]], place[me := n];
      Hang(h, cur, newBucket);
      WriteEntry(h, n, cur, me);
      forall i, j | 0 <= i < size && 0 <= j < |rows[i]| ensures chains[i][j].entry == Some(rows[i][j]) {
        if i != h || j != n {
          assert chains[i][j] == old(chains)[i][j] && rows[i][j] == old(rows)[i][j];
        }
      }
    }

    method WriteEntry(h: nat, ghost n: nat, cur: Bucket, me: MEntry)
      requires Linked() && h < size && n < |chains[h]| && cur == chains[h][n]
      modifies cur`entry
      ensures Linked() && chains[h][n].entry == Some(me)
      ensures forall i, j :: 0 <= i < size && 0 <= j < |chains[i]| && (i != h || j != n) ==>
        chains[i][j].entry == old(chains[i][j].entry)
    {
      assert chains[h][n].home == h;
      cur.entry := Some(me);
    }

    // ----- resizing

    /** Chains without dummies: an untouched dummy, or entries only. The mark in the first node tells how many. */
    ghost predicate Packed()
      requires Linked()
      reads this`size, this`hash, this`chains, this`cells, this`rows, hash, cells`next, cells`owner, cells`home, cells`pos, cells`inVal
    {
      && |rows| == size
      && forall i :: 0 <= i < size ==>
           if rows[i] == [] then |chains[i]| == 1 && chains[i][0].inVal == 0
           else |rows[i]| == |chains[i]| && chains[i][0].inVal == if |rows[i]| == 1 then 1 else 2
    }

    /** Links a node that holds an entry into chain `h`; the first one takes the place of the dummy. */
    method Relink(h: nat, data: Bucket, ghost e: MEntry)
      requires Linked() && Holds() && Packed() && h < size
      requires data.owner != this && data.next == null && data.entry == Some(e)
      modifies this`chains, this`rows, this`place, this`cells, hash, cells`next, cells`inVal, data`next, data`inVal, data`owner, data`home, data`pos
      ensures Linked() && Holds() && Packed()
      ensures rows == old(rows)[h := old(rows)[h] + [e]] && place == old(place)[e := |old(rows)[h]|]
      ensures cells == old(cells) + {data}
      ensures chains == old(chains)[h := if old(rows)[h] == [] then [data] else old(chains)[h] + [data]]
    {
      var addData, _ := Tail(h);
      if hash[h].inVal == 0 {
        ReplaceDummy(h, data, e);
        assert old(rows)[h] + [e] == [e];
      } else if hash[h].inVal == 1 {
        HangMarked(h, hash[h], hash[h], data, e);
      } else {
        HangMarked(h, hash[h], addData, data, e);
      }
    }

    method HangMarked(h: nat, head: Bucket, cur: Bucket, data: Bucket, ghost e: MEntry)
      requires Linked() && Holds() && Packed() && h < size && rows[h] != [] && head == hash[h] && cur == chains[h][|chains[h]| - 1]
      requires data.owner != this && data.next == null && data.entry == Some(e)
      modifies this`chains, this`rows, this`place, this`cells, cur`next, head`inVal, data`owner, data`home, data`pos
      ensures Linked() && Holds() && Packed()
      ensures rows == old(rows)[h := old(rows)[h] + [e]] && place == old(place)[e := |old(rows)[h]|]
      ensures cells == old(cells) + {data}
      ensures chains == old(chains)[h := old(chains)[h] + [data]]
    {
      HangEntry(h, cur, data, e);
      if head.inVal == 1 {
        head.inVal := 2;
      }
    }

    method HangEntry(h: nat, cur: Bucket, data: Bucket, ghost e: MEntry)
      requires Linked() && Holds() && h < size && |rows[h]| == |chains[h]| && cur == chains[h][|chains[h]| - 1]
      requires data.owner != this && data.next == null && data.entry == Some(e)
      modifies this`chains, this`rows, this`place, this`cells, cur`next, data`owner, data`home, data`pos
      ensures Linked() && Holds() && cells == old(cells) + {data}
      ensures rows == old(rows)[h := old(rows)[h] + [e]] && place == old(place)[e := |old(rows)[h]|]
      ensures chains == old(chains)[h := old(chains)[h] + [data]]
    {
      rows, place := rows[h := rows[h] + [e]], place[e := |rows[h]|];
      Hang(h, cur, data);
    }

    method ReplaceDummy(h: nat, data: Bucket, ghost e: MEntry)
      requires Linked() && Holds() && Packed() && h < size && rows[h] == []
      requires data.owner != this && data.next == null && data.entry == Some(e)
      modifies this`chains, this`rows, this`place, this`cells, hash, data`inVal, data`owner, data`home, data`pos
      ensures Linked() && Holds() && Packed()
      ensures rows == old(rows)[h := [e]] && place == old(place)[e := 0]
      ensures cells == old(cells) + {data} && chains == old(chains)[h := [data]]
    {
      rows, place := rows[h := [e]], place[e := 0];
      SwapHead(h, data);
      data.inVal := 1;
    }

    method SwapHead(h: nat, data: Bucket)
      requires Linked() && h < size && data.owner != this && data.next == null
      modifies this`chains, this`cells, hash, data`owner, data`home, data`pos
      ensures Linked() && cells == old(cells) + {data} && chains == old(chains)[h := [data]]
    {
      hash[h] := data;
      data.owner, data.home, data.pos := this, h, 0;
      chains := chains[h := [data]];
      cells := cells + {data};
    }

    /** Takes in a node of another table, whose entry is new here. */
    method Receive(data: Bucket, e: MEntry)
      requires Stores() && Packed() && data.owner != this && data.next == null && data.entry == Some(e)
      requires forall x <- Entries() :: !Same(x, e)
      modifies this`chains, this`rows, this`place, this`cells, hash, cells`next, cells`inVal, data`next, data`inVal, data`owner, data`home, data`pos
      ensures Stores() && Packed() && cells == old(cells) + {data}
      ensures Nodes() == old(Nodes())[e := data]
    {
      var h := MeHash(e, size);
      IndexedAppend(rows, place, e);
      DistinctAdded(Entries(), e);
      ReceivedNodes(chains, rows, place, e, data);
      Relink(h, data, e);
    }

    /** The node that holds each stored entry. */
    ghost function Nodes(): map<MEntry, Bucket>
      requires |rows| == |chains| && Indexed(rows, place) && forall i :: 0 <= i < |rows| ==> |rows[i]| <= |chains[i]|
      reads this
    {
      NodesOf(chains, rows, place)
    }
  }

  ghost function NodesOf(chains: seq<seq<Bucket>>, rows: seq<seq<MEntry>>, place: map<MEntry, nat>): map<MEntry, Bucket>
    requires |rows| == |chains| && Indexed(rows, place) && forall i :: 0 <= i < |rows| ==> |rows[i]| <= |chains[i]|
  {
    map e | e in place :: chains[Hash(e, |rows|)][place[e]]
  }

  lemma ReceivedNodes(chains: seq<seq<Bucket>>, rows: seq<seq<MEntry>>, place: map<MEntry, nat>, e: MEntry, data: Bucket)
    requires |rows| == |chains| && Indexed(rows, place) && e !in place
    requires forall i :: 0 <= i < |rows| ==> |rows[i]| <= |chains[i]| && (rows[i] != [] ==> |rows[i]| == |chains[i]|)
    ensures var h := Hash(e, |rows|);
      var chains', rows', place' := chains[h := if rows[h] == [] then [data] else chains[h] + [data]], rows[h := rows[h] + [e]], place[e := |rows[h]|];
      && Indexed(rows', place') && (forall i :: 0 <= i < |rows'| ==> |rows'[i]| <= |chains'[i]|)
      && NodesOf(chains', rows', place') == NodesOf(chains, rows, place)[e := data]
  {
    IndexedAppend(rows, place, e);
    var h := Hash(e, |rows|);
    assert rows[h] == [] ==> forall x <- place :: Hash(x, |rows|) != h;
  }

  // ----- the first resize

  /** The table as it was before. */
  datatype Old = Old(table: MList, cells: set<Bucket>, chains: seq<seq<Bucket>>, rows: seq<seq<MEntry>>, place: map<MEntry, nat>) {
    ghost predicate Ok() {
      && |chains| == |rows| && Indexed(rows, place) && DistinctKeys(place.Keys)
      && (forall i :: 0 <= i < |rows| ==> |chains[i]| == |rows[i]| + 1)
      && (forall i, j :: 0 <= i < |rows| && 0 <= j < |chains[i]| ==> chains[i][j] in cells)
    }

    /** Entry `e` comes before position (i, j) of the walk through the old table. */
    ghost predicate Earlier(e: MEntry, i: nat, j: nat)
      requires |rows| > 0 && e in place
    {
      var h := Hash(e, |rows|);
      h < i || (h == i && place[e] < j)
    }

    /** The nodes before position (i, j), by the entries they hold. */
    ghost function Before(i: nat, j: nat): map<MEntry, Bucket>
      requires Ok()
    {
      map e | e in place && Earlier(e, i, j) :: chains[Hash(e, |rows|)][place[e]]
    }

    lemma BeforeEnd()
      requires Ok()
      ensures Before(|rows|, 0) == NodesOf(chains, rows, place) && Before(|rows|, 0).Keys == place.Keys
    {
    }

    lemma BeforeNext(i: nat, j: nat)
      requires Ok() && i < |rows| && j < |rows[i]|
      ensures rows[i][j] in place && rows[i][j] !in Before(i, j)
      ensures Before(i, j + 1) == Before(i, j)[rows[i][j] := chains[i][j]]
    {
      assert rows[i][j] in place;
      forall e | e in place && Hash(e, |rows|) == i && place[e] == j ensures e == rows[i][j] {
      }
    }
  }

  /** The old node at position (k, l) is as it was. */
  ghost predicate NodeKept(o: Old, k: nat, l: nat)
    requires o.Ok() && k < |o.rows| && l < |o.chains[k]|
    reads o.chains[k][l]
  {
    var b := o.chains[k][l];
    && b.owner == o.table && b.home == k && b.pos == l
    && b.next == if l + 1 < |o.chains[k]| then o.chains[k][l + 1] else null
  }

  predicate Remaining(o: Old, i: nat, j: nat, k: nat, l: nat) {
    k < |o.chains| && l < |o.chains[k]| && (i < k || (i == k && j <= l))
  }

  /** From position (i, j) on, the old nodes are as they were; all still hold their entries. */
  ghost predicate Rest(o: Old, i: nat, j: nat)
    requires o.Ok()
    reads o.cells
  {
    && (forall k: nat, l: nat :: Remaining(o, i, j, k, l) ==> NodeKept(o, k, l))
    && (forall k, l {:trigger o.rows[k][l]} :: 0 <= k < |o.rows| && 0 <= l < |o.rows[k]| ==>
          o.chains[k][l].entry == Some(o.rows[k][l]))
  }

  /** The new table holds the entries before (i, j), each in its old node. */
  ghost predicate Midway(o: Old, n: MList, i: nat, j: nat)
    requires o.Ok()
    reads n, n.hash, n.cells, o.cells
  {
    Rest(o, i, j) && n != o.table && n.Stores() && n.Packed() && n.Nodes() == o.Before(i, j)
  }

  /** The next entry is new to the new table. */
  lemma NextIsNew(o: Old, n: MList, i: nat, j: nat)
    requires o.Ok() && i < |o.rows| && j < |o.rows[i]| && n.Stores() && n.Nodes() == o.Before(i, j)
    ensures forall x <- n.Entries() :: !Same(x, o.rows[i][j])
    ensures o.Before(i, j + 1) == n.Nodes()[o.rows[i][j] := o.chains[i][j]]
  {
    o.BeforeNext(i, j);
    assert n.Entries() == o.Before(i, j).Keys;
  }

  /** The nodes still to be moved are neither the next one nor in the new table. */
  lemma RestApart(o: Old, n: MList, i: nat, j: nat, k: nat, l: nat)
    requires o.Ok() && Midway(o, n, i, j) && i < |o.rows| && j < |o.rows[i]| && Remaining(o, i, j + 1, k, l)
    ensures NodeKept(o, k, l) && o.chains[k][l] != o.chains[i][j] && o.chains[k][l] !in n.cells
  {
    assert Remaining(o, i, j, k, l) && Remaining(o, i, j, i, j);
    assert NodeKept(o, k, l) && NodeKept(o, i, j);
  }

  /** Every node after (i, j) is as it was, and neither the node at (i, j) nor in the new table. */
  ghost predicate Apart(o: Old, n: MList, i: nat, j: nat)
    requires o.Ok() && i < |o.rows| && j < |o.rows[i]|
    reads n, o.cells
  {
    && (forall k: nat, l: nat {:trigger Remaining(o, i, j + 1, k, l)} {:trigger NodeKept(o, k, l)} :: Remaining(o, i, j + 1, k, l) ==>
          NodeKept(o, k, l) && o.chains[k][l] != o.chains[i][j] && o.chains[k][l] !in n.cells)
    && (forall k, l {:trigger o.rows[k][l]} :: 0 <= k < |o.rows| && 0 <= l < |o.rows[k]| ==>
          o.chains[k][l].entry == Some(o.rows[k][l]))
  }

  /** One round of the inner loop: the node at position (i, j) is cut off and linked into the new table. */
  method MoveOne(ghost o: Old, n: MList, ghost i: nat, ghost j: nat, data: Bucket) returns (newData: Bucket)
    requires o.Ok() && Midway(o, n, i, j) && i < |o.rows| && j < |o.rows[i]| && data == o.chains[i][j]
    modifies n`chains, n`rows, n`place, n`cells, n.hash, n.cells, data
    ensures Midway(o, n, i, j + 1) && newData == o.chains[i][j + 1]
    ensures n.cells == old(n.cells) + {data}
  {
    assert data.entry == Some(o.rows[i][j]);
    assert Remaining(o, i, j, i, j) && NodeKept(o, i, j);
    forall k: nat, l: nat | Remaining(o, i, j + 1, k, l)
      ensures NodeKept(o, k, l) && o.chains[k][l] != data && o.chains[k][l] !in n.cells
    {
      RestApart(o, n, i, j, k, l);
    }
    newData := data.next;
    data.next := null;
    PassOn(o, n, i, j, data);
  }

  method PassOn(ghost o: Old, n: MList, ghost i: nat, ghost j: nat, data: Bucket)
    requires o.Ok() && i < |o.rows| && j < |o.rows[i]| && data == o.chains[i][j]
    requires n != o.table && n.Stores() && n.Packed() && n.Nodes() == o.Before(i, j) && Apart(o, n, i, j)
    requires data.next == null && data.owner != n && data.entry == Some(o.rows[i][j])
    modifies n`chains, n`rows, n`place, n`cells, n.hash, n.cells, data
    ensures Midway(o, n, i, j + 1) && n.cells == old(n.cells) + {data}
  {
    NextIsNew(o, n, i, j);
    n.Receive(data, data.entry.value);
    forall k: nat, l: nat | Remaining(o, i, j + 1, k, l) ensures NodeKept(o, k, l) {
      var b := o.chains[k][l];
      assert old(NodeKept(o, k, l)) && b != data && b !in old(n.cells);
      assert b.next == old(b.next) && b.owner == old(b.owner) && b.home == old(b.home) && b.pos == old(b.pos);
    }
    forall k, l | 0 <= k < |o.rows| && 0 <= l < |o.rows[k]| ensures o.chains[k][l].entry == Some(o.rows[k][l]) {
      assert o.chains[k][l].entry == old(o.chains[k][l].entry);
    }
  }

  /** The inner loop of the resize: one old chain, up to its dummy. */
  method MoveChain(ghost o: Old, n: MList, ghost i: nat, head: Bucket)
    requires o.Ok() && Midway(o, n, i, 0) && i < |o.rows| && head == o.chains[i][0]
    modifies n`chains, n`rows, n`place, n`cells, n.hash, n.cells, o.cells
    ensures Midway(o, n, i + 1, 0) && n.cells <= old(n.cells) + o.cells
  {
    var data := head;
    ghost var j := 0;
    assert Remaining(o, i, 0, i, 0);
    while data.next != null
      invariant j <= |o.rows[i]| && data == o.chains[i][j] && Midway(o, n, i, j) && NodeKept(o, i, j)
      invariant n.cells <= old(n.cells) + o.cells
      decreases |o.rows[i]| - j
    {
      data := MoveOne(o, n, i, j, data);
      j := j + 1;
      assert Remaining(o, i, j, i, j);
    }
    ChainDone(o, n, i);
  }

  lemma ChainDone(o: Old, n: MList, i: nat)
    requires o.Ok() && i < |o.rows| && Midway(o, n, i, |o.rows[i]|)
    ensures Midway(o, n, i + 1, 0)
  {
    assert o.Before(i, |o.rows[i]|) == o.Before(i + 1, 0);
    forall k: nat, l: nat | Remaining(o, i + 1, 0, k, l) ensures NodeKept(o, k, l) {
      assert Remaining(o, i, |o.rows[i]|, k, l);
    }
  }

  /** Doubles the table. Every entry ends up in the node it was in, linked exactly once, into the chain given
      by its hash modulo the doubled size; but the chains do not end in dummies any more. */
  method Resize(ml: MList) returns (n: MList)
    requires ml.Valid()
    modifies ml.cells
    ensures fresh(n) && n.size == 2 * ml.size && n.Stores() && n.Packed()
    ensures n.Entries() == ml.Entries() && n.Nodes() == old(ml.Nodes())
  {
    n := new MList(ml.size * 2);
    ghost var o := Old(ml, ml.cells, ml.chains, ml.rows, ml.place);
    StartsMidway(ml, n);
    n := MoveChains(o, ml, n);
  }

  /** Before the walk: nothing moved, the new table empty. */
  lemma StartsMidway(ml: MList, n: MList)
    requires ml.Valid() && n != ml && n.Stores() && n.Packed() && n.Entries() == {}
    ensures var o := Old(ml, ml.cells, ml.chains, ml.rows, ml.place);
      o.Ok() && Midway(o, n, 0, 0) && ml.Nodes() == NodesOf(o.chains, o.rows, o.place)
  {
    var o := Old(ml, ml.cells, ml.chains, ml.rows, ml.place);
    assert o.Before(0, 0) == map[];
    assert forall k: nat, l: nat :: Remaining(o, 0, 0, k, l) ==> NodeKept(o, k, l);
  }

  method MoveChains(ghost o: Old, ml: MList, new_ml: MList) returns (n: MList)
    requires o.Ok() && Midway(o, new_ml, 0, 0) && ml.hash.Length == ml.size == |o.rows| && ml.hash != new_ml.hash
    requires forall i :: 0 <= i < ml.size ==> ml.hash[i] == o.chains[i][0]
    requires ml != new_ml && new_ml.size > 0
    modifies new_ml`chains, new_ml`rows, new_ml`place, new_ml`cells, new_ml.hash, new_ml.cells, o.cells
    ensures n == new_ml && n.Stores() && n.Packed()
    ensures n.Entries() == o.place.Keys && n.Nodes() == NodesOf(o.chains, o.rows, o.place)
  {
    n := new_ml;
    for i := 0 to ml.size
      invariant Midway(o, n, i, 0) && n.cells <= old(new_ml.cells) + o.cells
    {
      MoveChain(o, n, i, ml.hash[i]);
    }
    AllMoved(o, n);
  }

  lemma AllMoved(o: Old, n: MList)
    requires o.Ok() && Midway(o, n, |o.rows|, 0)
    ensures n.Stores() && n.Packed()
    ensures n.Entries() == o.place.Keys && n.Nodes() == NodesOf(o.chains, o.rows, o.place)
  {
    o.BeforeEnd();
    assert n.Nodes().Keys == n.Entries();
  }

  method Create() returns (ml: MList)
    ensures fresh(ml) && fresh(ml.cells) && ml.Valid() && ml.Entries() == {} && ml.size == BUCKETS
  {
    ml := new MList(BUCKETS);
  }

  /** Adds an entry, unless it is there already. The table is doubled when the entry's chain held more entries
      than the table has chains. */
  method Add(ml: MList, me: MEntry) returns (r: MList, ghost resized: bool)
    requires ml.Valid()
    modifies ml`chains, ml`rows, ml`place, ml`cells, ml.cells
    ensures resized <==> !old(Present(ml.Entries(), me)) && |old(Colliding(ml.Entries(), me, ml.size))| > ml.size
    ensures r.Stores() && r.Entries() == Added(old(ml.Entries()), me)
    ensures if resized then r.size == 2 * ml.size && r.Packed() else r == ml && r.Valid() && fresh(r.cells - old(ml.cells))
  {
    var found := ml.Lookup(me);
    RowLength(ml.rows, ml.place, me);
    if found == None {
      r, resized := AddNew(ml, me);
    } else {
      r, resized := ml, false;
    }
  }

  /** After a resize, the hidden entries are the last of every row that is not empty: there is always one. */
  lemma HiddenEntries(ml: MList)
    requires ml.Stores() && ml.Packed()
    ensures forall e <- ml.Entries() :: e in ml.HiddenOnes() <==> ml.place[e] == |ml.rows[Hash(e, ml.size)]| - 1
    ensures ml.Entries() != {} ==> ml.HiddenOnes() != {}
  {
    forall e | e in ml.Entries() ensures ml.Hidden(e) <==> ml.place[e] == |ml.rows[Hash(e, ml.size)]| - 1 {
      assert ml.rows[Hash(e, ml.size)] != [];
    }
    if e :| e in ml.Entries() {
      var row := ml.rows[Hash(e, ml.size)];
      var last := row[|row| - 1];
      assert ml.place[last] == |row| - 1;
      assert last in ml.HiddenOnes();
    }
  }

  method AddNew(ml: MList, me: MEntry) returns (r: MList, ghost resized: bool)
    requires ml.Valid() && forall e <- ml.Entries() :: !Same(e, me)
    modifies ml`chains, ml`rows, ml`place, ml`cells, ml.cells
    ensures resized <==> |old(ml.rows)[Hash(me, ml.size)]| > ml.size
    ensures r.Stores() && r.Entries() == old(ml.Entries()) + {me}
    ensures if resized then r.size == 2 * ml.size && r.Packed() else r == ml && r.Valid() && fresh(r.cells - old(ml.cells))
  {
    resized := false;
    r := ml;
    var bucketSize := ml.Append(me);
    if bucketSize > ml.size {
      r := Resize(ml);
      resized := true;
    }
  }
}
