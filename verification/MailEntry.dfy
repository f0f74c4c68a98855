/** Mail entries of project0/project0/mentry.c: the comparison and the hash the table rests on. */
module MailEntries {
  import opened Options

  const WORD: nat := 0x1_0000_0000

  /** A character of a C string: a signed byte other than the terminator. */
  type Byte = c: int | -128 <= c < 128 && c != 0 witness 65

  datatype MEntry = MEntry(surname: seq<Byte>, zipcode: seq<Byte>, houseNumber: int, fullAddress: seq<Byte>)

  /** The string as a polynomial in 31, over the unbounded integers. */
  function Poly(s: seq<Byte>): int {
    if s == [] then 0 else 31 * Poly(s[..|s| - 1]) + s[|s| - 1]
  }

  function Power31(n: nat): int {
    if n == 0 then 1 else 31 * Power31(n - 1)
  }

  /** The same as a sum of powers of 31, the first character with the greatest one. */
  function PowerSum(s: seq<Byte>): int {
    if s == [] then 0 else s[0] * Power31(|s| - 1) + PowerSum(s[1..])
  }

  lemma {:induction false} PolyIsPowerSum(s: seq<Byte>)
    ensures Poly(s) == PowerSum(s)
    decreases |s|
  {
    if |s| == 1 {
      assert s[1..] == [] && s[..0] == [];
    } else if s != [] {
      var n := |s| - 1;
      PolyIsPowerSum(s[..n]);
      PolyIsPowerSum(s[1..n]);
      PolyIsPowerSum(s[1..]);
      assert s[..n][1..] == s[1..n] && s[1..][..n - 1] == s[1..n];
      PowerStep(s[0], Power31(n - 1), Poly(s[1..n]), s[n]);
    }
  }

  lemma PowerStep(first: int, power: int, middle: int, last: int)
    ensures 31 * (first * power + middle) + last == first * (31 * power) + (31 * middle + last)
  {
  }

  /** The loop computes in unsigned 32-bit arithmetic; the result is the polynomial modulo 2^32. */
  method HelpHash(s: seq<Byte>) returns (hashvalue: nat)
    ensures hashvalue == Poly(s) % WORD
  {
    hashvalue := 0;
    for i := 0 to |s|
      invariant hashvalue == Poly(s[..i]) % WORD
    {
      var c := s[i] % WORD;                       // the character converted to unsigned
      assert s[..i + 1][..i] == s[..i];
      HashStep(Poly(s[..i]), s[i]);
      hashvalue := (c + 31 * hashvalue % WORD) % WORD;
    }
    assert s[..|s|] == s;
  }

  lemma HashStep(p: int, c: int)
    ensures (c % WORD + 31 * (p % WORD) % WORD) % WORD == (31 * p + c) % WORD
  {
  }

  /** The hash of an entry for a table of `size` chains. */
  function Hash(e: MEntry, size: nat): nat
    requires size > 0
  {
    (Poly(e.surname) + Poly(e.zipcode) + e.houseNumber) % WORD % size
  }

  method MeHash(e: MEntry, size: nat) returns (r: nat)
    requires size > 0
    ensures r == Hash(e, size) && r < size
  {
    var a := HelpHash(e.surname);
    var b := HelpHash(e.zipcode);
    var hashvalue := a;
    hashvalue := (hashvalue + b) % WORD;
    hashvalue := (hashvalue + e.houseNumber) % WORD;
    SumStep(Poly(e.surname), Poly(e.zipcode), e.houseNumber);
    r := hashvalue % size;
  }

  lemma SumStep(a: int, b: int, c: int)
    ensures ((a % WORD + b % WORD) % WORD + c) % WORD == (a + b + c) % WORD
  {
  }

  /** Entries are the same when surname, zip code and house number agree; the address does not matter. */
  predicate Same(a: MEntry, b: MEntry) {
    a.surname == b.surname && a.zipcode == b.zipcode && a.houseNumber == b.houseNumber
  }

  function MeCompare(a: MEntry, b: MEntry): (r: int)
    ensures r == 0 <==> Same(a, b)
  {
    if a.surname == b.surname && a.zipcode == b.zipcode && a.houseNumber == b.houseNumber then 0 else -1
  }

  /** The contract between comparison and hash. */
  lemma SameHash(a: MEntry, b: MEntry, size: nat)
    requires size > 0 && MeCompare(a, b) == 0
    ensures Hash(a, size) == Hash(b, size)
  {
  }

  /** The hash is that of the two sums of powers and the house number; the address plays no part. */
  lemma HashOfFields(e: MEntry, size: nat, address: seq<Byte>)
    requires size > 0
    ensures Hash(e, size) == (PowerSum(e.surname) + PowerSum(e.zipcode) + e.houseNumber) % WORD % size
    ensures Hash(e.(fullAddress := address), size) == Hash(e, size)
  {
    PolyIsPowerSum(e.surname);
    PolyIsPowerSum(e.zipcode);
  }

  /** Entries are the same exactly when nothing but their addresses differs. */
  lemma SameButAddress(a: MEntry, b: MEntry)
    ensures Same(a, b) <==> a.(fullAddress := b.fullAddress) == b
    ensures MeCompare(a, b) == 0 <==> a.(fullAddress := b.fullAddress) == b
  {
  }

  // ----- what a mailing list is for

  ghost predicate DistinctKeys(entries: set<MEntry>) {
    forall a <- entries, b <- entries :: Same(a, b) ==> a == b
  }

  ghost predicate Present(entries: set<MEntry>, e: MEntry) {
    exists x :: x in entries && Same(x, e)
  }

  /** The stored entries with the hash of `e`. */
  ghost function Colliding(entries: set<MEntry>, e: MEntry, size: nat): set<MEntry>
    requires size > 0
  {
    set x | x in entries && Hash(x, size) == Hash(e, size)
  }

  /** What one addition makes of the stored entries: the first of several same entries stays. */
  ghost function Added(entries: set<MEntry>, e: MEntry): (r: set<MEntry>)
    ensures DistinctKeys(entries) ==> DistinctKeys(r)
  {
    if Present(entries, e) then entries else entries + {e}
  }

  /** What a lookup must answer. */
  ghost predicate IsLookup(entries: set<MEntry>, e: MEntry, r: Option<MEntry>) {
    match r
    case Some(x) => x in entries && Same(x, e)
    case None => forall x <- entries :: !Same(x, e)
  }

  ghost function AddedAll(es: seq<MEntry>): set<MEntry> {
    if es == [] then {} else Added(AddedAll(es[..|es| - 1]), es[|es| - 1])
  }

  /** Two implementations that both follow `Added` and `IsLookup` answer every lookup of every run alike,
      down to the address of the entry that was added first. */
  lemma LookupsAgree(es: seq<MEntry>, e: MEntry, r: Option<MEntry>, r': Option<MEntry>)
    requires IsLookup(AddedAll(es), e, r) && IsLookup(AddedAll(es), e, r')
    ensures r == r'
  {
    AddedAllDistinct(es);
  }

  lemma {:induction false} AddedAllDistinct(es: seq<MEntry>)
    ensures DistinctKeys(AddedAll(es))
  {
    if es != [] {
      AddedAllDistinct(es[..|es| - 1]);
    }
  }

  /** A lookup in the list of additions itself: the first one that is the same. */
  function FirstSame(es: seq<MEntry>, e: MEntry): Option<MEntry> {
    if es == [] then None
    else if Same(es[0], e) then Some(es[0])
    else FirstSame(es[1..], e)
  }

  lemma {:induction false} FirstSameIsLookup(es: seq<MEntry>, e: MEntry)
    ensures IsLookup(AddedAll(es), e, FirstSame(es, e))
  {
    if es != [] {
      var n := |es| - 1;
      FirstSameIsLookup(es[..n], e);
      FirstSameSnoc(es[..n], es[n], e);
      assert es == es[..n] + [es[n]];
    }
  }

  lemma {:induction false} FirstSameSnoc(es: seq<MEntry>, x: MEntry, e: MEntry)
    ensures FirstSame(es + [x], e) ==
            if FirstSame(es, e).Some? then FirstSame(es, e) else if Same(x, e) then Some(x) else None
  {
    if es == [] {
      assert [x][1..] == [];
    } else {
      FirstSameSnoc(es[1..], x, e);
      assert (es + [x])[1..] == es[1..] + [x];
    }
  }

  /** So what is looked up does not depend on the address in the question. */
  lemma {:induction false} AddressPlaysNoPart(es: seq<MEntry>, e: MEntry, address: seq<Byte>)
    ensures FirstSame(es, e.(fullAddress := address)) == FirstSame(es, e)
  {
    if es != [] {
      AddressPlaysNoPart(es[1..], e, address);
    }
  }

  /** The answer of a lookup is the first entry of the run that agrees in all but the address. */
  lemma {:induction false} FirstSameIsFirst(es: seq<MEntry>, e: MEntry)
    ensures match FirstSame(es, e)
      case None => forall x <- es :: x.(fullAddress := e.fullAddress) != e
      case Some(r) => exists i :: 0 <= i < |es| && es[i] == r && r.(fullAddress := e.fullAddress) == e
                                  && forall j :: 0 <= j < i ==> es[j].(fullAddress := e.fullAddress) != e
  {
    if es != [] {
      SameButAddress(es[0], e);
      if Same(es[0], e) {
        assert es[0] == FirstSame(es, e).value;
      } else {
        FirstSameIsFirst(es[1..], e);
        if FirstSame(es, e).Some? {
          var r := FirstSame(es, e).value;
          var i :| 0 <= i < |es[1..]| && es[1..][i] == r && r.(fullAddress := e.fullAddress) == e
                   && forall j :: 0 <= j < i ==> es[1..][j].(fullAddress := e.fullAddress) != e;
          assert forall j :: 0 < j < i + 1 ==> es[j] == es[1..][j - 1];
          assert es[i + 1] == r;
        }
      }
    }
  }
}
