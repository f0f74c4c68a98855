/** Decimal text of project1/p1fxns.c: `p1itoa` and `p1atoi` on 32-bit signed integers. */
module Numbers {

  const INT_MAX: int := 0x7fff_ffff
  const INT_MIN: int := -0x8000_0000
  /** The scratch buffer of p1itoa. */
  const SCRATCH: nat := 25

  type Int = n: int | INT_MIN <= n <= INT_MAX

  predicate Digit(c: char) {
    '0' <= c <= '9'
  }

  function Value(c: char): int {
    c as int - '0' as int
  }

  function DigitChar(d: int): char
    requires 0 <= d < 10
  {
    "0123456789"[d]
  }

  /** The number a run of digits stands for. */
  function Decimal(s: string): int {
    if s == [] then 0 else 10 * Decimal(s[..|s| - 1]) + Value(s[|s| - 1])
  }

  /** The digits at the front of a string. */
  function Leading(s: string): (r: string)
    ensures r <= s && (forall c <- r :: Digit(c)) && (|r| < |s| ==> !Digit(s[|r|]))
  {
    if s != [] && Digit(s[0]) then [s[0]] + Leading(s[1..]) else []
  }

  /** The decimal representation. */
  function Digits(n: nat): string {
    if n < 10 then [DigitChar(n)] else Digits(n / 10) + [DigitChar(n % 10)]
  }

  function Text(n: int): string {
    if n < 0 then "-" + Digits(-n) else Digits(n)
  }

  // ----- what the digits mean

  lemma {:induction false} DigitsMean(n: nat)
    ensures Decimal(Digits(n)) == n && forall c <- Digits(n) :: Digit(c)
    ensures n > 0 ==> Digits(n)[0] != '0'
  {
    if n >= 10 {
      DigitsMean(n / 10);
      var s := Digits(n);
      assert s[..|s| - 1] == Digits(n / 10);
    }
  }

  function Pow10(n: nat): nat {
    if n == 0 then 1 else 10 * Pow10(n - 1)
  }

  lemma {:induction false} DigitsLength(n: nat, k: nat)
    requires n < Pow10(k) && k > 0
    ensures |Digits(n)| <= k
  {
    if n >= 10 {
      DigitsLength(n / 10, k - 1);
    }
  }

  lemma TenDigits()
    ensures INT_MAX < Pow10(10)
  {
    assert Pow10(5) == 100000;
    assert Pow10(10) == 100000 * Pow10(5);
  }

  lemma {:induction false} LeadingAll(s: string)
    requires forall c <- s :: Digit(c)
    ensures Leading(s) == s
  {
    if s != [] {
      assert s[0] in s;
      LeadingAll(s[1..]);
    }
  }

  /** Reading back what was written gives the number exactly when it is not negative: the reader stops at the minus
      sign. The text of a negative number is that sign and the digits of its absolute value. There are at most ten
      digits, and no leading zero unless the number is zero. */
  lemma TextRoundTrip(n: int)
    requires INT_MIN < n <= INT_MAX
    ensures Decimal(Leading(Text(n))) == n <==> n >= 0
    ensures n >= 0 ==> Leading(Text(n)) == Text(n) && |Text(n)| <= 10 && (Text(n)[0] == '0' <==> n == 0)
    ensures n < 0 ==>
      var digits := Text(n)[1..];
      && Text(n)[0] == '-' && Leading(digits) == digits && Decimal(digits) == -n
      && 0 < |digits| <= 10 && digits[0] != '0'
  {
    hide Digits, Decimal, Leading;
    DigitsRead(if n < 0 then -n else n);
    if n < 0 {
      assert Text(n)[1..] == Digits(-n);
      NothingRead(Text(n));
    }
  }

  lemma DigitsRead(m: nat)
    requires m <= INT_MAX
    ensures var d := Digits(m);
      Leading(d) == d && Decimal(d) == m && 0 < |d| <= 10 && (d[0] == '0' <==> m == 0)
  {
    DigitsMean(m);
    LeadingAll(Digits(m));
    AtMostTen(m);
    assert m == 0 ==> Digits(m) == "0";
  }

  lemma NothingRead(s: string)
    requires s != [] && !Digit(s[0])
    ensures Leading(s) == [] && Decimal(Leading(s)) == 0
  {
  }

  /** What a run of digits is worth, place by place. */
  function PlaceValues(s: string): int {
    if s == [] then 0 else Value(s[0]) * Pow10(|s| - 1) + PlaceValues(s[1..])
  }

  /** The number the reader computes digit by digit is the sum of the place values, the first digit worth most. */
  lemma {:induction false} DecimalIsPlaceValues(s: string)
    ensures Decimal(s) == PlaceValues(s)
    decreases |s|
  {
    if |s| == 1 {
      assert s[1..] == [] && s[..0] == [];
    } else if s != [] {
      var n := |s| - 1;
      DecimalIsPlaceValues(s[..n]);
      DecimalIsPlaceValues(s[1..n]);
      DecimalIsPlaceValues(s[1..]);
      assert s[..n][1..] == s[1..n] && s[1..][..n - 1] == s[1..n];
      PlaceStep(Value(s[0]), Pow10(n - 1), Decimal(s[1..n]), Value(s[n]));
    }
  }

  lemma PlaceStep(first: int, power: int, middle: int, last: int)
    ensures 10 * (first * power + middle) + last == first * (10 * power) + (10 * middle + last)
  {
  }

  // ----- reading

  /** Prefixes of a decimal number are no greater than the number: no step of the reader overflows. */
  lemma {:induction false} DecimalPrefix(s: string, i: nat)
    requires i <= |s| && forall c <- s :: Digit(c)
    ensures 0 <= Decimal(s[..i]) <= Decimal(s)
    decreases |s|
  {
    if i == |s| {
      assert s[..i] == s;
      if s != [] {
        DecimalPrefix(s[..|s| - 1], |s| - 1);
        assert s[..|s| - 1][..|s| - 1] == s[..|s| - 1];
        assert s[|s| - 1] in s;
      }
    } else {
      DecimalPrefix(s[..|s| - 1], i);
      assert s[..|s| - 1][..i] == s[..i];
      assert s[|s| - 1] in s;
    }
  }

  lemma AtoiStep(d: string, i: nat)
    requires i < |d| && (forall c <- d :: Digit(c)) && Decimal(d) <= INT_MAX
    ensures Decimal(d[..i + 1]) == 10 * Decimal(d[..i]) + Value(d[i]) && 0 <= 10 * Decimal(d[..i]) <= Decimal(d[..i + 1]) <= INT_MAX
  {
    assert d[..i + 1][..i] == d[..i] && d[i] in d;
    DecimalPrefix(d, i + 1);
    DecimalPrefix(d, i);
  }

  method P1Atoi(s: string) returns (ans: Int)
    requires Decimal(Leading(s)) <= INT_MAX
    ensures ans == Decimal(Leading(s))
  {
    ghost var d := Leading(s);
    ans := 0;
    var i := 0;
    while i < |s| && Digit(s[i])
      invariant i <= |d| && ans == Decimal(d[..i])
      decreases |s| - i
    {
      AtoiStep(d, i);
      ans := 10 * ans + Value(s[i]);
      i := i + 1;
    }
    assert d[..|d|] == d;
  }

  // ----- writing

  function Reversed(s: string): string {
    if s == [] then [] else [s[|s| - 1]] + Reversed(s[..|s| - 1])
  }

  /** Writes the number and a terminator. At most ten digits and a sign go through the scratch buffer. */
  method P1Itoa(number: Int, buf: array<char>)
    requires number != INT_MIN && |Text(number)| < buf.Length
    modifies buf
    ensures var t := Text(number);
      buf[..|t|] == t && buf[|t|] == '\0' && forall k :: |t| < k < buf.Length ==> buf[k] == old(buf[k])
  {
    var tmp := new char[SCRATCH];
    var i := Scratch(number, tmp);
    CopyBack(tmp, i, buf);
  }

  /** Copies the first `n` characters of the scratch buffer in reverse order. */
  method CopyBack(tmp: array<char>, n: nat, buf: array<char>)
    requires n <= tmp.Length && n < buf.Length && tmp != buf
    modifies buf
    ensures buf[..n] == Reversed(tmp[..n]) && buf[n] == '\0'
    ensures forall k :: n < k < buf.Length ==> buf[k] == old(buf[k])
  {
    ghost var d := tmp[..n];
    var i := n;
    var p := 0;
    ReversedLength(d);
    assert d[..n] == d;
    while i > 0
      invariant i <= n && p == n - i
      invariant Reversed(d) == buf[..p] + Reversed(d[..i])
      invariant forall k :: p <= k < buf.Length ==> buf[k] == old(buf[k])
    {
      i := i - 1;
      assert d[..i + 1][..i] == d[..i];
      buf[p] := tmp[i];
      p := p + 1;
    }
    buf[p] := '\0';
  }

  lemma {:induction false} ReversedLength(s: string)
    ensures |Reversed(s)| == |s|
  {
    if s != [] {
      ReversedLength(s[..|s| - 1]);
    }
  }

  /** The digits still to be written: none for 0. */
  function Rest(n: nat): string {
    if n == 0 then [] else Digits(n)
  }

  /** One round of the digit loop moves the last digit from the number to the buffer, which has room. */
  lemma OneDigit(m: nat, n: nat, d: string)
    requires 0 < n && Digits(m) == Rest(n) + Reversed(d)
    ensures |d| < |Digits(m)|
    ensures Digits(m) == Rest(n / 10) + Reversed(d + [DigitChar(n % 10)])
  {
    var c, r := DigitChar(n % 10), Reversed(d);
    ReversedLength(d);
    assert (d + [c])[..|d|] == d;
    assert Reversed(d + [c]) == [c] + r;
    LastDigit(n);
    Regroup(Rest(n / 10), c, r);
  }

  lemma LastDigit(n: nat)
    requires 0 < n
    ensures Digits(n) == Rest(n / 10) + [DigitChar(n % 10)]
  {
    if n < 10 {
      assert n / 10 == 0 && n % 10 == n;
      assert Rest(0) == "";
    }
  }

  lemma Regroup(a: string, c: char, b: string)
    ensures a + [c] + b == a + ([c] + b)
  {
  }

  lemma AtMostTen(m: nat)
    requires m <= INT_MAX
    ensures |Digits(m)| <= 10
  {
    TenDigits();
    DigitsLength(m, 10);
  }

  method ScratchDigits(m: Int, tmp: array<char>) returns (i: nat)
    requires m > 0 && tmp.Length == SCRATCH
    modifies tmp
    ensures i <= 10 && Reversed(tmp[..i]) == Digits(m)
  {
    AtMostTen(m);
    var n := m;
    i := 0;
    ghost var d := "";
    while n != 0
      invariant 0 <= n && i == |d| <= 10 && tmp[..i] == d
      invariant Digits(m) == Rest(n) + Reversed(d)
      decreases n
    {
      OneDigit(m, n, d);
      tmp[i] := DigitChar(n % 10);
      d := d + [tmp[i]];
      n := n / 10;
      i := i + 1;
    }
  }

  /** The digits, last one first, and the sign. */
  method Scratch(number: Int, tmp: array<char>) returns (i: nat)
    requires number != INT_MIN && tmp.Length == SCRATCH
    modifies tmp
    ensures i <= 11 && Reversed(tmp[..i]) == Text(number) && i == |Text(number)|
  {
    if number == 0 {
      tmp[0] := '0';
      i := 1;
      assert tmp[..1] == "0";
    } else {
      var n: Int := number;
      var negative := false;
      if n < 0 {
        negative := true;
        n := -n;
      }
      i := ScratchDigits(n, tmp);
      if negative {
        tmp[i] := '-';
        i := i + 1;
        assert tmp[..i][..i - 1] == tmp[..i - 1];
      }
    }
    ReversedLength(tmp[..i]);
  }
}
