/** The word reader of project1/p1fxns.c, and the loop of project1/thv1.c that splits a command with it.
    A C string is a sequence without the terminator; reading at its length yields the terminator. */
module Words {
  import opened Options

  /** The characters of a C string. */
  predicate CString(s: string) {
    '\0' !in s
  }

  function At(s: string, i: nat): char
    requires i <= |s|
  {
    if i < |s| then s[i] else '\0'
  }

  const WHITESPACE := " \t"

  predicate Blank(c: char) {
    c == ' ' || c == '\t'
  }

  predicate Quote(c: char) {
    c == '\'' || c == '"'
  }

  /** The index of the leftmost occurrence, or -1. */
  method P1StrChr(buf: string, c: char) returns (r: int)
    requires CString(buf)
    ensures r == -1 <==> c !in buf
    ensures r != -1 ==> 0 <= r < |buf| && buf[r] == c && c !in buf[..r]
  {
    var i := 0;
    while At(buf, i) != '\0'
      invariant i <= |buf| && c !in buf[..i]
      decreases |buf| - i
    {
      if buf[i] == c {
        return i;
      }
      i := i + 1;
    }
    assert i == |buf| && buf[..i] == buf;
    r := -1;
  }

  // ----- what one call reads

  /** The first position from `i` on whose character is not blank. */
  function SkipBlanks(s: string, i: nat): (r: nat)
    requires i <= |s|
    ensures i <= r <= |s| && (forall k :: i <= k < r ==> Blank(s[k])) && (r < |s| ==> !Blank(s[r]))
    decreases |s| - i
  {
    if i < |s| && Blank(s[i]) then SkipBlanks(s, i + 1) else i
  }

  /** The first position from `i` on whose character is in `stop`. */
  function FindStop(s: string, i: nat, stop: string): (r: nat)
    requires i <= |s|
    ensures i <= r <= |s| && (forall k :: i <= k < r ==> s[k] !in stop) && (r < |s| ==> s[r] in stop)
    decreases |s| - i
  {
    if i < |s| && s[i] !in stop then FindStop(s, i + 1, stop) else i
  }

  /** The word that a call at position `i` reads, and the position for the next call; None at the end. */
  function Word(s: string, i: nat): (w: Option<(string, nat)>)
    requires i <= |s|
    ensures w == None <==> forall k :: i <= k < |s| ==> Blank(s[k])
    ensures w.Some? ==> i < w.value.1 <= |s| && |w.value.0| <= w.value.1 - i
  {
    var j := SkipBlanks(s, i);
    if j == |s| then None
    else if Quote(s[j]) then
      var e := FindStop(s, j + 1, [s[j]]);
      Some((s[j + 1..e], if e < |s| then e + 1 else e))
    else
      var e := FindStop(s, j, WHITESPACE);
      Some((s[j..e], e))
  }

  method SkipWhitespace(buf: string, start: nat) returns (i: nat)
    requires CString(buf) && start <= |buf|
    ensures i == SkipBlanks(buf, start)
  {
    i := start;
    var k := P1StrChr(WHITESPACE, At(buf, i));
    while k != -1
      invariant i <= |buf| && SkipBlanks(buf, i) == SkipBlanks(buf, start)
      invariant k != -1 <==> i < |buf| && Blank(buf[i])
      decreases |buf| - i
    {
      i := i + 1;
      k := P1StrChr(WHITESPACE, At(buf, i));
    }
  }

  /** The copying loop: up to a character of `tc` or the end. */
  method CopyWord(buf: string, first: nat, tc: string, word: array<char>) returns (i: nat)
    requires CString(buf) && CString(tc) && first <= |buf| && FindStop(buf, first, tc) - first < word.Length
    modifies word
    ensures i == FindStop(buf, first, tc)
    ensures word[..i - first] == buf[first..i] && word[i - first] == '\0'
    ensures forall k :: i - first < k < word.Length ==> word[k] == old(word[k])
  {
    i := first;
    var p := 0;
    while At(buf, i) != '\0'
      invariant first <= i <= |buf| && p == i - first && FindStop(buf, i, tc) == FindStop(buf, first, tc)
      invariant p < word.Length && word[..p] == buf[first..i]
      invariant forall k :: p <= k < word.Length ==> word[k] == old(word[k])
      decreases |buf| - i
    {
      var k := P1StrChr(tc, buf[i]);
      if k != -1 {
        break;
      }
      word[p] := buf[i];
      p := p + 1;
      i := i + 1;
    }
    word[p] := '\0';
  }

  /** Copies the next word, with a terminator, to the front of `word`. */
  method P1GetWord(buf: string, start: nat, word: array<char>) returns (r: int)
    requires CString(buf) && start <= |buf|
    requires match Word(buf, start) case None => true case Some((w, _)) => |w| < word.Length
    modifies word
    ensures match Word(buf, start)
      case None => r == -1 && word[..] == old(word[..])
      case Some((w, next)) =>
        && r == next && word[..|w|] == w && word[|w|] == '\0'
        && forall k :: |w| < k < word.Length ==> word[k] == old(word[k])
  {
    var i := SkipWhitespace(buf, start);
    if At(buf, i) == '\0' {
      return -1;
    }
    var tc := WHITESPACE;
    if buf[i] == '\'' {
      tc := "'";
      i := i + 1;
    } else if buf[i] == '"' {
      tc := "\"";
      i := i + 1;
    }
    i := CopyWord(buf, i, tc, word);
    if At(buf, i) != '\0' {
      if tc != WHITESPACE {
        i := i + 1;
      }
    }
    r := i;
  }

  // ----- the splitting loop

  function AllWords(s: string, i: nat): seq<string>
    requires i <= |s|
    decreases |s| - i
  {
    match Word(s, i)
    case None => []
    case Some((w, next)) => [w] + AllWords(s, next)
  }

  /** Every call moves on, so there are at most as many words as characters. */
  lemma {:induction false} WordsBounded(s: string, i: nat)
    requires i <= |s|
    ensures |AllWords(s, i)| <= |s| - i
    decreases |s| - i
  {
    if Word(s, i).Some? {
      WordsBounded(s, Word(s, i).value.1);
    }
  }

  const ARG_SIZE: nat := 100

  /** `a` holds the C string `w`. */
  ghost predicate Holds(a: array<char>, w: string)
    reads a
  {
    |w| < a.Length && a[..|w|] == w && a[|w|] == '\0'
  }

  /** Splits a command into an array of as many buffers as the command has characters, and one more. The
      one used up for the failing call is dropped. Words must fit their buffers. */
  method SplitCommand(command: string) returns (arg: array<array?<char>>, n: nat)
    requires CString(command) && forall w <- AllWords(command, 0) :: |w| < ARG_SIZE
    ensures arg.Length == |command| + 1 && n == |AllWords(command, 0)| < arg.Length && arg[n] == null
    ensures forall k :: 0 <= k < n ==> arg[k] != null && Holds(arg[k], AllWords(command, 0)[k])
  {
    var bufs := Buffers(|command| + 1);
    n := ReadWords(command, bufs);
    arg := new array?<char>[|command| + 1](k requires 0 <= k < |bufs| => bufs[k]);
    arg[n] := null;
  }

  lemma NextWord(s: string, at: nat, words: seq<string>, j: nat)
    requires at <= |s| && j <= |words| && words[j..] == AllWords(s, at)
    ensures match Word(s, at)
      case None => j == |words|
      case Some((w, next)) => j < |words| && words[j] == w && words[j + 1..] == AllWords(s, next)
  {
    if Word(s, at).Some? {
      assert words[j] == words[j..][0] && words[j + 1..] == words[j..][1..];
    }
  }

  method ReadWords(command: string, bufs: seq<array<char>>) returns (j: nat)
    requires CString(command) && forall w <- AllWords(command, 0) :: |w| < ARG_SIZE
    requires |bufs| == |command| + 1 && forall k :: 0 <= k < |bufs| ==> bufs[k].Length == ARG_SIZE
    requires forall k, l :: 0 <= k < l < |bufs| ==> bufs[k] != bufs[l]
    modifies bufs
    ensures j == |AllWords(command, 0)| <= |command|
    ensures forall k :: 0 <= k < j ==> Holds(bufs[k], AllWords(command, 0)[k])
  {
    hide AllWords, Word;
    ghost var words := AllWords(command, 0);
    WordsBounded(command, 0);
    j := 0;
    ghost var at: nat := 0;
    NextWord(command, at, words, j);
    var location := P1GetWord(command, 0, bufs[0]);
    while location != -1
      invariant at <= |command| && j <= |words| && words[j..] == AllWords(command, at)
      invariant match Word(command, at)
        case None => location == -1 && j == |words|
        case Some((w, next)) => location == next && j < |words| && words[j] == w && Holds(bufs[j], w)
      invariant forall k :: 0 <= k < j ==> Holds(bufs[k], words[k])
      decreases |command| - at
    {
      NextWord(command, at, words, j);
      at := location;
      j := j + 1;
      NextWord(command, at, words, j);
      location := P1GetWord(command, location, bufs[j]);
    }
  }

  method Buffers(n: nat) returns (bufs: seq<array<char>>)
    ensures |bufs| == n && (forall k :: 0 <= k < n ==> fresh(bufs[k]) && bufs[k].Length == ARG_SIZE)
    ensures forall k, l :: 0 <= k < l < n ==> bufs[k] != bufs[l]
  {
    bufs := [];
    for i := 0 to n
      invariant |bufs| == i && (forall k :: 0 <= k < i ==> fresh(bufs[k]) && bufs[k].Length == ARG_SIZE)
      invariant forall k, l :: 0 <= k < l < i ==> bufs[k] != bufs[l]
    {
      var b := new char[ARG_SIZE];
      bufs := bufs + [b];
    }
  }

  // ----- round trip

  /** How lines are written, character by character and without reference to the reader. */
  datatype Style = Bare | Quoted(q: char)

  /** A word, the blanks before it and the way it is written. */
  datatype Item = Item(gap: string, style: Style, word: string)

  /** What a line ends with: blanks, or a quote that is never closed and the word after it. */
  datatype Tail = Blanks(gap: string) | Open(gap: string, q: char, word: string)

  function Written(x: Item): string {
    match x.style
    case Bare => x.gap + x.word
    case Quoted(q) => x.gap + [q] + x.word + [q]
  }

  function WrittenTail(t: Tail): string {
    match t
    case Blanks(gap) => gap
    case Open(gap, q, word) => gap + [q] + word
  }

  function Line(items: seq<Item>, tail: Tail): string {
    if items == [] then WrittenTail(tail) else Written(items[0]) + Line(items[1..], tail)
  }

  predicate AllBlank(s: string) {
    forall k :: 0 <= k < |s| ==> s[k] == ' ' || s[k] == '\t'
  }

  predicate NoneBlank(s: string) {
    forall k :: 0 <= k < |s| ==> s[k] != ' ' && s[k] != '\t'
  }

  predicate EitherQuote(c: char) {
    c == '\'' || c == '"'
  }

  /** A quoted word must not contain its quote; a bare one must be a run of non-blanks that does not start
      with a quote, and a blank or the end must follow it. */
  predicate WritableBefore(x: Item, rest: string) {
    AllBlank(x.gap) &&
    match x.style
    case Quoted(q) => EitherQuote(q) && q !in x.word
    case Bare =>
      && x.word != [] && !EitherQuote(x.word[0]) && NoneBlank(x.word)
      && (rest == "" || AllBlank(rest[..1]))
  }

  predicate WritableTail(t: Tail) {
    AllBlank(t.gap) && (t.Open? ==> EitherQuote(t.q) && t.q !in t.word)
  }

  predicate Writable(items: seq<Item>, tail: Tail) {
    if items == [] then WritableTail(tail)
    else WritableBefore(items[0], Line(items[1..], tail)) && Writable(items[1..], tail)
  }

  function WordsOf(items: seq<Item>, tail: Tail): seq<string> {
    if items == [] then (if tail.Open? then [tail.word] else [])
    else [items[0].word] + WordsOf(items[1..], tail)
  }

  lemma QuotedWord(s: string, i: nat, j: nat, e: nat)
    requires i <= j < e < |s| && AllBlank(s[i..j]) && EitherQuote(s[j]) && s[e] == s[j] && s[j] !in s[j + 1..e]
    ensures Word(s, i) == Some((s[j + 1..e], e + 1))
  {
    assert forall k :: i <= k < j ==> s[k] == s[i..j][k - i];
    assert forall k :: j + 1 <= k < e ==> s[k] == s[j + 1..e][k - j - 1];
    assert SkipBlanks(s, i) == j && FindStop(s, j + 1, [s[j]]) == e;
  }

  lemma OpenWord(s: string, i: nat, j: nat)
    requires i <= j < |s| && AllBlank(s[i..j]) && EitherQuote(s[j]) && s[j] !in s[j + 1..]
    ensures Word(s, i) == Some((s[j + 1..], |s|))
  {
    assert forall k :: i <= k < j ==> s[k] == s[i..j][k - i];
    assert forall k :: j + 1 <= k < |s| ==> s[k] == s[j + 1..][k - j - 1];
    assert SkipBlanks(s, i) == j && FindStop(s, j + 1, [s[j]]) == |s|;
    assert s[j + 1..] == s[j + 1..|s|];
  }

  lemma BareWord(s: string, i: nat, j: nat, e: nat)
    requires i <= j < e <= |s| && AllBlank(s[i..j]) && !EitherQuote(s[j]) && NoneBlank(s[j..e])
    requires e < |s| ==> Blank(s[e])
    ensures Word(s, i) == Some((s[j..e], e))
  {
    assert forall c :: c in WHITESPACE <==> Blank(c);
    assert forall k :: i <= k < j ==> s[k] == s[i..j][k - i];
    assert forall k :: j <= k < e ==> s[k] == s[j..e][k - j];
    assert SkipBlanks(s, i) == j && FindStop(s, j, WHITESPACE) == e;
  }

  lemma WordOfQuoted(p: string, gap: string, q: char, word: string, rest: string)
    requires AllBlank(gap) && EitherQuote(q) && q !in word
    ensures Word(p + (gap + [q] + word + [q]) + rest, |p|) == Some((word, |p| + |gap| + |word| + 2))
  {
    var s := p + (gap + [q] + word + [q]) + rest;
    var j, e := |p| + |gap|, |p| + |gap| + 1 + |word|;
    assert s[|p|..j] == gap && s[j] == q && s[j + 1..e] == word && s[e] == q;
    QuotedWord(s, |p|, j, e);
  }

  lemma WordOfBare(p: string, gap: string, word: string, rest: string)
    requires AllBlank(gap) && word != [] && !EitherQuote(word[0]) && NoneBlank(word)
    requires rest == "" || AllBlank(rest[..1])
    ensures Word(p + (gap + word) + rest, |p|) == Some((word, |p| + |gap| + |word|))
  {
    var s := p + (gap + word) + rest;
    var j, e := |p| + |gap|, |p| + |gap| + |word|;
    assert s[|p|..j] == gap && s[j..e] == word && s[j] == word[0] && (rest != "" ==> s[e] == rest[..1][0]);
    BareWord(s, |p|, j, e);
  }

  /** The first word of the part of a line after `p`, and where the next call starts: right behind what was written. */
  lemma WordOfWritten(p: string, x: Item, rest: string)
    requires WritableBefore(x, rest)
    ensures Word(p + Written(x) + rest, |p|) == Some((x.word, |p + Written(x)|))
  {
    match x.style
    case Quoted(q) => WordOfQuoted(p, x.gap, q, x.word, rest);
    case Bare => WordOfBare(p, x.gap, x.word, rest);
  }

  /** At the end of a line there is no word, or the one after the quote that is left open. */
  lemma WordOfTail(p: string, t: Tail)
    requires WritableTail(t)
    ensures var s := p + WrittenTail(t);
      Word(s, |p|) == if t.Open? then Some((t.word, |s|)) else None
  {
    var s := p + WrittenTail(t);
    if t.Open? {
      var j := |p| + |t.gap|;
      assert s[|p|..j] == t.gap && s[j] == t.q && s[j + 1..] == t.word;
      OpenWord(s, |p|, j);
    } else {
      assert forall k :: |p| <= k < |s| ==> s[k] == t.gap[k - |p|];
    }
  }

  lemma WordsStep(p: string, x: Item, rest: string)
    requires WritableBefore(x, rest)
    ensures var s := p + Written(x) + rest;
      AllWords(s, |p|) == [x.word] + AllWords(s, |p + Written(x)|)
  {
    hide Written, WritableBefore;
    WordOfWritten(p, x, rest);
  }

  lemma WordsOfTail(p: string, t: Tail)
    requires WritableTail(t)
    ensures AllWords(p + WrittenTail(t), |p|) == if t.Open? then [t.word] else []
  {
    var s := p + WrittenTail(t);
    WordOfTail(p, t);
    assert Word(s, |s|) == None;
  }

  /** From any position of a line on, reading what was written there gives back exactly the words, whatever the
      blanks, quotes and styles, and whether or not the last quote is closed. */
  lemma {:induction false} WordsRoundTrip(p: string, items: seq<Item>, tail: Tail)
    requires Writable(items, tail)
    ensures AllWords(p + Line(items, tail), |p|) == WordsOf(items, tail)
    decreases |items|
  {
    hide AllWords;
    if items == [] {
      WordsOfTail(p, tail);
    } else {
      var p', rest := p + Written(items[0]), Line(items[1..], tail);
      WordsStep(p, items[0], rest);
      WordsRoundTrip(p', items[1..], tail);
      assert p + Line(items, tail) == p' + rest;
    }
  }

  lemma QuotedPiece(s: string, j: nat, e: nat)
    requires j < e < |s| && AllBlank(s[..j]) && EitherQuote(s[j]) && s[e] == s[j] && forall k :: j < k < e ==> s[k] != s[j]
    ensures var x := Item(s[..j], Quoted(s[j]), s[j + 1..e]);
      WritableBefore(x, s[e + 1..]) && s == Written(x) + s[e + 1..]
  {
  }

  lemma OpenPiece(s: string, j: nat)
    requires j < |s| && AllBlank(s[..j]) && EitherQuote(s[j]) && forall k :: j < k < |s| ==> s[k] != s[j]
    ensures var t := Open(s[..j], s[j], s[j + 1..]);
      WritableTail(t) && s == WrittenTail(t)
  {
  }

  lemma BarePiece(s: string, j: nat, e: nat)
    requires j < e <= |s| && AllBlank(s[..j]) && !EitherQuote(s[j]) && NoneBlank(s[j..e]) && (e < |s| ==> AllBlank(s[e..e + 1]))
    ensures var x := Item(s[..j], Bare, s[j..e]);
      WritableBefore(x, s[e..]) && s == Written(x) + s[e..]
  {
    assert e < |s| ==> s[e..][..1] == s[e..e + 1];
  }

  /** Every line is written in that way, so the round trip says what is read from any line whatever. */
  lemma {:induction false} EveryLineWritten(s: string) returns (items: seq<Item>, tail: Tail)
    ensures Writable(items, tail) && Line(items, tail) == s
    decreases |s|
  {
    hide Line, Writable, WritableBefore, Written, WritableTail, WrittenTail;
    var j := SkipBlanks(s, 0);
    items := [];
    if j == |s| {
      tail := Blanks(s);
      OnlyTail(tail, s);
    } else if EitherQuote(s[j]) {
      var e := FindStop(s, j + 1, [s[j]]);
      if e == |s| {
        tail := Open(s[..j], s[j], s[j + 1..]);
        OpenPiece(s, j);
        OnlyTail(tail, s);
      } else {
        items, tail := EveryLineWritten(s[e + 1..]);
        QuotedPiece(s, j, e);
        items := Prepended(s, Item(s[..j], Quoted(s[j]), s[j + 1..e]), items, tail);
      }
    } else {
      var e := FindStop(s, j, WHITESPACE);
      items, tail := EveryLineWritten(s[e..]);
      BarePiece(s, j, e);
      items := Prepended(s, Item(s[..j], Bare, s[j..e]), items, tail);
    }
  }

  lemma OnlyTail(t: Tail, s: string)
    requires if t.Open? then WritableTail(t) && s == WrittenTail(t) else AllBlank(s) && t.gap == s
    ensures Writable([], t) && Line([], t) == s
  {
  }

  lemma Prepended(s: string, x: Item, items: seq<Item>, tail: Tail) returns (all: seq<Item>)
    requires Writable(items, tail) && WritableBefore(x, Line(items, tail)) && s == Written(x) + Line(items, tail)
    ensures Writable(all, tail) && Line(all, tail) == s
  {
    all := [x] + items;
    assert all[1..] == items;
  }
}
