/** The translation of file-name patterns into regular expressions of extraCredit/file_crawler_single.c.
    Matching of patterns follows XCU section 2.13 and of expressions XBD section 9.4 of POSIX.1-2017, for the
    constructs the translation deals with; expressions are compiled with newlines treated as line ends. */
module GlobPatterns {
  import opened Options

  // ----- bracket expressions, which patterns and expressions share

  /** Where the first ']' is, or the length. */
  function Closing(r: string): (e: nat)
    ensures e <= |r| && (e < |r| ==> r[e] == ']') && forall k :: 0 <= k < e ==> r[k] != ']'
  {
    if r == [] || r[0] == ']' then 0 else 1 + Closing(r[1..])
  }

  /** The string starts with a bracket expression. */
  predicate Bracketed(r: string) {
    r != [] && r[0] == '[' && Closing(r[1..]) < |r| - 1
  }

  function Body(r: string): string
    requires Bracketed(r)
  {
    r[1..][..Closing(r[1..])]
  }

  function Beyond(r: string): (b: string)
    requires Bracketed(r)
    ensures |b| < |r| && r == "[" + Body(r) + "]" + b
  {
    r[1..][Closing(r[1..]) + 1..]
  }

  /** The characters that the inside of brackets lists, one by one or as a span. */
  predicate Listed(body: string, c: char) {
    if body == [] then false
    else if |body| >= 3 && body[1] == '-' then body[0] <= c <= body[2] || Listed(body[3..], c)
    else c == body[0] || Listed(body[1..], c)
  }

  /** A list without hyphens holds its characters; a hyphen between two makes a span. */
  lemma {:induction false} ListedCharacters(body: string, c: char)
    requires '-' !in body
    ensures Listed(body, c) <==> c in body
  {
    if body != [] {
      ListedCharacters(body[1..], c);
      assert body == [body[0]] + body[1..];
      assert |body| >= 3 ==> body[1] in body;
    }
  }

  lemma ListedSpan(a: char, b: char, rest: string, c: char)
    ensures Listed([a, '-', b] + rest, c) <==> a <= c <= b || Listed(rest, c)
  {
    assert ([a, '-', b] + rest)[3..] == rest;
  }

  /** Every span begins where it may. */
  predicate SpansInOrder(body: string) {
    if body == [] then true
    else if |body| >= 3 && body[1] == '-' then body[0] <= body[2] && SpansInOrder(body[3..])
    else SpansInOrder(body[1..])
  }

  // ----- patterns

  /** Characters that stand for themselves in a pattern and in an extended regular expression. */
  predicate Ordinary(c: char) {
    c !in {'^', '.', '[', '$', '(', ')', '|', '*', '+', '?', '{', '\\', '\n', '\0'}
  }

  /** The inside of brackets that the translation leaves alone and that both notations define. */
  predicate Clean(body: string) {
    && body != [] && body != "!" && body[0] != '^' && SpansInOrder(body)
    && forall c <- body :: c !in {'*', '.', '?', '[', ']', '\\', '\n', '\0'}
  }

  /** Patterns made of ordinary characters, '.', '*', '?' and brackets. */
  predicate Glob(g: string)
    decreases |g|
  {
    if g == [] then true
    else if g[0] == '[' then Bracketed(g) && Clean(Body(g)) && Glob(Beyond(g))
    else (Ordinary(g[0]) || g[0] in {'.', '*', '?'}) && Glob(g[1..])
  }

  /** No bracket starts with an exclamation mark. */
  predicate NoBang(g: string)
    requires Glob(g)
    decreases |g|
  {
    if g == [] then true
    else if g[0] == '[' then Body(g)[0] != '!' && NoBang(Beyond(g))
    else NoBang(g[1..])
  }

  predicate InBrackets(body: string, c: char, bang: bool) {
    if bang && body != [] && body[0] == '!' then !Listed(body[1..], c) else Listed(body, c)
  }

  /** Pattern matching. `bang` says whether an exclamation mark at the start of brackets negates, as it does in
      patterns; or is a character like any other, as it is in expressions. */
  ghost predicate GlobMatches(g: string, s: string, bang: bool)
    decreases |g|
  {
    if g == [] then s == []
    else if g[0] == '*' then exists k :: 0 <= k <= |s| && GlobMatches(g[1..], s[k..], bang)
    else if Bracketed(g) then s != [] && InBrackets(Body(g), s[0], bang) && GlobMatches(Beyond(g), s[1..], bang)
    else s != [] && (g[0] == '?' || g[0] == s[0]) && GlobMatches(g[1..], s[1..], bang)
  }

  lemma {:induction false} SameWithoutBang(g: string, s: string)
    requires Glob(g) && NoBang(g)
    ensures GlobMatches(g, s, true) <==> GlobMatches(g, s, false)
    decreases |g|
  {
    if g != [] {
      if g[0] == '*' {
        forall k | 0 <= k <= |s| ensures GlobMatches(g[1..], s[k..], true) <==> GlobMatches(g[1..], s[k..], false) {
          SameWithoutBang(g[1..], s[k..]);
        }
      } else if s != [] {
        SameWithoutBang(if g[0] == '[' then Beyond(g) else g[1..], s[1..]);
      }
    }
  }

  // ----- the translation

  function Translated(c: char): string {
    if c == '*' then ".*" else if c == '.' then "\\." else if c == '?' then "." else [c]
  }

  function TranslatedAll(g: string): string {
    if g == [] then [] else Translated(g[0]) + TranslatedAll(g[1..])
  }

  function Translation(g: string): string {
    "^" + TranslatedAll(g) + "$"
  }

  /** Writes the expression and a terminator through an advancing position; it never needs more room than
      two characters for each of the pattern's and three for the anchors and the terminator. */
  method CvtPattern(pattern: array<char>, bashpat: string)
    requires '\0' !in bashpat        // a C string, without its terminator
    requires 2 * |bashpat| + 3 <= pattern.Length
    modifies pattern
    ensures var t := Translation(bashpat);
      && |t| <= 2 * |bashpat| + 2
      && pattern[..|t|] == t && pattern[|t|] == '\0'
      && forall k :: |t| < k < pattern.Length ==> pattern[k] == old(pattern[k])
    ensures (forall c <- bashpat :: c !in {'*', '.', '?'}) ==> pattern[..|bashpat| + 2] == "^" + bashpat + "$"
  {
    TranslatedCopies(bashpat);
    var p := Put(pattern, 0, '^');
    for i := 0 to |bashpat|
      invariant 1 <= p <= 2 * i + 1
      invariant pattern[..p] == "^" + TranslatedAll(bashpat[..i])
      invariant forall k :: p <= k < pattern.Length ==> pattern[k] == old(pattern[k])
    {
      TranslatedNext(bashpat, i);
      p := PutTranslated(pattern, p, bashpat[i]);
    }
    assert bashpat[..|bashpat|] == bashpat;
    p := Put(pattern, p, '$');
    pattern[p] := '\0';
  }

  method PutTranslated(pattern: array<char>, p: nat, c: char) returns (p': nat)
    requires p + 2 <= pattern.Length
    modifies pattern
    ensures p' == p + |Translated(c)| && pattern[..p'] == old(pattern[..p]) + Translated(c)
    ensures forall k :: p' <= k < pattern.Length ==> pattern[k] == old(pattern[k])
  {
    match c
    case '*' =>
      p' := Put(pattern, p, '.');
      p' := Put(pattern, p', '*');
    case '.' =>
      p' := Put(pattern, p, '\\');
      p' := Put(pattern, p', '.');
    case '?' =>
      p' := Put(pattern, p, '.');
    case _ =>
      p' := Put(pattern, p, c);
  }

  /** Writes one character and advances. */
  method Put(pattern: array<char>, p: nat, c: char) returns (p': nat)
    requires p < pattern.Length
    modifies pattern
    ensures p' == p + 1
    ensures pattern[..p'] == old(pattern[..p]) + [c]
    ensures forall k :: p' <= k < pattern.Length ==> pattern[k] == old(pattern[k])
  {
    pattern[p] := c;
    p' := p + 1;
  }

  lemma TranslatedNext(g: string, i: nat)
    requires i < |g|
    ensures "^" + TranslatedAll(g[..i + 1]) == "^" + TranslatedAll(g[..i]) + Translated(g[i])
  {
    TranslatedSnoc(g[..i], g[i]);
    assert g[..i + 1] == g[..i] + [g[i]];
  }

  lemma TranslatedSnoc(g: string, c: char)
    ensures TranslatedAll(g + [c]) == TranslatedAll(g) + Translated(c)
  {
    TranslatedConcat(g, [c]);
    assert [c][1..] == [];
  }

  /** Patterns are translated piece by piece. */
  lemma {:induction false} TranslatedConcat(a: string, b: string)
    ensures TranslatedAll(a + b) == TranslatedAll(a) + TranslatedAll(b)
  {
    hide Translated;
    if a == [] {
      assert a + b == b;
    } else {
      TranslatedConcat(a[1..], b);
      assert (a + b)[0] == a[0] && (a + b)[1..] == a[1..] + b;
      Regroup(Translated(a[0]), TranslatedAll(a[1..]), TranslatedAll(b));
    }
  }

  lemma Regroup(a: string, b: string, c: string)
    ensures a + (b + c) == (a + b) + c
  {
  }

  /** The three special pieces; everything without them is copied, whatever else it contains. */
  lemma TranslatedPieces()
    ensures TranslatedAll("*") == ".*" && TranslatedAll(".") == "\\." && TranslatedAll("?") == "."
  {
    assert "*"[1..] == "" && "."[1..] == "" && "?"[1..] == "";
  }

  lemma {:induction false} TranslatedCopies(g: string)
    ensures (forall c <- g :: c !in {'*', '.', '?'}) ==> TranslatedAll(g) == g
  {
    if g != [] && forall c <- g :: c !in {'*', '.', '?'} {
      assert g[0] in g && forall c <- g[1..] :: c in g;
      TranslatedCopies(g[1..]);
      assert g == [g[0]] + g[1..];
    }
  }

  // ----- extended regular expressions

  /** The inside of brackets in an expression: '^' at the start negates. */
  predicate ListOk(b: string) {
    b != [] && b != "^" && SpansInOrder(if b[0] == '^' then b[1..] else b) && forall c <- b :: c !in {'[', ']', '\0'}
  }

  type List = b: string | ListOk(b) witness "a"

  datatype Atom = AnyChar | Literal(c: char) | OneOf(list: List)

  datatype Item = Bol | Eol | One(a: Atom) | Star(a: Atom)

  /** Reads an expression: anchors, '.', escaped and ordinary characters, brackets, and '*' after one of the last four. */
  function Parse(r: string): Option<seq<Item>>
    decreases |r|
  {
    if r == [] then Some([])
    else if r[0] == '^' then Prepend(Bol, Parse(r[1..]))
    else if r[0] == '$' then Prepend(Eol, Parse(r[1..]))
    else
      match ParseAtom(r)
      case None => None
      case Some((a, rest)) =>
        if rest != [] && rest[0] == '*' then Prepend(Star(a), Parse(rest[1..])) else Prepend(One(a), Parse(rest))
  }

  function ParseAtom(r: string): (x: Option<(Atom, string)>)
    requires r != []
    ensures x.Some? ==> |x.value.1| < |r|
  {
    if r[0] == '.' then Some((AnyChar, r[1..]))
    else if r[0] == '\\' then (if |r| >= 2 then Some((Literal(r[1]), r[2..])) else None)
    else if r[0] == '[' then
      (if Bracketed(r) && ListOk(Body(r)) then Some((OneOf(Body(r)), Beyond(r))) else None)
    else if Ordinary(r[0]) then Some((Literal(r[0]), r[1..]))
    else None
  }

  function Prepend(i: Item, rest: Option<seq<Item>>): Option<seq<Item>> {
    match rest
    case None => None
    case Some(items) => Some([i] + items)
  }

  predicate AtomMatches(a: Atom, c: char) {
    match a
    case AnyChar => c != '\n'
    case Literal(l) => c == l
    case OneOf(b) => if b[0] == '^' then c != '\n' && !Listed(b[1..], c) else Listed(b, c)
  }

  /** The items match the characters of `s` from position `i` to position `j`. */
  ghost predicate MatchesAt(items: seq<Item>, s: string, i: nat, j: nat)
    requires i <= |s| && j <= |s|
    decreases |items|
  {
    if items == [] then i == j
    else
      match items[0]
      case Bol => (i == 0 || s[i - 1] == '\n') && MatchesAt(items[1..], s, i, j)
      case Eol => (i == |s| || s[i] == '\n') && MatchesAt(items[1..], s, i, j)
      case One(a) => i < |s| && AtomMatches(a, s[i]) && MatchesAt(items[1..], s, i + 1, j)
      case Star(a) => exists k: nat :: i <= k <= |s| && AllMatch(a, s[i..k]) && MatchesAt(items[1..], s, k, j)
  }

  predicate AllMatch(a: Atom, s: string) {
    forall c <- s :: AtomMatches(a, c)
  }

  /** What the matching engine reports: some stretch of the string matches. */
  ghost predicate Found(items: seq<Item>, s: string) {
    exists i: nat, j: nat :: i <= |s| && j <= |s| && MatchesAt(items, s, i, j)
  }

  /** What each character outside brackets stands for. */
  function ItemOf(c: char): Item {
    if c == '*' then Star(AnyChar) else if c == '?' then One(AnyChar) else One(Literal(c))
  }

  /** The item for the first piece of a pattern, and what the pattern goes on with. */
  function FirstItem(g: string): Item
    requires Glob(g) && g != []
  {
    if g[0] == '[' then One(OneOf(Body(g))) else ItemOf(g[0])
  }

  function Next(g: string): (n: string)
    requires Glob(g) && g != []
    ensures |n| < |g| && Glob(n)
  {
    if g[0] == '[' then Beyond(g) else g[1..]
  }

  function ItemsOf(g: string): seq<Item>
    requires Glob(g)
    decreases |g|
  {
    if g == [] then [] else [FirstItem(g)] + ItemsOf(Next(g))
  }

  // ----- the expression has only one reading

  /** How an item is written. A literal is written plainly when it is ordinary, and escaped otherwise. */
  function Written(i: Item): string {
    match i
    case Bol => "^"
    case Eol => "$"
    case One(a) => WrittenAtom(a)
    case Star(a) => WrittenAtom(a) + "*"
  }

  function WrittenAtom(a: Atom): string {
    match a
    case AnyChar => "."
    case Literal(c) => if Ordinary(c) then [c] else ['\\', c]
    case OneOf(b) => "[" + b + "]"
  }

  function WrittenAll(items: seq<Item>): string {
    if items == [] then [] else Written(items[0]) + WrittenAll(items[1..])
  }

  /** Different expressions are written differently, because parsing gives each of them back. */
  lemma {:induction false} ParseWritten(items: seq<Item>)
    ensures Parse(WrittenAll(items)) == Some(items)
  {
    if items != [] {
      ParseWritten(items[1..]);
      WrittenNoStar(items[1..]);
      ParseWrittenItem(items[0], WrittenAll(items[1..]));
      assert items == [items[0]] + items[1..];
    }
  }

  lemma ParseWrittenItem(i: Item, rest: string)
    requires rest == [] || rest[0] != '*'
    ensures Parse(Written(i) + rest) == Prepend(i, Parse(rest))
  {
    match i
    case Bol => assert ("^" + rest)[1..] == rest;
    case Eol => assert ("$" + rest)[1..] == rest;
    case One(a) => ParseOne(a, rest);
    case Star(a) => ParseStar(a, rest);
  }

  lemma ParseOne(a: Atom, rest: string)
    requires rest == [] || rest[0] != '*'
    ensures Parse(WrittenAtom(a) + rest) == Prepend(One(a), Parse(rest))
  {
    hide ParseAtom, WrittenAtom;
    ParseWrittenAtom(a, rest);
  }

  lemma ParseStar(a: Atom, rest: string)
    ensures Parse(WrittenAtom(a) + "*" + rest) == Prepend(Star(a), Parse(rest))
  {
    hide ParseAtom, WrittenAtom;
    assert WrittenAtom(a) + "*" + rest == WrittenAtom(a) + ("*" + rest) && ("*" + rest)[1..] == rest;
    ParseWrittenAtom(a, "*" + rest);
  }

  lemma ParseWrittenAtom(a: Atom, rest: string)
    ensures var r := WrittenAtom(a) + rest;
      ParseAtom(r) == Some((a, rest)) && r[0] != '^' && r[0] != '$'
  {
    var r := WrittenAtom(a) + rest;
    if a.OneOf? {
      assert r[1..] == a.list + ("]" + rest);
      ClosingAt(a.list, "]" + rest);
      assert Body(r) == a.list && Beyond(r) == rest;
    } else if a.Literal? && !Ordinary(a.c) {
      assert r[2..] == rest;
    } else {
      assert r[1..] == rest;
    }
  }

  lemma {:induction false} ClosingAt(b: string, rest: string)
    requires ']' !in b && rest != [] && rest[0] == ']'
    ensures Closing(b + rest) == |b|
  {
    if b == [] {
      assert b + rest == rest;
    } else {
      ClosingAt(b[1..], rest);
      assert (b + rest)[1..] == b[1..] + rest;
    }
  }

  lemma WrittenNoStar(items: seq<Item>)
    ensures WrittenAll(items) != [] ==> WrittenAll(items)[0] != '*'
  {
    if items != [] {
      var w := Written(items[0]);
      assert w != [] && w[0] != '*' && WrittenAll(items)[0] == w[0];
    }
  }

  lemma ItemsNext(g: string)
    requires Glob(g) && g != []
    ensures var items := ItemsOf(g) + [Eol];
      items[0] == FirstItem(g) && items[1..] == ItemsOf(Next(g)) + [Eol]
  {
    hide FirstItem, Next, Glob;
  }

  lemma {:induction false} TranslatedWritten(g: string)
    requires Glob(g)
    ensures WrittenAll(ItemsOf(g) + [Eol]) == TranslatedAll(g) + "$"
    decreases |g|
  {
    if g == [] {
      assert ItemsOf(g) + [Eol] == [Eol] && [Eol][1..] == [];
    } else {
      hide ItemsOf, Translated, Written, FirstItem, Next;
      TranslatedWritten(Next(g));
      ItemsNext(g);
      PieceWritten(g);
      assert WrittenAll(ItemsOf(g) + [Eol]) == Written((ItemsOf(g) + [Eol])[0]) + WrittenAll(ItemsOf(Next(g)) + [Eol]);
    }
  }

  /** The translation of the first piece is its item, written. */
  lemma PieceWritten(g: string)
    requires Glob(g) && g != []
    ensures TranslatedAll(g) == Written(FirstItem(g)) + TranslatedAll(Next(g))
  {
    if g[0] == '[' {
      BracketTranslated(Body(g), Beyond(g));
    }
  }

  /** Clean brackets are copied. */
  lemma BracketTranslated(b: string, rest: string)
    requires Clean(b)
    ensures TranslatedAll("[" + b + "]" + rest) == "[" + b + "]" + TranslatedAll(rest)
  {
    TranslatedConcat("[" + b + "]", rest);
    TranslatedCopies("[" + b + "]");
  }

  lemma TranslationWritten(g: string)
    requires Glob(g)
    ensures WrittenAll([Bol] + ItemsOf(g) + [Eol]) == Translation(g)
  {
    TranslatedWritten(g);
    var items := [Bol] + ItemsOf(g) + [Eol];
    assert items[1..] == ItemsOf(g) + [Eol];
  }

  /** The translation is the written form of the anchored items, and of no other expression. */
  lemma TranslationUnambiguous(g: string, items: seq<Item>)
    requires Glob(g)
    ensures WrittenAll(items) == Translation(g) <==> items == [Bol] + ItemsOf(g) + [Eol]
  {
    TranslationWritten(g);
    ParseWritten([Bol] + ItemsOf(g) + [Eol]);
    ParseWritten(items);
  }

  // ----- the translation keeps the meaning

  /** A star takes any stretch of a name, if what follows it agrees from every later position. */
  lemma StarMatches(items: seq<Item>, g: string, s: string, i: nat, j: nat)
    requires Glob(g) && g != [] && g[0] == '*' && items == ItemsOf(g) + [Eol] && '\n' !in s && i <= |s| && j <= |s|
    requires forall k: nat | i <= k <= |s| ::
      MatchesAt(items[1..], s, k, j) <==> j == |s| && GlobMatches(Next(g), s[k..], false)
    ensures MatchesAt(items, s, i, j) <==> j == |s| && GlobMatches(g, s[i..], false)
  {
    if MatchesAt(items, s, i, j) {
      var k: nat :| i <= k <= |s| && AllMatch(AnyChar, s[i..k]) && MatchesAt(items[1..], s, k, j);
      assert s[i..][k - i..] == s[k..];
    }
    if j == |s| && GlobMatches(g, s[i..], false) {
      var k :| 0 <= k <= |s[i..]| && GlobMatches(g[1..], s[i..][k..], false);
      assert s[i..][k..] == s[i + k..];
      assert AllMatch(AnyChar, s[i..i + k]) && MatchesAt(items[1..], s, i + k, j);
    }
  }

  /** Any other piece takes one character. */
  lemma OneMatches(items: seq<Item>, g: string, s: string, i: nat, j: nat)
    requires Glob(g) && g != [] && g[0] != '*' && '\n' !in s && i <= |s| && j <= |s|
    requires items == ItemsOf(g) + [Eol]
    requires i < |s| ==> (MatchesAt(items[1..], s, i + 1, j) <==> j == |s| && GlobMatches(Next(g), s[i + 1..], false))
    ensures MatchesAt(items, s, i, j) <==> j == |s| && GlobMatches(g, s[i..], false)
  {
    if i < |s| {
      assert s[i..][1..] == s[i + 1..] && s[i] in s;
    }
  }

  lemma EndMatches(s: string, i: nat, j: nat)
    requires '\n' !in s && i <= |s| && j <= |s|
    ensures MatchesAt([Eol], s, i, j) <==> j == |s| && GlobMatches("", s[i..], false)
  {
    assert [Eol][1..] == [];
    assert i < |s| ==> s[i] in s;
  }

  lemma {:induction false} ItemsMatch(g: string, s: string, i: nat, j: nat)
    requires Glob(g) && '\n' !in s && i <= |s| && j <= |s|
    ensures MatchesAt(ItemsOf(g) + [Eol], s, i, j) <==> j == |s| && GlobMatches(g, s[i..], false)
    decreases |g|
  {
    var items := ItemsOf(g) + [Eol];
    if g == [] {
      assert items == [Eol];
      EndMatches(s, i, j);
    } else {
      hide GlobMatches, MatchesAt, ItemsOf, FirstItem, Next;
      ItemsNext(g);
      forall k: nat | i <= k <= |s|
        ensures MatchesAt(items[1..], s, k, j) <==> j == |s| && GlobMatches(Next(g), s[k..], false)
      {
        ItemsMatch(Next(g), s, k, j);
      }
      if g[0] == '*' {
        StarMatches(items, g, s, i, j);
      } else {
        OneMatches(items, g, s, i, j);
      }
    }
  }

  /** For every pattern and every name without a newline, the engine accepts exactly the names the pattern matches
      when an exclamation mark at the start of brackets is read as a character like any other: the whole name and
      nothing less. */
  lemma TranslationMeaning(g: string, s: string)
    requires Glob(g) && '\n' !in s
    ensures Parse(Translation(g)).Some?
    ensures Found(Parse(Translation(g)).value, s) <==> GlobMatches(g, s, false)
  {
    var items := [Bol] + ItemsOf(g) + [Eol];
    TranslationWritten(g);
    ParseWritten(items);
    assert items[1..] == ItemsOf(g) + [Eol];
    assert s[0..] == s;
    forall i: nat, j: nat | i <= |s| && j <= |s|
      ensures MatchesAt(items, s, i, j) <==> i == 0 && j == |s| && GlobMatches(g, s, false)
    {
      ItemsMatch(g, s, i, j);
    }
    if GlobMatches(g, s, false) {
      assert MatchesAt(items, s, 0, |s|);
    }
  }

  /** So the translation keeps the meaning of every pattern without negated brackets. */
  lemma TranslationKeepsMeaning(g: string, s: string)
    requires Glob(g) && NoBang(g) && '\n' !in s
    ensures Parse(Translation(g)).Some?
    ensures Found(Parse(Translation(g)).value, s) <==> GlobMatches(g, s, true)
  {
    TranslationMeaning(g, s);
    SameWithoutBang(g, s);
  }

  /** The repository's own pattern for C sources and headers: names that end in ".c" or ".h". */
  lemma SourcesAndHeaders(s: string)
    requires '\n' !in s
    ensures var g := "*.[ch]";
      && Glob(g) && NoBang(g) && Translation(g) == "^.*\\.[ch]$" && Parse(Translation(g)).Some?
      && (Found(Parse(Translation(g)).value, s) <==> |s| >= 2 && s[|s| - 2] == '.' && s[|s| - 1] in {'c', 'h'})
  {
    hide Glob, NoBang, GlobMatches, Parse, Translation;
    OwnGlob();
    TranslatedOfOwn();
    TranslationKeepsMeaning("*.[ch]", s);
    OwnMatches(s);
  }

  lemma OwnBody()
    ensures Bracketed("[ch]") && Body("[ch]") == "ch" && Beyond("[ch]") == ""
  {
    assert "[ch]"[1..] == "ch" + "]";
    ClosingAt("ch", "]");
  }

  lemma OwnClean()
    ensures Clean("ch")
  {
    assert "ch"[1..] == "h" && "h"[1..] == "";
  }

  lemma OwnPiece()
    ensures Glob("[ch]") && NoBang("[ch]")
  {
    hide Clean, Bracketed, Body, Beyond;
    OwnBody();
    OwnClean();
  }

  lemma OwnGlob()
    ensures Glob("*.[ch]") && NoBang("*.[ch]")
  {
    hide Clean, Bracketed, Body, Beyond;
    OwnPiece();
    assert ".[ch]"[1..] == "[ch]";
    assert Glob(".[ch]") && NoBang(".[ch]");
    assert "*.[ch]"[1..] == ".[ch]";
  }

  lemma TranslatedOfOwn()
    ensures Translation("*.[ch]") == "^.*\\.[ch]$"
  {
    TranslatedPieces();
    TranslatedConcat("*", ".[ch]");
    TranslatedConcat(".", "[ch]");
    TranslatedCopies("[ch]");
    assert "*" + ".[ch]" == "*.[ch]" && "." + "[ch]" == ".[ch]";
  }

  lemma OwnMatches(s: string)
    ensures GlobMatches("*.[ch]", s, true) <==> |s| >= 2 && s[|s| - 2] == '.' && s[|s| - 1] in {'c', 'h'}
  {
    assert "*.[ch]"[1..] == ".[ch]";
    forall k | 0 <= k <= |s|
      ensures GlobMatches(".[ch]", s[k..], true) <==> k == |s| - 2 && OwnName(s)
    {
      OwnEnd(s[k..]);
    }
    if OwnName(s) {
      assert GlobMatches(".[ch]", s[|s| - 2..], true);
    }
  }

  predicate OwnName(s: string) {
    |s| >= 2 && s[|s| - 2] == '.' && s[|s| - 1] in {'c', 'h'}
  }

  lemma OwnEnd(s: string)
    ensures GlobMatches(".[ch]", s, true) <==> |s| == 2 && s[0] == '.' && s[1] in {'c', 'h'}
  {
    assert ".[ch]"[1..] == "[ch]";
    if s != [] {
      OwnBrackets(s[1..]);
    }
  }

  lemma OwnBrackets(s: string)
    ensures GlobMatches("[ch]", s, true) <==> |s| == 1 && s[0] in {'c', 'h'}
  {
    hide Body, Beyond, Bracketed;
    OwnBody();
    if s != [] {
      ListedCharacters("ch", s[0]);
    }
  }

  /** A negated bracket loses its meaning: on the names of one character, the expression is right exactly where the
      list with the exclamation mark in it is the complement of the list without; and unless the two begin a span,
      that is nowhere but at the exclamation mark itself. */
  lemma NegationLost(b: string, c: char)
    requires Clean("!" + b) && c != '\n'
    ensures var g := "[!" + b + "]";
      && Glob(g) && Parse(Translation(g)).Some?
      && ((Found(Parse(Translation(g)).value, [c]) <==> GlobMatches(g, [c], true))
          <==> (Listed("!" + b, c) <==> !Listed(b, c)))
    ensures b[0] != '-' || |b| == 1 ==> ((Listed("!" + b, c) <==> !Listed(b, c)) <==> c == '!' && !Listed(b, c))
  {
    BangPattern(b, c);
    TranslationMeaning("[!" + b + "]", [c]);
    ListedAfter("!", b, c);
  }

  lemma BangPattern(b: string, c: char)
    requires Clean("!" + b)
    ensures var g := "[!" + b + "]";
      && Glob(g) && (GlobMatches(g, [c], true) <==> !Listed(b, c)) && (GlobMatches(g, [c], false) <==> Listed("!" + b, c))
  {
    var g, body := "[!" + b + "]", "!" + b;
    assert g[1..] == body + "]";
    ClosingAt(body, "]");
    assert Body(g) == body && Beyond(g) == [] && [c][1..] == [] && body[1..] == b;
  }

  lemma ListedAfter(x: string, b: string, c: char)
    requires |x| == 1
    ensures b == [] || b[0] != '-' || |b| == 1 ==> (Listed(x + b, c) <==> c == x[0] || Listed(b, c))
  {
    assert (x + b)[1..] == b;
  }
}
