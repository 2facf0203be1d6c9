/**
 `Wildcard2Regex`: fifteen replace-all passes turn a wildcard pattern into a regular expression.
 They amount to one translation of each character, and the expression finds a path exactly when a
 stretch of the path up to a line end matches the pattern.
 */
module Wildcard {
  import opened Bytes
  import opened FileHandler

  /** The pass that escapes a character, counted from 0; 13 for characters that no pass escapes. */
  function Pass(c: char): nat {
    if c == '\\' then 0 else if c == '^' then 1 else if c == '.' then 2 else if c == '$' then 3
    else if c == '|' then 4 else if c == '(' then 5 else if c == ')' then 6 else if c == '[' then 7
    else if c == ']' then 8 else if c == '*' then 9 else if c == '+' then 10 else if c == '?' then 11
    else if c == '/' then 12 else 13
  }

  predicate Special(c: char) {
    Pass(c) < 13
  }

  /** Each character of `s` replaced by its image. */
  function MapAll(f: char -> string, s: string): string {
    if s == [] then [] else f(s[0]) + MapAll(f, s[1..])
  }

  lemma {:induction false} MapAllEqual(f: char -> string, g: char -> string, s: string)
    requires forall c :: f(c) == g(c)
    ensures MapAll(f, s) == MapAll(g, s)
  {
    if s == [] {
    } else {
      MapAllEqual(f, g, s[1..]);
    }
  }

  // ----- passes that replace one character -----

  lemma ReplaceOne(c: char, rest: string, d: char, subst: string)
    ensures ReplaceAll([c] + rest, [d], subst) == (if c == d then subst else [c]) + ReplaceAll(rest, [d], subst)
  {
    var s := [c] + rest;
    assert s[0] == c && s[1..] == rest;
    if c == d {
      assert s[..1] == [d] && [d] <= s;
    } else {
      assert [d][0] == d && !([d] <= s);
    }
  }

  lemma ReplaceNothing(d: char, subst: string)
    ensures ReplaceAll([], [d], subst) == []
  {
  }

  lemma {:induction false} ReplaceConcat(a: string, b: string, d: char, subst: string)
    ensures ReplaceAll(a + b, [d], subst) == ReplaceAll(a, [d], subst) + ReplaceAll(b, [d], subst)
  {
    ReplaceNothing(d, subst);
    hide ReplaceAll;
    if a == [] {
      assert a + b == b;
    } else {
      var t := a[1..];
      assert a == [a[0]] + t && a + b == [a[0]] + (t + b);
      ReplaceOne(a[0], t + b, d, subst);
      ReplaceOne(a[0], t, d, subst);
      ReplaceConcat(t, b, d, subst);
    }
  }

  /** What the first `k` passes make of one character. */
  function Escape(k: nat): char -> string {
    c => if Pass(c) < k then ['\\', c] else [c]
  }

  lemma EscapeNext(d: char, c: char)
    requires Special(d)
    ensures ReplaceAll(Escape(Pass(d))(c), [d], ['\\', d]) == Escape(Pass(d) + 1)(c)
  {
    assert [c] == [c] + [];
    ReplaceOne(c, [], d, ['\\', d]);
    if Pass(c) < Pass(d) {
      assert ['\\', c] == ['\\'] + [c];
      ReplaceOne('\\', [c], d, ['\\', d]);
    }
  }

  /** The pass that escapes `d`. */
  lemma {:induction false} EscapePass(d: char, s: string)
    requires Special(d)
    ensures ReplaceAll(MapAll(Escape(Pass(d)), s), [d], ['\\', d]) == MapAll(Escape(Pass(d) + 1), s)
  {
    if s == [] {
    } else {
      ReplaceConcat(Escape(Pass(d))(s[0]), MapAll(Escape(Pass(d)), s[1..]), d, ['\\', d]);
      EscapeNext(d, s[0]);
      EscapePass(d, s[1..]);
    }
  }

  lemma {:induction false} NothingEscaped(s: string)
    ensures MapAll(Escape(0), s) == s
  {
    if s == [] {
    } else {
      NothingEscaped(s[1..]);
      assert s == [s[0]] + s[1..];
    }
  }

  // ----- the two passes that turn escaped wildcards into their meaning -----

  /** One plain character that is neither a backslash nor `d`, or a backslash and a character. */
  predicate Token(t: string, d: char) {
    (|t| == 1 && t[0] != '\\' && t[0] != d) || (|t| == 2 && t[0] == '\\')
  }

  function Exchange(f: char -> string, d: char, subst: string): char -> string {
    c => if f(c) == ['\\', d] then subst else f(c)
  }

  lemma TokenPass(t: string, rest: string, d: char, subst: string)
    requires d != '\\' && Token(t, d) && (rest != [] ==> rest[0] != d)
    ensures ReplaceAll(t + rest, ['\\', d], subst)
         == (if t == ['\\', d] then subst else t) + ReplaceAll(rest, ['\\', d], subst)
  {
    var s, p := t + rest, ['\\', d];
    if |t| == 1 {
      assert s[0] == t[0] && s[1..] == rest;
      assert !(p <= s);
    } else {
      assert s[..2] == t && s[2..] == rest;
      if t == p {
        assert p <= s;
      } else {
        assert s[1] == t[1] && !(p <= s);
        var u := s[1..];
        assert u[0] == t[1] && u[1..] == rest;
        assert |u| >= 2 ==> u[1] == rest[0];
        assert !(p <= u);
        assert t == [t[0]] + [t[1]];
      }
    }
  }

  lemma {:induction false} ExchangePass(f: char -> string, d: char, subst: string, s: string)
    requires d != '\\' && forall c :: Token(f(c), d)
    ensures ReplaceAll(MapAll(f, s), ['\\', d], subst) == MapAll(Exchange(f, d, subst), s)
  {
    if s == [] {
    } else {
      var rest := MapAll(f, s[1..]);
      assert Token(f(s[0]), d);
      assert rest != [] ==> rest[0] == f(s[1])[0] && Token(f(s[1]), d);
      TokenPass(f(s[0]), rest, d, subst);
      ExchangePass(f, d, subst, s[1..]);
    }
  }

  // ----- the whole translation -----

  /** The image of one character of the pattern. */
  function Translate(c: char): string {
    if c == '?' then "."
    else if c == '*' then ".*"
    else if Special(c) then ['\\', c]
    else [c]
  }

  /** Character by character: two wildcards, eleven characters that are escaped, and all the others. */
  lemma TranslationTable(c: char)
    ensures Translate('?') == "." && Translate('*') == ".*"
    ensures c in {'\\', '^', '.', '$', '|', '(', ')', '[', ']', '+', '/'} ==> Translate(c) == ['\\', c]
    ensures c !in {'?', '*', '\\', '^', '.', '$', '|', '(', ')', '[', ']', '+', '/'} ==> Translate(c) == [c]
  {
  }

  /** A translation goes character by character, in order. */
  lemma {:induction false} TranslationSplits(a: string, b: string)
    ensures MapAll(Translate, a + b) == MapAll(Translate, a) + MapAll(Translate, b)
    ensures |a| == 1 ==> MapAll(Translate, a) == Translate(a[0])
  {
    if a == [] {
      assert a + b == b;
    } else {
      assert (a + b)[0] == a[0] && (a + b)[1..] == a[1..] + b;
      TranslationSplits(a[1..], b);
      hide Translate;
    }
  }

  lemma ExchangesTranslate(s: string)
    ensures MapAll(Exchange(Exchange(Escape(13), '?', "."), '*', ".*"), s) == MapAll(Translate, s)
  {
    var f := Exchange(Exchange(Escape(13), '?', "."), '*', ".*");
    forall c ensures f(c) == Translate(c) {
      EscapesDiffer(c);
    }
    MapAllEqual(f, Translate, s);
  }

  lemma EscapesDiffer(c: char)
    ensures Escape(13)(c) == ['\\', '?'] <==> c == '?'
    ensures Escape(13)(c) == ['\\', '*'] <==> c == '*'
  {
    assert ['\\', c][1] == c;
  }

  method ReplacePass(s: string, from: string, subst: string) returns (r: string)
    requires from != []
    ensures r == ReplaceAll(s, from, subst)
  {
    r := ReplaceInPlace(s, from, subst);
  }

  /** `r` is what the first `k` passes make of `p`. */
  predicate AfterPasses(k: nat, p: string, r: string) {
    r == MapAll(Escape(k), p)
  }

  /** Pass `k`. */
  method EscapeChar(s: string, d: char, ghost k: nat, ghost p: string) returns (r: string)
    requires Pass(d) == k < 13 && AfterPasses(k, p, s)
    ensures AfterPasses(k + 1, p, r)
  {
    r := ReplacePass(s, [d], ['\\', d]);
    EscapePass(d, p);
  }

  method EscapeAnchors(p: string) returns (r: string)
    ensures AfterPasses(4, p, r)
  {
    NothingEscaped(p);
    r := EscapeChar(p, '\\', 0, p);
    r := EscapeChar(r, '^', 1, p);
    r := EscapeChar(r, '.', 2, p);
    r := EscapeChar(r, '$', 3, p);
  }

  method EscapeBrackets(s: string, ghost p: string) returns (r: string)
    requires AfterPasses(4, p, s)
    ensures AfterPasses(9, p, r)
  {
    r := EscapeChar(s, '|', 4, p);
    r := EscapeChar(r, '(', 5, p);
    r := EscapeChar(r, ')', 6, p);
    r := EscapeChar(r, '[', 7, p);
    r := EscapeChar(r, ']', 8, p);
  }

  /** The first thirteen passes. */
  method EscapeSpecials(p: string) returns (r: string)
    ensures AfterPasses(13, p, r)
  {
    r := EscapeAnchors(p);
    r := EscapeBrackets(r, p);
    r := EscapeChar(r, '*', 9, p);
    r := EscapeChar(r, '+', 10, p);
    r := EscapeChar(r, '?', 11, p);
    r := EscapeChar(r, '/', 12, p);
  }

  /** The expression `Wildcard2Regex` compiles. */
  method Wildcard2Regex(wildcardPattern: string) returns (r: string)
    ensures r == MapAll(Translate, wildcardPattern) + "$"
  {
    ghost var p, f := wildcardPattern, Escape(13);
    r := EscapeSpecials(wildcardPattern);
    r := ReplacePass(r, "\\?", ".");
    TokensOfEscape();
    ExchangePass(f, '?', ".", p);
    r := ReplacePass(r, "\\*", ".*");
    ExchangePass(Exchange(f, '?', "."), '*', ".*", p);
    ExchangesTranslate(p);
    r := r + "$";
  }

  lemma TokensOfEscape()
    ensures forall c :: Token(Escape(13)(c), '?')
    ensures forall c :: Token(Exchange(Escape(13), '?', ".")(c), '*')
  {
  }

  // ----- the part of the regular expression language that is used -----

  /** `Repeat` stands for an item with a bound such as `{2}`, `{2,}` or `{2,5}` behind it. */
  datatype Item = Lit(c: char) | Any | AnyStar | Eol | Repeat(item: Item, least: nat, most: Option<nat>)

  /** Characters with a meaning of their own when not escaped. */
  const META: set<char> := {'\\', '^', '.', '$', '|', '(', ')', '[', ']', '*', '+', '?', '{', '}'}

  /** Characters that a backslash makes stand for themselves; other escapes are not interpreted. */
  const ESCAPABLE: set<char> := {'\\', '^', '.', '$', '|', '(', ')', '[', ']', '*', '+', '?', '/'}

  predicate IsDigit(c: char) {
    '0' <= c <= '9'
  }

  /** How many digits `r` starts with. */
  function DigitCount(r: string): (n: nat)
    ensures n <= |r| && forall i :: 0 <= i < n ==> IsDigit(r[i])
  {
    if r == [] || !IsDigit(r[0]) then 0 else 1 + DigitCount(r[1..])
  }

  function Number(digits: string): nat
    requires forall i :: 0 <= i < |digits| ==> IsDigit(digits[i])
  {
    if digits == [] then 0 else
    var last := digits[|digits| - 1];
    assert IsDigit(last);
    Number(digits[..|digits| - 1]) * 10 + (last as int - '0' as int)
  }

  /** What a bound consists of. */
  predicate InBound(c: char) {
    IsDigit(c) || c == ',' || c == '{' || c == '}'
  }

  datatype Bound = Bound(least: nat, most: Option<nat>, length: nat)

  /** The bound that `r` starts with, and how long it is. */
  function ParseBound(r: string): (b: Option<Bound>)
    requires r != [] && r[0] == '{'
    ensures b.Some? ==>
      && 0 < b.value.length <= |r| && (forall i :: 0 <= i < b.value.length ==> InBound(r[i]))
      && (b.value.most.Some? ==> b.value.least <= b.value.most.value)
  {
    var k := DigitCount(r[1..]);
    var least := Number(r[1..1 + k]);
    if k == 0 || |r| <= 1 + k then None
    else if r[1 + k] == '}' then Some(Bound(least, Some(least), k + 2))
    else if r[1 + k] != ',' then None
    else
      var j := DigitCount(r[2 + k..]);
      var most := if j == 0 then None else Some(Number(r[2 + k..2 + k + j]));
      if |r| <= 2 + k + j || r[2 + k + j] != '}' || (most.Some? && most.value < least) then None
      else Some(Bound(least, most, k + j + 3))
  }

  /** The single character that `r` starts with, and how long its expression is. */
  function ParseAtom(r: string): (a: Option<(Item, nat)>)
    requires r != []
    ensures a.Some? ==> 0 < a.value.1 <= |r|
  {
    if r[0] == '\\' then
      if |r| >= 2 && r[1] in ESCAPABLE then Some((Lit(r[1]), 2)) else None
    else if r[0] == '.' then Some((Any, 1))
    else if r[0] in META then None
    else Some((Lit(r[0]), 1))
  }

  /** The items of an expression, if it uses nothing but literals, `.`, `.*`, `$` and bounds. */
  function Parse(r: string): Option<seq<Item>> {
    if r == [] then Some([])
    else if r[0] == '$' then Then(Eol, Parse(r[1..]))
    else if r[0] == '.' && |r| >= 2 && r[1] == '*' then Then(AnyStar, Parse(r[2..]))
    else
      match ParseAtom(r)
      case None => None
      case Some((item, n)) =>
        if |r| == n || r[n] != '{' then Then(item, Parse(r[n..])) else
        match ParseBound(r[n..])
        case None => None
        case Some(b) => Then(Repeat(item, b.least, b.most), Parse(r[n + b.length..]))
  }

  function Then(item: Item, rest: Option<seq<Item>>): Option<seq<Item>> {
    match rest
    case None => None
    case Some(items) => Some([item] + items)
  }

  /** The items match the text from position `i`; `breaks` are the characters that end a line. */
  predicate MatchesAt(items: seq<Item>, t: string, i: nat, breaks: set<char>)
    decreases |items|
  {
    if items == [] then true else
    match items[0]
    case Lit(c) => i < |t| && t[i] == c && MatchesAt(items[1..], t, i + 1, breaks)
    case Any => i < |t| && MatchesAt(items[1..], t, i + 1, breaks)
    case AnyStar => exists k: nat :: i <= k <= |t| && MatchesAt(items[1..], t, k, breaks)
    case Eol => AtLineEnd(t, i, breaks) && MatchesAt(items[1..], t, i, breaks)
    case Repeat(item, least, most) =>
      exists n: nat :: least <= n <= |t| && (most.Some? ==> n <= most.value) && RunOf(item, t, i, n)
        && MatchesAt(items[1..], t, i + n, breaks)
  }

  /** `n` characters from position `i` that `item` takes one by one. */
  predicate RunOf(item: Item, t: string, i: nat, n: nat) {
    i + n <= |t| && forall j :: i <= j < i + n ==> Takes(item, t[j])
  }

  predicate Takes(item: Item, c: char) {
    item == Any || item == Lit(c)
  }

  predicate AtLineEnd(t: string, i: nat, breaks: set<char>) {
    i == |t| || (i < |t| && t[i] in breaks)
  }

  /** `regex_search`. */
  predicate Search(items: seq<Item>, t: string, breaks: set<char>) {
    exists i: nat :: i <= |t| && MatchesAt(items, t, i, breaks)
  }

  /** What a wildcard pattern means: `?` is any character, `*` any stretch, anything else itself. */
  predicate Glob(p: string, t: string)
    decreases |p|
  {
    if p == [] then t == []
    else if p[0] == '*' then exists k: nat :: k <= |t| && Glob(p[1..], t[k..])
    else t != [] && (p[0] == '?' || t[0] == p[0]) && Glob(p[1..], t[1..])
  }

  predicate NoBraces(p: string) {
    '{' !in p && '}' !in p
  }

  function ItemOf(c: char): Item {
    if c == '?' then Any else if c == '*' then AnyStar else Lit(c)
  }

  function Items(p: string): (r: seq<Item>)
    ensures |r| == |p| + 1
  {
    if p == [] then [Eol] else [ItemOf(p[0])] + Items(p[1..])
  }

  lemma ParseToken(c: char, rest: string)
    requires c !in {'{', '}'} && rest != [] && rest[0] !in {'*', '{'}
    ensures Parse(Translate(c) + rest) == Then(ItemOf(c), Parse(rest))
  {
    var token := Translate(c);
    var r := token + rest;
    TokenParts(c, rest);
    hide Translate, Special;
    if c == '*' {
    } else {
      assert ParseAtom(r) == Some((ItemOf(c), |token|)) && r[|token|] == rest[0];
    }
  }

  lemma TokenParts(c: char, rest: string)
    requires c !in {'{', '}'} && rest != []
    ensures var token := Translate(c);
      && |token + rest| > |token| && (token + rest)[|token|..] == rest && (token + rest)[|token|] == rest[0]
      && (token + rest)[0] == token[0] && (|token| == 2 ==> (token + rest)[1] == token[1])
      && if c == '?' then token == "." else if c == '*' then token == ".*"
         else if Special(c) then token == ['\\', c] else token == [c] && c !in META
  {
  }

  /** For a pattern without braces the items are those of its characters. */
  lemma {:induction false} ParseTranslation(p: string)
    requires NoBraces(p)
    ensures Parse(MapAll(Translate, p) + "$") == Some(Items(p))
  {
    if p == [] {
      assert MapAll(Translate, p) + "$" == "$" && "$"[1..] == [];
      ParseDollar();
    } else {
      var rest := MapAll(Translate, p[1..]) + "$";
      assert MapAll(Translate, p) + "$" == Translate(p[0]) + rest;
      if p[1..] != [] {
        assert rest[0] == Translate(p[1])[0];
      }
      assert NoBraces(p[1..]) && p[0] in p;
      ParseTranslation(p[1..]);
      hide Parse;
      ParseToken(p[0], rest);
    }
  }

  /** The pattern matches the stretch of the text from `i` to some line end. */
  predicate GlobToLineEnd(p: string, t: string, i: nat, breaks: set<char>) {
    exists j: nat :: i <= j <= |t| && AtLineEnd(t, j, breaks) && Glob(p, t[i..j])
  }

  lemma GlobStar(p: string, t: string, i: nat, j: nat)
    requires i <= j <= |t| && p != [] && p[0] == '*'
    ensures Glob(p, t[i..j]) <==> exists k: nat :: i <= k <= j && Glob(p[1..], t[k..j])
  {
    var u := t[i..j];
    if Glob(p, u) {
      var k: nat :| k <= |u| && Glob(p[1..], u[k..]);
      assert u[k..] == t[i + k..j];
    }
    if exists k: nat :: i <= k <= j && Glob(p[1..], t[k..j]) {
      var k: nat :| i <= k <= j && Glob(p[1..], t[k..j]);
      assert u[k - i..] == t[k..j];
    }
  }

  lemma GlobOther(p: string, t: string, i: nat, j: nat)
    requires i <= j <= |t| && p != [] && p[0] != '*'
    ensures Glob(p, t[i..j]) <==> i < j && (p[0] == '?' || t[i] == p[0]) && Glob(p[1..], t[i + 1..j])
  {
    if i < j {
      assert t[i..j][1..] == t[i + 1..j];
    }
  }

  lemma {:induction false} ItemsMatchGlob(p: string, t: string, i: nat, breaks: set<char>)
    requires i <= |t|
    ensures MatchesAt(Items(p), t, i, breaks) <==> GlobToLineEnd(p, t, i, breaks)
    decreases |p|
  {
    var items := Items(p);
    if p == [] {
      EmptyPattern(t, i, breaks);
    } else {
      assert items[0] == ItemOf(p[0]) && items[1..] == Items(p[1..]);
      if p[0] == '*' {
        forall k: nat | i <= k <= |t|
          ensures MatchesAt(items[1..], t, k, breaks) <==> GlobToLineEnd(p[1..], t, k, breaks)
        {
          ItemsMatchGlob(p[1..], t, k, breaks);
        }
        StarToLineEnd(p, t, i, breaks);
      } else {
        if i < |t| {
          ItemsMatchGlob(p[1..], t, i + 1, breaks);
        }
        OtherToLineEnd(p, t, i, breaks);
      }
    }
  }

  lemma EmptyPattern(t: string, i: nat, breaks: set<char>)
    requires i <= |t|
    ensures MatchesAt([Eol], t, i, breaks) <==> GlobToLineEnd([], t, i, breaks)
  {
    assert [Eol][1..] == [];
    if AtLineEnd(t, i, breaks) {
      assert t[i..i] == [] && Glob([], t[i..i]);
    }
  }

  lemma StarToLineEnd(p: string, t: string, i: nat, breaks: set<char>)
    requires i <= |t| && p != [] && p[0] == '*'
    ensures GlobToLineEnd(p, t, i, breaks) <==> exists k: nat :: i <= k <= |t| && GlobToLineEnd(p[1..], t, k, breaks)
  {
    if GlobToLineEnd(p, t, i, breaks) {
      var j: nat :| i <= j <= |t| && AtLineEnd(t, j, breaks) && Glob(p, t[i..j]);
      GlobStar(p, t, i, j);
      var k: nat :| i <= k <= j && Glob(p[1..], t[k..j]);
      assert GlobToLineEnd(p[1..], t, k, breaks);
    }
    if exists k: nat :: i <= k <= |t| && GlobToLineEnd(p[1..], t, k, breaks) {
      var k: nat :| i <= k <= |t| && GlobToLineEnd(p[1..], t, k, breaks);
      var j: nat :| k <= j <= |t| && AtLineEnd(t, j, breaks) && Glob(p[1..], t[k..j]);
      GlobStar(p, t, i, j);
    }
  }

  lemma OtherToLineEnd(p: string, t: string, i: nat, breaks: set<char>)
    requires i <= |t| && p != [] && p[0] != '*'
    ensures GlobToLineEnd(p, t, i, breaks) <==>
      i < |t| && (p[0] == '?' || t[i] == p[0]) && GlobToLineEnd(p[1..], t, i + 1, breaks)
  {
    if GlobToLineEnd(p, t, i, breaks) {
      var j: nat :| i <= j <= |t| && AtLineEnd(t, j, breaks) && Glob(p, t[i..j]);
      GlobOther(p, t, i, j);
    }
    if i < |t| && (p[0] == '?' || t[i] == p[0]) && GlobToLineEnd(p[1..], t, i + 1, breaks) {
      var j: nat :| i + 1 <= j <= |t| && AtLineEnd(t, j, breaks) && Glob(p[1..], t[i + 1..j]);
      GlobOther(p, t, i, j);
    }
  }

  /** Some stretch of the text that ends at a line end matches the pattern. */
  predicate FindsGlob(p: string, t: string, breaks: set<char>) {
    exists i: nat :: i <= |t| && GlobToLineEnd(p, t, i, breaks)
  }

  /** For patterns without braces: the expression finds exactly the texts the pattern finds. */
  lemma CompilationKeepsMeaning(p: string, t: string, breaks: set<char>)
    requires NoBraces(p)
    ensures var r := Parse(MapAll(Translate, p) + "$");
      r.Some? && (Search(r.value, t, breaks) <==> FindsGlob(p, t, breaks))
  {
    ParseTranslation(p);
    forall i: nat | i <= |t|
      ensures MatchesAt(Items(p), t, i, breaks) <==> GlobToLineEnd(p, t, i, breaks)
    {
      ItemsMatchGlob(p, t, i, breaks);
    }
  }

  /** In a path without line ends: exactly when some suffix of the path matches the pattern. */
  lemma SuffixMatches(p: string, t: string, breaks: set<char>)
    requires NoBraces(p) && forall j :: 0 <= j < |t| ==> t[j] !in breaks
    ensures var r := Parse(MapAll(Translate, p) + "$");
      r.Some? && (Search(r.value, t, breaks) <==> exists i: nat :: i <= |t| && Glob(p, t[i..]))
  {
    CompilationKeepsMeaning(p, t, breaks);
    forall i: nat | i <= |t| ensures GlobToLineEnd(p, t, i, breaks) <==> Glob(p, t[i..]) {
      assert t[i..|t|] == t[i..];
      if GlobToLineEnd(p, t, i, breaks) {
        var j: nat :| i <= j <= |t| && AtLineEnd(t, j, breaks) && Glob(p, t[i..j]);
        assert j == |t|;
      }
      if Glob(p, t[i..]) {
        assert AtLineEnd(t, |t|, breaks);
      }
    }
  }

  // ----- what a pattern means -----

  /** A pattern without stars matches texts of its own length, character by character. */
  lemma {:induction false} GlobWithoutStars(p: string, t: string)
    requires '*' !in p
    ensures Glob(p, t) <==> |p| == |t| && forall i :: 0 <= i < |p| ==> p[i] == '?' || p[i] == t[i]
    decreases |p|
  {
    if p == [] {
    } else {
      if t != [] {
        GlobWithoutStars(p[1..], t[1..]);
        assert forall i :: 0 < i < |p| ==> p[i] == p[1..][i - 1];
        assert forall i :: 0 < i < |t| ==> t[i] == t[1..][i - 1];
      }
    }
  }

  /** A star matches anything. */
  lemma StarMatchesAll(t: string)
    ensures Glob("*", t)
  {
    assert "*"[1..] == [] && t[|t|..] == [] && Glob([], t[|t|..]);
  }

  /** Two patterns, one after the other, match two texts, one after the other. */
  lemma {:induction false} GlobSplits(p: string, q: string, t: string)
    ensures Glob(p + q, t) <==> exists k: nat :: k <= |t| && Glob(p, t[..k]) && Glob(q, t[k..])
    decreases |p|
  {
    if p == [] {
      assert p + q == q && t[0..] == t;
      assert t[..0] == [] && Glob(p, t[..0]);
    } else if p[0] == '*' {
      GlobStarSplits(p, q, t);
    } else {
      assert (p + q)[0] == p[0] && (p + q)[1..] == p[1..] + q;
      if t != [] {
        var u := t[1..];
        GlobSplits(p[1..], q, u);
        if Glob(p + q, t) {
          var k: nat :| k <= |u| && Glob(p[1..], u[..k]) && Glob(q, u[k..]);
          assert t[..k + 1][1..] == u[..k] && t[k + 1..] == u[k..];
          assert Glob(p, t[..k + 1]);
        }
        if exists k: nat :: k <= |t| && Glob(p, t[..k]) && Glob(q, t[k..]) {
          var k: nat :| k <= |t| && Glob(p, t[..k]) && Glob(q, t[k..]);
          assert t[..k][1..] == u[..k - 1] && t[k..] == u[k - 1..];
        }
      }
    }
  }

  lemma {:induction false} GlobStarSplits(p: string, q: string, t: string)
    requires p != [] && p[0] == '*'
    ensures Glob(p + q, t) <==> exists k: nat :: k <= |t| && Glob(p, t[..k]) && Glob(q, t[k..])
    decreases |p|, 0
  {
    assert (p + q)[0] == p[0] && (p + q)[1..] == p[1..] + q;
    if Glob(p + q, t) {
      var j: nat :| j <= |t| && Glob((p + q)[1..], t[j..]);
      GlobSplits(p[1..], q, t[j..]);
      var k: nat :| k <= |t[j..]| && Glob(p[1..], t[j..][..k]) && Glob(q, t[j..][k..]);
      assert t[..j + k][j..] == t[j..][..k] && t[j + k..] == t[j..][k..];
      assert Glob(p, t[..j + k]);
    }
    if exists k: nat :: k <= |t| && Glob(p, t[..k]) && Glob(q, t[k..]) {
      var k: nat :| k <= |t| && Glob(p, t[..k]) && Glob(q, t[k..]);
      var j: nat :| j <= |t[..k]| && Glob(p[1..], t[..k][j..]);
      GlobSplits(p[1..], q, t[j..]);
      assert t[j..][..k - j] == t[..k][j..] && t[j..][k - j..] == t[k..];
    }
  }

  // ----- patterns with braces -----

  /** No dollar sign but a final one goes unescaped. */
  predicate FinalDollar(r: string) {
    if r == [] then false
    else if r[0] == '\\' then |r| >= 2 && FinalDollar(r[2..])
    else if r[0] == '$' then |r| == 1
    else FinalDollar(r[1..])
  }

  lemma {:induction false} TranslationFinalDollar(p: string)
    ensures FinalDollar(MapAll(Translate, p) + "$")
  {
    if p == [] {
      assert MapAll(Translate, p) + "$" == "$";
    } else {
      var rest := MapAll(Translate, p[1..]) + "$";
      TranslationFinalDollar(p[1..]);
      TokenFinalDollar(p[0], rest);
      assert MapAll(Translate, p) + "$" == Translate(p[0]) + rest;
    }
  }

  lemma TokenFinalDollar(c: char, rest: string)
    requires FinalDollar(rest)
    ensures FinalDollar(Translate(c) + rest)
  {
    var token := Translate(c);
    var r := token + rest;
    assert r[|token|..] == rest;
    if token == ".*" {
      assert r[1..][1..] == rest && r[1..][0] == '*' && FinalDollar(r[1..]);
    }
  }

  lemma {:induction false} FinalDollarAfter(r: string, n: nat)
    requires FinalDollar(r) && n <= |r| && forall i :: 0 <= i < n ==> r[i] !in {'\\', '$'}
    ensures FinalDollar(r[n..])
    decreases n
  {
    if n == 0 {
      assert r[0..] == r;
    } else {
      FinalDollarAfter(r[1..], n - 1);
      assert r[1..][n - 1..] == r[n..];
    }
  }

  /** An item that some text without braces matches. */
  predicate BraceFree(item: Item) {
    match item
    case Lit(c) => c !in {'{', '}'}
    case Any => true
    case AnyStar => true
    case Eol => false
    case Repeat(one, least, most) =>
      (one == Any || (one.Lit? && one.c !in {'{', '}'})) && (most.Some? ==> least <= most.value)
  }

  /** Such items, and then the line end. */
  predicate Finishing(items: seq<Item>) {
    items != [] && if |items| == 1 then items[0] == Eol else BraceFree(items[0]) && Finishing(items[1..])
  }

  lemma FinishingThen(item: Item, rest: Option<seq<Item>>)
    requires BraceFree(item) && rest.Some? && Finishing(rest.value)
    ensures Then(item, rest).Some? && Finishing(Then(item, rest).value)
  {
    assert ([item] + rest.value)[1..] == rest.value;
  }

  lemma BoundParts(r: string, n: nat)
    requires n < |r| && r[n] == '{' && FinalDollar(r[n..]) && ParseBound(r[n..]).Some?
    ensures var b := ParseBound(r[n..]).value;
      && n + b.length <= |r| && FinalDollar(r[n + b.length..])
      && (b.most.Some? ==> b.least <= b.most.value)
  {
    var b := ParseBound(r[n..]).value;
    FinalDollarAfter(r[n..], b.length);
    assert r[n..][b.length..] == r[n + b.length..];
  }

  lemma AtomParts(r: string)
    requires FinalDollar(r) && r[0] != '$' && ParseAtom(r).Some?
    ensures FinalDollar(r[ParseAtom(r).value.1..]) && BraceFree(ParseAtom(r).value.0)
    ensures ParseAtom(r).value.0 == Any || ParseAtom(r).value.0.Lit?
  {
  }

  lemma {:induction false} ParsedFinishes(r: string)
    requires FinalDollar(r) && Parse(r).Some?
    ensures Finishing(Parse(r).value)
    decreases |r|
  {
    if r[0] == '$' {
      assert r[1..] == [] && Parse([]) == Some([]) && [Eol] + [] == [Eol];
    } else if r[0] == '.' && |r| >= 2 && r[1] == '*' {
      FinalDollarAfter(r, 2);
      ParsedFinishes(r[2..]);
      FinishingThen(AnyStar, Parse(r[2..]));
    } else {
      var (item, n) := ParseAtom(r).value;
      AtomParts(r);
      hide FinalDollar, ParseAtom, ParseBound;
      if |r| == n || r[n] != '{' {
        ParsedFinishes(r[n..]);
        FinishingThen(item, Parse(r[n..]));
      } else {
        var b := ParseBound(r[n..]).value;
        BoundParts(r, n);
        ParsedFinishes(r[n + b.length..]);
        FinishingThen(Repeat(item, b.least, b.most), Parse(r[n + b.length..]));
      }
    }
  }

  /** A text without braces that the items match. */
  function Sample(items: seq<Item>): (t: string)
    requires Finishing(items)
    ensures NoBraces(t)
  {
    if |items| == 1 then [] else SampleOf(items[0]) + Sample(items[1..])
  }

  function SampleOf(item: Item): (t: string)
    requires BraceFree(item)
    ensures NoBraces(t)
  {
    match item
    case Lit(c) => [c]
    case Any => "x"
    case AnyStar => []
    case Repeat(one, least, _) => seq(least, _ => if one.Lit? then one.c else 'x')
  }

  lemma {:induction false} SampleMatches(items: seq<Item>, t: string, i: nat, breaks: set<char>)
    requires Finishing(items) && i <= |t| && t[i..] == Sample(items)
    ensures MatchesAt(items, t, i, breaks)
    decreases |items|
  {
    if |items| == 1 {
      assert items[1..] == [] && MatchesAt([], t, i, breaks);
    } else {
      var part, rest := SampleOf(items[0]), Sample(items[1..]);
      assert Sample(items) == part + rest;
      hide MatchesAt, Sample, SampleOf;
      SplitAt(t, i, part, rest);
      SampleMatches(items[1..], t, i + |part|, breaks);
      SampleOfMatches(items, t, i, breaks);
    }
  }

  lemma SplitAt(t: string, i: nat, part: string, rest: string)
    requires i <= |t| && t[i..] == part + rest
    ensures i + |part| <= |t| && t[i..i + |part|] == part && t[i + |part|..] == rest
  {
    assert t[i..i + |part|] == t[i..][..|part|] && t[i + |part|..] == t[i..][|part|..];
  }

  lemma SampleOfMatches(items: seq<Item>, t: string, i: nat, breaks: set<char>)
    requires items != [] && BraceFree(items[0])
    requires var n := |SampleOf(items[0])|;
      i + n <= |t| && t[i..i + n] == SampleOf(items[0]) && MatchesAt(items[1..], t, i + n, breaks)
    ensures MatchesAt(items, t, i, breaks)
  {
    var part := SampleOf(items[0]);
    forall j | i <= j < i + |part| ensures t[j] == part[j - i] {
      assert t[j] == t[i..i + |part|][j - i];
    }
    if items[0].Repeat? {
      assert RunOf(items[0].item, t, i, |part|);
    }
  }

  /** Every character of a pattern but the wildcards is found in what the pattern matches. */
  lemma {:induction false} GlobKeepsLiterals(p: string, t: string, c: char)
    requires Glob(p, t) && c in p && c !in {'*', '?'}
    ensures c in t
    decreases |p|
  {
    if p[0] == '*' {
      var k: nat :| k <= |t| && Glob(p[1..], t[k..]);
      GlobKeepsLiterals(p[1..], t[k..], c);
    } else if p[0] == c {
    } else {
      GlobKeepsLiterals(p[1..], t[1..], c);
    }
  }

  lemma NothingWithoutBraces(p: string, t: string, breaks: set<char>)
    requires !NoBraces(p) && NoBraces(t)
    ensures !FindsGlob(p, t, breaks)
  {
    var c :| c in {'{', '}'} && c in p;
    if FindsGlob(p, t, breaks) {
      var i: nat :| i <= |t| && GlobToLineEnd(p, t, i, breaks);
      var j: nat :| i <= j <= |t| && AtLineEnd(t, j, breaks) && Glob(p, t[i..j]);
      GlobKeepsLiterals(p, t[i..j], c);
      assert false;
    }
  }

  /**
   Exactly the patterns without braces keep their meaning, among all whose expression is literals,
   `.`, `.*`, `$` and bounds: braces are not escaped, so they come to bound what is before them.
   */
  lemma MeaningIsKeptExactly(p: string, breaks: set<char>)
    requires Parse(MapAll(Translate, p) + "$").Some?
    ensures var items := Parse(MapAll(Translate, p) + "$").value;
      (forall t :: Search(items, t, breaks) <==> FindsGlob(p, t, breaks)) <==> NoBraces(p)
  {
    var r := MapAll(Translate, p) + "$";
    var items := Parse(r).value;
    if NoBraces(p) {
      forall t ensures Search(items, t, breaks) <==> FindsGlob(p, t, breaks) {
        CompilationKeepsMeaning(p, t, breaks);
      }
    } else {
      TranslationFinalDollar(p);
      ParsedFinishes(r);
      var t := Sample(items);
      assert t[0..] == t;
      SampleMatches(items, t, 0, breaks);
      assert Search(items, t, breaks);
      NothingWithoutBraces(p, t, breaks);
    }
  }

  lemma ParseDollar()
    ensures Parse("$") == Some([Eol])
  {
    assert "$"[1..] == [] && Parse([]) == Some([]) && [Eol] + [] == [Eol];
  }

  /** A bounded character is matched by as many of it as the bound allows, and by no other number. */
  lemma BoundCounts(c: char, n: nat, least: nat, most: Option<nat>)
    ensures MatchesAt([Repeat(Lit(c), least, most), Eol], seq(n, _ => c), 0, {})
       <==> least <= n && (most.Some? ==> n <= most.value)
  {
    var items, t := [Repeat(Lit(c), least, most), Eol], seq(n, _ => c);
    assert items[1..] == [Eol] && items[1..][1..] == [];
    forall k: nat ensures MatchesAt(items[1..], t, k, {}) <==> k == n {
      assert MatchesAt([], t, k, {});
    }
    assert RunOf(Lit(c), t, 0, n);
    if least <= n && (most.Some? ==> n <= most.value) {
      assert MatchesAt(items[1..], t, 0 + n, {});
    }
  }

  /** The numbers of a bound are decimal. */
  lemma NumberIsDecimal(digits: string, d: char)
    requires IsDigit(d) && forall i :: 0 <= i < |digits| ==> IsDigit(digits[i])
    ensures Number([]) == 0 && Number(digits + [d]) == 10 * Number(digits) + (d as int - '0' as int)
  {
    assert (digits + [d])[..|digits|] == digits;
  }

  lemma OneDigit(d: char, c: char, rest: string)
    requires IsDigit(d) && !IsDigit(c)
    ensures DigitCount([d, c] + rest) == 1 && Number([d]) == d as int - '0' as int
  {
    var r := [d, c] + rest;
    assert r[1..] == [c] + rest && DigitCount(r[1..]) == 0;
    assert [d][..0] == [] && Number([]) == 0;
  }

  lemma BoundOfOneDigit(d: char, rest: string)
    requires IsDigit(d)
    ensures var n := d as int - '0' as int; ParseBound(['{', d, '}'] + rest) == Some(Bound(n, Some(n), 3))
  {
    hide DigitCount, Number;
    var r := ['{', d, '}'] + rest;
    OneDigit(d, '}', rest);
    assert r[1..] == [d, '}'] + rest && r[1..2] == [d] && r[2] == '}';
  }

  lemma BoundOfTwo(rest: string)
    requires rest != []
    ensures Parse("a{2}" + rest) == Then(Repeat(Lit('a'), 2, Some(2)), Parse(rest))
  {
    hide ParseBound;
    var r := "a{2}" + rest;
    BoundOfOneDigit('2', rest);
    assert r[1..] == ['{', '2', '}'] + rest && r[1 + 3..] == rest;
    assert ParseAtom(r) == Some((Lit('a'), 1));
  }

  /** The pattern `a{2}` finds `aa` and not itself. */
  lemma BracesBound(breaks: set<char>)
    ensures var p := "a{2}"; var r := Parse(MapAll(Translate, p) + "$");
      && r == Some([Repeat(Lit('a'), 2, Some(2)), Eol])
      && Search(r.value, "aa", breaks) && !FindsGlob(p, "aa", breaks)
  {
    var p, items := "a{2}", [Repeat(Lit('a'), 2, Some(2)), Eol];
    hide Parse;
    LiteralPattern();
    BoundOfTwo("$");
    ParseDollar();
    assert [Repeat(Lit('a'), 2, Some(2))] + [Eol] == items;
    assert Finishing(items) by {
      assert items[1..] == [Eol];
    }
    assert Sample(items) == "aa" by {
      assert Sample(items[1..]) == [];
      assert SampleOf(items[0]) == "aa";
    }
    assert "aa"[0..] == "aa";
    SampleMatches(items, "aa", 0, breaks);
    NothingWithoutBraces(p, "aa", breaks);
  }

  lemma LiteralPattern()
    ensures MapAll(Translate, "a{2}") + "$" == "a{2}" + "$"
  {
    var p := "a{2}";
    assert p[1..] == "{2}" && p[1..][1..] == "2}" && p[1..][1..][1..] == "}" && p[1..][1..][1..][1..] == [];
    assert MapAll(Translate, "}") == "}" && MapAll(Translate, "2}") == "2}" && MapAll(Translate, "{2}") == "{2}";
  }
}
