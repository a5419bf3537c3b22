/**
 * The rewrite passes of sanitizeFlowchartMermaid_ (main.js:255-353) that are single
 * `replace` calls, each given as a finder for the driver in module Rewrite together with
 * the pass that applies it. The finders decide, for one starting index, what the regular
 * expression of the pass matches there once backtracking has run its course.
 */
module Passes {
  import opened Wrappers
  import opened JsText
  import opened Rewrite
  import Label

  /** Every character the sanitizer itself writes into the diagram. */
  predicate Written(c: char)
  {
    c == ' ' || c == '\n' || c == '"' || c == '\'' || c == '-' || c == '>' || c == '|'
    || c == '[' || c == ']' || c == '{' || c == '}' || c == '(' || c == ')' || c == '?'
    || c == '’' || c == '（' || c == '）'
  }

  /** The end of the run of `[A-Za-z0-9_]` characters that starts at `i`. */
  function WordEnd(s: string, i: nat): (j: nat)
    requires i <= |s|
    ensures i <= j <= |s| && !WordAt(s, j)
    ensures forall k :: i <= k < j ==> WordAt(s, k)
    decreases |s| - i
  {
    if WordAt(s, i) then WordEnd(s, i + 1) else i
  }

  /** The first index at or after `i` whose character satisfies `stop`, or the length. */
  function FindFrom(s: string, i: nat, stop: char -> bool): (j: nat)
    requires i <= |s|
    ensures i <= j <= |s| && (j == |s| || stop(s[j]))
    ensures forall k :: i <= k < j ==> !stop(s[k])
    decreases |s| - i
  {
    if i == |s| || stop(s[i]) then i else FindFrom(s, i + 1, stop)
  }

  /** `^` under the `m` flag holds at `p`. */
  predicate LineStart(s: string, p: nat)
  {
    p == 0 || (p <= |s| && IsLineTerminator(s[p - 1]))
  }

  // ---------------------------------------------------------------------------
  // Step 2 (main.js:260-262): carriage returns go, special spaces become plain spaces.

  predicate IsCarriageReturn(c: char)
  {
    c == '\r'
  }

  /** `.replace(/\r/g, '').replace(/[ …﻿]/g, ' ')`. */
  function NormalizeSpaces(s: string): (r: string)
    ensures forall c :: c in r ==> c != '\r' && !IsSpecialSpace(c)
    ensures forall c :: c in r ==> c in s || c == ' '
    ensures |r| <= |s|
  {
    MapChars(RemoveChars(s, IsCarriageReturn), IsSpecialSpace, ' ')
  }

  /** A text free of both is left as it is. */
  lemma NormalizedKept(s: string)
    requires forall c :: c in s ==> c != '\r' && !IsSpecialSpace(c)
    ensures NormalizeSpaces(s) == s
  {
    RemoveCharsKeeps(s, IsCarriageReturn);
    MapCharsKeeps(s, IsSpecialSpace, ' ');
  }

  /** A carriage return is dropped and a trailing special space becomes a plain one. */
  lemma CarriageReturnDropped(a: string, b: string, sp: char)
    requires forall c :: c in a + b ==> c != '\r' && !IsSpecialSpace(c)
    requires IsSpecialSpace(sp)
    ensures NormalizeSpaces(a + ['\r'] + b + [sp]) == a + b + [' ']
  {
    CarriageReturnRemoved(a, b, sp);
    SpecialSpaceMapped(a + b, sp);
  }

  lemma CarriageReturnRemoved(a: string, b: string, sp: char)
    requires forall c :: c in a + b ==> c != '\r'
    requires sp != '\r'
    ensures RemoveChars(a + ['\r'] + b + [sp], IsCarriageReturn) == a + b + [sp]
  {
    assert forall c :: c in a ==> c in a + b;
    assert forall c :: c in b ==> c in a + b;
    RemoveCharsAppend(a + ['\r'] + b, [sp], IsCarriageReturn);
    RemoveCharsAppend(a + ['\r'], b, IsCarriageReturn);
    RemoveCharsAppend(a, ['\r'], IsCarriageReturn);
    RemoveCharsKeeps(a, IsCarriageReturn);
    RemoveCharsKeeps(b, IsCarriageReturn);
    assert RemoveChars(['\r'], IsCarriageReturn) == [];
    assert RemoveChars([sp], IsCarriageReturn) == [sp];
    assert a + [] == a;
    assert RemoveChars(a + ['\r'], IsCarriageReturn) == a;
    assert RemoveChars(a + ['\r'] + b, IsCarriageReturn) == a + b;
  }

  lemma SpecialSpaceMapped(t: string, sp: char)
    requires forall c :: c in t ==> !IsSpecialSpace(c)
    requires IsSpecialSpace(sp)
    ensures MapChars(t + [sp], IsSpecialSpace, ' ') == t + [' ']
  {
    var kept := t + [sp];
    var m := MapChars(kept, IsSpecialSpace, ' ');
    forall k | 0 <= k < |kept| ensures m[k] == (t + [' '])[k] {
      if k < |t| {
        assert kept[k] == t[k] && t[k] in t;
      }
    }
  }

  /** `A\r --> B\u3000` becomes `A --> B `, which the final trim makes `A --> B`. */
  lemma CarriageReturnCase(a: string, b: string, sp: char)
    requires a == "A" && b == " --> B" && sp == '\U{3000}'
    ensures NormalizeSpaces(a + ['\r'] + b + [sp]) == a + b + [' ']
  {
    forall c | c in a + b ensures c != '\r' && !IsSpecialSpace(c) {
      var k :| 0 <= k < |a + b| && (a + b)[k] == c;
    }
    CarriageReturnDropped(a, b, sp);
  }

  // ---------------------------------------------------------------------------
  // Step 3 (main.js:265): `;\s*` becomes a line break.

  function SemicolonAt(s: string, p: nat): (r: Option<Hit>)
    ensures r.Some? ==> p < r.value.end <= |s|
    ensures r.Some? <==> p < |s| && s[p] == ';'
    ensures r.Some? ==> r.value.out == "\n" && AllSpace(s[p + 1..r.value.end])
  {
    if p < |s| && s[p] == ';' then Some(Hit(SpaceRun(s, p + 1), "\n")) else None
  }

  predicate IsSemicolonOrSpace(c: char)
  {
    c == ';' || IsSpace(c)
  }

  /** `out.replace(/;\s*&#47;g, '\n')`: no semicolon is left, and apart from semicolons and
      whitespace the text reads as before. */
  function SplitStatements(s: string): (r: string)
    ensures ';' !in r
    ensures forall c :: c in r ==> c in s || c == '\n'
    ensures Without(r, IsSemicolonOrSpace) == Without(s, IsSemicolonOrSpace)
  {
    assert Advances(s, SemicolonAt);
    ReplaceFromOk(s, 0, SemicolonAt, c => c != ';' && (c in s || c == '\n'));
    forall j: nat | j < |s| && SemicolonAt(s, j).Some?
      ensures Without("\n", IsSemicolonOrSpace) == Without(s[j..SemicolonAt(s, j).value.end], IsSemicolonOrSpace)
    {
      var e := SemicolonAt(s, j).value.end;
      AllDropped(s[j..e], IsSemicolonOrSpace);
      AllDropped("\n", IsSemicolonOrSpace);
    }
    ReplaceFromOnlyMoves(s, 0, SemicolonAt, IsSemicolonOrSpace);
    ReplaceFrom(s, 0, SemicolonAt)
  }

  /** Two statements, each ended by a semicolon, the first followed by spaces, come out one
      per line. */
  lemma StatementsSplit(x: string, y: string)
    requires ';' !in x && ';' !in y && y != [] && !IsSpace(y[0])
    ensures SplitStatements(x + [';', ' '] + y + [';']) == x + ['\n'] + y + ['\n']
  {
    var s := x + [';', ' '] + y + [';'];
    var i, j := |x|, |x| + 2 + |y|;
    StatementPieces(x, y, s);
    assert Advances(s, SemicolonAt);
    NoSemicolonIn(s, 0, i);
    ReplaceFromSkip(s, 0, i, SemicolonAt);
    assert SpaceRun(s, i + 2) == i + 2;
    assert SpaceRun(s, i + 1) == i + 2;
    assert ReplaceFrom(s, i, SemicolonAt) == "\n" + ReplaceFrom(s, i + 2, SemicolonAt);
    NoSemicolonIn(s, i + 2, j);
    ReplaceFromSkip(s, i + 2, j, SemicolonAt);
    assert SpaceRun(s, j + 1) == j + 1;
    assert ReplaceFrom(s, j, SemicolonAt) == "\n" + ReplaceFrom(s, |s|, SemicolonAt);
    assert ReplaceFrom(s, |s|, SemicolonAt) == [];
    Joined4(x, "\n", y, "\n");
  }

  lemma StatementPieces(x: string, y: string, s: string)
    requires y != [] && s == x + [';', ' '] + y + [';']
    ensures |s| == |x| + |y| + 3 && s[0..|x|] == x && s[|x| + 2..|x| + 2 + |y|] == y
    ensures s[|x|] == ';' && s[|x| + 1] == ' ' && s[|x| + 2] == y[0] && s[|s| - 1] == ';'
    ensures forall k :: 0 <= k < |x| ==> s[k] == x[k]
    ensures forall k :: |x| + 2 <= k < |x| + 2 + |y| ==> s[k] == y[k - |x| - 2]
  {
  }

  lemma NoSemicolonIn(s: string, i: nat, j: nat)
    requires i <= j <= |s| && ';' !in s[i..j]
    ensures forall k: nat :: i <= k < j ==> SemicolonAt(s, k).None?
  {
    forall k: nat | i <= k < j ensures s[k] != ';' {
      assert s[k] == s[i..j][k - i];
    }
  }

  lemma Joined4(a: string, b: string, c: string, d: string)
    ensures a + (b + (c + (d + []))) == a + b + c + d
  {
  }

  /** `A-->B; B-->C;` becomes `A-->B\nB-->C\n`, which the final trim makes `A-->B\nB-->C`. */
  lemma StatementsCase(x: string, y: string)
    requires x == "A-->B" && y == "B-->C"
    ensures SplitStatements(x + [';', ' '] + y + [';']) == x + ['\n'] + y + ['\n']
  {
    StatementsSplit(x, y);
  }

  lemma InText(s: string, i: nat, j: nat)
    requires i <= j <= |s|
    ensures forall c :: c in s[i..j] ==> c in s
  {
  }

  /** A text made only of characters of `drop` is removed whole. */
  lemma {:induction false} AllDropped(w: string, drop: char -> bool)
    requires forall k :: 0 <= k < |w| ==> drop(w[k])
    ensures Without(w, drop) == []
    decreases |w|
  {
    if w != [] {
      AllDropped(w[1..], drop);
    }
  }
  // ---------------------------------------------------------------------------
  // Step 3a (main.js:269): `(\s*subgraph)\s*\["([^"]+)"\]` with the `g` and `i` flags
  // becomes `$1 "$2"`.

  /** Where a match of the pattern has `subgraph` end at `k`, `["` at `b` and `"]` at `e`. */
  datatype TitleMatch = TitleMatch(k: nat, b: nat, e: nat)

  predicate BracketedTitle(s: string, p: nat, m: TitleMatch)
  {
    p <= m.k <= m.b && m.b + 2 < m.e && m.e + 2 <= |s|
    && (forall i :: m.k <= i < m.b ==> IsSpace(s[i]))
    && s[m.b] == '[' && s[m.b + 1] == '"' && s[m.e] == '"' && s[m.e + 1] == ']'
  }

  function FindBracketedTitle(s: string, p: nat): (r: Option<TitleMatch>)
    ensures r.Some? ==> BracketedTitle(s, p, r.value)
  {
    if p > |s| then None
    else
      var q := SpaceRun(s, p);
      if !MatchesAt(s, q, "subgraph", true) then None
      else TitleAfterKeyword(s, q + 8)
  }

  /** `\s*\["([^"]+)"\]` from `k`, just after the keyword. */
  function TitleAfterKeyword(s: string, k: nat): (r: Option<TitleMatch>)
    requires k <= |s|
    ensures r.Some? ==> BracketedTitle(s, k, r.value) && r.value.k == k
  {
    var b := SpaceRun(s, k);
    if !(b + 1 < |s| && s[b] == '[' && s[b + 1] == '"') then None
    else
      var e := FindFrom(s, b + 2, Label.IsDoubleQuote);
      if e == b + 2 || e + 1 >= |s| || s[e + 1] != ']' then None
      else Some(TitleMatch(k, b, e))
  }

  /** `$1 "$2"`: the keyword with what precedes it, then the title in quotes. */
  function QuotedTitle(s: string, p: nat, m: TitleMatch): (out: string)
    requires BracketedTitle(s, p, m)
    ensures forall c :: c in out ==> c in s || Written(c)
    ensures Without(out, IsBracketOrSpace) == Without(s[p..m.e + 2], IsBracketOrSpace)
  {
    BracketedTitleMoves(s, p, m.k, m.b, m.e);
    InText(s, p, m.k);
    InText(s, m.b + 2, m.e);
    s[p..m.k] + [' ', '"'] + s[m.b + 2..m.e] + ['"']
  }

  function SubgraphBracketAt(s: string, p: nat): (r: Option<Hit>)
    ensures r.Some? ==> p < r.value.end <= |s|
    ensures r.Some? ==> forall c :: c in r.value.out ==> c in s || Written(c)
    ensures r.Some? ==> Without(r.value.out, IsBracketOrSpace) == Without(s[p..r.value.end], IsBracketOrSpace)
  {
    match FindBracketedTitle(s, p)
    case None => None
    case Some(m) => Some(Hit(m.e + 2, QuotedTitle(s, p, m)))
  }

  predicate IsBracketOrSpace(c: char)
  {
    c == '[' || c == ']' || IsSpace(c)
  }

  /** The rewrite drops the brackets around the title and moves whitespace, nothing else. */
  lemma BracketedTitleMoves(s: string, p: nat, k: nat, b: nat, e: nat)
    requires p <= k <= b && b + 2 <= e && e + 2 <= |s|
    requires forall i :: k <= i < b ==> IsSpace(s[i])
    requires s[b] == '[' && s[b + 1] == '"' && s[e] == '"' && s[e + 1] == ']'
    ensures Without(s[p..k] + [' ', '"'] + s[b + 2..e] + ['"'], IsBracketOrSpace)
      == Without(s[p..e + 2], IsBracketOrSpace)
  {
    BracketedTitleDropped(s, p, k, b, e);
    QuotedTitleDropped(s[p..k], s[b + 2..e]);
  }

  lemma BracketedTitleDropped(s: string, p: nat, k: nat, b: nat, e: nat)
    requires p <= k <= b && b + 2 <= e && e + 2 <= |s|
    requires forall i :: k <= i < b ==> IsSpace(s[i])
    requires s[b] == '[' && s[b + 1] == '"' && s[e] == '"' && s[e + 1] == ']'
    ensures Without(s[p..e + 2], IsBracketOrSpace)
      == Without(s[p..k], IsBracketOrSpace) + ['"'] + Without(s[b + 2..e], IsBracketOrSpace) + ['"']
  {
    var drop := IsBracketOrSpace;
    var h, t, q := Without(s[p..k], drop), Without(s[b + 2..e], drop), ['"'];
    BracketDropped(s, b, e);
    AllDropped(s[k..b], drop);
    DropSplit(s, k, b, e + 2, drop);
    DropSplit(s, p, k, e + 2, drop);
    assert Without(s[p..e + 2], drop) == h + ([] + (q + (t + q)));
    assert [] + (q + (t + q)) == q + (t + q);
    Label.Regroup(h, q, t + q);
    Label.Regroup(h + q, t, q);
  }

  lemma BracketDropped(s: string, b: nat, e: nat)
    requires b + 2 <= e && e + 2 <= |s|
    requires s[b] == '[' && s[b + 1] == '"' && s[e] == '"' && s[e + 1] == ']'
    ensures Without(s[b..e + 2], IsBracketOrSpace) == ['"'] + (Without(s[b + 2..e], IsBracketOrSpace) + ['"'])
  {
    var drop := IsBracketOrSpace;
    PairKept(s, e, drop);
    DropSplit(s, b + 2, e, e + 2, drop);
    PairKept(s, b, drop);
    DropSplit(s, b, b + 2, e + 2, drop);
  }

  lemma QuotedTitleDropped(head: string, title: string)
    ensures Without(head + [' ', '"'] + title + ['"'], IsBracketOrSpace)
      == Without(head, IsBracketOrSpace) + ['"'] + Without(title, IsBracketOrSpace) + ['"']
  {
    var drop := IsBracketOrSpace;
    PairKept([' ', '"'], 0, drop);
    assert [' ', '"'][0..2] == [' ', '"'];
    assert Without(['"'], drop) == ['"'] by {
      assert ['"'][1..] == [];
    }
    WithoutAppend(head + [' ', '"'] + title, ['"'], drop);
    WithoutAppend(head + [' ', '"'], title, drop);
    WithoutAppend(head, [' ', '"'], drop);
  }

  /** Of the two characters at `i`, exactly the double quote survives. */
  lemma PairKept(s: string, i: nat, drop: char -> bool)
    requires i + 2 <= |s| && !drop('"')
    requires (s[i] == '"' && drop(s[i + 1])) || (drop(s[i]) && s[i + 1] == '"')
    ensures Without(s[i..i + 2], drop) == ['"']
  {
    var w := s[i..i + 2];
    var t := w[1..];
    assert t[1..] == [];
    assert Without(t, drop) == (if drop(t[0]) then [] else [t[0]]) + Without(t[1..], drop);
  }

  lemma DropParts(a: string, b: string, c: string, d: string, e: string, drop: char -> bool)
    ensures Without(a + b + c + d + e, drop)
      == Without(a, drop) + Without(b, drop) + Without(c, drop) + Without(d, drop) + Without(e, drop)
  {
    WithoutAppend(a + b + c + d, e, drop);
    WithoutAppend(a + b + c, d, drop);
    WithoutAppend(a + b, c, drop);
    WithoutAppend(a, b, drop);
  }

  /** `subgraph["Title"]`, in any case and with any whitespace before the bracket, becomes
      `subgraph "Title"`: only brackets and whitespace change. */
  function QuoteBracketedSubgraphs(s: string): (r: string)
    ensures forall c :: c in r ==> c in s || Written(c)
    ensures Without(r, IsBracketOrSpace) == Without(s, IsBracketOrSpace)
  {
    assert Advances(s, SubgraphBracketAt);
    ReplaceFromOk(s, 0, SubgraphBracketAt, c => c in s || Written(c));
    ReplaceFromOnlyMoves(s, 0, SubgraphBracketAt, IsBracketOrSpace);
    ReplaceFrom(s, 0, SubgraphBracketAt)
  }

  /** `subgraph["Title"]` becomes `subgraph "Title"`: the keyword keeps its case and the
      whitespace before it, the whitespace and bracket after it become one space, and the
      title stays in double quotes; the text after the match, holding no bracket, is kept. */
  lemma SubgraphTitleQuoted(w: string, kw: string, w2: string, title: string, rest: string)
    requires AllSpace(w) && AllSpace(w2) && |kw| == 8 && MatchesAt(kw, 0, "subgraph", true)
    requires title != [] && '"' !in title && '[' !in rest
    ensures QuoteBracketedSubgraphs(w + kw + w2 + ['[', '"'] + title + ['"', ']'] + rest)
      == w + kw + [' ', '"'] + title + ['"'] + rest
  {
    var s := w + kw + w2 + ['[', '"'] + title + ['"', ']'] + rest;
    var m := TitleMatch(|w| + 8, |w| + 8 + |w2|, |w| + 10 + |w2| + |title|);
    BracketedPieces(w, kw, w2, title, rest, s, m);
    SubgraphTitleAt(w, kw, w2, title, rest, s, m);
  }

  lemma SubgraphTitleAt(w: string, kw: string, w2: string, title: string, rest: string, s: string, m: TitleMatch)
    requires AllSpace(w) && AllSpace(w2) && |kw| == 8 && MatchesAt(kw, 0, "subgraph", true)
    requires title != [] && '"' !in title && '[' !in rest
    requires m == TitleMatch(|w| + 8, |w| + 8 + |w2|, |w| + 10 + |w2| + |title|)
    requires m.e + 2 <= |s| && s[0..|w|] == w && s[|w|..m.k] == kw && s[m.k..m.b] == w2
    requires s[m.b] == '[' && s[m.b + 1] == '"' && s[m.b + 2..m.e] == title && s[m.e] == '"'
    requires s[m.e + 1] == ']' && s[m.e + 2..] == rest && s[..m.k] == w + kw
    ensures QuoteBracketedSubgraphs(s) == w + kw + [' ', '"'] + title + ['"'] + rest
  {
    KeywordAtSlice(s, |w|, kw, "subgraph");
    BracketedTitleSteps(w, kw, w2, title, s, m);
    BracketedTitleFrom(s, |w|, m);
    QuotedTitleOf(s, m, w + kw, title);
    QuotedOnce(s, m, rest);
  }

  /** One bracketed title, with no bracket after it, is the only rewrite. */
  lemma QuotedOnce(s: string, m: TitleMatch, rest: string)
    requires FindBracketedTitle(s, 0) == Some(m) && m.e + 2 <= |s| && s[m.e + 2..] == rest
    requires '[' !in rest
    ensures QuoteBracketedSubgraphs(s) == QuotedTitle(s, 0, m) + rest
  {
    var out := QuotedTitle(s, 0, m);
    SubgraphHit(s, m);
    HitIs(s, 0, SubgraphBracketAt, Hit(m.e + 2, out));
    QuoteBracketedUnfolds(s);
    ReplaceFromAt(s, 0, SubgraphBracketAt, Hit(m.e + 2, out));
    TitleFreeTail(s, m.e + 2, rest);
    var whole, full, tail := QuoteBracketedSubgraphs(s), ReplaceFrom(s, 0, SubgraphBracketAt), ReplaceFrom(s, m.e + 2, SubgraphBracketAt);
    assert whole == full;
    assert full == s[..0] + out + tail;
    JoinFirst(whole, s[..0], out, tail, rest);
  }

  /** A tail with no bracket is copied as it is. */
  lemma TitleFreeTail(s: string, i: nat, rest: string)
    requires i <= |s| && s[i..] == rest && '[' !in rest
    ensures Advances(s, SubgraphBracketAt) && ReplaceFrom(s, i, SubgraphBracketAt) == rest
  {
    forall j: nat | i <= j <= |s| ensures SubgraphBracketAt(s, j).None? {
      NoBracketedTitleAfter(s, i, j);
    }
    QuoteBracketedUnfolds(s);
    ReplaceFromNone(s, i, SubgraphBracketAt);
  }

  /** A text made of an empty prefix, a rewrite and a tail is the rewrite and the tail. */
  lemma JoinFirst(whole: string, pre: string, out: string, tail: string, rest: string)
    requires whole == pre + out + tail && |pre| == 0 && tail == rest
    ensures whole == out + rest
  {
    assert pre == [];
  }

  lemma SubgraphHit(s: string, m: TitleMatch)
    requires FindBracketedTitle(s, 0) == Some(m)
    ensures BracketedTitle(s, 0, m) && SubgraphBracketAt(s, 0).Some?
    ensures SubgraphBracketAt(s, 0).value.end == m.e + 2
    ensures SubgraphBracketAt(s, 0).value.out == QuotedTitle(s, 0, m)
  {
  }

  lemma QuoteBracketedUnfolds(s: string)
    ensures Advances(s, SubgraphBracketAt)
    ensures QuoteBracketedSubgraphs(s) == ReplaceFrom(s, 0, SubgraphBracketAt)
  {
  }

  /** `subgraph["Title"]:::class` loses its bracket at this pass; the class suffix is kept. */
  lemma QuoteBracketedSubgraphsCase(kw: string, title: string, rest: string)
    requires kw == "subgraph" && title == "Title" && rest == ":::class"
    ensures QuoteBracketedSubgraphs(kw + ['[', '"'] + title + ['"', ']'] + rest)
      == kw + [' ', '"'] + title + ['"'] + rest
  {
    TitleStyleShape(kw, title, rest);
    SubgraphTitleQuoted([], kw, [], title, rest);
    NoSpaceAround(kw);
  }

  /** Empty whitespace on both sides of the keyword. */
  lemma NoSpaceAround(kw: string)
    ensures [] + kw + [] == kw && [] + kw == kw
  {
  }

  lemma TitleStyleShape(kw: string, title: string, rest: string)
    requires kw == "subgraph" && title == "Title" && rest == ":::class"
    ensures |kw| == 8 && MatchesAt(kw, 0, "subgraph", true)
    ensures title != [] && '"' !in title && '[' !in rest
  {
    PrefixMatches(kw, [], true);
    assert kw + [] == kw;
  }

  lemma BracketedPieces(w: string, kw: string, w2: string, title: string, rest: string, s: string, m: TitleMatch)
    requires s == w + kw + w2 + ['[', '"'] + title + ['"', ']'] + rest && |kw| == 8
    requires m == TitleMatch(|w| + 8, |w| + 8 + |w2|, |w| + 10 + |w2| + |title|)
    ensures m.e + 2 <= |s| && s[0..|w|] == w && s[|w|..m.k] == kw && s[m.k..m.b] == w2
    ensures s[m.b] == '[' && s[m.b + 1] == '"' && s[m.b + 2..m.e] == title && s[m.e] == '"'
    ensures s[m.e + 1] == ']' && s[m.e + 2..] == rest && s[..m.k] == w + kw
  {
  }

  /** The scanning steps of `FindBracketedTitle` over the pieces of a bracketed title. */
  lemma BracketedTitleSteps(w: string, kw: string, w2: string, title: string, s: string, m: TitleMatch)
    requires AllSpace(w) && AllSpace(w2) && |kw| == 8 && !IsSpace(kw[0]) && title != [] && '"' !in title
    requires m == TitleMatch(|w| + 8, |w| + 8 + |w2|, |w| + 10 + |w2| + |title|)
    requires m.e + 2 <= |s| && s[0..|w|] == w && s[|w|..m.k] == kw && s[m.k..m.b] == w2
    requires s[m.b] == '[' && s[m.b + 1] == '"' && s[m.b + 2..m.e] == title && s[m.e] == '"'
    ensures SpaceRun(s, 0) == |w| && SpaceRun(s, m.k) == m.b
    ensures FindFrom(s, m.b + 2, Label.IsDoubleQuote) == m.e
  {
    assert s[|w|] == kw[0];
    SpacesThen(s, 0, w);
    SpacesThen(s, m.k, w2);
    FindFromOver(s, m.b + 2, title, Label.IsDoubleQuote);
  }

  /** A run of whitespace ends where the next non-whitespace character stands. */
  lemma SpacesThen(s: string, i: nat, w: string)
    requires i + |w| < |s| && s[i..i + |w|] == w && AllSpace(w) && !IsSpace(s[i + |w|])
    ensures SpaceRun(s, i) == i + |w|
  {
    forall k | i <= k < i + |w| ensures IsSpace(s[k]) {
      assert s[k] == w[k - i];
    }
    SpaceRunTo(s, i, i + |w|);
  }

  /** The search stops right after a stretch whose characters it passes over. */
  lemma FindFromOver(s: string, i: nat, t: string, stop: char -> bool)
    requires i + |t| <= |s| && s[i..i + |t|] == t && forall c :: c in t ==> !stop(c)
    requires i + |t| == |s| || stop(s[i + |t|])
    ensures FindFrom(s, i, stop) == i + |t|
  {
    forall k | i <= k < i + |t| ensures !stop(s[k]) {
      assert s[k] == t[k - i];
    }
    FindFromTo(s, i, i + |t|, stop);
  }

  /** A keyword spelt in any case, found as a slice of the text, matches there; it opens with a
      letter. */
  lemma KeywordAtSlice(s: string, i: nat, kw: string, pat: string)
    requires i + |kw| <= |s| && s[i..i + |kw|] == kw
    requires pat != [] && 'a' <= pat[0] <= 'z' && MatchesAt(kw, 0, pat, true)
    ensures MatchesAt(s, i, pat, true) && i < |s| && !IsSpace(s[i])
  {
    KeywordOpensWithLetter(kw, pat);
    assert s[i] == kw[0];
    MatchesExtend(kw, s[i + |kw|..], 0, pat, true);
    assert s[i..] == kw + s[i + |kw|..];
    MatchesInSuffix(s, i, 0, pat, true);
  }

  lemma QuotedTitleOf(s: string, m: TitleMatch, head: string, title: string)
    requires BracketedTitle(s, 0, m) && s[..m.k] == head && s[m.b + 2..m.e] == title
    ensures QuotedTitle(s, 0, m) == head + [' ', '"'] + title + ['"']
  {
    assert s[0..m.k] == s[..m.k];
  }

  /** `FindBracketedTitle` from its scanning steps. */
  lemma BracketedTitleFrom(s: string, q: nat, m: TitleMatch)
    requires q + 8 == m.k <= m.b && m.b + 2 < m.e && m.e + 1 < |s|
    requires SpaceRun(s, 0) == q && MatchesAt(s, q, "subgraph", true) && SpaceRun(s, m.k) == m.b
    requires s[m.b] == '[' && s[m.b + 1] == '"' && s[m.e + 1] == ']'
    requires FindFrom(s, m.b + 2, Label.IsDoubleQuote) == m.e
    ensures FindBracketedTitle(s, 0) == Some(m)
  {
    TitleAfterAt(s, m);
  }

  lemma TitleAfterAt(s: string, m: TitleMatch)
    requires m.k <= m.b && m.b + 2 < m.e && m.e + 1 < |s| && SpaceRun(s, m.k) == m.b
    requires s[m.b] == '[' && s[m.b + 1] == '"' && s[m.e + 1] == ']'
    requires FindFrom(s, m.b + 2, Label.IsDoubleQuote) == m.e
    ensures TitleAfterKeyword(s, m.k) == Some(m)
  {
    var e := FindFrom(s, m.b + 2, Label.IsDoubleQuote);
    assert !(e == m.b + 2 || e + 1 >= |s| || s[e + 1] != ']');
    assert TitleMatch(m.k, m.b, e) == m;
  }

  /** A keyword spelt in any case opens with a letter. */
  lemma KeywordOpensWithLetter(kw: string, pat: string)
    requires pat != [] && 'a' <= pat[0] <= 'z' && MatchesAt(kw, 0, pat, true)
    ensures kw != [] && IsWordChar(kw[0]) && !IsSpace(kw[0])
  {
    MatchesAtChars(kw, 0, pat, 0, true);
  }

  /** No bracketed title starts in a stretch that holds no bracket. */
  lemma NoBracketedTitleAfter(s: string, lo: nat, j: nat)
    requires lo <= j <= |s| && '[' !in s[lo..]
    ensures FindBracketedTitle(s, j).None?
  {
  }

  /** `FindFrom` stops at the first index from `i` on whose character satisfies `stop`. */
  lemma {:induction false} FindFromTo(s: string, i: nat, j: nat, stop: char -> bool)
    requires i <= j <= |s| && (j == |s| || stop(s[j]))
    requires forall k :: i <= k < j ==> !stop(s[k])
    ensures FindFrom(s, i, stop) == j
    decreases j - i
  {
    if i < j {
      FindFromTo(s, i + 1, j, stop);
    }
  }

  // ---------------------------------------------------------------------------
  // Step 3b (main.js:274): `([^\n])\s*(subgraph|end|classDef|style)(?![A-Za-z0-9_])` with the
  // `g` flag becomes `$1\n$2`. There is no word boundary on the left, and `\s*` also
  // swallows line breaks and indentation.

  /** The length of the first of the block keywords that occurs at `q` and is not followed by
      a word character, or 0 when there is none. */
  function BlockKeywordAt(s: string, q: nat): (n: nat)
    ensures n == 0 || n == 3 || n == 5 || n == 8
    ensures n > 0 ==> q + n <= |s| && !WordAt(s, q + n)
  {
    if MatchesAt(s, q, "subgraph") && !WordAt(s, q + 8) then 8
    else if MatchesAt(s, q, "end") && !WordAt(s, q + 3) then 3
    else if MatchesAt(s, q, "classDef") && !WordAt(s, q + 8) then 8
    else if MatchesAt(s, q, "style") && !WordAt(s, q + 5) then 5
    else 0
  }

  function FusedKeywordAt(s: string, p: nat): (r: Option<Hit>)
    ensures r.Some? ==> p < r.value.end <= |s|
    ensures r.Some? ==> forall c :: c in r.value.out ==> c in s || c == '\n'
    ensures r.Some? ==> Without(r.value.out, IsSpace) == Without(s[p..r.value.end], IsSpace)
  {
    if p >= |s| || s[p] == '\n' then None
    else
      var q := SpaceRun(s, p + 1);
      var n := BlockKeywordAt(s, q);
      if n == 0 then None
      else
        FusedKeywordMoves(s, p, q, n);
        Some(Hit(q + n, [s[p]] + ['\n'] + s[q..q + n]))
  }

  /** The split moves whitespace only. */
  lemma FusedKeywordMoves(s: string, p: nat, q: nat, n: nat)
    requires p < q <= q + n <= |s|
    requires forall i :: p < i < q ==> IsSpace(s[i])
    ensures Without([s[p]] + ['\n'] + s[q..q + n], IsSpace) == Without(s[p..q + n], IsSpace)
  {
    var c, gap, kw, nl := [s[p]], s[p + 1..q], s[q..q + n], ['\n'];
    assert s[p..q + n] == c + gap + kw;
    AllDropped(gap, IsSpace);
    AllDropped(nl, IsSpace);
    DropThree(c, gap, kw, IsSpace);
    DropThree(c, nl, kw, IsSpace);
  }

  lemma DropThree(a: string, b: string, c: string, drop: char -> bool)
    ensures Without(a + b + c, drop) == Without(a, drop) + Without(b, drop) + Without(c, drop)
  {
    WithoutAppend(a + b, c, drop);
    WithoutAppend(a, b, drop);
  }

  /** A block keyword glued to what precedes it is moved to a line of its own; the pass only
      moves whitespace. */
  function SplitFusedLines(s: string): (r: string)
    ensures forall c :: c in r ==> c in s || c == '\n'
    ensures Without(r, IsSpace) == Without(s, IsSpace)
  {
    assert Advances(s, FusedKeywordAt);
    ReplaceFromOk(s, 0, FusedKeywordAt, c => c in s || c == '\n');
    ReplaceFromOnlyMoves(s, 0, FusedKeywordAt, IsSpace);
    ReplaceFrom(s, 0, FusedKeywordAt)
  }
  /** The keywords step 3b moves to a line of their own. */
  predicate IsBlockKeyword(kw: string)
  {
    kw == "subgraph" || kw == "end" || kw == "classDef" || kw == "style"
  }

  /** A word with a block keyword glued to its end, as in `node5subgraph` or `Backend`, is
      split just before the keyword: the pattern has no word boundary on its left. */
  lemma FusedWordSplit(a: string, kw: string)
    requires a != [] && forall c :: c in a ==> IsWordChar(c)
    requires IsBlockKeyword(kw)
    ensures SplitFusedLines(a + kw) == a + ['\n'] + kw
  {
    var s := a + kw;
    assert forall i :: 0 <= i < |s| ==> IsWordChar(s[i]) by {
      forall i | 0 <= i < |s| ensures IsWordChar(s[i]) {
        if i < |a| { assert s[i] in a; }
      }
    }
    forall q: nat | q < |a| ensures BlockKeywordAt(s, q) == 0 {
      NoKeywordInside(a, kw, q);
    }
    BlockKeywordShift(a, kw);
    BlockKeywordWhole(kw);
    FusedOnlyAt(s, |a| - 1, |kw|);
    assert s[..|a|] == a && s[|a|..] == kw;
  }

  /** `node5subgraph` is split before its keyword. */
  lemma SplitFusedNode(a: string, kw: string)
    requires a == "node5" && kw == "subgraph"
    ensures SplitFusedLines(a + kw) == a + ['\n'] + kw
  {
    FusedWordSplit(a, kw);
  }

  /** `Backend` is split too: the pattern has no word boundary before `end`. */
  lemma SplitFusedBackend(a: string, kw: string)
    requires a == "Back" && kw == "end"
    ensures SplitFusedLines(a + kw) == a + ['\n'] + kw
  {
    FusedWordSplit(a, kw);
  }

  /** In a text of word characters whose only block keyword starts at `p + 1` and runs to the
      end, the one split is before that keyword. */
  lemma FusedOnlyAt(s: string, p: nat, n: nat)
    requires p + 1 + n == |s| && forall i :: 0 <= i < |s| ==> IsWordChar(s[i])
    requires forall q: nat :: q <= p ==> BlockKeywordAt(s, q) == 0
    requires BlockKeywordAt(s, p + 1) == n && n > 0
    ensures SplitFusedLines(s) == s[..p + 1] + ['\n'] + s[p + 1..]
  {
    forall k: nat | k < p ensures FusedKeywordAt(s, k).None? {
      SpaceRunTo(s, k + 1, k + 1);
    }
    SpaceRunTo(s, p + 1, p + 1);
    var out := [s[p]] + ['\n'] + s[p + 1..|s|];
    assert FusedKeywordAt(s, p) == Some(Hit(|s|, out));
    assert Advances(s, FusedKeywordAt);
    ReplaceFromAt(s, p, FusedKeywordAt, Hit(|s|, out));
    assert ReplaceFrom(s, |s|, FusedKeywordAt) == [];
    assert SplitFusedLines(s) == ReplaceFrom(s, 0, FusedKeywordAt);
    SplitJoin(s, p);
  }

  lemma SplitJoin(s: string, p: nat)
    requires p < |s|
    ensures s[..p] + ([s[p]] + ['\n'] + s[p + 1..|s|]) + [] == s[..p + 1] + ['\n'] + s[p + 1..]
  {
    assert s[..p] + [s[p]] == s[..p + 1];
    assert s[p + 1..|s|] == s[p + 1..];
  }

  lemma BlockKeywordWhole(kw: string)
    requires IsBlockKeyword(kw)
    ensures BlockKeywordAt(kw, 0) == |kw| > 0
  {
    PrefixMatches(kw, [], false);
    assert kw + [] == kw;
    assert !WordAt(kw, |kw|);
    if kw == "classDef" {
      assert !MatchesAt(kw, 0, "subgraph") && !MatchesAt(kw, 0, "end");
    } else if kw == "style" {
      assert !MatchesAt(kw, 0, "end");
    }
  }

  /** A block keyword at index `|a|` of `a + t` is the one at the start of `t`. */
  lemma BlockKeywordShift(a: string, t: string)
    ensures BlockKeywordAt(a + t, |a|) == BlockKeywordAt(t, 0)
  {
    var s := a + t;
    assert s[|a|..] == t;
    MatchesInSuffix(s, |a|, 0, "subgraph", false);
    MatchesInSuffix(s, |a|, 0, "end", false);
    MatchesInSuffix(s, |a|, 0, "classDef", false);
    MatchesInSuffix(s, |a|, 0, "style", false);
    forall n: nat ensures WordAt(s, |a| + n) == WordAt(t, n) {
      if n < |t| { assert s[|a| + n] == t[n]; }
    }
  }

  /** Before the glued keyword, no block keyword can match: the text runs on in word characters
      up to its end, and the four keywords end in four different letters. */
  lemma NoKeywordInside(a: string, kw: string, q: nat)
    requires q < |a| && IsBlockKeyword(kw)
    requires forall i :: 0 <= i < |a + kw| ==> IsWordChar((a + kw)[i])
    ensures BlockKeywordAt(a + kw, q) == 0
  {
    var s := a + kw;
    var n := BlockKeywordAt(s, q);
    if n > 0 {
      assert q + n == |s|;
      var k: string :=
        if MatchesAt(s, q, "subgraph") && !WordAt(s, q + 8) then "subgraph"
        else if MatchesAt(s, q, "end") && !WordAt(s, q + 3) then "end"
        else if MatchesAt(s, q, "classDef") && !WordAt(s, q + 8) then "classDef"
        else "style";
      assert MatchesAt(s, q, k) && |k| == n;
      MatchesAtChars(s, q, k, n - 1, false);
      assert false;
    }
  }

  // ---------------------------------------------------------------------------
  // Step 6 (main.js:280-283):
  // `(\b[A-Za-z0-9_]+\b)\s+--\s*([^-\n|>]{1,60}?)\s*--\s+(\b[A-Za-z0-9_]+\b)` with the `g`
  // flag becomes `from -->|label| to`, the label escaped and with `|` made a space.

  /** A character the label class `[^-\n|>]` admits. */
  predicate IsLabelChar(c: char)
  {
    c != '-' && c != '\n' && c != '|' && c != '>'
  }

  datatype Span = Span(lo: nat, hi: nat)

  /** `\s*--\s+(\b[A-Za-z0-9_]+\b)` tried at `x`: where the target name lies. */
  function EdgeTarget(s: string, x: nat): (r: Option<Span>)
    requires x <= |s|
    ensures r.Some? ==> x < r.value.lo < r.value.hi <= |s|
  {
    var h := SpaceRun(s, x);
    if !MatchesAt(s, h, "--") then None
    else
      var k := SpaceRun(s, h + 2);
      if k == h + 2 || !WordAt(s, k) then None else Some(Span(k, WordEnd(s, k)))
  }

  /** Where the lazy label that starts at `c` ends, trying the lengths from `len` to 60 in
      turn, together with the target that follows it. */
  function LabelEnd(s: string, c: nat, len: nat): (r: Option<(nat, Span)>)
    requires c <= |s| && 1 <= len && c + len - 1 <= |s|
    requires forall i :: c <= i < c + len - 1 ==> IsLabelChar(s[i])
    ensures r.Some? ==> c + len <= r.value.0 <= c + 60 && r.value.0 < r.value.1.lo < r.value.1.hi <= |s|
    ensures r.Some? ==> forall i :: c <= i < r.value.0 ==> IsLabelChar(s[i])
    decreases 61 - len
  {
    if len > 60 || c + len > |s| || !IsLabelChar(s[c + len - 1]) then None
    else
      match EdgeTarget(s, c + len)
      case Some(t) => Some((c + len, t))
      case None =>
        var r := LabelEnd(s, c, len + 1);
        r
  }

  /** The label's start: `\s*` gives back one whitespace character at a time, from the end of
      its run at `c` down to `lo`. */
  function LabelStart(s: string, lo: nat, c: nat): (r: Option<EdgeLabel>)
    requires lo <= c <= |s|
    ensures r.Some? ==> lo <= r.value.lo < r.value.hi <= r.value.lo + 60
    ensures r.Some? ==> r.value.hi < r.value.to.lo < r.value.to.hi <= |s|
    ensures r.Some? ==> forall i :: r.value.lo <= i < r.value.hi ==> IsLabelChar(s[i])
    decreases c
  {
    match LabelEnd(s, c, 1)
    case Some(m) => Some(EdgeLabel(c, m.0, m.1))
    case None => if c == lo then None else LabelStart(s, lo, c - 1)
  }

  /** The label of an edge lies in `lo..hi` and the name of its target in `to`. */
  datatype EdgeLabel = EdgeLabel(lo: nat, hi: nat, to: Span)

  predicate IsPipe(c: char)
  {
    c == '|'
  }

  /** `escapeFlowLabel_(label).replace(/\|/g, ' ')`. Since the label class already refuses
      `|` and the escaper writes none, the replacement never fires. */
  function PipeFreeLabel(text: string): (t: string)
    requires forall c :: c in text ==> c != '|'
    ensures t == Label.Escape(text)
    ensures '|' !in t && Trimmed(t) && forall c :: c in t ==> !Label.Unsafe(c)
    ensures forall c :: c in t ==> c in text || c == '\'' || c == ' '
  {
    var e := Label.Escape(text);
    MapCharsKeeps(e, IsPipe, ' ');
    MapChars(e, IsPipe, ' ')
  }

  function EdgeAt(s: string, p: nat): (r: Option<Hit>)
    ensures r.Some? ==> p < r.value.end <= |s|
    ensures r.Some? ==> forall c :: c in r.value.out ==> c in s || Written(c)
  {
    if !(WordAt(s, p) && !WordAt(s, p - 1)) then None
    else
      var e := WordEnd(s, p);
      var f := SpaceRun(s, e);
      if f == e || !MatchesAt(s, f, "--") then None
      else
        match LabelStart(s, f + 2, SpaceRun(s, f + 2))
        case None => None
        case Some(m) => Some(Hit(m.to.hi, EdgeText(s, p, e, m)))
  }

  /** `from + ' -->|' + t + '| ' + to`. */
  function EdgeText(s: string, p: nat, e: nat, m: EdgeLabel): (out: string)
    requires p <= e <= m.lo < m.hi < m.to.lo < m.to.hi <= |s|
    requires forall i :: m.lo <= i < m.hi ==> IsLabelChar(s[i])
    ensures forall c :: c in out ==> c in s || Written(c)
  {
    LabelHasNoPipe(s, m.lo, m.hi);
    var t := PipeFreeLabel(s[m.lo..m.hi]);
    var from, to := s[p..e], s[m.to.lo..m.to.hi];
    PiecesFrom(s, p, e, m.lo, m.hi, m.to.lo, m.to.hi, t);
    from + " -->|" + t + "| " + to
  }

  lemma PiecesFrom(s: string, a: nat, b: nat, c: nat, d: nat, e: nat, f: nat, t: string)
    requires a <= b <= |s| && c <= d <= |s| && e <= f <= |s|
    requires forall x :: x in t ==> x in s[c..d] || x == '\'' || x == ' '
    ensures forall x :: x in s[a..b] + " -->|" + t + "| " + s[e..f] ==> x in s || Written(x)
  {
    InText(s, a, b);
    InText(s, c, d);
    InText(s, e, f);
  }

  lemma LabelHasNoPipe(s: string, lo: nat, hi: nat)
    requires lo <= hi <= |s| && forall i :: lo <= i < hi ==> IsLabelChar(s[i])
    ensures forall c :: c in s[lo..hi] ==> c != '|'
  {
    forall c | c in s[lo..hi] ensures c != '|' {
      var i :| 0 <= i < hi - lo && s[lo..hi][i] == c;
      assert IsLabelChar(s[lo + i]);
    }
  }

  /** Every labelled edge `A -- text -- B` becomes `A -->|text| B`. */
  function LabelEdges(s: string): (r: string)
    ensures forall c :: c in r ==> c in s || Written(c)
  {
    assert Advances(s, EdgeAt);
    ReplaceFromOk(s, 0, EdgeAt, c => c in s || Written(c));
    ReplaceFrom(s, 0, EdgeAt)
  }

  /** An edge needs a `--`. */
  lemma EdgeNeedsDash(s: string, j: nat)
    ensures EdgeAt(s, j).Some? ==> '-' in s
  {
    if EdgeAt(s, j).Some? {
      var f := SpaceRun(s, WordEnd(s, j));
      MatchesAtChars(s, f, "--", 0, false);
      assert s[f] in s;
    }
  }

  /** Where the text has no `-`, no edge is rewritten. */
  lemma LabelEdgesKeeps(s: string)
    requires '-' !in s
    ensures LabelEdges(s) == s
  {
    forall j: nat | j <= |s| ensures EdgeAt(s, j).None? {
      EdgeNeedsDash(s, j);
    }
    assert Advances(s, EdgeAt);
    ReplaceFromNone(s, 0, EdgeAt);
  }

  /** A non-empty run of `[A-Za-z0-9_]` characters. */
  predicate Name(w: string)
  {
    w != [] && forall c :: c in w ==> IsWordChar(c)
  }

  /** An edge `a -- label -- b` whose label is one word is rewritten with the label between
      pipes. */
  lemma EdgeRewritten(a: string, text: string, b: string)
    requires Name(a) && Name(text) && Name(b) && |text| <= 60
    ensures LabelEdges(a + " -- " + text + " -- " + b) == a + " -->|" + text + "| " + b
  {
    var s := a + " -- " + text + " -- " + b;
    var e := |a|;
    var m := EdgeLabel(e + 4, e + 4 + |text|, Span(e + 8 + |text|, |s|));
    EdgePieces(a, text, b, s, m);
    EdgeFound(s, e, m);
    var out := EdgeText(s, 0, e, m);
    EdgeTextOf(s, e, m, a, text, b);
    HitIs(s, 0, EdgeAt, Hit(|s|, out));
    EdgeAdvances(s);
    ReplaceFromAt(s, 0, EdgeAt, Hit(|s|, out));
    assert ReplaceFrom(s, |s|, EdgeAt) == [];
    NothingAfter(out);
  }

  lemma EdgeAdvances(s: string)
    ensures Advances(s, EdgeAt)
  {
  }

  /** Where the pieces of `a -- label -- b` lie. */
  lemma EdgePieces(a: string, text: string, b: string, s: string, m: EdgeLabel)
    requires Name(a) && Name(text) && Name(b)
    requires s == a + " -- " + text + " -- " + b
    requires m == EdgeLabel(|a| + 4, |a| + 4 + |text|, Span(|a| + 8 + |text|, |s|))
    ensures 0 < |a| && m.lo < m.hi && m.to.lo == m.hi + 4 && m.to.lo < m.to.hi == |s|
    ensures forall i :: 0 <= i < |a| ==> WordAt(s, i)
    ensures forall i :: m.lo <= i < m.hi ==> WordAt(s, i)
    ensures forall i :: m.to.lo <= i < |s| ==> WordAt(s, i)
    ensures Dashes(s, |a|) && Dashes(s, m.hi)
    ensures s[..|a|] == a && s[m.lo..m.hi] == text && s[m.to.lo..m.to.hi] == b
  {
    forall i | 0 <= i < |a| ensures WordAt(s, i) {
      assert s[i] == a[i] && a[i] in a;
    }
    forall i | m.lo <= i < m.hi ensures WordAt(s, i) {
      assert s[i] == text[i - m.lo] && text[i - m.lo] in text;
    }
    forall i | m.to.lo <= i < |s| ensures WordAt(s, i) {
      assert s[i] == b[i - m.to.lo] && b[i - m.to.lo] in b;
    }
  }

  /** ` -- ` at `x`. */
  predicate Dashes(s: string, x: nat)
  {
    x + 4 <= |s| && s[x] == ' ' && s[x + 1] == '-' && s[x + 2] == '-' && s[x + 3] == ' '
  }

  /** The regular expression matches the whole text, the lazy label being the word. */
  lemma EdgeFound(s: string, e: nat, m: EdgeLabel)
    requires 0 < e && m.lo == e + 4 && m.lo < m.hi <= m.lo + 60
    requires m.to.lo == m.hi + 4 && m.to.lo < m.to.hi == |s|
    requires forall i :: 0 <= i < e ==> WordAt(s, i)
    requires forall i :: m.lo <= i < m.hi ==> WordAt(s, i)
    requires forall i :: m.to.lo <= i < |s| ==> WordAt(s, i)
    requires Dashes(s, e) && Dashes(s, m.hi)
    ensures forall i :: m.lo <= i < m.hi ==> IsLabelChar(s[i])
    ensures EdgeAt(s, 0).Some? && EdgeAt(s, 0).value.end == |s|
    ensures EdgeAt(s, 0).value.out == EdgeText(s, 0, e, m)
  {
    EdgeHead(s, e, m.lo);
    LabelStartAt(s, e, m);
  }

  /** The source name, ` -- ` and the start of the label. */
  lemma EdgeHead(s: string, e: nat, c: nat)
    requires 0 < e && c == e + 4 && c < |s| && WordAt(s, c)
    requires forall i :: 0 <= i < e ==> WordAt(s, i)
    requires Dashes(s, e)
    ensures WordAt(s, 0) && !WordAt(s, -1) && WordEnd(s, 0) == e
    ensures SpaceRun(s, e) == e + 1 && MatchesAt(s, e + 1, "--") && SpaceRun(s, e + 3) == c
  {
    WordEndAt(s, 0, e);
    assert SpaceRun(s, e) == e + 1;
    assert MatchesAt(s, e + 1, "--");
    assert SpaceRun(s, c) == c;
  }

  lemma LabelStartAt(s: string, e: nat, m: EdgeLabel)
    requires m.lo == e + 4 && m.lo < m.hi <= m.lo + 60
    requires m.to.lo == m.hi + 4 && m.to.lo < m.to.hi == |s|
    requires forall i :: m.lo <= i < m.hi ==> WordAt(s, i)
    requires forall i :: m.to.lo <= i < |s| ==> WordAt(s, i)
    requires Dashes(s, m.hi)
    ensures forall i :: m.lo <= i < m.hi ==> IsLabelChar(s[i])
    ensures LabelStart(s, e + 3, m.lo) == Some(m)
  {
    EdgeTargetAt(s, m.hi, m.to);
    LabelEndWord(s, m.lo, 1, m.hi, m.to);
  }

  /** After the label: ` -- ` and the target's name up to the end of the text. */
  lemma EdgeTargetAt(s: string, x: nat, to: Span)
    requires Dashes(s, x) && to.lo == x + 4 && to.lo < to.hi == |s|
    requires forall i :: to.lo <= i < |s| ==> WordAt(s, i)
    ensures EdgeTarget(s, x) == Some(to)
  {
    assert SpaceRun(s, x) == x + 1;
    assert MatchesAt(s, x + 1, "--");
    assert WordAt(s, to.lo) && SpaceRun(s, to.lo) == to.lo;
    assert SpaceRun(s, x + 3) == to.lo;
    WordEndAt(s, to.lo, |s|);
  }

  /** The lazy label grows one word character at a time until the target follows it. */
  lemma {:induction false} LabelEndWord(s: string, c: nat, len: nat, hi: nat, to: Span)
    requires 1 <= len <= hi - c && hi <= c + 60 && hi <= |s|
    requires forall i :: c <= i < hi ==> WordAt(s, i)
    requires EdgeTarget(s, hi) == Some(to)
    ensures forall i :: c <= i < c + len - 1 ==> IsLabelChar(s[i])
    ensures LabelEnd(s, c, len) == Some((hi, to))
    decreases hi - c - len
  {
    forall i | c <= i < c + len - 1 ensures IsLabelChar(s[i]) {
      assert WordAt(s, i);
    }
    assert WordAt(s, c + len - 1);
    if c + len < hi {
      assert WordAt(s, c + len) && SpaceRun(s, c + len) == c + len;
      assert !MatchesAt(s, c + len, "--");
      assert EdgeTarget(s, c + len) == None;
      LabelEndWord(s, c, len + 1, hi, to);
    }
  }

  /** The text written for the edge. */
  lemma EdgeTextOf(s: string, e: nat, m: EdgeLabel, a: string, text: string, b: string)
    requires 0 < e <= m.lo < m.hi < m.to.lo < m.to.hi <= |s|
    requires forall i :: m.lo <= i < m.hi ==> IsLabelChar(s[i])
    requires s[..e] == a && s[m.lo..m.hi] == text && s[m.to.lo..m.to.hi] == b && Name(text)
    ensures EdgeText(s, 0, e, m) == a + " -->|" + text + "| " + b
  {
    assert s[0..e] == a;
    forall c | c in text ensures !Label.Unsafe(c) {
      assert IsWordChar(c);
    }
    assert text[0] in text && text[|text| - 1] in text;
    Label.CleanLabelKept(text);
    MapCharsKeeps(text, IsPipe, ' ');
  }

  /** `A -- Label -- B` becomes `A -->|Label| B`. */
  lemma EdgeCase(a: string, text: string, b: string)
    requires a == "A" && text == "Label" && b == "B"
    ensures LabelEdges(a + " -- " + text + " -- " + b) == a + " -->|" + text + "| " + b
  {
    assert Name(a) && Name(b);
    forall c | c in text ensures IsWordChar(c) {
      var k :| 0 <= k < |text| && text[k] == c;
    }
    EdgeRewritten(a, text, b);
  }

  // ---------------------------------------------------------------------------
  // Step 7 (main.js:286-288): `^(flowchart|graph)\s+(TB|TD|BT|RL|LR)\s+(.+)$` with the `i`
  // and `m` flags and without `g` becomes `kw dir\nrest`: the first header that carries a
  // statement on its own line gets that statement moved to the next line.

  /** Where a header match has its keyword of length `n` at the start, the direction at `a`,
      the statement from `t` to the end of its line at `e`. */
  datatype HeaderMatch = HeaderMatch(n: nat, a: nat, t: nat, e: nat)

  predicate HeaderShape(s: string, p: nat, m: HeaderMatch)
  {
    p + m.n < m.a && m.a + 2 < m.t < m.e <= |s|
    && (forall i :: p + m.n <= i < m.a ==> IsSpace(s[i]))
    && (forall i :: m.a + 2 <= i < m.t ==> IsSpace(s[i]))
  }

  predicate DirectionAt(s: string, a: nat)
  {
    MatchesAt(s, a, "TB", true) || MatchesAt(s, a, "TD", true) || MatchesAt(s, a, "BT", true)
    || MatchesAt(s, a, "RL", true) || MatchesAt(s, a, "LR", true)
  }

  /** `\s+(.+)` after the direction: the greedy `\s+` gives back whitespace until `.` can
      match, so the statement starts at the last index of `lo..j` that is inside the text
      and not a line terminator. */
  function StatementStart(s: string, lo: nat, j: nat): (r: Option<nat>)
    requires lo <= j <= |s|
    ensures r.Some? ==> lo <= r.value <= j && r.value < |s| && !IsLineTerminator(s[r.value])
    decreases j
  {
    if j < |s| && !IsLineTerminator(s[j]) then Some(j)
    else if j == lo then None
    else StatementStart(s, lo, j - 1)
  }

  /** The length of the header keyword at `p`, `flowchart` before `graph`, or 0. */
  function HeaderKeyword(s: string, p: nat): (n: nat)
    ensures n == 0 || n == 5 || n == 9
  {
    if MatchesAt(s, p, "flowchart", true) then 9 else if MatchesAt(s, p, "graph", true) then 5 else 0
  }

  function FindHeader(s: string, p: nat): (r: Option<HeaderMatch>)
    ensures r.Some? ==> HeaderShape(s, p, r.value)
  {
    if p > |s| || !LineStart(s, p) then None
    else
      var n := HeaderKeyword(s, p);
      if n == 0 then None
      else HeaderAfterKeyword(s, p, n)
  }

  /** `\s+(TB|TD|BT|RL|LR)` after a keyword of length `n` at `p`, then the statement. */
  function HeaderAfterKeyword(s: string, p: nat, n: nat): (r: Option<HeaderMatch>)
    requires p <= |s| && n > 0
    ensures r.Some? ==> HeaderShape(s, p, r.value) && r.value.n == n
  {
    if p + n > |s| then None
    else
      var a := SpaceRun(s, p + n);
      if a == p + n || !DirectionAt(s, a) then None
      else HeaderStatement(s, n, a)
  }

  /** `\s+(.+)$` after the direction at `a`. */
  function HeaderStatement(s: string, n: nat, a: nat): (r: Option<HeaderMatch>)
    requires a + 2 <= |s|
    ensures r.Some? ==> r.value.n == n && r.value.a == a && a + 2 < r.value.t < r.value.e <= |s|
    ensures r.Some? ==> forall i :: a + 2 <= i < r.value.t ==> IsSpace(s[i])
  {
    var b := SpaceRun(s, a + 2);
    if b < a + 3 then None
    else match StatementStart(s, a + 3, b)
    case None => None
    case Some(t) => Some(HeaderMatch(n, a, t, FindFrom(s, t, IsLineTerminator)))
  }

  /** `kw + ' ' + dir + '\n' + rest`. */
  function HeaderText(s: string, p: nat, m: HeaderMatch): (out: string)
    requires HeaderShape(s, p, m)
    ensures forall c :: c in out ==> c in s || c == ' ' || c == '\n'
    ensures Without(out, IsSpace) == Without(s[p..m.e], IsSpace)
  {
    HeaderMoves(s, p, m);
    InText(s, p, p + m.n);
    InText(s, m.a, m.a + 2);
    InText(s, m.t, m.e);
    s[p..p + m.n] + [' '] + s[m.a..m.a + 2] + ['\n'] + s[m.t..m.e]
  }

  lemma HeaderMoves(s: string, p: nat, m: HeaderMatch)
    requires HeaderShape(s, p, m)
    ensures Without(s[p..p + m.n] + [' '] + s[m.a..m.a + 2] + ['\n'] + s[m.t..m.e], IsSpace)
      == Without(s[p..m.e], IsSpace)
  {
    HeaderGaps(s, p, m);
    HeaderSourceDropped(s, p, m);
    HeaderTextDropped(s[p..p + m.n], s[m.a..m.a + 2], s[m.t..m.e]);
  }

  lemma HeaderGaps(s: string, p: nat, m: HeaderMatch)
    requires HeaderShape(s, p, m)
    ensures AllSpace(s[p + m.n..m.a]) && AllSpace(s[m.a + 2..m.t])
  {
  }

  lemma HeaderSourceDropped(s: string, p: nat, m: HeaderMatch)
    requires p + m.n < m.a && m.a + 2 < m.t < m.e <= |s|
    requires AllSpace(s[p + m.n..m.a]) && AllSpace(s[m.a + 2..m.t])
    ensures Without(s[p..m.e], IsSpace)
      == Without(s[p..p + m.n], IsSpace) + (Without(s[m.a..m.a + 2], IsSpace) + Without(s[m.t..m.e], IsSpace))
  {
    var n, a, t, e := p + m.n, m.a, m.t, m.e;
    SpacesSkipped(s, n, a, e);
    SpacesSkipped(s, a + 2, t, e);
    DropSplit(s, a, a + 2, e, IsSpace);
    DropSplit(s, p, n, e, IsSpace);
    var whole, k, b := Without(s[p..e], IsSpace), Without(s[p..n], IsSpace), Without(s[n..e], IsSpace);
    var c, d, tail := Without(s[a..e], IsSpace), Without(s[a..a + 2], IsSpace), Without(s[a + 2..e], IsSpace);
    assert whole == k + b;
    assert b == c;
    assert c == d + tail;
    JoinChain(whole, k, b, c, d, tail, Without(s[t..e], IsSpace));
  }

  /** Equal texts joined in a chain: a helper that keeps the solver off the texts themselves. */
  lemma JoinChain(whole: string, k: string, b: string, c: string, d: string, e: string, r: string)
    requires whole == k + b && b == c && c == d + e && e == r
    ensures whole == k + (d + r)
  {
  }

  /** Whitespace between `i` and `j` leaves no trace. */
  lemma SpacesSkipped(s: string, i: nat, j: nat, k: nat)
    requires i <= j <= k <= |s| && AllSpace(s[i..j])
    ensures Without(s[i..k], IsSpace) == Without(s[j..k], IsSpace)
  {
    AllDropped(s[i..j], IsSpace);
    DropSplit(s, i, j, k, IsSpace);
    assert [] + Without(s[j..k], IsSpace) == Without(s[j..k], IsSpace);
  }

  lemma HeaderTextDropped(kw: string, dir: string, rest: string)
    ensures Without(kw + [' '] + dir + ['\n'] + rest, IsSpace)
      == Without(kw, IsSpace) + (Without(dir, IsSpace) + Without(rest, IsSpace))
  {
    AllDropped([' '], IsSpace);
    AllDropped(['\n'], IsSpace);
    DropBetween(kw, [' '], dir, ['\n'], rest, IsSpace);
  }

  lemma DropBetween(a: string, u: string, b: string, v: string, c: string, drop: char -> bool)
    requires Without(u, drop) == [] && Without(v, drop) == []
    ensures Without(a + u + b + v + c, drop) == Without(a, drop) + (Without(b, drop) + Without(c, drop))
  {
    DropParts(a, u, b, v, c, drop);
    JoinEmpties(Without(a + u + b + v + c, drop), Without(a, drop), Without(u, drop), Without(b, drop),
      Without(v, drop), Without(c, drop));
  }

  lemma JoinEmpties(whole: string, x: string, eu: string, y: string, ev: string, z: string)
    requires whole == x + eu + y + ev + z && eu == [] && ev == []
    ensures whole == x + (y + z)
  {
    assert x + eu + y + ev + z == x + (y + z);
  }

  function HeaderAt(s: string, p: nat): (r: Option<Hit>)
    ensures r.Some? ==> p < r.value.end <= |s|
    ensures r.Some? ==> forall c :: c in r.value.out ==> c in s || c == ' ' || c == '\n'
    ensures r.Some? ==> Without(r.value.out, IsSpace) == Without(s[p..r.value.end], IsSpace)
  {
    match FindHeader(s, p)
    case None => None
    case Some(m) => Some(Hit(m.e, HeaderText(s, p, m)))
  }

  /** The first header line that also carries a statement is split in two; only whitespace
      changes. */
  function SplitHeader(s: string): (r: string)
    ensures forall c :: c in r ==> c in s || c == ' ' || c == '\n'
    ensures Without(r, IsSpace) == Without(s, IsSpace)
  {
    assert Advances(s, HeaderAt);
    ReplaceFirstOk(s, 0, HeaderAt, c => c in s || c == ' ' || c == '\n');
    ReplaceFirstOnlyMoves(s, 0, HeaderAt, IsSpace);
    ReplaceFirst(s, 0, HeaderAt)
  }

  /** `flowchart LR A-->B` becomes `flowchart LR` and `A-->B` on the next line: the keyword
      keeps its case, one space goes before the direction, and whatever follows the header's
      line is copied as it is, even when it holds a header of its own. */
  lemma HeaderSplit(kw: string, w1: string, dir: string, w2: string, stmt: string, rest: string)
    requires |kw| == 9 && MatchesAt(kw, 0, "flowchart", true)
    requires w1 != [] && AllSpace(w1) && |dir| == 2 && DirectionAt(dir, 0) && w2 != [] && AllSpace(w2)
    requires stmt != [] && !IsSpace(stmt[0]) && forall c :: c in stmt ==> !IsLineTerminator(c)
    requires rest == [] || IsLineTerminator(rest[0])
    ensures SplitHeader(kw + w1 + dir + w2 + stmt + rest) == kw + [' '] + dir + ['\n'] + stmt + rest
  {
    var s := kw + w1 + dir + w2 + stmt + rest;
    var m := HeaderMatch(9, 9 + |w1|, 11 + |w1| + |w2|, 11 + |w1| + |w2| + |stmt|);
    HeaderPieces(kw, w1, dir, w2, stmt, rest, s, m);
    HeaderSplitAt(kw, w1, dir, w2, stmt, rest, s, m);
  }

  lemma HeaderPieces(kw: string, w1: string, dir: string, w2: string, stmt: string, rest: string, s: string, m: HeaderMatch)
    requires s == kw + w1 + dir + w2 + stmt + rest && |kw| == 9 && |dir| == 2
    requires m == HeaderMatch(9, 9 + |w1|, 11 + |w1| + |w2|, 11 + |w1| + |w2| + |stmt|)
    ensures m.e <= |s| && s[0..9] == kw && s[9..m.a] == w1 && s[m.a..m.a + 2] == dir
    ensures s[m.a + 2..m.t] == w2 && s[m.t..m.e] == stmt && s[m.e..] == rest
  {
  }

  lemma HeaderSplitAt(kw: string, w1: string, dir: string, w2: string, stmt: string, rest: string, s: string, m: HeaderMatch)
    requires |kw| == 9 && MatchesAt(kw, 0, "flowchart", true)
    requires w1 != [] && AllSpace(w1) && |dir| == 2 && DirectionAt(dir, 0) && w2 != [] && AllSpace(w2)
    requires stmt != [] && !IsSpace(stmt[0]) && forall c :: c in stmt ==> !IsLineTerminator(c)
    requires rest == [] || IsLineTerminator(rest[0])
    requires m == HeaderMatch(9, 9 + |w1|, 11 + |w1| + |w2|, 11 + |w1| + |w2| + |stmt|)
    requires m.e <= |s| && s[0..9] == kw && s[9..m.a] == w1 && s[m.a..m.a + 2] == dir
    requires s[m.a + 2..m.t] == w2 && s[m.t..m.e] == stmt && s[m.e..] == rest
    ensures SplitHeader(s) == kw + [' '] + dir + ['\n'] + stmt + rest
  {
    DirectionLetter(dir);
    assert s[m.a] == dir[0];
    HeaderSteps(w1, w2, stmt, rest, s, m);
    HeaderFound(s, m, kw, dir);
    HeaderReplaced(s, m, kw, dir, stmt, rest);
  }

  lemma HeaderFound(s: string, m: HeaderMatch, kw: string, dir: string)
    requires m.n == 9 && 9 < m.a && m.a + 2 < m.t < m.e <= |s|
    requires s[0..9] == kw && MatchesAt(kw, 0, "flowchart", true)
    requires s[m.a..m.a + 2] == dir && |dir| == 2 && DirectionAt(dir, 0)
    requires SpaceRun(s, 9) == m.a && SpaceRun(s, m.a + 2) == m.t
    requires StatementStart(s, m.a + 3, m.t) == Some(m.t)
    requires FindFrom(s, m.t, IsLineTerminator) == m.e
    ensures FindHeader(s, 0) == Some(m)
  {
    KeywordAtSlice(s, 0, kw, "flowchart");
    DirectionAtSlice(s, m.a, dir);
    HeaderFrom(s, m);
  }

  lemma HeaderReplaced(s: string, m: HeaderMatch, kw: string, dir: string, stmt: string, rest: string)
    requires FindHeader(s, 0) == Some(m) && m.n == 9 && m.e <= |s|
    requires s[0..9] == kw && s[m.a..m.a + 2] == dir && s[m.t..m.e] == stmt && s[m.e..] == rest
    ensures SplitHeader(s) == kw + [' '] + dir + ['\n'] + stmt + rest
  {
    HeaderTextOf(s, m, kw, dir, stmt);
    assert HeaderAt(s, 0) == Some(Hit(m.e, kw + [' '] + dir + ['\n'] + stmt));
    assert Advances(s, HeaderAt);
    ReplaceFirstAt(s, 0, HeaderAt, Hit(m.e, kw + [' '] + dir + ['\n'] + stmt));
    assert s[..0] == [];
  }

  /** The scanning steps of `FindHeader` over the pieces of a header line. */
  lemma HeaderSteps(w1: string, w2: string, stmt: string, rest: string, s: string, m: HeaderMatch)
    requires w1 != [] && AllSpace(w1) && w2 != [] && AllSpace(w2)
    requires stmt != [] && !IsSpace(stmt[0]) && forall c :: c in stmt ==> !IsLineTerminator(c)
    requires rest == [] || IsLineTerminator(rest[0])
    requires m == HeaderMatch(9, 9 + |w1|, 11 + |w1| + |w2|, 11 + |w1| + |w2| + |stmt|)
    requires m.e <= |s| && s[9..m.a] == w1 && !IsSpace(s[m.a])
    requires s[m.a + 2..m.t] == w2 && s[m.t..m.e] == stmt && s[m.e..] == rest
    ensures SpaceRun(s, 9) == m.a && SpaceRun(s, m.a + 2) == m.t
    ensures StatementStart(s, m.a + 3, m.t) == Some(m.t)
    ensures FindFrom(s, m.t, IsLineTerminator) == m.e
  {
    SpacesThen(s, 9, w1);
    assert s[m.t] == stmt[0];
    SpacesThen(s, m.a + 2, w2);
    StatementRun(s, m.t, stmt, rest);
  }

  /** A statement runs from its first character to the end of its line. */
  lemma StatementRun(s: string, t: nat, stmt: string, rest: string)
    requires t + |stmt| <= |s| && s[t..t + |stmt|] == stmt && s[t + |stmt|..] == rest
    requires stmt != [] && forall c :: c in stmt ==> !IsLineTerminator(c)
    requires rest == [] || IsLineTerminator(rest[0])
    ensures t < |s| && !IsLineTerminator(s[t])
    ensures FindFrom(s, t, IsLineTerminator) == t + |stmt|
  {
    assert s[t] == stmt[0] && stmt[0] in stmt;
    if t + |stmt| < |s| {
      assert s[t + |stmt|] == rest[0];
    }
    FindFromOver(s, t, stmt, IsLineTerminator);
  }

  /** `FindHeader` from its scanning steps. */
  lemma HeaderFrom(s: string, m: HeaderMatch)
    requires m.n == 9 && 9 < m.a && m.a + 2 < m.t < m.e <= |s|
    requires MatchesAt(s, 0, "flowchart", true) && DirectionAt(s, m.a)
    requires SpaceRun(s, 9) == m.a && SpaceRun(s, m.a + 2) == m.t
    requires StatementStart(s, m.a + 3, m.t) == Some(m.t)
    requires FindFrom(s, m.t, IsLineTerminator) == m.e
    ensures FindHeader(s, 0) == Some(m)
  {
    assert HeaderKeyword(s, 0) == 9;
    assert HeaderStatement(s, 9, m.a) == Some(m);
    assert HeaderAfterKeyword(s, 0, 9) == Some(m);
  }

  lemma HeaderTextOf(s: string, m: HeaderMatch, kw: string, dir: string, stmt: string)
    requires HeaderShape(s, 0, m) && m.n == 9
    requires s[0..9] == kw && s[m.a..m.a + 2] == dir && s[m.t..m.e] == stmt
    ensures HeaderText(s, 0, m) == kw + [' '] + dir + ['\n'] + stmt
  {
  }

  /** A direction spelt in any case opens with a letter, and it matches where it stands. */
  lemma DirectionAtSlice(s: string, a: nat, dir: string)
    requires a + 2 <= |s| && s[a..a + 2] == dir && |dir| == 2 && DirectionAt(dir, 0)
    ensures DirectionAt(s, a) && !IsSpace(s[a])
  {
    MatchesAtSlice(s, a, dir, "TB");
    MatchesAtSlice(s, a, dir, "TD");
    MatchesAtSlice(s, a, dir, "BT");
    MatchesAtSlice(s, a, dir, "RL");
    MatchesAtSlice(s, a, dir, "LR");
    assert s[a] == dir[0];
    DirectionLetter(dir);
  }

  lemma DirectionLetter(dir: string)
    requires DirectionAt(dir, 0)
    ensures dir != [] && !IsSpace(dir[0])
  {
    var pat := if MatchesAt(dir, 0, "TB", true) then "TB" else if MatchesAt(dir, 0, "TD", true) then "TD"
      else if MatchesAt(dir, 0, "BT", true) then "BT" else if MatchesAt(dir, 0, "RL", true) then "RL" else "LR";
    MatchesAtChars(dir, 0, pat, 0, true);
  }

  /** A match, in any case, of a slice of the text is a match in the text. */
  lemma MatchesAtSlice(s: string, a: nat, x: string, pat: string)
    requires a + |x| <= |s| && s[a..a + |x|] == x
    ensures MatchesAt(x, 0, pat, true) ==> MatchesAt(s, a, pat, true)
  {
    if MatchesAt(x, 0, pat, true) {
      assert s[a..] == x + s[a + |x|..];
      MatchesExtend(x, s[a + |x|..], 0, pat, true);
      MatchesInSuffix(s, a, 0, pat, true);
    }
  }

  /** `flowchart LR A-->B` is split after its direction. */
  lemma SplitHeaderCase(kw: string, dir: string, stmt: string)
    requires kw == "flowchart" && dir == "LR" && stmt == "A-->B"
    ensures SplitHeader(kw + [' '] + dir + [' '] + stmt) == kw + [' '] + dir + ['\n'] + stmt
  {
    HeaderCaseShape(kw, [' '], dir, [' '], stmt);
    HeaderSplit(kw, [' '], dir, [' '], stmt, []);
    NothingAfter(kw + [' '] + dir + [' '] + stmt);
    NothingAfter(kw + [' '] + dir + ['\n'] + stmt);
  }

  lemma NothingAfter(x: string)
    ensures x + [] == x
  {
  }

  lemma HeaderCaseShape(kw: string, w1: string, dir: string, w2: string, stmt: string)
    requires kw == "flowchart" && dir == "LR" && stmt == "A-->B" && w1 == " " && w2 == " "
    ensures |kw| == 9 && MatchesAt(kw, 0, "flowchart", true)
    ensures AllSpace(w1) && AllSpace(w2) && |dir| == 2 && DirectionAt(dir, 0)
    ensures stmt != [] && !IsSpace(stmt[0]) && forall c :: c in stmt ==> !IsLineTerminator(c)
  {
    PrefixMatches(kw, [], true);
    assert kw + [] == kw;
    PrefixMatches(dir, [], true);
    assert dir + [] == dir;
  }

  // ---------------------------------------------------------------------------
  // Counting double quotes in what the node passes write.

  lemma {:induction false} CountAppend(a: string, b: string, c: char)
    ensures Count(a + b, c) == Count(a, c) + Count(b, c)
    decreases |a|
  {
    if a == [] {
      assert a + b == b;
    } else {
      assert (a + b)[1..] == a[1..] + b;
      CountAppend(a[1..], b, c);
    }
  }

  lemma {:induction false} CountAbsent(a: string, c: char)
    requires c !in a
    ensures Count(a, c) == 0
    decreases |a|
  {
    if a != [] {
      assert forall x :: x in a[1..] ==> x in a;
      CountAbsent(a[1..], c);
    }
  }

  /** A node written as the name, an opening bracket and a quote, a quote-free text, and a
      quote with the closing bracket holds exactly two double quotes. */
  lemma TwoQuotes(id: string, open: char, text: string, close: char)
    requires '"' !in id && '"' !in text && open != '"' && close != '"'
    ensures Count(id + [open, '"'] + text + ['"', close], '"') == 2
  {
    CountAbsent(id, '"');
    CountAbsent(text, '"');
    CountAppend(id + [open, '"'] + text, ['"', close], '"');
    CountAppend(id + [open, '"'], text, '"');
    CountAppend(id, [open, '"'], '"');
    CountPair(open, '"');
    CountPair('"', close);
  }

  lemma CountPair(x: char, y: char)
    requires (x == '"') != (y == '"')
    ensures Count([x, y], '"') == 1
  {
    var w := [x, y];
    assert w[1..] == [y] && [y][1..] == [];
    assert Count([], '"') == 0;
    assert Count([y], '"') == (if y == '"' then 1 else 0);
    assert Count(w, '"') == (if x == '"' then 1 else 0) + Count([y], '"');
  }

  /** A run of word characters holds no double quote. */
  lemma WordHasNoQuote(s: string, lo: nat, hi: nat)
    requires lo <= hi <= |s| && forall i :: lo <= i < hi ==> WordAt(s, i)
    ensures '"' !in s[lo..hi]
  {
    forall i | 0 <= i < hi - lo ensures s[lo..hi][i] != '"' {
      assert WordAt(s, lo + i);
    }
  }

  // ---------------------------------------------------------------------------
  // Step 8 (main.js:291-293): `^\s*([A-Za-z0-9_]+)\s+["']([^"']+)["']\s*$` with the `g` and
  // `m` flags becomes `id["label"]`: a line that only names a node and quotes its text.

  predicate IsQuote(c: char)
  {
    c == '"' || c == '\''
  }

  /** The name lies in `q..r`, the opening quote at `b`, the closing one at `u`, and the match
      ends at `w`. */
  datatype NodeMatch = NodeMatch(q: nat, r: nat, b: nat, u: nat, w: nat)

  predicate NodeShape(s: string, p: nat, m: NodeMatch)
  {
    p <= m.q < m.r < m.b && m.b + 1 < m.u < m.w <= |s|
    && forall i :: m.q <= i < m.r ==> WordAt(s, i)
  }

  /** `\s*$` after the closing quote: the greedy `\s*` gives back whitespace until it stands
      at the end of the text or before a line terminator. */
  function LineEndBack(s: string, lo: nat, j: nat): (r: Option<nat>)
    requires lo <= j <= |s|
    ensures r.Some? ==> lo <= r.value <= j && (r.value == |s| || IsLineTerminator(s[r.value]))
    decreases j
  {
    if j == |s| || IsLineTerminator(s[j]) then Some(j)
    else if j == lo then None
    else LineEndBack(s, lo, j - 1)
  }

  function FindSingleNode(s: string, p: nat): (r: Option<NodeMatch>)
    ensures r.Some? ==> NodeShape(s, p, r.value)
  {
    if p > |s| || !LineStart(s, p) then None
    else
      var q := SpaceRun(s, p);
      if !WordAt(s, q) then None
      else
        var r := WordEnd(s, q);
        var b := SpaceRun(s, r);
        if b == r || b == |s| || !IsQuote(s[b]) then None
        else
          var u := FindFrom(s, b + 1, IsQuote);
          if u == b + 1 || u == |s| then None
          else
            match LineEndBack(s, u + 1, SpaceRun(s, u + 1))
            case None => None
            case Some(w) => Some(NodeMatch(q, r, b, u, w))
  }

  /** `id + '["' + escapeFlowLabel_(label) + '"]'`. */
  function NodeText(s: string, p: nat, m: NodeMatch): (out: string)
    requires NodeShape(s, p, m)
    ensures forall c :: c in out ==> c in s || Written(c)
    ensures Count(out, '"') == 2
  {
    WordHasNoQuote(s, m.q, m.r);
    EscapeFacts(s[m.b + 1..m.u]);
    InText(s, m.q, m.r);
    InText(s, m.b + 1, m.u);
    QuotedNode(s[m.q..m.r], '[', Label.Escape(s[m.b + 1..m.u]), ']')
  }

  /** `id + open + '"' + text + '"' + close`: with a quote-free name and text, the node holds
      exactly its two delimiting double quotes. */
  function QuotedNode(id: string, open: char, text: string, close: char): (out: string)
    requires '"' !in id && '"' !in text && open != '"' && close != '"'
    requires Written(open) && Written(close)
    ensures Count(out, '"') == 2
    ensures forall c :: c in out ==> c in id || c in text || Written(c)
  {
    TwoQuotes(id, open, text, close);
    id + [open, '"'] + text + ['"', close]
  }

  /** What the escaper promises, for a label that is present. */
  lemma EscapeFacts(text: string)
    ensures '"' !in Label.Escape(text)
    ensures forall c :: c in Label.Escape(text) ==> c in text || c == '\'' || c == ' '
  {
    assert OrEmpty(Some(text)) == text;
  }

  /** Every character of a node written from slices of `s`, an escaped text and brackets
      comes from `s` or is one the sanitizer writes. */
  lemma QuotedNodeFrom(s: string, a: nat, b: nat, c: nat, d: nat, t: string, open: char, close: char)
    requires a <= b <= |s| && c <= d <= |s| && Written(open) && Written(close)
    requires forall x :: x in t ==> x in s[c..d] || x == '\'' || x == ' '
    ensures forall x :: x in s[a..b] + [open, '"'] + t + ['"', close] ==> x in s || Written(x)
  {
    InText(s, a, b);
    InText(s, c, d);
  }

  function SingleNodeAt(s: string, p: nat): (r: Option<Hit>)
    ensures r.Some? ==> p < r.value.end <= |s|
    ensures r.Some? ==> forall c :: c in r.value.out ==> c in s || Written(c)
    ensures r.Some? ==> Count(r.value.out, '"') == 2
  {
    match FindSingleNode(s, p)
    case None => None
    case Some(m) => Some(Hit(m.w, NodeText(s, p, m)))
  }

  /** Every line that only names a node and gives its text in quotes becomes a bracketed
      node with that text escaped. */
  function NormalizeSingleNodes(s: string): (r: string)
    ensures forall c :: c in r ==> c in s || Written(c)
  {
    assert Advances(s, SingleNodeAt);
    ReplaceFromOk(s, 0, SingleNodeAt, c => c in s || Written(c));
    ReplaceFrom(s, 0, SingleNodeAt)
  }

  /** A text that is one node name and a quoted text becomes the bracketed node. */
  lemma SingleNodeRewritten(id: string, text: string)
    requires Name(id) && text != [] && Trimmed(text)
    requires forall c :: c in text ==> !Label.Unsafe(c) && c != '\''
    ensures NormalizeSingleNodes(id + [' ', '"'] + text + ['"']) == id + ['[', '"'] + text + ['"', ']']
  {
    var s := id + [' ', '"'] + text + ['"'];
    var m := NodeMatch(0, |id|, |id| + 1, |s| - 1, |s|);
    NodePieces(id, text, s, m);
    NodeFound(s, m, text);
    var out := NodeText(s, 0, m);
    assert s[m.q..m.r] == id;
    Label.CleanLabelKept(text);
    assert out == id + ['[', '"'] + text + ['"', ']'];
    HitIs(s, 0, SingleNodeAt, Hit(|s|, out));
    SingleNodeAdvances(s);
    ReplaceFromAt(s, 0, SingleNodeAt, Hit(|s|, out));
    assert ReplaceFrom(s, |s|, SingleNodeAt) == [];
    NothingAfter(out);
  }

  lemma SingleNodeAdvances(s: string)
    ensures Advances(s, SingleNodeAt)
  {
  }

  lemma NodePieces(id: string, text: string, s: string, m: NodeMatch)
    requires Name(id) && text != []
    requires s == id + [' ', '"'] + text + ['"']
    requires m == NodeMatch(0, |id|, |id| + 1, |s| - 1, |s|)
    ensures m.b + 1 < m.u && forall i :: 0 <= i < m.r ==> WordAt(s, i)
    ensures s[m.r] == ' ' && s[m.b] == '"' && s[m.u] == '"' && m.w == |s| == m.u + 1
    ensures s[..m.r] == id && s[m.b + 1..m.u] == text
  {
    forall i | 0 <= i < m.r ensures WordAt(s, i) {
      assert s[i] == id[i] && id[i] in id;
    }
  }

  lemma NodeFound(s: string, m: NodeMatch, text: string)
    requires 0 == m.q < m.r && m.b == m.r + 1 && m.b + 1 < m.u && m.w == |s| == m.u + 1
    requires forall i :: 0 <= i < m.r ==> WordAt(s, i)
    requires s[m.r] == ' ' && s[m.b] == '"' && s[m.u] == '"'
    requires s[m.b + 1..m.u] == text && forall c :: c in text ==> !Label.Unsafe(c) && c != '\''
    ensures FindSingleNode(s, 0) == Some(m)
    ensures SingleNodeAt(s, 0).Some? && SingleNodeAt(s, 0).value.end == |s|
    ensures SingleNodeAt(s, 0).value.out == NodeText(s, 0, m)
  {
    assert WordAt(s, 0) && SpaceRun(s, 0) == 0;
    WordEndAt(s, 0, m.r);
    assert SpaceRun(s, m.b) == m.b;
    assert SpaceRun(s, m.r) == m.b;
    FindFromOver(s, m.b + 1, text, IsQuote);
    assert SpaceRun(s, m.w) == m.w;
    assert LineEndBack(s, m.w, m.w) == Some(m.w);
  }

  /** `myNode "My Label"` becomes `myNode["My Label"]`. */
  lemma SingleNodeCase(id: string, text: string)
    requires id == "myNode" && text == "My Label"
    ensures NormalizeSingleNodes(id + [' ', '"'] + text + ['"']) == id + ['[', '"'] + text + ['"', ']']
  {
    forall c | c in id ensures IsWordChar(c) {
      var k :| 0 <= k < |id| && id[k] == c;
    }
    forall c | c in text ensures !Label.Unsafe(c) && c != '\'' {
      var k :| 0 <= k < |text| && text[k] == c;
    }
    SingleNodeRewritten(id, text);
  }

  // ---------------------------------------------------------------------------
  // Step 10 (main.js:313-328): `([A-Za-z0-9_]+)\{([^}]*)\}` with the `g` flag: the text of a
  // decision node is cleaned, and a text that still holds a brace or bracket turns the node
  // into a plain bracketed one.

  /** A surrounding pair of double or single quotes comes off, and what is inside is trimmed
      again; a lone quote gives the empty text (`'"'.slice(1, -1)` is empty). */
  function Unwrapped(t: string): (u: string)
    ensures forall c :: c in u ==> c in t
  {
    if |t| >= 1 && ((t[0] == '"' && t[|t| - 1] == '"') || (t[0] == '\'' && t[|t| - 1] == '\'')) then
      if |t| >= 2 then
        InText(t, 1, |t| - 1);
        Trim(t[1..|t| - 1])
      else []
    else t
  }

  predicate IsApostrophe(c: char)
  {
    c == '\''
  }

  predicate IsOpenParen(c: char)
  {
    c == '('
  }

  predicate IsCloseParen(c: char)
  {
    c == ')'
  }

  /** A character a decision text may hold once cleaned. */
  predicate DiamondSafe(c: char)
  {
    c != '"' && c != '\'' && c != '(' && c != ')' && c != '\n'
  }

  /** The quote and parenthesis replacements of the decision text. */
  function DiamondMarks(u: string): (r: string)
    ensures forall c :: c in r ==> c != '"' && c != '\'' && c != '(' && c != ')'
    ensures forall c :: c in r ==> c in u || c == '’' || c == '（' || c == '）'
  {
    var t1 := Label.ReplaceEscapedQuotes(u);
    var t2 := MapChars(t1, Label.IsDoubleQuote, '\'');
    var t3 := MapChars(t2, IsApostrophe, '’');
    var t4 := MapChars(t3, IsOpenParen, '（');
    MapChars(t4, IsCloseParen, '）')
  }

  /** The cleaned text of a decision node: never empty, trimmed, and free of quotes,
      parentheses and line breaks; its characters come from the raw text or are the
      replacements the cleaning writes. */
  function DecisionLabel(raw: string): (t: string)
    ensures t != [] && Trimmed(t)
    ensures forall c :: c in t ==> DiamondSafe(c)
    ensures forall c :: c in t ==> c in raw || c == '’' || c == '（' || c == '）' || c == ' ' || c == '?'
  {
    var t := OneLine(DiamondMarks(Unwrapped(Trim(raw))));
    if t == [] then "?" else t
  }

  /** `.replace(/\s*\n+\s*&#47;g, ' ').trim()`. */
  function OneLine(m: string): (t: string)
    ensures Trimmed(t) && '\n' !in t
    ensures forall c :: c in t ==> c in m || c == ' '
  {
    Trim(Label.CollapseLineBreaks(m))
  }

  /** The test `/[{}\[\]]/`. */
  predicate HasBraceOrBracket(t: string)
  {
    '{' in t || '}' in t || '[' in t || ']' in t
  }

  /** `id{t}`, or `id["t"]` escaped when the text holds a brace or bracket. */
  function DecisionNode(id: string, t: string): (out: string)
    requires '"' !in id && forall c :: c in t ==> DiamondSafe(c)
    ensures HasBraceOrBracket(t) <==> Count(out, '"') == 2
    ensures !HasBraceOrBracket(t) ==> Count(out, '"') == 0 && out == id + ['{'] + t + ['}']
    ensures forall c :: c in out ==> c in id || c in t || Written(c)
  {
    if HasBraceOrBracket(t) then BoxedDecision(id, t) else Diamond(id, t)
  }

  function BoxedDecision(id: string, t: string): (out: string)
    requires '"' !in id
    ensures Count(out, '"') == 2
    ensures forall c :: c in out ==> c in id || c in t || Written(c)
  {
    EscapeFacts(t);
    QuotedNode(id, '[', Label.Escape(t), ']')
  }

  function Diamond(id: string, t: string): (out: string)
    requires '"' !in id && forall c :: c in t ==> DiamondSafe(c)
    ensures Count(out, '"') == 0
    ensures forall c :: c in out ==> c in id || c in t || c == '{' || c == '}'
  {
    var out := id + ['{'] + t + ['}'];
    assert !DiamondSafe('"') && '"' !in t;
    assert '"' !in out;
    CountAbsent(out, '"');
    out
  }

  predicate IsCloseBrace(c: char)
  {
    c == '}'
  }

  /** The name runs from `p` to `e`, the brace opens at `e` and closes at `f`. */
  predicate DiamondShape(s: string, p: nat, e: nat, f: nat)
  {
    p < e < f < |s| && forall i :: p <= i < e ==> WordAt(s, i)
  }

  function FindDiamond(s: string, p: nat): (r: Option<(nat, nat)>)
    ensures r.Some? ==> DiamondShape(s, p, r.value.0, r.value.1)
  {
    if !WordAt(s, p) then None
    else
      var e := WordEnd(s, p);
      if e == |s| || s[e] != '{' then None
      else
        var f := FindFrom(s, e + 1, IsCloseBrace);
        if f == |s| then None else Some((e, f))
  }

  function DiamondText(s: string, p: nat, e: nat, f: nat): (out: string)
    requires DiamondShape(s, p, e, f)
    ensures forall c :: c in out ==> c in s || Written(c)
    ensures Count(out, '"') == 0 || Count(out, '"') == 2
  {
    WordHasNoQuote(s, p, e);
    InText(s, p, e);
    InText(s, e + 1, f);
    DecisionNode(s[p..e], DecisionLabel(s[e + 1..f]))
  }

  function DecisionAt(s: string, p: nat): (r: Option<Hit>)
    ensures r.Some? ==> p < r.value.end <= |s|
    ensures r.Some? ==> forall c :: c in r.value.out ==> c in s || Written(c)
    ensures r.Some? ==> Count(r.value.out, '"') == 0 || Count(r.value.out, '"') == 2
  {
    match FindDiamond(s, p)
    case None => None
    case Some(m) => Some(Hit(m.1 + 1, DiamondText(s, p, m.0, m.1)))
  }

  /** Every decision node `id{text}` is rewritten with its text cleaned. */
  function FixDecisionNodes(s: string): (r: string)
    ensures forall c :: c in r ==> c in s || Written(c)
  {
    assert Advances(s, DecisionAt);
    ReplaceFromOk(s, 0, DecisionAt, c => c in s || Written(c));
    ReplaceFrom(s, 0, DecisionAt)
  }

  /** A text that is one decision node is that node rewritten. */
  lemma DiamondRewritten(id: string, raw: string)
    requires id != [] && forall c :: c in id ==> IsWordChar(c)
    requires '}' !in raw
    ensures '"' !in id
    ensures FixDecisionNodes(id + ['{'] + raw + ['}']) == DecisionNode(id, DecisionLabel(raw))
  {
    var s := id + ['{'] + raw + ['}'];
    var e, f := |id|, |s| - 1;
    DiamondPieces(id, raw, s);
    WordEndAt(s, 0, e);
    FindFromOver(s, e + 1, raw, IsCloseBrace);
    assert FindDiamond(s, 0) == Some((e, f));
    var out := DiamondText(s, 0, e, f);
    assert out == DecisionNode(id, DecisionLabel(raw));
    DecisionHit(s, e, f);
    HitIs(s, 0, DecisionAt, Hit(|s|, out));
    DecisionAdvances(s);
    ReplaceFromAt(s, 0, DecisionAt, Hit(|s|, out));
    assert ReplaceFrom(s, |s|, DecisionAt) == [];
    NothingAfter(out);
  }

  lemma DecisionHit(s: string, e: nat, f: nat)
    requires FindDiamond(s, 0) == Some((e, f))
    ensures DiamondShape(s, 0, e, f) && DecisionAt(s, 0).Some?
    ensures DecisionAt(s, 0).value.end == f + 1 && DecisionAt(s, 0).value.out == DiamondText(s, 0, e, f)
  {
  }

  lemma DecisionAdvances(s: string)
    ensures Advances(s, DecisionAt)
  {
  }

  lemma DiamondPieces(id: string, raw: string, s: string)
    requires id != [] && forall c :: c in id ==> IsWordChar(c)
    requires s == id + ['{'] + raw + ['}']
    ensures '"' !in id
    ensures forall i :: 0 <= i < |id| ==> WordAt(s, i)
    ensures s[|id|] == '{' && !WordAt(s, |id|) && s[|s| - 1] == '}'
    ensures |s| == |id| + |raw| + 2
    ensures s[..|id|] == id && s[|id| + 1..|id| + 1 + |raw|] == raw && s[|id| + 1..|s| - 1] == raw
  {
    forall i | 0 <= i < |id| ensures WordAt(s, i) {
      assert s[i] == id[i] && id[i] in id;
    }
  }

  /** The run of word characters from `i` stops at `e`. */
  lemma {:induction false} WordEndAt(s: string, i: nat, e: nat)
    requires i <= e <= |s| && !WordAt(s, e) && forall k :: i <= k < e ==> WordAt(s, k)
    ensures WordEnd(s, i) == e
    decreases e - i
  {
    if i < e {
      WordEndAt(s, i + 1, e);
    }
  }

  /** The decision text of a plain word in double quotes is the word. */
  lemma QuotedDecisionLabel(w: string)
    requires w != [] && Trimmed(w)
    requires forall c :: c in w ==> DiamondSafe(c) && c != '\\'
    ensures DecisionLabel(['"'] + w + ['"']) == w
  {
    UnwrappedQuoted(w);
    DiamondMarksKeep(w);
    assert Label.CollapseLineBreaks(w) == w;
    TrimmedFixed(w);
    assert OneLine(w) == w;
  }

  lemma UnwrappedQuoted(w: string)
    requires Trimmed(w)
    ensures Unwrapped(Trim(['"'] + w + ['"'])) == w
  {
    var q := ['"'] + w + ['"'];
    TrimmedFixed(q);
    assert q[1..|q| - 1] == w;
    TrimmedFixed(w);
  }

  lemma DiamondMarksKeep(w: string)
    requires forall c :: c in w ==> DiamondSafe(c)
    ensures DiamondMarks(w) == w
  {
    Label.NoQuoteEscapesKept(w);
    MapCharsKeeps(w, Label.IsDoubleQuote, '\'');
    MapCharsKeeps(w, IsApostrophe, '’');
    MapCharsKeeps(w, IsOpenParen, '（');
    MapCharsKeeps(w, IsCloseParen, '）');
  }

  /** `id{"Label"}` becomes `id{Label}`: the quotes around a decision text are dropped. */
  lemma DecisionQuotesDropped(id: string, w: string)
    requires id == "id" && w == "Label"
    ensures FixDecisionNodes(id + ['{'] + (['"'] + w + ['"']) + ['}']) == id + ['{'] + w + ['}']
  {
    DecisionCaseShape(id, w);
    DiamondRewritten(id, ['"'] + w + ['"']);
    QuotedDecisionLabel(w);
  }

  lemma DecisionCaseShape(id: string, w: string)
    requires id == "id" && w == "Label"
    ensures id != [] && forall c :: c in id ==> IsWordChar(c)
    ensures '}' !in ['"'] + w + ['"']
    ensures w != [] && Trimmed(w) && !HasBraceOrBracket(w)
    ensures forall c :: c in w ==> DiamondSafe(c) && c != '\\'
  {
  }

  // ---------------------------------------------------------------------------
  // Steps 11 and 12 (main.js:331-353): `([A-Za-z0-9_]+)\[(?!\[)((?:[^"\]]|"[^"]*")*)\]` and
  // the same with parentheses, with the `g` flag: the text of a square or round node is put
  // in double quotes, a closing bracket inside a quoted part not ending the node.

  /** `((?:[^"\]]|"[^"]*")*)\]` from `c`: the items are single characters other than a double
      quote and the closing bracket, or quoted runs; no backtracking can help, so the node
      closes at the first closing bracket outside a quoted run, and an unclosed quote fails
      the match. */
  function ShapeClose(s: string, c: nat, close: char): (r: Option<nat>)
    requires c <= |s|
    ensures r.Some? ==> c <= r.value < |s| && s[r.value] == close
    decreases |s| - c
  {
    if c == |s| then None
    else if s[c] == close then Some(c)
    else if s[c] == '"' then
      var g := FindFrom(s, c + 1, Label.IsDoubleQuote);
      if g == |s| then None else ShapeClose(s, g + 1, close)
    else ShapeClose(s, c + 1, close)
  }

  /** `/^".*"$/`: quoted at both ends, with no line terminator between. */
  predicate QuotedLine(t: string)
  {
    |t| >= 2 && t[0] == '"' && t[|t| - 1] == '"'
    && forall i :: 1 <= i < |t| - 1 ==> !IsLineTerminator(t[i])
  }

  /** What the callback of steps 11 and 12 writes for the node `id` with the raw text
      `text`: an empty text gives an empty quoted one; a text already in double quotes keeps
      them, its inner quotes made single; any other text is escaped and quoted. */
  function ShapeNode(id: string, open: char, text: string, close: char): (out: string)
    requires '"' !in id && (open == '[' || open == '(') && (close == ']' || close == ')')
    ensures Count(out, '"') == 2
    ensures forall c :: c in out ==> c in id || c in text || Written(c)
  {
    var t := Trim(text);
    if t == [] then QuotedNode(id, open, [], close)
    else if QuotedLine(t) then
      InText(t, 1, |t| - 1);
      QuotedNode(id, open, QuotesInside(t[1..|t| - 1]), close)
    else
      EscapeFacts(t);
      QuotedNode(id, open, Label.Escape(t), close)
  }

  /** `.replace(/\\+"/g, "'").replace(/"/g, "'")` on the inside of a quoted text. */
  function QuotesInside(inner: string): (r: string)
    ensures '"' !in r
    ensures forall c :: c in r ==> c in inner || c == '\''
  {
    MapChars(Label.ReplaceEscapedQuotes(inner), Label.IsDoubleQuote, '\'')
  }

  /** The name runs from `p` to `e`, the node opens at `e` and closes at `f`. */
  predicate ShapeShape(s: string, p: nat, e: nat, f: nat)
  {
    p < e < f < |s| && forall i :: p <= i < e ==> WordAt(s, i)
  }

  function FindShape(s: string, p: nat, open: char, close: char): (r: Option<(nat, nat)>)
    ensures r.Some? ==> ShapeShape(s, p, r.value.0, r.value.1)
  {
    if !WordAt(s, p) then None
    else
      var e := WordEnd(s, p);
      if e == |s| || s[e] != open || (e + 1 < |s| && s[e + 1] == open) then None
      else
        match ShapeClose(s, e + 1, close)
        case None => None
        case Some(f) => Some((e, f))
  }

  function ShapeText(s: string, p: nat, e: nat, f: nat, open: char, close: char): (out: string)
    requires ShapeShape(s, p, e, f)
    requires (open == '[' || open == '(') && (close == ']' || close == ')')
    ensures forall c :: c in out ==> c in s || Written(c)
    ensures Count(out, '"') == 2
  {
    WordHasNoQuote(s, p, e);
    InText(s, p, e);
    InText(s, e + 1, f);
    ShapeNode(s[p..e], open, s[e + 1..f], close)
  }

  function ShapeAt(s: string, p: nat, open: char, close: char): (r: Option<Hit>)
    requires (open == '[' || open == '(') && (close == ']' || close == ')')
    ensures r.Some? ==> p < r.value.end <= |s|
    ensures r.Some? ==> forall c :: c in r.value.out ==> c in s || Written(c)
    ensures r.Some? ==> Count(r.value.out, '"') == 2
  {
    match FindShape(s, p, open, close)
    case None => None
    case Some(m) => Some(Hit(m.1 + 1, ShapeText(s, p, m.0, m.1, open, close)))
  }

  function SquareNodeAt(s: string, p: nat): (r: Option<Hit>)
    ensures r.Some? ==> p < r.value.end <= |s|
    ensures r.Some? ==> forall c :: c in r.value.out ==> c in s || Written(c)
    ensures r.Some? ==> Count(r.value.out, '"') == 2
  {
    ShapeAt(s, p, '[', ']')
  }

  function RoundNodeAt(s: string, p: nat): (r: Option<Hit>)
    ensures r.Some? ==> p < r.value.end <= |s|
    ensures r.Some? ==> forall c :: c in r.value.out ==> c in s || Written(c)
    ensures r.Some? ==> Count(r.value.out, '"') == 2
  {
    ShapeAt(s, p, '(', ')')
  }

  /** Every square node `id[text]` gets its text quoted. */
  function QuoteSquareNodes(s: string): (r: string)
    ensures forall c :: c in r ==> c in s || Written(c)
  {
    assert Advances(s, SquareNodeAt);
    ReplaceFromOk(s, 0, SquareNodeAt, c => c in s || Written(c));
    ReplaceFrom(s, 0, SquareNodeAt)
  }

  /** Every round node `id(text)` gets its text quoted. */
  function QuoteRoundNodes(s: string): (r: string)
    ensures forall c :: c in r ==> c in s || Written(c)
  {
    assert Advances(s, RoundNodeAt);
    ReplaceFromOk(s, 0, RoundNodeAt, c => c in s || Written(c));
    ReplaceFrom(s, 0, RoundNodeAt)
  }

  lemma SquareAdvances(s: string)
    ensures Advances(s, SquareNodeAt)
  {
  }

  /** No square node starts in a prefix that ends in a non-word character and holds no
      opening bracket. */
  lemma NoSquareBefore(s: string, pre: string)
    requires |pre| <= |s| && s[..|pre|] == pre && '[' !in pre
    requires pre == [] || !IsWordChar(pre[|pre| - 1])
    ensures forall k: nat :: k < |pre| ==> SquareNodeAt(s, k).None?
  {
    forall k: nat | k < |pre| ensures FindShape(s, k, '[', ']').None? {
      if WordAt(s, k) {
        var j := WordEnd(s, k);
        assert s[|pre| - 1] == pre[|pre| - 1] && !WordAt(s, |pre| - 1);
        assert j < |pre|;
        assert s[j] == pre[j] && pre[j] in pre;
      }
    }
  }

  /** A square node whose text is already in double quotes, with none inside, is written back
      as it is, and so is the text before it. */
  lemma QuotedSquareKept(pre: string, id: string, inner: string)
    requires Name(id) && '[' !in pre && (pre == [] || !IsWordChar(pre[|pre| - 1]))
    requires '"' !in inner && forall c :: c in inner ==> !IsLineTerminator(c)
    ensures QuoteSquareNodes(pre + (id + ['[', '"'] + inner + ['"', ']']))
      == pre + (id + ['[', '"'] + inner + ['"', ']'])
  {
    var s := pre + (id + ['[', '"'] + inner + ['"', ']']);
    SquarePieces(pre, id, inner, s);
    NoSquareBefore(s, pre);
    SquareKeptFrom(s, |pre|, |pre| + |id|, id, inner);
  }

  lemma SquareKeptFrom(s: string, p: nat, e: nat, id: string, inner: string)
    requires Name(id) && '"' !in inner && forall c :: c in inner ==> !IsLineTerminator(c)
    requires forall k: nat :: k < p ==> SquareNodeAt(s, k).None?
    requires e == p + |id| && |s| == e + |inner| + 4 && forall i :: p <= i < e ==> WordAt(s, i)
    requires s[e] == '[' && s[e + 1] == '"' && s[|s| - 2] == '"' && s[|s| - 1] == ']'
    requires s[e + 2..|s| - 2] == inner && s[p..e] == id
    requires s[e + 1..|s| - 1] == ['"'] + inner + ['"'] && s[p..] == id + ['[', '"'] + inner + ['"', ']']
    ensures QuoteSquareNodes(s) == s
  {
    SquareFound(s, p, e, inner);
    SquareTextOf(s, p, e, id, inner);
    SquareAdvances(s);
    ReplaceLast(s, p, SquareNodeAt);
  }

  lemma SquarePieces(pre: string, id: string, inner: string, s: string)
    requires Name(id) && s == pre + (id + ['[', '"'] + inner + ['"', ']'])
    ensures |s| == |pre| + |id| + |inner| + 4 && s[..|pre|] == pre
    ensures forall i :: |pre| <= i < |pre| + |id| ==> WordAt(s, i)
    ensures s[|pre| + |id|] == '[' && s[|pre| + |id| + 1] == '"' && s[|s| - 2] == '"' && s[|s| - 1] == ']'
    ensures s[|pre| + |id| + 2..|s| - 2] == inner && s[|pre|..|pre| + |id|] == id
    ensures s[|pre| + |id| + 1..|s| - 1] == ['"'] + inner + ['"'] && s[|pre|..] == id + ['[', '"'] + inner + ['"', ']']
  {
    forall i | |pre| <= i < |pre| + |id| ensures WordAt(s, i) {
      assert s[i] == id[i - |pre|] && id[i - |pre|] in id;
    }
  }

  /** The node `id["inner"]` from `p`, the name ending at `e`. */
  lemma SquareFound(s: string, p: nat, e: nat, inner: string)
    requires p < e && |s| == e + |inner| + 4 && forall i :: p <= i < e ==> WordAt(s, i)
    requires s[e] == '[' && s[e + 1] == '"' && s[|s| - 2] == '"' && s[|s| - 1] == ']'
    requires s[e + 2..|s| - 2] == inner && '"' !in inner
    ensures SquareNodeAt(s, p).Some? && SquareNodeAt(s, p).value.end == |s|
    ensures ShapeShape(s, p, e, |s| - 1)
    ensures SquareNodeAt(s, p).value.out == ShapeText(s, p, e, |s| - 1, '[', ']')
  {
    WordEndAt(s, p, e);
    QuotedClose(s, e + 1, inner);
    assert FindShape(s, p, '[', ']') == Some((e, |s| - 1));
    SquareHit(s, p, e, |s| - 1);
  }

  lemma SquareHit(s: string, p: nat, e: nat, f: nat)
    requires FindShape(s, p, '[', ']') == Some((e, f))
    ensures ShapeShape(s, p, e, f) && SquareNodeAt(s, p).Some?
    ensures SquareNodeAt(s, p).value.end == f + 1
    ensures SquareNodeAt(s, p).value.out == ShapeText(s, p, e, f, '[', ']')
  {
  }

  /** A quoted run and the closing bracket end the node's text. */
  lemma QuotedClose(s: string, c: nat, inner: string)
    requires |s| == c + |inner| + 3 && s[c] == '"' && s[|s| - 2] == '"' && s[|s| - 1] == ']'
    requires s[c + 1..|s| - 2] == inner && '"' !in inner
    ensures ShapeClose(s, c, ']') == Some(|s| - 1)
  {
    FindFromOver(s, c + 1, inner, Label.IsDoubleQuote);
    assert ShapeClose(s, |s| - 1, ']') == Some(|s| - 1);
  }

  /** What the callback writes for a text already in double quotes with none inside. */
  lemma QuotedSquareText(id: string, inner: string)
    requires Name(id) && '"' !in inner && forall c :: c in inner ==> !IsLineTerminator(c)
    ensures '"' !in id
    ensures ShapeNode(id, '[', ['"'] + inner + ['"'], ']') == id + ['[', '"'] + inner + ['"', ']']
  {
    QuotedLineOf(inner);
    QuotesInsideKept(inner);
  }

  lemma SquareTextOf(s: string, p: nat, e: nat, id: string, inner: string)
    requires |s| > 0 && ShapeShape(s, p, e, |s| - 1) && s[p..e] == id && s[e + 1..|s| - 1] == ['"'] + inner + ['"']
    requires Name(id) && '"' !in inner && forall c :: c in inner ==> !IsLineTerminator(c)
    ensures ShapeText(s, p, e, |s| - 1, '[', ']') == id + ['[', '"'] + inner + ['"', ']']
  {
    QuotedSquareText(id, inner);
  }

  lemma QuotedLineOf(inner: string)
    requires forall c :: c in inner ==> !IsLineTerminator(c)
    ensures Trim(['"'] + inner + ['"']) == ['"'] + inner + ['"']
    ensures QuotedLine(['"'] + inner + ['"']) && (['"'] + inner + ['"'])[1..|inner| + 1] == inner
  {
    var t := ['"'] + inner + ['"'];
    TrimmedFixed(t);
    forall i | 1 <= i < |t| - 1 ensures !IsLineTerminator(t[i]) {
      assert t[i] == inner[i - 1] && inner[i - 1] in inner;
    }
  }

  lemma QuotesInsideKept(inner: string)
    requires '"' !in inner
    ensures QuotesInside(inner) == inner
  {
    Label.NoQuoteEscapesKept(inner);
    MapCharsKeeps(inner, Label.IsDoubleQuote, '\'');
  }

  /** `id["テスト"]` is kept: text in other scripts is untouched. */
  lemma QuotedSquareCase(id: string, inner: string)
    requires id == "id" && inner == "テスト"
    ensures QuoteSquareNodes(id + ['[', '"'] + inner + ['"', ']']) == id + ['[', '"'] + inner + ['"', ']']
  {
    assert Name(id);
    forall c | c in inner ensures c != '"' && !IsLineTerminator(c) {
      var k :| 0 <= k < |inner| && inner[k] == c;
    }
    QuotedSquareKept([], id, inner);
    assert [] + (id + ['[', '"'] + inner + ['"', ']']) == id + ['[', '"'] + inner + ['"', ']'];
  }

  /** `subgraph MyID["My Title"]` is kept: the keyword is not a node name, and the node's text
      is already quoted. */
  lemma TitledSquareCase(pre: string, id: string, inner: string)
    requires pre == "subgraph " && id == "MyID" && inner == "My Title"
    ensures QuoteSquareNodes(pre + (id + ['[', '"'] + inner + ['"', ']']))
      == pre + (id + ['[', '"'] + inner + ['"', ']'])
  {
    forall c | c in id ensures IsWordChar(c) {
      var k :| 0 <= k < |id| && id[k] == c;
    }
    forall c | c in pre ensures c != '[' {
      var k :| 0 <= k < |pre| && pre[k] == c;
    }
    forall c | c in inner ensures c != '"' && !IsLineTerminator(c) {
      var k :| 0 <= k < |inner| && inner[k] == c;
    }
    QuotedSquareKept(pre, id, inner);
  }

  /** A square node whose text is a clean word between backslash-escaped quotes gets the word
      in single quotes inside double ones. */
  lemma EscapedSquareQuoted(id: string, w: string)
    requires Name(id) && Label.CleanWord(w)
    ensures QuoteSquareNodes(id + (['[', '\\', '"'] + w + ['\\', '"', ']']))
      == id + ['[', '"'] + ("'" + w + "'") + ['"', ']']
  {
    var s := id + (['[', '\\', '"'] + w + ['\\', '"', ']']);
    var t := ['\\', '"'] + w + ['\\', '"'];
    EscapedSquarePieces(id, w, t, s);
    EscapedSquareFrom(s, |id|, id, w, t);
  }

  lemma EscapedSquarePieces(id: string, w: string, t: string, s: string)
    requires Name(id) && Label.CleanWord(w)
    requires t == ['\\', '"'] + w + ['\\', '"'] && s == id + (['[', '\\', '"'] + w + ['\\', '"', ']'])
    ensures |s| == |id| + |w| + 6 && forall i :: 0 <= i < |id| ==> WordAt(s, i)
    ensures s[..|id|] == id && s[|id|] == '[' && s[|id| + 1] == '\\' && s[|id| + 2] == '"'
    ensures s[|id| + 3..|s| - 2] == w + ['\\'] && s[|s| - 2] == '"' && s[|s| - 1] == ']'
    ensures s[|id| + 1..|s| - 1] == t && Trim(t) == t && !QuotedLine(t)
    ensures '"' !in w + ['\\']
  {
    forall i | 0 <= i < |id| ensures WordAt(s, i) {
      assert s[i] == id[i] && id[i] in id;
    }
    EscapedText(w, t);
  }

  lemma EscapedText(w: string, t: string)
    requires Label.CleanWord(w) && t == ['\\', '"'] + w + ['\\', '"']
    ensures Trim(t) == t && !QuotedLine(t) && '"' !in w + ['\\']
  {
    assert t[0] == '\\' && t[|t| - 1] == '"';
    TrimmedFixed(t);
    assert '"' !in w;
  }

  lemma EscapedSquareFrom(s: string, e: nat, id: string, w: string, t: string)
    requires Name(id) && Label.CleanWord(w) && e == |id|
    requires |s| == e + |w| + 6 && forall i :: 0 <= i < e ==> WordAt(s, i)
    requires s[..e] == id && s[e] == '[' && s[e + 1] == '\\' && s[e + 2] == '"'
    requires s[e + 3..|s| - 2] == w + ['\\'] && s[|s| - 2] == '"' && s[|s| - 1] == ']'
    requires s[e + 1..|s| - 1] == t && Trim(t) == t && !QuotedLine(t) && '"' !in w + ['\\']
    requires t == ['\\', '"'] + w + ['\\', '"']
    ensures QuoteSquareNodes(s) == id + ['[', '"'] + ("'" + w + "'") + ['"', ']']
  {
    WordEndAt(s, 0, e);
    FindFromOver(s, e + 3, w + ['\\'], Label.IsDoubleQuote);
    assert ShapeClose(s, |s| - 1, ']') == Some(|s| - 1);
    assert ShapeClose(s, e + 1, ']') == Some(|s| - 1);
    assert FindShape(s, 0, '[', ']') == Some((e, |s| - 1));
    SquareHit(s, 0, e, |s| - 1);
    EscapedQuotes(t, w);
    var out := id + ['[', '"'] + ("'" + w + "'") + ['"', ']'];
    assert s[0..e] == id;
    assert ShapeText(s, 0, e, |s| - 1, '[', ']') == out;
    SquareAdvances(s);
    ReplaceFromAt(s, 0, SquareNodeAt, Hit(|s|, out));
    assert ReplaceFrom(s, |s|, SquareNodeAt) == [];
    assert s[..0] + out + [] == out;
  }

  lemma EscapedQuotes(t: string, w: string)
    requires Label.CleanWord(w) && t == ['\\', '"'] + w + ['\\', '"']
    ensures Label.Escape(t) == "'" + w + "'"
  {
    var bs := "\\";
    assert Label.Backslashes(bs);
    var q := [] + bs + "\"";
    assert q == ['\\', '"'] && bs + "\"" == ['\\', '"'];
    Label.Regroup(q + w, bs, "\"");
    Label.EscapedQuotedWord(t, [], bs, w, bs);
    Label.Regroup([] + "'", w, "'");
  }

  /** `id[\"Label\"]` becomes `id["'Label'"]`. */
  lemma EscapedSquareCase(id: string, w: string)
    requires id == "id" && w == "Label"
    ensures QuoteSquareNodes(id + (['[', '\\', '"'] + w + ['\\', '"', ']']))
      == id + ['[', '"'] + ("'" + w + "'") + ['"', ']']
  {
    assert Name(id);
    forall c | c in w ensures !Label.Unsafe(c) && !Label.IsQuoteMark(c) && c != '\\' {
      var k :| 0 <= k < |w| && w[k] == c;
    }
    EscapedSquareQuoted(id, w);
  }

  /** A square node whose text holds no double quote or bracket gets the escaped text in
      double quotes. */
  lemma PlainSquareQuoted(id: string, t: string)
    requires Name(id) && t != [] && Trimmed(t) && '"' !in t && '[' !in t && ']' !in t
    ensures '"' !in Label.Escape(t)
    ensures QuoteSquareNodes(id + (['['] + t + [']'])) == id + ['[', '"'] + Label.Escape(t) + ['"', ']']
  {
    var s := id + (['['] + t + [']']);
    var e := |id|;
    PlainSquarePieces(id, t, s);
    PlainSquareFrom(s, e, id, t);
  }

  lemma PlainSquarePieces(id: string, t: string, s: string)
    requires Name(id) && t != [] && '[' !in t && s == id + (['['] + t + [']'])
    ensures |s| == |id| + |t| + 2 && forall i :: 0 <= i < |id| ==> WordAt(s, i)
    ensures s[..|id|] == id && s[|id|] == '[' && s[|id| + 1] != '['
    ensures s[|id| + 1..|s| - 1] == t && s[|s| - 1] == ']'
  {
    forall i | 0 <= i < |id| ensures WordAt(s, i) {
      assert s[i] == id[i] && id[i] in id;
    }
    assert s[|id| + 1] == t[0] && t[0] in t;
  }

  lemma PlainSquareFrom(s: string, e: nat, id: string, t: string)
    requires Name(id) && e == |id| && t != [] && Trimmed(t) && '"' !in t && ']' !in t
    requires |s| == e + |t| + 2 && forall i :: 0 <= i < e ==> WordAt(s, i)
    requires s[..e] == id && s[e] == '[' && s[e + 1] != '['
    requires s[e + 1..|s| - 1] == t && s[|s| - 1] == ']'
    ensures '"' !in Label.Escape(t)
    ensures QuoteSquareNodes(s) == id + ['[', '"'] + Label.Escape(t) + ['"', ']']
  {
    PlainSquareHit(s, e, id, t);
    var out := id + ['[', '"'] + Label.Escape(t) + ['"', ']'];
    HitIs(s, 0, SquareNodeAt, Hit(|s|, out));
    SquareAdvances(s);
    ReplaceFromAt(s, 0, SquareNodeAt, Hit(|s|, out));
    assert ReplaceFrom(s, |s|, SquareNodeAt) == [];
    assert s[..0] + out + [] == out;
  }

  lemma PlainSquareHit(s: string, e: nat, id: string, t: string)
    requires Name(id) && e == |id| && t != [] && Trimmed(t) && '"' !in t && ']' !in t
    requires |s| == e + |t| + 2 && forall i :: 0 <= i < e ==> WordAt(s, i)
    requires s[..e] == id && s[e] == '[' && s[e + 1] != '['
    requires s[e + 1..|s| - 1] == t && s[|s| - 1] == ']'
    ensures '"' !in Label.Escape(t)
    ensures SquareNodeAt(s, 0).Some? && SquareNodeAt(s, 0).value.end == |s|
    ensures SquareNodeAt(s, 0).value.out == id + ['[', '"'] + Label.Escape(t) + ['"', ']']
  {
    assert s[0..e] == id;
    PlainSquareFound(s, e, t);
    ShapeTextPlain(s, e, id, t, '[', ']');
  }

  lemma PlainSquareFound(s: string, e: nat, t: string)
    requires |s| == e + |t| + 2 && forall i :: 0 <= i < e ==> WordAt(s, i)
    requires e > 0 && s[e] == '[' && s[e + 1] != '['
    requires s[e + 1..|s| - 1] == t && s[|s| - 1] == ']' && '"' !in t && ']' !in t
    ensures ShapeShape(s, 0, e, |s| - 1) && SquareNodeAt(s, 0).Some?
    ensures SquareNodeAt(s, 0).value.end == |s|
    ensures SquareNodeAt(s, 0).value.out == ShapeText(s, 0, e, |s| - 1, '[', ']')
  {
    PlainShapeFound(s, e, t, '[', ']');
    SquareHitWhole(s, e);
  }

  lemma SquareHitWhole(s: string, e: nat)
    requires FindShape(s, 0, '[', ']') == Some((e, |s| - 1))
    ensures ShapeShape(s, 0, e, |s| - 1) && SquareNodeAt(s, 0).Some?
    ensures SquareNodeAt(s, 0).value.end == |s|
    ensures SquareNodeAt(s, 0).value.out == ShapeText(s, 0, e, |s| - 1, '[', ']')
  {
  }


  /** Text without double quotes or closing marks is scanned to the final closing mark. */
  lemma {:induction false} PlainClose(s: string, c: nat, t: string, close: char)
    requires c + |t| + 1 == |s| && s[c..|s| - 1] == t && s[|s| - 1] == close
    requires '"' !in t && close !in t
    ensures ShapeClose(s, c, close) == Some(|s| - 1)
    decreases |t|
  {
    if t != [] {
      assert s[c] == t[0] && t[0] in t;
      assert s[c + 1..|s| - 1] == t[1..];
      assert '"' !in t[1..] && close !in t[1..] by {
        forall k | 0 <= k < |t| - 1 ensures t[1..][k] != '"' && t[1..][k] != close { assert t[1 + k] in t; }
      }
      PlainClose(s, c + 1, t[1..], close);
    }
  }

  /** A round node whose text holds no double quote or parenthesis becomes `id("` escaped
      text `")`. */
  lemma PlainRoundQuoted(id: string, t: string)
    requires Name(id) && t != [] && Trimmed(t) && '"' !in t && '(' !in t && ')' !in t
    ensures '"' !in Label.Escape(t)
    ensures QuoteRoundNodes(id + (['('] + t + [')'])) == id + ['(', '"'] + Label.Escape(t) + ['"', ')']
  {
    var s := id + (['('] + t + [')']);
    var e := |id|;
    PlainRoundPieces(id, t, s);
    PlainRoundFrom(s, e, id, t);
  }

  lemma PlainRoundPieces(id: string, t: string, s: string)
    requires Name(id) && t != [] && '(' !in t && s == id + (['('] + t + [')'])
    ensures |s| == |id| + |t| + 2 && forall i :: 0 <= i < |id| ==> WordAt(s, i)
    ensures s[..|id|] == id && s[|id|] == '(' && s[|id| + 1] != '('
    ensures s[|id| + 1..|s| - 1] == t && s[|s| - 1] == ')'
  {
    forall i | 0 <= i < |id| ensures WordAt(s, i) {
      assert s[i] == id[i] && id[i] in id;
    }
    assert s[|id| + 1] == t[0] && t[0] in t;
  }

  lemma PlainRoundFrom(s: string, e: nat, id: string, t: string)
    requires Name(id) && e == |id| && t != [] && Trimmed(t) && '"' !in t && ')' !in t
    requires |s| == e + |t| + 2 && forall i :: 0 <= i < e ==> WordAt(s, i)
    requires s[..e] == id && s[e] == '(' && s[e + 1] != '('
    requires s[e + 1..|s| - 1] == t && s[|s| - 1] == ')'
    ensures '"' !in Label.Escape(t)
    ensures QuoteRoundNodes(s) == id + ['(', '"'] + Label.Escape(t) + ['"', ')']
  {
    PlainRoundHit(s, e, id, t);
    var out := id + ['(', '"'] + Label.Escape(t) + ['"', ')'];
    HitIs(s, 0, RoundNodeAt, Hit(|s|, out));
    RoundAdvances(s);
    ReplaceFromAt(s, 0, RoundNodeAt, Hit(|s|, out));
    assert ReplaceFrom(s, |s|, RoundNodeAt) == [];
    assert s[..0] + out + [] == out;
  }

  lemma PlainRoundHit(s: string, e: nat, id: string, t: string)
    requires Name(id) && e == |id| && t != [] && Trimmed(t) && '"' !in t && ')' !in t
    requires |s| == e + |t| + 2 && forall i :: 0 <= i < e ==> WordAt(s, i)
    requires s[..e] == id && s[e] == '(' && s[e + 1] != '('
    requires s[e + 1..|s| - 1] == t && s[|s| - 1] == ')'
    ensures '"' !in Label.Escape(t)
    ensures RoundNodeAt(s, 0).Some? && RoundNodeAt(s, 0).value.end == |s|
    ensures RoundNodeAt(s, 0).value.out == id + ['(', '"'] + Label.Escape(t) + ['"', ')']
  {
    assert s[0..e] == id;
    PlainRoundFound(s, e, t);
    ShapeTextPlain(s, e, id, t, '(', ')');
  }

  lemma PlainRoundFound(s: string, e: nat, t: string)
    requires |s| == e + |t| + 2 && forall i :: 0 <= i < e ==> WordAt(s, i)
    requires e > 0 && s[e] == '(' && s[e + 1] != '('
    requires s[e + 1..|s| - 1] == t && s[|s| - 1] == ')' && '"' !in t && ')' !in t
    ensures ShapeShape(s, 0, e, |s| - 1) && RoundNodeAt(s, 0).Some?
    ensures RoundNodeAt(s, 0).value.end == |s|
    ensures RoundNodeAt(s, 0).value.out == ShapeText(s, 0, e, |s| - 1, '(', ')')
  {
    PlainShapeFound(s, e, t, '(', ')');
    RoundHitWhole(s, e);
  }

  lemma RoundHitWhole(s: string, e: nat)
    requires FindShape(s, 0, '(', ')') == Some((e, |s| - 1))
    ensures ShapeShape(s, 0, e, |s| - 1) && RoundNodeAt(s, 0).Some?
    ensures RoundNodeAt(s, 0).value.end == |s|
    ensures RoundNodeAt(s, 0).value.out == ShapeText(s, 0, e, |s| - 1, '(', ')')
  {
  }


  lemma PlainShapeFound(s: string, e: nat, t: string, open: char, close: char)
    requires |s| == e + |t| + 2 && forall i :: 0 <= i < e ==> WordAt(s, i)
    requires e > 0 && s[e] == open && s[e + 1] != open && !IsWordChar(open)
    requires s[e + 1..|s| - 1] == t && s[|s| - 1] == close && '"' !in t && close !in t
    ensures FindShape(s, 0, open, close) == Some((e, |s| - 1))
  {
    WordEndAt(s, 0, e);
    PlainClose(s, e + 1, t, close);
  }

  lemma ShapeTextPlain(s: string, e: nat, id: string, t: string, open: char, close: char)
    requires e + 1 < |s| && ShapeShape(s, 0, e, |s| - 1)
    requires (open == '[' || open == '(') && (close == ']' || close == ')')
    requires s[0..e] == id && s[e + 1..|s| - 1] == t && '"' !in id
    requires t != [] && Trimmed(t) && '"' !in t
    ensures ShapeText(s, 0, e, |s| - 1, open, close) == id + [open, '"'] + Label.Escape(t) + ['"', close]
  {
    ShapeTextUnfolds(s, e, id, t, open, close);
    PlainShapeNode(id, open, t, close);
  }

  lemma ShapeTextUnfolds(s: string, e: nat, id: string, t: string, open: char, close: char)
    requires e + 1 < |s| && ShapeShape(s, 0, e, |s| - 1)
    requires (open == '[' || open == '(') && (close == ']' || close == ')')
    requires s[0..e] == id && s[e + 1..|s| - 1] == t && '"' !in id
    ensures ShapeText(s, 0, e, |s| - 1, open, close) == ShapeNode(id, open, t, close)
  {
  }

  /** The callback on a plain text: the text is escaped and put in double quotes. */
  lemma PlainShapeNode(id: string, open: char, t: string, close: char)
    requires '"' !in id && (open == '[' || open == '(') && (close == ']' || close == ')')
    requires t != [] && Trimmed(t) && '"' !in t
    ensures '"' !in Label.Escape(t)
    ensures ShapeNode(id, open, t, close) == id + [open, '"'] + Label.Escape(t) + ['"', close]
  {
    TrimmedFixed(t);
    EscapeFacts(t);
  }

  lemma RoundAdvances(s: string)
    ensures Advances(s, RoundNodeAt)
  {
  }

  /** `A(Start)` becomes `A("Start")`. */
  lemma RoundCase(id: string, t: string)
    requires id == "A" && t == "Start"
    ensures QuoteRoundNodes(id + (['('] + t + [')'])) == id + ['(', '"'] + t + ['"', ')']
  {
    assert Name(id);
    forall c | c in t ensures !Label.Unsafe(c) && c != '(' && c != ')' {
      var k :| 0 <= k < |t| && t[k] == c;
    }
    PlainRoundQuoted(id, t);
    Label.CleanLabelKept(t);
  }

  /** Step 5 turns the escaped quotes around a node's word into single quotes. */
  lemma EscapedQuotesUnescaped(id: string, w: string)
    requires Name(id) && Label.CleanWord(w)
    ensures Label.ReplaceEscapedQuotes(id + (['[', '\\', '"'] + w + ['\\', '"', ']']))
      == id + (['['] + ("'" + w + "'") + [']'])
  {
    var bs := "\\";
    assert Label.Backslashes(bs);
    var p := id + ['['];
    forall c | c in p ensures c != '\\' {
      if c in id { var k :| 0 <= k < |id| && id[k] == c; }
    }
    var x := p + bs + "\"" + w + bs + "\"";
    Label.EscapedWordReplaced(x, p, bs, w, bs, '\'');
    assert x[|x| - 1] == '"';
    Label.EscapedQuotesSplit(x, "]");
    assert Label.ReplaceEscapedQuotes("]") == "]";
    assert id + (['[', '\\', '"'] + w + ['\\', '"', ']']) == x + "]";
    assert p + ['\''] + w + ['\''] + "]" == id + (['['] + ("'" + w + "'") + [']']);
  }

  /** `id[\"Label\"]` as the sanitizer treats it: step 5 makes it `id['Label']`, and the square
      pass makes that `id["'Label'"]`. */
  lemma EscapedSquareRoute(id: string, w: string)
    requires id == "id" && w == "Label"
    ensures Label.ReplaceEscapedQuotes(id + (['[', '\\', '"'] + w + ['\\', '"', ']']))
      == id + (['['] + ("'" + w + "'") + [']'])
    ensures QuoteSquareNodes(id + (['['] + ("'" + w + "'") + [']']))
      == id + ['[', '"'] + ("'" + w + "'") + ['"', ']']
  {
    assert Name(id);
    forall c | c in w ensures !Label.Unsafe(c) && !Label.IsQuoteMark(c) && c != '\\' && c != '[' && c != ']' {
      var k :| 0 <= k < |w| && w[k] == c;
    }
    EscapedQuotesUnescaped(id, w);
    var t := "'" + w + "'";
    SingleQuotedWord(w, t);
    PlainSquareQuoted(id, t);
    Label.CleanLabelKept(t);
  }

  lemma SingleQuotedWord(w: string, t: string)
    requires Label.CleanWord(w) && '[' !in w && ']' !in w && t == "'" + w + "'"
    ensures t != [] && Trimmed(t) && '"' !in t && '[' !in t && ']' !in t
    ensures forall c :: c in t ==> !Label.Unsafe(c)
  {
    forall c | c in t ensures c != '"' && c != '[' && c != ']' && !Label.Unsafe(c) {
      if c != '\'' { assert c in w; }
    }
  }
}
