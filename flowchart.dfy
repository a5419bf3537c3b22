/**
 * sanitizeFlowchartMermaid_ (main.js:255-373): the rewrite passes of module Passes applied
 * in order, with the two passes that work line by line on an array of lines. The result
 * holds no carriage return, semicolon or special space, is trimmed, and holds an even number
 * of double quotes, every line of it having been given an even number.
 */
module Flowchart {
  import opened Wrappers
  import opened JsText
  import opened Passes
  import Label

  /** `f` applied to every line. */
  function Each(ls: seq<string>, f: string -> string): seq<string>
  {
    seq(|ls|, k requires 0 <= k < |ls| => f(ls[k]))
  }

  /** Mapping one more line extends the mapped prefix by that line. */
  lemma EachPrefix(ls: seq<string>, i: nat, f: string -> string)
    requires i < |ls|
    ensures Each(ls[..i + 1], f) == Each(ls[..i], f) + [f(ls[i])]
  {
  }

  // ---------------------------------------------------------------------------
  // Splitting into lines and joining them again.

  /** No `\n` inside a piece means splitting finds that piece whole. */
  lemma {:induction false} LinesOfLine(a: string)
    requires '\n' !in a
    ensures Lines(a) == [a]
    decreases |a|
  {
    if a != [] {
      assert '\n' !in a[1..] by {
        forall k | 0 <= k < |a| - 1 ensures a[1..][k] != '\n' { assert a[1 + k] in a; }
      }
      LinesOfLine(a[1..]);
      assert a[0] in a && [a[0]] + a[1..] == a;
    }
  }

  lemma {:induction false} LinesAfter(a: string, b: string)
    requires '\n' !in a
    ensures Lines(a + ['\n'] + b) == [a] + Lines(b)
    decreases |a|
  {
    if a == [] {
      assert a + ['\n'] + b == ['\n'] + b;
      assert (['\n'] + b)[1..] == b;
    } else {
      assert '\n' !in a[1..] by {
        forall k | 0 <= k < |a| - 1 ensures a[1..][k] != '\n' { assert a[1 + k] in a; }
      }
      LinesAfter(a[1..], b);
      assert (a + ['\n'] + b)[1..] == a[1..] + ['\n'] + b;
      assert [a[0]] + a[1..] == a;
    }
  }

  /** Joining lines that hold no `\n` and splitting again gives the lines back. */
  lemma {:induction false} LinesOfJoin(ls: seq<string>)
    requires |ls| >= 1 && forall k :: 0 <= k < |ls| ==> '\n' !in ls[k]
    ensures Lines(Join(ls)) == ls
    decreases |ls|
  {
    if |ls| == 1 {
      LinesOfLine(ls[0]);
    } else {
      LinesOfJoin(ls[1..]);
      LinesAfter(ls[0], Join(ls[1..]));
      assert [ls[0]] + ls[1..] == ls;
    }
  }

  /** Splitting and joining again gives the text back. */
  lemma {:induction false} JoinOfLines(s: string)
    ensures Join(Lines(s)) == s
    decreases |s|
  {
    if s != [] {
      var rest := Lines(s[1..]);
      JoinOfLines(s[1..]);
      if s[0] == '\n' {
        assert s == ['\n'] + s[1..];
        if |rest| == 1 {
          assert Join([""] + rest) == "" + "\n" + rest[0];
        } else {
          assert ([""] + rest)[1..] == rest;
        }
      } else {
        var ls := [[s[0]] + rest[0]] + rest[1..];
        if |rest| == 1 {
          assert Join(ls) == [s[0]] + rest[0];
        } else {
          assert ls[1..] == rest[1..];
          assert Join(rest) == rest[0] + "\n" + Join(rest[1..]);
        }
      }
    }
  }

  /** Every character of a line comes from the text. */
  lemma {:induction false} LinesFrom(s: string)
    ensures forall k, c :: 0 <= k < |Lines(s)| && c in Lines(s)[k] ==> c in s
    decreases |s|
  {
    if s != [] {
      LinesFrom(s[1..]);
      var rest := Lines(s[1..]);
      assert forall k, c :: 0 <= k < |rest| && c in rest[k] ==> c in s by {
        forall k, c | 0 <= k < |rest| && c in rest[k] ensures c in s {
          assert c in s[1..];
        }
      }
    }
  }

  /** A property of characters that holds of every line and of the line feed holds of the
      joined text. */
  lemma {:induction false} JoinOk(ls: seq<string>, ok: char -> bool)
    requires ok('\n') && forall k, c :: 0 <= k < |ls| && c in ls[k] ==> ok(c)
    ensures forall c :: c in Join(ls) ==> ok(c)
    decreases |ls|
  {
    if |ls| > 1 {
      JoinOk(ls[1..], ok);
    }
  }

  /** The joined text holds as many double quotes as its lines together. */
  lemma {:induction false} JoinEven(ls: seq<string>)
    requires forall k :: 0 <= k < |ls| ==> Count(ls[k], '"') % 2 == 0
    ensures Count(Join(ls), '"') % 2 == 0
    decreases |ls|
  {
    if |ls| > 1 {
      JoinEven(ls[1..]);
      CountAppend(ls[0] + "\n", Join(ls[1..]), '"');
      CountAppend(ls[0], "\n", '"');
      CountAbsent("\n", '"');
    }
  }

  // ---------------------------------------------------------------------------
  // Step 9 (main.js:295-311): subgraph titles.

  /** `/^\s*classDef\b/`. */
  predicate ClassDefLine(line: string)
  {
    var q := SpaceRun(line, 0);
    MatchesAt(line, q, "classDef") && !WordAt(line, q + 8)
  }

  predicate NoLineTerminator(s: string)
  {
    forall i :: 0 <= i < |s| ==> !IsLineTerminator(s[i])
  }

  /** A match of `/^(\s*subgraph)\s+(.+?)\s*$/i`: `head` is where `$1` ends, `tail` is `$2`. */
  datatype TitleParts = TitleParts(head: nat, tail: string)

  /** The lazy `(.+?)` followed by `\s*$` ends where the trailing whitespace starts, and `.`
      refuses line terminators; a title of whitespace only is never looked at, as it trims to
      nothing. */
  function MatchTitle(line: string): (r: Option<TitleParts>)
    ensures r.Some? ==> 8 <= r.value.head < |line| && IsSpace(line[r.value.head])
    ensures r.Some? ==> r.value.tail != [] && NoLineTerminator(r.value.tail)
    ensures r.Some? ==> forall c :: c in r.value.tail ==> c in line
    ensures r.Some? ==> '"' !in line[..r.value.head]
    ensures r.Some? ==> r.value.head == SpaceRun(line, 0) + 8
    ensures r.Some? ==> MatchesAt(line, SpaceRun(line, 0), "subgraph", true)
  {
    var q := SpaceRun(line, 0);
    if !MatchesAt(line, q, "subgraph", true) then None
    else
      var a := SpaceRun(line, q + 8);
      var e := |TrimEnd(line)|;
      if a == q + 8 || e <= a || !NoLineTerminator(line[a..e]) then None
      else
        KeywordHasNoQuote(line, q);
        InText(line, a, e);
        Some(TitleParts(q + 8, line[a..e]))
  }

  lemma KeywordHasNoQuote(line: string, q: nat)
    requires q <= |line| && MatchesAt(line, q, "subgraph", true)
    requires forall k :: 0 <= k < q ==> IsSpace(line[k])
    ensures '"' !in line[..q + 8]
  {
    forall k | 0 <= k < q + 8 ensures line[k] != '"' {
      if k >= q {
        MatchesAtChars(line, q, "subgraph", k - q, true);
      }
    }
  }

  /** The rewritten line: `head + ' "' + escapeFlowLabel_(t) + '"'`. */
  function TitledLine(head: string, t: string): (r: string)
    requires '"' !in head
    ensures Count(r, '"') == 2
    ensures forall c :: c in r ==> c in head || c in t || Written(c)
  {
    var r := head + [' '] + (['"'] + Label.Escape(t) + ['"']);
    TitledCount(head, t, r);
    TitledChars(head, t, r);
    r
  }

  lemma TitledCount(head: string, t: string, r: string)
    requires '"' !in head && r == head + [' '] + (['"'] + Label.Escape(t) + ['"'])
    ensures Count(r, '"') == 2
  {
    EscapeFacts(t);
    QuotedCount(head + [' '], Label.Escape(t));
  }

  lemma TitledChars(head: string, t: string, r: string)
    requires r == head + [' '] + (['"'] + Label.Escape(t) + ['"'])
    ensures forall c :: c in r ==> c in head || c in t || Written(c)
  {
    var e := Label.Escape(t);
    EscapeFacts(t);
    forall c | c in r ensures c in head || c in t || Written(c) {
      assert c in head + [' '] || c in ['"'] + e + ['"'];
    }
  }

  lemma QuotedCount(h: string, e: string)
    requires '"' !in h && '"' !in e
    ensures Count(h + (['"'] + e + ['"']), '"') == 2
  {
    CountAbsent(h, '"');
    CountAbsent(e, '"');
    CountAppend(h, ['"'] + e + ['"'], '"');
    CountAppend(['"'] + e, ['"'], '"');
    CountAppend(['"'], e, '"');
    assert ['"'][1..] == [];
  }

  /** What the loop body does to one line: a `subgraph` line whose title is not quoted and
      holds no bracket gets the title escaped and put in double quotes; every other line
      stays. */
  function TitleLine(line: string): (r: string)
    ensures r != line ==> Count(r, '"') == 2
    ensures forall c :: c in r ==> c in line || Written(c)
  {
    if ClassDefLine(line) then line
    else
      match MatchTitle(line)
      case None => line
      case Some(m) =>
        var t := Trim(m.tail);
        if t == [] || t[0] == '"' || t[0] == '\'' || '[' in t || ']' in t then line
        else
          InText(line, 0, m.head);
          TitledLine(line[..m.head], t)
  }

  /** A `subgraph` line with a bare title (no quote first, no bracket) becomes the keyword,
      one space and the escaped title in double quotes; trailing whitespace is dropped. */
  lemma TitleQuoted(w: string, kw: string, w2: string, title: string, w3: string)
    requires AllSpace(w) && w2 != [] && AllSpace(w2) && AllSpace(w3)
    requires |kw| == 8 && MatchesAt(kw, 0, "subgraph", true)
    requires title != [] && Trimmed(title) && NoLineTerminator(title)
    requires title[0] != '"' && title[0] != '\'' && '[' !in title && ']' !in title
    ensures TitleLine(w + kw + w2 + title + w3) == w + kw + [' ', '"'] + Label.Escape(title) + ['"']
  {
    var line := w + kw + w2 + title + w3;
    var m := TitleParts(|w| + 8, title);
    TitleFound(w, kw, w2, title, w3, line);
    TrimmedFixed(title);
    TitledCase(line, m, title);
    var head := w + kw;
    TitledForm(head, title);
    Requoted(head, Label.Escape(title));
  }

  lemma TitleFound(w: string, kw: string, w2: string, title: string, w3: string, line: string)
    requires AllSpace(w) && w2 != [] && AllSpace(w2) && AllSpace(w3)
    requires |kw| == 8 && MatchesAt(kw, 0, "subgraph", true)
    requires title != [] && Trimmed(title) && NoLineTerminator(title)
    requires line == w + kw + w2 + title + w3
    ensures !ClassDefLine(line) && MatchTitle(line) == Some(TitleParts(|w| + 8, title))
    ensures line[..|w| + 8] == w + kw
  {
    TitleLinePieces(w, kw, w2, title, w3, line);
    TitleMatched(line, |w|, |w| + 8 + |w2|, title);
    NotClassDef(line, |w|);
  }

  lemma Requoted(head: string, e: string)
    ensures head + [' '] + (['"'] + e + ['"']) == head + [' ', '"'] + e + ['"']
  {
  }

  lemma TitleLinePieces(w: string, kw: string, w2: string, title: string, w3: string, line: string)
    requires AllSpace(w) && w2 != [] && AllSpace(w2) && AllSpace(w3)
    requires |kw| == 8 && MatchesAt(kw, 0, "subgraph", true)
    requires title != [] && Trimmed(title)
    requires line == w + kw + w2 + title + w3
    ensures |w| + 8 + |w2| + |title| <= |line|
    ensures SpaceRun(line, 0) == |w| && MatchesAt(line, |w|, "subgraph", true)
    ensures Lower(line[|w|]) == 's'
    ensures SpaceRun(line, |w| + 8) == |w| + 8 + |w2|
    ensures |TrimEnd(line)| == |w| + 8 + |w2| + |title|
    ensures line[|w| + 8 + |w2|..|w| + 8 + |w2| + |title|] == title
    ensures line[..|w| + 8] == w + kw
  {
    KeywordOpensWithLetter(kw, "subgraph");
    MatchesAtChars(kw, 0, "subgraph", 0, true);
    Regrouped(w, kw, w2, title, w3);
    SpaceRunOver(w, kw + w2 + title + w3, 0);
    MiddleSlice(w, kw, w2 + title + w3);
    KeywordAtSlice(line, |w|, kw, "subgraph");
    SpaceRunMiddle(w + kw, w2, title + w3);
    MiddleSlice(w + kw + w2, title, w3);
    assert line[..|w| + 8] == (w + kw + (w2 + title + w3))[..|w + kw|];
    TrimEndOver(w + kw + w2 + title, w3);
  }

  lemma Regrouped(a: string, b: string, c: string, d: string, e: string)
    ensures a + b + c + d + e == a + (b + c + d + e)
    ensures a + b + c + d + e == a + b + (c + d + e)
    ensures a + b + c + d + e == (a + b) + c + (d + e)
  {
  }

  lemma MiddleSlice(u: string, x: string, v: string)
    ensures (u + x + v)[|u|..|u| + |x|] == x
  {
  }

  /** The run of whitespace `w` between `u` and a text that opens with no space. */
  lemma SpaceRunMiddle(u: string, w: string, v: string)
    requires AllSpace(w) && v != [] && !IsSpace(v[0])
    ensures SpaceRun(u + w + v, |u|) == |u| + |w|
  {
    var s := u + w + v;
    forall k | |u| <= k < |u| + |w| ensures IsSpace(s[k]) {
      assert s[k] == w[k - |u|];
    }
    assert s[|u| + |w|] == v[0];
    SpaceRunTo(s, |u|, |u| + |w|);
  }

  /** The title match found from where the keyword starts and the title starts. */
  lemma TitleMatched(line: string, q: nat, a: nat, title: string)
    requires q + 8 < a && a + |title| <= |line| && title != [] && NoLineTerminator(title)
    requires SpaceRun(line, 0) == q && MatchesAt(line, q, "subgraph", true)
    requires SpaceRun(line, q + 8) == a && |TrimEnd(line)| == a + |title|
    requires line[a..a + |title|] == title
    ensures MatchTitle(line) == Some(TitleParts(q + 8, title))
  {
  }

  /** A line whose first word starts with an `s` is no `classDef` line. */
  lemma NotClassDef(line: string, q: nat)
    requires SpaceRun(line, 0) == q && q < |line| && Lower(line[q]) == 's'
    ensures !ClassDefLine(line)
  {
  }

  /** `subgraph My Title` becomes `subgraph "My Title"` (main.js:296-309). */
  lemma TitleQuotedCase(kw: string, title: string)
    requires kw == "subgraph" && title == "My Title"
    ensures TitleLine(kw + [' '] + title) == kw + [' ', '"'] + title + ['"']
  {
    SubgraphKeyword(kw);
    PlainTitleShape(title);
    PlainTitleSafe(title);
    TitleQuoted([], kw, [' '], title, []);
    Label.CleanLabelKept(title);
    EmptyFrame(kw, [' '], title);
  }

  lemma EmptyFrame(kw: string, x: string, title: string)
    ensures [] + kw + x + title + [] == kw + x + title && [] + kw == kw
  {
  }

  lemma SubgraphKeyword(kw: string)
    requires kw == "subgraph"
    ensures |kw| == 8 && MatchesAt(kw, 0, "subgraph", true)
  {
    PrefixMatches(kw, [], true);
    assert kw + [] == kw;
  }

  lemma PlainTitleShape(title: string)
    requires title == "My Title"
    ensures title != [] && Trimmed(title) && NoLineTerminator(title)
    ensures title[0] != '"' && title[0] != '\'' && '[' !in title && ']' !in title
    ensures AllSpace([]) && AllSpace([' '])
  {
  }

  lemma PlainTitleSafe(title: string)
    requires title == "My Title"
    ensures forall c :: c in title ==> !Label.Unsafe(c)
  {
    forall c | c in title ensures !Label.Unsafe(c) {
      var k :| 0 <= k < |title| && title[k] == c;
    }
  }

  /** Quoting a title is done once: the line it gives is left alone by a second pass. */
  lemma TitleLineIdempotent(line: string)
    ensures TitleLine(TitleLine(line)) == TitleLine(line)
  {
    if !ClassDefLine(line) && MatchTitle(line).Some? {
      var m := MatchTitle(line).value;
      var t := Trim(m.tail);
      if !(t == [] || t[0] == '"' || t[0] == '\'' || '[' in t || ']' in t) {
        TitledCase(line, m, t);
        TitledForm(line[..m.head], t);
        TitledSettled(line, m, t, TitleLine(line));
      }
    }
  }

  lemma TitledCase(line: string, m: TitleParts, t: string)
    requires !ClassDefLine(line) && MatchTitle(line) == Some(m) && t == Trim(m.tail)
    requires !(t == [] || t[0] == '"' || t[0] == '\'' || '[' in t || ']' in t)
    ensures '"' !in line[..m.head] && TitleLine(line) == TitledLine(line[..m.head], t)
  {
    assert MatchTitle(line).Some? && MatchTitle(line).value == m;
  }

  lemma TitledForm(head: string, t: string)
    requires '"' !in head
    ensures TitledLine(head, t) == head + [' '] + (['"'] + Label.Escape(t) + ['"'])
  {
  }

  lemma TitledSettled(line: string, m: TitleParts, t: string, r: string)
    requires MatchTitle(line) == Some(m) && t == Trim(m.tail)
    requires r == line[..m.head] + [' '] + (['"'] + Label.Escape(t) + ['"'])
    ensures TitleLine(r) == r
  {
    var q := TitleSetting(line, m, t);
    SettledTitle(line, q, r, Label.Escape(t));
  }

  lemma TitleSetting(line: string, m: TitleParts, t: string) returns (q: nat)
    requires MatchTitle(line) == Some(m) && t == Trim(m.tail)
    ensures q + 8 == m.head && q + 8 <= |line| && MatchesAt(line, q, "subgraph", true)
    ensures forall k :: 0 <= k < q ==> IsSpace(line[k])
    ensures forall c :: c in Label.Escape(t) ==> !IsLineTerminator(c)
  {
    q := SpaceRun(line, 0);
    EscapedTitleChars(line, m.tail, t);
  }

  lemma EscapedTitleChars(line: string, tail: string, t: string)
    requires NoLineTerminator(tail) && (forall c :: c in tail ==> c in line) && t == Trim(tail)
    ensures forall c :: c in Label.Escape(t) ==> !IsLineTerminator(c)
  {
    TitleChars(line, tail);
    EscapeFacts(t);
  }

  lemma TitleChars(line: string, tail: string)
    requires NoLineTerminator(tail) && forall c :: c in tail ==> c in line
    ensures forall c :: c in Trim(tail) ==> c in line && !IsLineTerminator(c)
  {
    forall c | c in Trim(tail) ensures c in line && !IsLineTerminator(c) {
      assert c in tail;
      var k :| 0 <= k < |tail| && tail[k] == c;
    }
  }

  /** The pattern is compared with the text only where it lies. */
  lemma {:induction false} MatchesSame(s: string, u: string, i: nat, pat: string, ignoreCase: bool)
    requires i + |pat| <= |s| && i + |pat| <= |u|
    requires forall j :: i <= j < i + |pat| ==> s[j] == u[j]
    ensures MatchesAt(s, i, pat, ignoreCase) == MatchesAt(u, i, pat, ignoreCase)
    decreases |pat|
  {
    if pat != [] {
      MatchesSame(s, u, i + 1, pat[1..], ignoreCase);
    }
  }

  /** A `subgraph` line whose title is in double quotes is left as it is. */
  lemma SettledTitle(line: string, q: nat, r: string, e: string)
    requires q + 8 <= |line| && MatchesAt(line, q, "subgraph", true)
    requires forall k :: 0 <= k < q ==> IsSpace(line[k])
    requires r == line[..q + 8] + [' '] + (['"'] + e + ['"'])
    requires forall c :: c in e ==> !IsLineTerminator(c)
    ensures TitleLine(r) == r
  {
    var tail := ['"'] + e + ['"'];
    RetitledHead(line, q, r, tail);
    QuotedTail(r, q, e);
    QuotedTitleMatches(r, q, tail);
    TrimmedFixed(tail);
  }

  lemma RetitledHead(line: string, q: nat, r: string, tail: string)
    requires q + 8 <= |line| && MatchesAt(line, q, "subgraph", true)
    requires forall k :: 0 <= k < q ==> IsSpace(line[k])
    requires r == line[..q + 8] + [' '] + tail
    ensures q + 9 <= |r| && r[q + 8] == ' ' && r[q + 9..] == tail
    ensures SpaceRun(r, 0) == q && !ClassDefLine(r) && MatchesAt(r, q, "subgraph", true)
  {
    assert r[..q + 8] == line[..q + 8];
    SameHead(line, r, q);
  }

  lemma QuotedTitleMatches(r: string, q: nat, tail: string)
    requires q + 9 <= |r| && r[q + 9..] == tail && tail != []
    requires SpaceRun(r, 0) == q && MatchesAt(r, q, "subgraph", true)
    requires SpaceRun(r, q + 8) == q + 9 && |TrimEnd(r)| == |r| && NoLineTerminator(tail)
    ensures MatchTitle(r) == Some(TitleParts(q + 8, tail))
  {
    assert r[q + 9..|r|] == tail;
  }

  /** A line that starts as `line` does, up to and including the keyword, is read the same way
      up to there. */
  lemma SameHead(line: string, r: string, q: nat)
    requires q + 8 <= |line| && q + 8 < |r| && r[..q + 8] == line[..q + 8]
    requires MatchesAt(line, q, "subgraph", true)
    requires forall k :: 0 <= k < q ==> IsSpace(line[k])
    ensures SpaceRun(r, 0) == q && !ClassDefLine(r) && MatchesAt(r, q, "subgraph", true)
  {
    forall j | 0 <= j < q + 8 ensures r[j] == line[j] {
      assert r[..q + 8][j] == line[..q + 8][j];
    }
    MatchesSame(line, r, q, "subgraph", true);
    MatchesAtChars(r, q, "subgraph", 0, true);
    SpaceRunTo(r, 0, q);
    NoMatchWhereDiffer(r, q, "classDef", 0);
  }

  /** After the keyword comes one space and a title in double quotes that runs to the end. */
  lemma QuotedTail(r: string, q: nat, e: string)
    requires q + 9 <= |r| && r[q + 8] == ' ' && r[q + 9..] == ['"'] + e + ['"']
    requires forall c :: c in e ==> !IsLineTerminator(c)
    ensures SpaceRun(r, q + 8) == q + 9
    ensures |TrimEnd(r)| == |r|
    ensures NoLineTerminator(r[q + 9..])
  {
    var tail := r[q + 9..];
    assert r[q + 9] == tail[0];
    assert r[|r| - 1] == tail[|tail| - 1];
    TrimEndOver(r, []);
    assert r + [] == r;
    forall k | 0 <= k < |tail| ensures !IsLineTerminator(tail[k]) {
      if 0 < k < |tail| - 1 {
        assert tail[k] == e[k - 1];
        assert e[k - 1] in e;
      }
    }
  }

  /** The body of the loop of main.js:296-311 for one line: `None` where the loop moves on
      to the next line, the rewritten line otherwise. */
  method RetitleLine(line: string) returns (r: Option<string>)
    ensures r.None? ==> TitleLine(line) == line
    ensures r.Some? ==> r.value == TitleLine(line) && Count(r.value, '"') == 2
  {
    if ClassDefLine(line) {
      return None;
    }
    var m := MatchTitle(line);
    if m.None? {
      return None;
    }
    var t := Trim(m.value.tail);
    if t == [] {
      return None;
    }
    if t[0] == '"' || t[0] == '\'' {
      return None;
    }
    if '[' in t || ']' in t {
      return None;
    }
    return Some(TitledLine(line[..m.value.head], t));
  }

  /** Step 9 as a whole: every line gets its title quoted, and the lines are joined again. */
  function RetitledLines(text: string): (r: string)
    ensures forall c :: c in r ==> c in text || Written(c)
  {
    var ls := Lines(text);
    LinesFrom(text);
    EachOk(ls, TitleLine, text);
    JoinOk(Each(ls, TitleLine), c => c in text || Written(c));
    Join(Each(ls, TitleLine))
  }

  /** A line rewriting that only adds written characters keeps the lines' provenance. */
  lemma EachOk(ls: seq<string>, f: string -> string, text: string)
    requires forall line, c :: c in f(line) ==> c in line || Written(c)
    requires forall k, c :: 0 <= k < |ls| && c in ls[k] ==> c in text
    ensures forall k, c :: 0 <= k < |ls| && c in Each(ls, f)[k] ==> c in text || Written(c)
  {
  }

  /** The loop of main.js:296-311 over the lines of `text`, overwriting an entry of the array
      where the title gets quoted. */
  method QuoteSubgraphTitles(text: string) returns (r: string)
    ensures r == RetitledLines(text)
  {
    var ls := Lines(text);
    var lines := new string[|ls|](k requires 0 <= k < |ls| => ls[k]);
    for i := 0 to lines.Length
      invariant lines[..i] == Each(ls[..i], TitleLine)
      invariant forall k :: i <= k < lines.Length ==> lines[k] == ls[k]
    {
      var next := RetitleLine(lines[i]);
      if next.Some? {
        lines[i] := next.value;
      }
      assert lines[i] == TitleLine(ls[i]);
      EachPrefix(ls, i, TitleLine);
      assert lines[..i + 1] == lines[..i] + [lines[i]];
    }
    assert ls[..lines.Length] == ls && lines[..lines.Length] == lines[..];
    r := Join(lines[..]);
  }

  // ---------------------------------------------------------------------------
  // The final pass (main.js:355-363): a line with an odd number of double quotes gets one
  // more at its end.

  function CloseQuote(line: string): (r: string)
    ensures Count(r, '"') % 2 == 0
    ensures Count(line, '"') % 2 == 0 ==> r == line
    ensures Count(line, '"') % 2 == 1 ==> r == line + ['"']
  {
    if Count(line, '"') % 2 != 0 && '"' in line then
      CountAppend(line, ['"'], '"');
      line + ['"']
    else
      QuoteCounted(line);
      line
  }

  lemma QuoteCounted(line: string)
    ensures Count(line, '"') > 0 ==> '"' in line
  {
    if '"' !in line {
      CountAbsent(line, '"');
    }
  }

  /** The final pass as a whole: the text holds an even number of double quotes afterwards,
      and nothing but double quotes is added. */
  function ClosedQuotes(text: string): (r: string)
    ensures Count(r, '"') % 2 == 0 && EvenLines(r)
    ensures forall c :: c in r ==> c in text || c == '"' || c == '\n'
  {
    var ls := Lines(text);
    var closed := Each(ls, CloseQuote);
    LinesFrom(text);
    forall k | 0 <= k < |closed| ensures Count(closed[k], '"') % 2 == 0 {
      assert closed[k] == CloseQuote(ls[k]);
    }
    JoinEven(closed);
    var ok := c => c in text || c == '"' || c == '\n';
    forall k, c | 0 <= k < |closed| && c in closed[k] ensures ok(c) {
      assert closed[k] == CloseQuote(ls[k]);
      assert c in ls[k] || c == '"';
    }
    JoinOk(closed, ok);
    forall k | 0 <= k < |ls| ensures '\n' !in closed[k] {
      assert closed[k] == CloseQuote(ls[k]);
      assert '\n' !in ls[k];
    }
    LinesOfJoin(closed);
    Join(closed)
  }

  /** The loop of main.js:355-363. */
  method CloseQuotes(text: string) returns (r: string)
    ensures r == ClosedQuotes(text)
  {
    var ls := Lines(text);
    var lines := new string[|ls|](k requires 0 <= k < |ls| => ls[k]);
    for i := 0 to lines.Length
      invariant forall k :: 0 <= k < i ==> lines[k] == CloseQuote(ls[k])
      invariant forall k :: i <= k < lines.Length ==> lines[k] == ls[k]
    {
      var line := lines[i];
      var quoteCount := Count(line, '"');
      if quoteCount % 2 != 0 && '"' in line {
        lines[i] := line + "\"";
      }
    }
    assert lines[..] == Each(ls, CloseQuote);
    r := Join(lines[..]);
  }

  /** On one line, the final pass is the line's own repair. */
  lemma ClosedLine(line: string)
    requires '\n' !in line
    ensures ClosedQuotes(line) == CloseQuote(line)
  {
    LinesOfLine(line);
    assert Each([line], CloseQuote) == [CloseQuote(line)];
  }

  /** A node whose quoted text is left open, `id["text`, gets its closing quote. */
  lemma OpenQuoteClosed(id: string, w: string)
    requires '"' !in id && '"' !in w && '\n' !in id && '\n' !in w
    ensures ClosedQuotes(id + ['[', '"'] + w) == id + ['[', '"'] + w + ['"']
  {
    var line := id + ['[', '"'] + w;
    CountAbsent(id, '"');
    CountAbsent(w, '"');
    CountAppend(id + ['[', '"'], w, '"');
    CountAppend(id, ['[', '"'], '"');
    CountPair('[', '"');
    ClosedLine(line);
  }

  /** `id["Label` becomes `id["Label"`. */
  lemma OpenQuoteCase(id: string, w: string)
    requires id == "id" && w == "Label"
    ensures ClosedQuotes(id + ['[', '"'] + w) == id + ['[', '"'] + w + ['"']
  {
    OpenQuoteClosed(id, w);
  }

  /** Every line holds an even number of double quotes. */
  predicate EvenLines(s: string)
  {
    forall k :: 0 <= k < |Lines(s)| ==> Count(Lines(s)[k], '"') % 2 == 0
  }

  /** A character added at the end either starts a new line or extends the last one. */
  lemma LinesSnoc(s: string, c: char)
    ensures c == '\n' ==> Lines(s + [c]) == Lines(s) + [""]
    ensures c != '\n' ==>
      Lines(s + [c]) == Lines(s)[..|Lines(s)| - 1] + [Lines(s)[|Lines(s)| - 1] + [c]]
  {
    if c == '\n' {
      LinesSnocBreak(s);
    } else {
      LinesSnocChar(s, c);
    }
  }

  /** One step of `Lines`: the first character starts or extends the first line. */
  lemma LinesUnfold(s: string)
    requires s != []
    ensures Lines(s) == if s[0] == '\n' then [""] + Lines(s[1..])
                        else [[s[0]] + Lines(s[1..])[0]] + Lines(s[1..])[1..]
  {
  }

  lemma {:induction false} LinesSnocBreak(s: string)
    ensures Lines(s + ['\n']) == Lines(s) + [""]
    decreases |s|
  {
    var t := s + ['\n'];
    if s == [] {
      assert t == ['\n'] && t[1..] == [];
      LinesUnfold(t);
    } else {
      assert t[1..] == s[1..] + ['\n'];
      LinesSnocBreak(s[1..]);
      LinesUnfold(t);
      LinesUnfold(s);
      var rest := Lines(s[1..]);
      if s[0] == '\n' {
        assert [""] + (rest + [""]) == [""] + rest + [""];
      } else {
        assert (rest + [""])[0] == rest[0];
        assert (rest + [""])[1..] == rest[1..] + [""];
        assert [[s[0]] + rest[0]] + (rest[1..] + [""]) == [[s[0]] + rest[0]] + rest[1..] + [""];
      }
    }
  }

  lemma {:induction false} LinesSnocChar(s: string, c: char)
    requires c != '\n'
    ensures Lines(s + [c]) == Lines(s)[..|Lines(s)| - 1] + [Lines(s)[|Lines(s)| - 1] + [c]]
    decreases |s|
  {
    var t := s + [c];
    if s == [] {
      assert t == [c] && t[1..] == [];
      LinesUnfold(t);
      assert [c] + "" == "" + [c];
    } else {
      assert t[1..] == s[1..] + [c];
      LinesSnocChar(s[1..], c);
      LinesUnfold(t);
      LinesUnfold(s);
      var rest := Lines(s[1..]);
      var n := |rest|;
      if s[0] == '\n' {
        assert ([""] + rest)[..n] == [""] + rest[..n - 1];
      } else if n == 1 {
        assert [s[0]] + rest[0] + [c] == [s[0]] + (rest[0] + [c]);
      } else {
        assert ([[s[0]] + rest[0]] + rest[1..])[..n - 1] == [[s[0]] + rest[0]] + rest[1..n - 1];
      }
    }
  }

  /** Dropping a first character that is not a double quote keeps every line even. */
  lemma EvenLinesTail(s: string)
    requires s != [] && s[0] != '"' && EvenLines(s)
    ensures EvenLines(s[1..])
  {
    var rest := Lines(s[1..]);
    if s[0] != '\n' {
      var first := Lines(s)[0];
      assert first == [s[0]] + rest[0];
      assert first[1..] == rest[0];
      forall k | 0 <= k < |rest| ensures Count(rest[k], '"') % 2 == 0 {
        if k > 0 {
          assert rest[k] == Lines(s)[k];
        }
      }
    } else {
      forall k | 0 <= k < |rest| ensures Count(rest[k], '"') % 2 == 0 {
        assert rest[k] == Lines(s)[k + 1];
      }
    }
  }

  /** Dropping a last character that is not a double quote keeps every line even. */
  lemma EvenLinesInit(s: string)
    requires s != [] && s[|s| - 1] != '"' && EvenLines(s)
    ensures EvenLines(s[..|s| - 1])
  {
    var t := s[..|s| - 1];
    var c := s[|s| - 1];
    assert t + [c] == s;
    LinesSnoc(t, c);
    var ls := Lines(t);
    var n := |ls|;
    forall k | 0 <= k < n ensures Count(ls[k], '"') % 2 == 0 {
      if c == '\n' || k < n - 1 {
        assert ls[k] == Lines(s)[k];
      } else {
        assert Lines(s)[k] == ls[k] + [c];
        CountAppend(ls[k], [c], '"');
      }
    }
  }

  /** Removing whitespace from the front keeps every line even. */
  lemma {:induction false} EvenLinesFrom(s: string, k: nat)
    requires k <= |s| && AllSpace(s[..k]) && EvenLines(s)
    ensures EvenLines(s[k..])
    decreases k
  {
    if k > 0 {
      assert s[0] == s[..k][0];
      EvenLinesTail(s);
      assert s[1..][..k - 1] == s[1..k];
      assert s[1..][k - 1..] == s[k..];
      EvenLinesFrom(s[1..], k - 1);
    }
  }

  /** Removing whitespace from the end keeps every line even. */
  lemma {:induction false} EvenLinesUpTo(s: string, m: nat)
    requires m <= |s| && AllSpace(s[m..]) && EvenLines(s)
    ensures EvenLines(s[..m])
    decreases |s| - m
  {
    if m == |s| {
      assert s[..m] == s;
    } else {
      var t := s[..|s| - 1];
      assert s[|s| - 1] == s[m..][|s| - 1 - m];
      EvenLinesInit(s);
      assert t[m..] == s[m..|s| - 1];
      assert t[..m] == s[..m];
      EvenLinesUpTo(t, m);
    }
  }

  /** Trimming keeps every line even. */
  lemma TrimEvenLines(s: string)
    requires EvenLines(s)
    ensures EvenLines(Trim(s))
  {
    var t := TrimStart(s);
    EvenLinesFrom(s, |s| - |t|);
    EvenLinesUpTo(t, |TrimEnd(t)|);
  }

  // ---------------------------------------------------------------------------
  // The whole sanitizer (main.js:255-366).

  /** What the first two steps remove for good: carriage returns, semicolons and the special
      spaces. */
  predicate Banned(c: char)
  {
    c == '\r' || c == ';' || IsSpecialSpace(c)
  }

  /** `sanitizeFlowchartMermaid_`: the passes in the order the function applies them. */
  function Sanitized(code: Option<string>): string
  {
    var s1 := NormalizeSpaces(OrEmpty(code));
    var s2 := SplitStatements(s1);
    var s3 := QuoteBracketedSubgraphs(s2);
    var s4 := SplitFusedLines(s3);
    var s5 := Label.ReplaceEscapedQuotes(s4);
    var s6 := LabelEdges(s5);
    var s7 := SplitHeader(s6);
    var s8 := NormalizeSingleNodes(s7);
    Finished(s8)
  }

  /** Steps 9 to 12, the closing of quotes and the final trim. */
  function Finished(s8: string): string
  {
    var s9 := RetitledLines(s8);
    var s10 := FixDecisionNodes(s9);
    var s11 := QuoteSquareNodes(s10);
    var s12 := QuoteRoundNodes(s11);
    Trim(ClosedQuotes(s12))
  }

  /** The sanitizer as the source runs it, with the two line loops as loops. */
  method Sanitize(code: Option<string>) returns (r: string)
    ensures r == Sanitized(code)
  {
    var out := NormalizeSpaces(OrEmpty(code));
    out := SplitStatements(out);
    out := QuoteBracketedSubgraphs(out);
    out := SplitFusedLines(out);
    out := Label.ReplaceEscapedQuotes(out);
    out := LabelEdges(out);
    out := SplitHeader(out);
    out := NormalizeSingleNodes(out);
    out := QuoteSubgraphTitles(out);
    out := FixDecisionNodes(out);
    out := QuoteSquareNodes(out);
    out := QuoteRoundNodes(out);
    out := CloseQuotes(out);
    r := Trim(out);
  }

  predicate Clean(s: string)
  {
    forall c :: c in s ==> !Banned(c)
  }

  /** The output holds no carriage return, no semicolon and no special space, whatever the
      input: no later pass writes one of them back. */
  lemma SanitizedClean(code: Option<string>)
    ensures Clean(Sanitized(code))
  {
    var s1 := NormalizeSpaces(OrEmpty(code));
    var s2 := SplitStatements(s1);
    assert Clean(s2);
    var s8 := EarlyClean(s2);
    FinishedClean(s8);
  }

  lemma EarlyClean(s2: string) returns (s8: string)
    requires Clean(s2)
    ensures s8 == NormalizeSingleNodes(SplitHeader(LabelEdges(Label.ReplaceEscapedQuotes(
      SplitFusedLines(QuoteBracketedSubgraphs(s2))))))
    ensures Clean(s8)
  {
    var s3 := QuoteBracketedSubgraphs(s2);
    CleanKept(s2, s3);
    var s4 := SplitFusedLines(s3);
    CleanKept(s3, s4);
    var s5 := Label.ReplaceEscapedQuotes(s4);
    CleanKept(s4, s5);
    var s6 := LabelEdges(s5);
    CleanKept(s5, s6);
    var s7 := SplitHeader(s6);
    CleanKept(s6, s7);
    s8 := NormalizeSingleNodes(s7);
    CleanKept(s7, s8);
  }

  lemma FinishedClean(s8: string)
    requires Clean(s8)
    ensures Clean(Finished(s8))
  {
    var s9 := RetitledLines(s8);
    CleanKept(s8, s9);
    var s10 := FixDecisionNodes(s9);
    CleanKept(s9, s10);
    var s11 := QuoteSquareNodes(s10);
    CleanKept(s10, s11);
    var s12 := QuoteRoundNodes(s11);
    CleanKept(s11, s12);
    var s13 := ClosedQuotes(s12);
    CleanKept(s12, s13);
    CleanKept(s13, Trim(s13));
  }

  /** A pass that keeps characters of its input and writes only its own characters keeps the
      text clean. */
  lemma CleanKept(s: string, r: string)
    requires Clean(s) && forall c :: c in r ==> c in s || Written(c)
    ensures Clean(r)
  {
  }

  /** A missing diagram sanitizes to the empty text. */
  lemma SanitizedNone()
    ensures Sanitized(None) == ""
  {
    var s: string := [];
    EmptyPasses(s);
    EmptyLines(s);
    assert Trim(s) == s;
  }

  /** Every rewrite pass leaves the empty text empty. */
  lemma EmptyPasses(s: string)
    requires s == []
    ensures NormalizeSpaces(s) == s && SplitStatements(s) == s && QuoteBracketedSubgraphs(s) == s
    ensures SplitFusedLines(s) == s && Label.ReplaceEscapedQuotes(s) == s && LabelEdges(s) == s
    ensures SplitHeader(s) == s && NormalizeSingleNodes(s) == s && FixDecisionNodes(s) == s
    ensures QuoteSquareNodes(s) == s && QuoteRoundNodes(s) == s
  {
  }

  /** So do the two line passes: the empty text is one empty line. */
  lemma EmptyLines(s: string)
    requires s == []
    ensures RetitledLines(s) == s && ClosedQuotes(s) == s
  {
    assert Lines(s) == [s];
    assert MatchTitle(s).None?;
    assert TitleLine(s) == s;
    assert Each([s], TitleLine) == [s];
    assert Each([s], CloseQuote) == [s];
  }

  /** The output holds an even number of double quotes, on every line and so in all, and no
      whitespace at either end. */
  lemma SanitizedBalanced(code: Option<string>)
    ensures EvenLines(Sanitized(code))
    ensures Count(Sanitized(code), '"') % 2 == 0 && Trimmed(Sanitized(code))
  {
    var s8 := NormalizeSingleNodes(SplitHeader(LabelEdges(Label.ReplaceEscapedQuotes(
      SplitFusedLines(QuoteBracketedSubgraphs(SplitStatements(NormalizeSpaces(OrEmpty(code)))))))));
    var closed := ClosedQuotes(QuoteRoundNodes(QuoteSquareNodes(FixDecisionNodes(RetitledLines(s8)))));
    TrimCount(closed);
    TrimEvenLines(closed);
  }

  /** Trimming removes whitespace only, so no double quote. */
  lemma TrimCount(s: string)
    ensures Count(Trim(s), '"') == Count(s, '"')
  {
    var t := TrimStart(s);
    var k := |s| - |t|;
    assert s == s[..k] + t;
    CountAppend(s[..k], t, '"');
    SpaceCount(s[..k]);
    var u := TrimEnd(t);
    assert t == u + t[|u|..];
    CountAppend(u, t[|u|..], '"');
    SpaceCount(t[|u|..]);
  }

  lemma SpaceCount(w: string)
    requires AllSpace(w)
    ensures Count(w, '"') == 0
  {
    forall k | 0 <= k < |w| ensures w[k] != '"' {
      assert IsSpace(w[k]);
    }
    CountAbsent(w, '"');
  }
}
