/**
 * extractMermaidDiagram_ (main.js:222-252): decodes entities, drops every code-fence marker,
 * turns the special spaces into plain spaces, then cuts the text at the first line that
 * opens with a diagram keyword.
 */
module Extract {
  import opened Wrappers
  import opened JsText
  import opened Entities

  /** The diagram keywords of main.js:234-238, in the order the alternation tries them. */
  const Keywords: seq<string> := [
    "flowchart", "graph", "sequenceDiagram", "gantt", "classDiagram", "stateDiagram-v2",
    "erDiagram", "journey", "mindmap", "timeline", "pie", "gitGraph",
    "C4Context", "C4Container", "C4Component", "C4Dynamic", "C4Deployment"
  ]

  /** The characters keywords are spelt with. */
  predicate KeywordChar(c: char)
  {
    ('a' <= c <= 'z') || ('A' <= c <= 'Z') || ('0' <= c <= '9') || c == '-'
  }

  /** Keywords are non-empty and spelt with letters, digits and hyphens only. */
  predicate KeywordList(kws: seq<string>)
  {
    forall k :: 0 <= k < |kws| ==> kws[k] != [] && forall j :: 0 <= j < |kws[k]| ==> KeywordChar(kws[k][j])
  }

  lemma KeywordsWellFormed()
    ensures KeywordList(Keywords)
  {
  }

  /** `(kw1|kw2|...)\b` under the `i` flag matches at index `j`: some keyword occurs there,
      ignoring ASCII case, and no `\w` character follows it. */
  predicate KeywordAt(s: string, j: nat, kws: seq<string>)
  {
    exists k :: 0 <= k < |kws| && MatchesAt(s, j, kws[k], true) && !WordAt(s, j + |kws[k]|)
  }

  /** `(^|\n)\s*(kw1|kw2|...)\b` can match so that the diagram starts at `i`: `i` opens a line
      and a keyword follows the line's leading whitespace. */
  predicate DiagramStart(s: string, i: nat, kws: seq<string>)
  {
    i <= |s| && (i == 0 || s[i - 1] == '\n') && KeywordAt(s, SpaceRun(s, i), kws)
  }

  /** `i` is where `raw.match(pattern)` finds the diagram: the first place a diagram starts. */
  predicate FirstDiagramStart(s: string, i: nat, kws: seq<string>)
  {
    DiagramStart(s, i, kws) && forall k :: 0 <= k < i ==> !DiagramStart(s, k, kws)
  }

  /** `raw.match(pattern)`: the first place at or after `i` where a diagram starts. */
  function FindDiagramStart(s: string, i: nat, kws: seq<string>): (r: Option<nat>)
    requires i <= |s|
    ensures r.Some? ==> i <= r.value <= |s| && DiagramStart(s, r.value, kws)
    ensures r.Some? ==> forall k :: i <= k < r.value ==> !DiagramStart(s, k, kws)
    ensures r.None? ==> forall k :: i <= k <= |s| ==> !DiagramStart(s, k, kws)
    decreases |s| - i
  {
    if DiagramStart(s, i, kws) then Some(i)
    else if i == |s| then None
    else FindDiagramStart(s, i + 1, kws)
  }

  /** The start the scan finds is the one and only first diagram start. */
  lemma FoundIsFirst(s: string, i: nat, kws: seq<string>)
    requires FindDiagramStart(s, 0, kws) == Some(i)
    ensures FirstDiagramStart(s, i, kws)
    ensures forall j: nat :: FirstDiagramStart(s, j, kws) ==> j == i
  {
  }

  /** Steps 1 to 3 of extractMermaidDiagram_: entity decoding, removal of every "```mermaid"
      (any case) and then of every "```", and the special spaces turned into plain spaces. */
  function CleanForExtract(text: Option<string>): (raw: string)
    ensures forall c :: c in raw ==> !IsSpecialSpace(c)
    ensures NoFenceRun(raw)
  {
    var untagged := ReplaceAll(DecodeHtmlEntities(text), "```mermaid", "", true);
    var unfenced := ReplaceAll(untagged, "```", "");
    FenceRemovalLeavesNone(untagged);
    SpacesNormalised(unfenced);
    MapChars(unfenced, IsSpecialSpace, ' ')
  }

  /** Turning the special spaces into plain spaces leaves none of them and creates no
      run of backticks. */
  lemma SpacesNormalised(u: string)
    requires NoFenceRun(u)
    ensures var raw := MapChars(u, IsSpecialSpace, ' ');
      NoFenceRun(raw) && forall c :: c in raw ==> !IsSpecialSpace(c)
  {
    var raw := MapChars(u, IsSpecialSpace, ' ');
    forall k | 0 <= k && k + 2 < |raw| ensures !FenceRunAt(raw, k) {
      assert !FenceRunAt(u, k);
    }
  }

  /** Three backticks in a row start at index `k`. */
  predicate FenceRunAt(s: string, k: nat)
  {
    k + 2 < |s| && s[k] == '`' && s[k + 1] == '`' && s[k + 2] == '`'
  }

  predicate NoFenceRun(s: string)
  {
    forall k :: 0 <= k && k + 2 < |s| ==> !FenceRunAt(s, k)
  }

  /** Steps 4 and 5 of extractMermaidDiagram_ on the cleaned text `raw`: the text from the
      first diagram start on, trimmed, or the whole text trimmed when there is none. */
  function DiagramFrom(raw: string, kws: seq<string>): (r: string)
    requires KeywordList(kws)
    requires NoFenceRun(raw) && forall c :: c in raw ==> !IsSpecialSpace(c)
    ensures Trimmed(r) && NoFenceRun(r)
    ensures forall c :: c in r ==> !IsSpecialSpace(c)
    ensures (exists i :: DiagramStart(raw, i, kws)) ==> KeywordAt(r, 0, kws)
    ensures (exists i :: DiagramStart(raw, i, kws)) ==>
      exists i: nat :: FirstDiagramStart(raw, i, kws) && r == Trim(raw[i..])
    ensures forall i: nat :: FirstDiagramStart(raw, i, kws) ==> r == Trim(raw[i..])
    ensures (forall i :: !DiagramStart(raw, i, kws)) ==> r == Trim(raw)
  {
    match FindDiagramStart(raw, 0, kws)
    case Some(i) =>
      DiagramFromStart(raw, i, kws);
      FoundIsFirst(raw, i, kws);
      Trim(raw[i..])
    case None =>
      TrimKeepsNoFenceRun(raw);
      Trim(raw)
  }

  /** extractMermaidDiagram_: the result is trimmed, holds no code-fence marker and no special
      space; when some line opens with a keyword the result is the cleaned text from the first
      such line on, trimmed, and opens with that keyword; otherwise it is the whole cleaned
      text, trimmed. */
  function ExtractMermaidDiagram(text: Option<string>): (r: string)
    ensures text.None? ==> r == ""
    ensures Trimmed(r) && NoFenceRun(r)
    ensures forall c :: c in r ==> !IsSpecialSpace(c)
    ensures (exists i :: DiagramStart(CleanForExtract(text), i, Keywords)) ==> KeywordAt(r, 0, Keywords)
    ensures forall i: nat :: FirstDiagramStart(CleanForExtract(text), i, Keywords) ==>
      r == Trim(CleanForExtract(text)[i..])
    ensures (forall i :: !DiagramStart(CleanForExtract(text), i, Keywords)) ==> r == Trim(CleanForExtract(text))
  {
    KeywordsWellFormed();
    DiagramFrom(CleanForExtract(text), Keywords)
  }

  function Extract(s: string): string
  {
    ExtractMermaidDiagram(Some(s))
  }

  /** What is cut from a diagram start keeps the properties of the cleaned text and opens
      with the keyword. */
  lemma DiagramFromStart(raw: string, i: nat, kws: seq<string>)
    requires i <= |raw| && DiagramStart(raw, i, kws) && KeywordList(kws)
    requires NoFenceRun(raw) && forall c :: c in raw ==> !IsSpecialSpace(c)
    ensures var r := Trim(raw[i..]);
      NoFenceRun(r) && KeywordAt(r, 0, kws) && forall c :: c in r ==> !IsSpecialSpace(c)
  {
    SliceKeepsNoFenceRun(raw, i, |raw|);
    assert raw[i..] == raw[i..|raw|];
    TrimKeepsNoFenceRun(raw[i..]);
    TrimStartsAtKeyword(raw, i, kws);
    forall c | c in Trim(raw[i..]) ensures !IsSpecialSpace(c) {
      assert c in raw[i..];
    }
  }

  // ---------------------------------------------------------------------------
  // Why no code-fence marker survives.

  /** What the fence removal leaves starts with a backtick only where the text did. */
  lemma UnfencedHead(t: string)
    ensures var r := ReplaceAll(t, "```", "");
      |r| >= 1 && r[0] == '`' ==> |t| >= 1 && t[0] == '`'
  {
  }

  lemma UnfencedHead2(t: string)
    ensures var r := ReplaceAll(t, "```", "");
      |r| >= 2 && r[0] == '`' && r[1] == '`' ==> |t| >= 2 && t[0] == '`' && t[1] == '`'
  {
    if t != [] && !MatchesAt(t, 0, "```") {
      UnfencedHead(t[1..]);
    }
  }

  /** Removing every "```", leftmost first, leaves no three backticks in a row: a backtick
      left just before a removed marker would have begun a marker itself. */
  lemma {:induction false} FenceRemovalLeavesNone(s: string)
    ensures NoFenceRun(ReplaceAll(s, "```", ""))
    decreases |s|
  {
    if s != [] {
      if MatchesAt(s, 0, "```") {
        FenceRemovalLeavesNone(s[3..]);
        assert ReplaceAll(s, "```", "") == "" + ReplaceAll(s[3..], "```", "");
        assert "" + ReplaceAll(s[3..], "```", "") == ReplaceAll(s[3..], "```", "");
      } else {
        var rest := ReplaceAll(s[1..], "```", "");
        FenceRemovalLeavesNone(s[1..]);
        UnfencedHead2(s[1..]);
        var r := [s[0]] + rest;
        assert ReplaceAll(s, "```", "") == r;
        FenceAtHead(s);
        forall k | 0 <= k && k + 2 < |r| ensures !FenceRunAt(r, k) {
          if k > 0 {
            assert !FenceRunAt(rest, k - 1);
          }
        }
      }
    }
  }

  lemma FenceAtHead(s: string)
    ensures |s| >= 3 && s[0] == '`' && s[1] == '`' && s[2] == '`' ==> MatchesAt(s, 0, "```")
  {
  }

  lemma SliceKeepsNoFenceRun(s: string, a: nat, b: nat)
    requires NoFenceRun(s) && a <= b <= |s|
    ensures NoFenceRun(s[a..b])
  {
    forall k | 0 <= k && k + 2 < b - a ensures !FenceRunAt(s[a..b], k) {
      assert !FenceRunAt(s, a + k);
    }
  }

  lemma TrimKeepsNoFenceRun(s: string)
    requires NoFenceRun(s)
    ensures NoFenceRun(Trim(s))
  {
    var t := TrimStart(s);
    SliceKeepsNoFenceRun(s, |s| - |t|, |s|);
    assert t == s[|s| - |t|..|s|];
    assert TrimEnd(t) == t[0..|TrimEnd(t)|];
    SliceKeepsNoFenceRun(t, 0, |TrimEnd(t)|);
  }

  // ---------------------------------------------------------------------------
  // Why the result opens with the keyword that was found.

  /** A character that equals a non-space character up to ASCII case is not a space. */
  lemma SameCharNotSpace(c: char, d: char)
    requires SameChar(c, d, true) && !IsSpace(d)
    ensures !IsSpace(c)
  {
  }

  lemma {:induction false} SpaceRunSlice(s: string, i: nat, j: nat)
    requires i <= j <= |s|
    ensures SpaceRun(s[i..], j - i) + i == SpaceRun(s, j)
    decreases |s| - j
  {
    if j < |s| {
      assert s[i..][j - i] == s[j];
      if IsSpace(s[j]) {
        SpaceRunSlice(s, i, j + 1);
      }
    }
  }

  /** Trimming the text from a diagram start leaves the keyword at its head. */
  lemma TrimStartsAtKeyword(raw: string, i: nat, kws: seq<string>)
    requires i <= |raw| && DiagramStart(raw, i, kws) && KeywordList(kws)
    ensures KeywordAt(Trim(raw[i..]), 0, kws)
  {
    var j := SpaceRun(raw, i);
    var k :| 0 <= k < |kws| && MatchesAt(raw, j, kws[k], true) && !WordAt(raw, j + |kws[k]|);
    TrimFromKeyword(raw, i, k, kws);
  }

  lemma TrimFromKeyword(raw: string, i: nat, k: nat, kws: seq<string>)
    requires i <= |raw| && KeywordList(kws) && k < |kws|
    requires MatchesAt(raw, SpaceRun(raw, i), kws[k], true) && !WordAt(raw, SpaceRun(raw, i) + |kws[k]|)
    ensures KeywordAt(Trim(raw[i..]), 0, kws)
  {
    var j := SpaceRun(raw, i);
    SpaceRunSlice(raw, i, i);
    var x := TrimStart(raw[i..]);
    assert x == raw[j..];
    MatchesDrop(raw, j, kws[k]);
    WordAtSuffix(raw, j, |kws[k]|);
    TrimEndKeepsKeyword(x, kws, k);
  }

  lemma WordAtSuffix(s: string, j: nat, n: nat)
    requires j <= |s|
    ensures WordAt(s[j..], n) == WordAt(s, j + n)
  {
    if n < |s[j..]| {
      assert s[j..][n] == s[j + n];
    }
  }

  lemma TrimEndKeepsKeyword(x: string, kws: seq<string>, k: nat)
    requires KeywordList(kws) && k < |kws|
    requires MatchesAt(x, 0, kws[k], true) && !WordAt(x, |kws[k]|)
    ensures KeywordAt(TrimEnd(x), 0, kws)
  {
    var kw := kws[k];
    MatchesAtChars(x, 0, kw, |kw| - 1, true);
    assert KeywordChar(kw[|kw| - 1]);
    SameCharNotSpace(x[|kw| - 1], kw[|kw| - 1]);
    var y := TrimEnd(x);
    assert |y| >= |kw|;
    MatchesTruncate(x, kw, |y|);
    if |kw| < |y| {
      assert y[|kw|] == x[|kw|];
    }
  }

  /** A match at `j` is a match at 0 of the text from `j` on. */
  lemma {:induction false} MatchesDrop(s: string, j: nat, pat: string)
    requires j <= |s| && MatchesAt(s, j, pat, true)
    ensures MatchesAt(s[j..], 0, pat, true)
  {
    MatchesDropFrom(s, j, 0, pat);
  }

  lemma {:induction false} MatchesDropFrom(s: string, j: nat, i: nat, pat: string)
    requires j <= |s| && MatchesAt(s, j + i, pat, true)
    ensures MatchesAt(s[j..], i, pat, true)
    decreases |pat|
  {
    if pat != [] {
      MatchesDropFrom(s, j, i + 1, pat[1..]);
    }
  }

  /** A match at 0 survives cutting the text anywhere after it. */
  lemma {:induction false} MatchesTruncate(x: string, pat: string, m: nat)
    requires MatchesAt(x, 0, pat, true) && |pat| <= m <= |x|
    ensures MatchesAt(x[..m], 0, pat, true)
  {
    MatchesTruncateFrom(x, 0, pat, m);
  }

  lemma {:induction false} MatchesTruncateFrom(x: string, i: nat, pat: string, m: nat)
    requires MatchesAt(x, i, pat, true) && i + |pat| <= m <= |x|
    ensures MatchesAt(x[..m], i, pat, true)
    decreases |pat|
  {
    if pat != [] {
      MatchesTruncateFrom(x, i + 1, pat[1..], m);
    }
  }

  // ---------------------------------------------------------------------------
  // Text that needs no cleaning, and worked cases of tests/extractMermaidDiagram.test.js.

  /** A text without `&`, backticks or special spaces passes the cleaning steps unchanged. */
  lemma CleanKeepsPlainText(s: string)
    requires '&' !in s && '`' !in s && forall c :: c in s ==> !IsSpecialSpace(c)
    ensures CleanForExtract(Some(s)) == s
  {
    assert DecodeHtmlEntities(Some(s)) == s;
    forall k | 0 <= k < |s| ensures !SameChar(s[k], '`', true) && !SameChar(s[k], '`', false) {
      assert s[k] in s;
    }
    assert ReplaceAll(s, "```mermaid", "", true) == s;
    assert ReplaceAll(s, "```", "") == s;
    MapCharsKeeps(s, IsSpecialSpace, ' ');
  }

  /** A diagram that opens the text is the whole result. */
  lemma LeadingDiagram(s: string, kws: seq<string>, k: nat)
    requires KeywordList(kws) && NoFenceRun(s) && forall c :: c in s ==> !IsSpecialSpace(c)
    requires Trimmed(s) && k < |kws| && MatchesAt(s, 0, kws[k], true) && !WordAt(s, |kws[k]|)
    ensures DiagramFrom(s, kws) == s
  {
    assert s != [];
    assert SpaceRun(s, 0) == 0;
    assert DiagramStart(s, 0, kws);
    TrimmedFixed(s);
  }

  /** Without backticks there is no run of them. */
  lemma NoBacktickNoRun(s: string)
    requires '`' !in s
    ensures NoFenceRun(s)
  {
    forall k | 0 <= k && k + 2 < |s| ensures !FenceRunAt(s, k) {
      assert s[k] in s;
    }
  }

  /** Text the cleaning steps leave alone: no `&`, no backtick, no special space. */
  predicate Plain(s: string)
  {
    forall c :: c in s ==> c != '&' && c != '`' && !IsSpecialSpace(c)
  }

  lemma PlainJoin(a: string, b: string)
    requires Plain(a) && Plain(b)
    ensures Plain(a + b)
  {
    forall c | c in a + b ensures c != '&' && c != '`' && !IsSpecialSpace(c) {
      assert c in a || c in b;
    }
  }

  /** Plain text is cleaned to itself and holds no run of backticks. */
  lemma PlainCleaned(s: string)
    requires Plain(s)
    ensures CleanForExtract(Some(s)) == s && NoFenceRun(s)
    ensures forall c :: c in s ==> !IsSpecialSpace(c)
  {
    CleanKeepsPlainText(s);
    NoBacktickNoRun(s);
  }

  /** The first two characters of `pre` rule out the keyword `kw` at its head. */
  predicate OpensApart(pre: string, kw: string)
  {
    |pre| >= 2 && |kw| >= 2 && (Lower(pre[0]) != Lower(kw[0]) || Lower(pre[1]) != Lower(kw[1]))
  }

  /** A text that opens with `pre` has no keyword at its head. */
  lemma NoKeywordAtHead(s: string, pre: string, kws: seq<string>)
    requires |pre| <= |s| && s[..|pre|] == pre
    requires forall k :: 0 <= k < |kws| ==> OpensApart(pre, kws[k])
    ensures !KeywordAt(s, 0, kws)
  {
    forall k | 0 <= k < |kws| ensures !MatchesAt(s, 0, kws[k], true) {
      var kw := kws[k];
      assert OpensApart(pre, kw);
      assert s[0] == pre[0] && s[1] == pre[1] && kw[1..][0] == kw[1];
    }
  }

  /** The keyword of a diagram line is not preceded by whitespace in it. */
  lemma KeywordOpensBody(body: string, kws: seq<string>, k: nat)
    requires KeywordList(kws) && k < |kws| && MatchesAt(body, 0, kws[k], true)
    ensures body != [] && !IsSpace(body[0])
  {
    MatchesAtChars(body, 0, kws[k], 0, true);
    assert KeywordChar(kws[k][0]);
    SameCharNotSpace(body[0], kws[k][0]);
  }

  /** A diagram after one line of prose: the prose has no line break and does not open
      with a keyword, so the diagram's line is the first start and the result is the
      diagram, whatever keywords follow in it. */
  lemma DiagramAfterLine(pre: string, body: string, kws: seq<string>, k: nat)
    requires KeywordList(kws) && k < |kws|
    requires NoFenceRun(pre + ['\n'] + body) && forall c :: c in pre + ['\n'] + body ==> !IsSpecialSpace(c)
    requires pre != [] && !IsSpace(pre[0]) && '\n' !in pre
    requires forall j :: 0 <= j < |kws| ==> OpensApart(pre, kws[j])
    requires Trimmed(body) && MatchesAt(body, 0, kws[k], true) && !WordAt(body, |kws[k]|)
    ensures DiagramFrom(pre + ['\n'] + body, kws) == body
  {
    var s := pre + ['\n'] + body;
    var i := |pre| + 1;
    KeywordOpensBody(body, kws, k);
    LineStartAt(s, pre, body);
    assert DiagramStart(s, i, kws) by {
      BodyKeyword(s, i, body, kws[k]);
    }
    forall j | 0 <= j < i ensures !DiagramStart(s, j, kws) {
      if j == 0 {
        assert s[0] == pre[0];
        SpaceRunTo(s, 0, 0);
        NoKeywordAtHead(s, pre, kws);
      } else {
        assert s[j - 1] == pre[j - 1] && pre[j - 1] in pre;
      }
    }
    assert FirstDiagramStart(s, i, kws);
    TrimmedFixed(body);
  }

  lemma LineStartAt(s: string, pre: string, body: string)
    requires s == pre + ['\n'] + body && body != [] && !IsSpace(body[0])
    ensures s[|pre| + 1..] == body && s[|pre|] == '\n' && s[..|pre|] == pre
    ensures SpaceRun(s, |pre| + 1) == |pre| + 1
  {
    assert s[|pre| + 1] == body[0];
  }

  /** The keyword that opens the text from `i` is a keyword at `i`. */
  lemma BodyKeyword(s: string, i: nat, body: string, kw: string)
    requires i <= |s| && s[i..] == body && MatchesAt(body, 0, kw, true) && !WordAt(body, |kw|)
    ensures MatchesAt(s, i, kw, true) && !WordAt(s, i + |kw|)
  {
    MatchesInSuffix(s, i, 0, kw, true);
    if i + |kw| < |s| {
      assert s[i + |kw|] == body[|kw|];
    }
  }

  /** A diagram framed by whitespace is the whole result, the frame trimmed away. */
  lemma DiagramBetweenSpaces(w: string, body: string, w2: string, kws: seq<string>, k: nat)
    requires KeywordList(kws) && k < |kws|
    requires NoFenceRun(w + body + w2) && forall c :: c in w + body + w2 ==> !IsSpecialSpace(c)
    requires AllSpace(w) && AllSpace(w2)
    requires Trimmed(body) && MatchesAt(body, 0, kws[k], true) && !WordAt(body, |kws[k]|)
    ensures DiagramFrom(w + body + w2, kws) == body
  {
    var s := w + body + w2;
    FramedStart(w, body, w2, kws, k);
    assert FirstDiagramStart(s, 0, kws);
    TrimOver(w, body, w2);
    assert s[0..] == s;
  }

  lemma FramedStart(w: string, body: string, w2: string, kws: seq<string>, k: nat)
    requires KeywordList(kws) && k < |kws| && AllSpace(w) && AllSpace(w2)
    requires MatchesAt(body, 0, kws[k], true) && !WordAt(body, |kws[k]|)
    ensures DiagramStart(w + body + w2, 0, kws)
  {
    var s := w + body + w2;
    KeywordOpensBody(body, kws, k);
    assert s == w + (body + w2);
    SpaceRunOver(w, body + w2, 0);
    assert s[|w|..] == body + w2;
    MatchesExtend(body, w2, 0, kws[k], true);
    if |kws[k]| < |body| {
      assert (body + w2)[|kws[k]|] == body[|kws[k]|];
    } else if w2 != [] {
      assert (body + w2)[|kws[k]|] == w2[0];
    }
    BodyKeyword(s, |w|, body + w2, kws[k]);
  }

  /** Scanning passes over a stretch that holds no character the pattern opens with. */
  lemma {:induction false} ReplaceAllPasses(t: string, rest: string, pat: string, ic: bool)
    requires pat != [] && forall c :: c in t ==> !SameChar(c, pat[0], ic)
    ensures ReplaceAll(t + rest, pat, "", ic) == t + ReplaceAll(rest, pat, "", ic)
    decreases |t|
  {
    if t != [] {
      var u := t + rest;
      assert u[0] == t[0] && t[0] in t;
      assert !MatchesAt(u, 0, pat, ic);
      assert u[1..] == t[1..] + rest;
      assert ReplaceAll(u, pat, "", ic) == [u[0]] + ReplaceAll(u[1..], pat, "", ic);
      assert forall c :: c in t[1..] ==> c in t;
      ReplaceAllPasses(t[1..], rest, pat, ic);
      ConsAgain(t, ReplaceAll(rest, pat, "", ic));
    } else {
      assert t + rest == rest;
    }
  }

  lemma ConsAgain(t: string, r: string)
    requires t != []
    ensures [t[0]] + (t[1..] + r) == t + r
  {
    assert [t[0]] + t[1..] == t;
  }

  /** A fenced block, tagged `mermaid`, is cleaned to what lies between the fences. */
  lemma CleanFenced(x: string)
    requires Plain(x)
    ensures CleanForExtract(Some("```mermaid" + x + "```")) == x
  {
    var s := "```mermaid" + x + "```";
    FencedDecoded(x, s);
    FencedUntagged(x, s);
    FencedUnfenced(x);
    MapCharsKeeps(x, IsSpecialSpace, ' ');
  }

  lemma FencedDecoded(x: string, s: string)
    requires Plain(x) && s == "```mermaid" + x + "```"
    ensures DecodeHtmlEntities(Some(s)) == s
  {
    assert '&' !in s by {
      assert forall c :: c in s ==> c in "```mermaid" || c in x || c == '`';
    }
  }

  lemma FencedUntagged(x: string, s: string)
    requires Plain(x) && s == "```mermaid" + x + "```"
    ensures ReplaceAll(s, "```mermaid", "", true) == x + "```"
  {
    assert s == "```mermaid" + (x + "```");
    PrefixMatches("```mermaid", x + "```", true);
    assert s[10..] == x + "```";
    assert ReplaceAll(s, "```mermaid", "", true) == "" + ReplaceAll(x + "```", "```mermaid", "", true);
    NoBacktickIn(x);
    ReplaceAllPasses(x, "```", "```mermaid", true);
    FenceLeft();
  }

  lemma FencedUnfenced(x: string)
    requires Plain(x)
    ensures ReplaceAll(x + "```", "```", "") == x
  {
    NoBacktickIn(x);
    ReplaceAllPasses(x, "```", "```", false);
    FenceLeft();
    assert x + [] == x;
  }

  lemma NoBacktickIn(x: string)
    requires Plain(x)
    ensures forall c :: c in x ==> !SameChar(c, '`', true) && !SameChar(c, '`', false)
  {
  }

  lemma FenceLeft()
    ensures ReplaceAll("```", "```mermaid", "", true) == "```"
    ensures ReplaceAll("```", "```", "") == []
  {
    PrefixMatches("```", [], false);
    assert "```" + [] == "```";
  }

  /** Markup escaped as entities is decoded before the search: plain text, escaped, is
      cleaned back to itself. */
  lemma CleanEscaped(x: string)
    requires Plain(x)
    ensures CleanForExtract(Some(EscapeHtml(x))) == x
  {
    DecodeEscaped(x);
    PlainUntouched(x);
    MapCharsKeeps(x, IsSpecialSpace, ' ');
  }

  /** None of the three replacements of the cleaning finds anything in plain text. */
  lemma PlainUntouched(x: string)
    requires Plain(x)
    ensures ReplaceAll(x, "&nbsp;", " ") == x
    ensures ReplaceAll(x, "```mermaid", "", true) == x && ReplaceAll(x, "```", "") == x
  {
    var amp, tick := "&nbsp;"[0], "```"[0];
    assert amp == '&' && tick == '`' && "```mermaid"[0] == '`';
    forall k | 0 <= k < |x| ensures !SameChar(x[k], amp, false) && !SameChar(x[k], tick, true) && !SameChar(x[k], tick, false) {
      assert x[k] in x;
    }
  }

  /** How the keywords open, up to ASCII case: enough to tell a line of prose from them. */
  predicate KeywordOpening(kw: string)
    requires |kw| >= 2
  {
    var a, b := Lower(kw[0]), Lower(kw[1]);
    a == 'f' || a == 'g' || a == 'c' || a == 'e' || a == 'm' || a == 't' || a == 'p'
    || (a == 's' && (b == 'e' || b == 't')) || (a == 'j' && b == 'o')
  }

  lemma KeywordOpenings()
    ensures forall j :: 0 <= j < |Keywords| ==> |Keywords[j]| >= 2 && KeywordOpening(Keywords[j])
  {
  }

  /** A line whose first two characters no keyword opens with. */
  lemma ProseOpening(pre: string)
    requires |pre| >= 2 && !KeywordOpening(pre)
    ensures forall j :: 0 <= j < |Keywords| ==> OpensApart(pre, Keywords[j])
  {
    KeywordOpenings();
  }

  /** A diagram after one line of prose is extracted from its keyword on. */
  lemma ExtractAfterLine(pre: string, kw: string, rest: string, k: nat)
    requires k < |Keywords| && Keywords[k] == kw
    requires Plain(pre) && Plain(kw) && Plain(rest)
    requires |pre| >= 2 && !KeywordOpening(pre) && !IsSpace(pre[0]) && '\n' !in pre
    requires rest != [] && !IsWordChar(rest[0]) && !IsSpace(rest[|rest| - 1])
    ensures Extract(pre + ['\n'] + (kw + rest)) == kw + rest
  {
    var body := kw + rest;
    LineBody(pre, kw, rest, k);
    PlainCleaned(pre + ['\n'] + body);
    ProseOpening(pre);
    DiagramAfterLine(pre, body, Keywords, k);
  }

  /** A keyword followed by the rest of its diagram. */
  lemma KeywordBody(kw: string, rest: string, k: nat)
    requires KeywordList(Keywords) && k < |Keywords| && Keywords[k] == kw
    requires rest != [] && !IsWordChar(rest[0]) && !IsSpace(rest[|rest| - 1])
    ensures Trimmed(kw + rest) && MatchesAt(kw + rest, 0, kw, true) && !WordAt(kw + rest, |kw|)
  {
    assert kw != [] && KeywordChar(kw[0]);
    PrefixMatches(kw, rest, true);
    assert (kw + rest)[|kw|] == rest[0];
  }

  /** `Here is a diagram:` before `flowchart TD\n  A --> B` is cut away (tests lines 6-10). */
  lemma ExtractAfterProse(pre: string, kw: string, rest: string)
    requires pre == "Here is a diagram:" && kw == "flowchart" && rest == " TD\n  A --> B"
    ensures Extract(pre + ['\n'] + (kw + rest)) == kw + rest
  {
    ProseChars(pre);
    PlainKeyword(kw);
    PlainRest(rest);
    ExtractAfterLine(pre, kw, rest, 0);
  }

  /** Of `sequenceDiagram` and `graph`, the first line that opens a diagram wins (tests lines
      45-50). */
  lemma ExtractFirstOfSeveral(pre: string, kw: string, rest: string)
    requires pre == "Some text" && kw == "sequenceDiagram"
    requires rest == "\n  A->>B: Hello\n\ngraph TD\n  C-->D"
    ensures Extract(pre + ['\n'] + (kw + rest)) == kw + rest
  {
    ProseChars(pre);
    PlainKeyword(kw);
    PlainSequence(rest);
    ExtractAfterLine(pre, kw, rest, 2);
  }

  /** A fenced `mermaid` block holding a diagram on lines of its own is unwrapped. */
  lemma ExtractFenced(kw: string, rest: string, k: nat)
    requires k < |Keywords| && Keywords[k] == kw
    requires Plain(kw) && Plain(rest)
    requires rest != [] && !IsWordChar(rest[0]) && !IsSpace(rest[|rest| - 1])
    ensures Extract("```mermaid" + (['\n'] + (kw + rest) + ['\n']) + "```") == kw + rest
  {
    var body := kw + rest;
    var x := ['\n'] + body + ['\n'];
    FencedBody(kw, rest, k);
    CleanFenced(x);
    KeywordsWellFormed();
    DiagramBetweenSpaces(['\n'], body, ['\n'], Keywords, k);
  }

  lemma FencedBody(kw: string, rest: string, k: nat)
    requires k < |Keywords| && Keywords[k] == kw
    requires Plain(kw) && Plain(rest)
    requires rest != [] && !IsWordChar(rest[0]) && !IsSpace(rest[|rest| - 1])
    ensures Plain(['\n'] + (kw + rest) + ['\n']) && NoFenceRun(['\n'] + (kw + rest) + ['\n'])
    ensures forall c :: c in ['\n'] + (kw + rest) + ['\n'] ==> !IsSpecialSpace(c)
    ensures AllSpace(['\n'])
    ensures Trimmed(kw + rest) && MatchesAt(kw + rest, 0, kw, true) && !WordAt(kw + rest, |kw|)
  {
    var body := kw + rest;
    KeywordsWellFormed();
    KeywordBody(kw, rest, k);
    PlainJoin(kw, rest);
    PlainJoin(['\n'], body);
    PlainJoin(['\n'] + body, ['\n']);
    PlainCleaned(['\n'] + body + ['\n']);
  }

  /** A line of escaped prose before a diagram is cut away once the text is decoded. */
  lemma ExtractEscapedAfterLine(pre: string, kw: string, rest: string, k: nat)
    requires k < |Keywords| && Keywords[k] == kw
    requires Plain(pre) && Plain(kw) && Plain(rest)
    requires |pre| >= 2 && !KeywordOpening(pre) && !IsSpace(pre[0]) && '\n' !in pre
    requires rest != [] && !IsWordChar(rest[0]) && !IsSpace(rest[|rest| - 1])
    ensures Extract(EscapeHtml(pre + ['\n'] + (kw + rest))) == kw + rest
  {
    var body := kw + rest;
    LineBody(pre, kw, rest, k);
    CleanEscaped(pre + ['\n'] + body);
    ProseOpening(pre);
    DiagramAfterLine(pre, body, Keywords, k);
  }

  lemma LineBody(pre: string, kw: string, rest: string, k: nat)
    requires k < |Keywords| && Keywords[k] == kw
    requires Plain(pre) && Plain(kw) && Plain(rest)
    requires rest != [] && !IsWordChar(rest[0]) && !IsSpace(rest[|rest| - 1])
    ensures KeywordList(Keywords) && Plain(pre + ['\n'] + (kw + rest))
    ensures NoFenceRun(pre + ['\n'] + (kw + rest))
    ensures forall c :: c in pre + ['\n'] + (kw + rest) ==> !IsSpecialSpace(c)
    ensures Trimmed(kw + rest) && MatchesAt(kw + rest, 0, kw, true) && !WordAt(kw + rest, |kw|)
  {
    var body := kw + rest;
    KeywordsWellFormed();
    KeywordBody(kw, rest, k);
    PlainJoin(kw, rest);
    PlainJoin(pre, ['\n']);
    PlainJoin(pre + ['\n'], body);
    PlainCleaned(pre + ['\n'] + body);
  }

  /** A single line of prose that no keyword opens comes back trimmed. */
  lemma ExtractProse(s: string)
    requires Plain(s) && Trimmed(s) && |s| >= 2 && !KeywordOpening(s) && '\n' !in s
    ensures Extract(s) == s
  {
    PlainCleaned(s);
    NoStartInLine(s);
    TrimmedFixed(s);
  }

  lemma NoStartInLine(s: string)
    requires Trimmed(s) && |s| >= 2 && !KeywordOpening(s) && '\n' !in s
    ensures forall i :: !DiagramStart(s, i, Keywords)
  {
    ProseOpening(s);
    assert SpaceRun(s, 0) == 0;
    NoKeywordAtHead(s, s, Keywords);
    forall i | DiagramStart(s, i, Keywords) ensures false { }
  }

  /** `` ```mermaid `` fences around `flowchart TD\n  A --> B` are dropped (tests lines
      18-22). */
  lemma ExtractFencedBlock(kw: string, rest: string)
    requires kw == "flowchart" && rest == " TD\n  A --> B"
    ensures Extract("```mermaid" + (['\n'] + (kw + rest) + ['\n']) + "```") == kw + rest
  {
    PlainKeyword(kw);
    PlainRest(rest);
    ExtractFenced(kw, rest, 0);
  }

  /** Escaped markup around a diagram is decoded first; the closing tag stays in the diagram's
      text (tests lines 24-33). */
  lemma ExtractEscapedMarkup(pre: string, kw: string, rest: string, s: string)
    requires pre == "<div>" && kw == "flowchart" && rest == " TD\n  A --> B\n</div>"
    requires s == "&lt;div&gt;\nflowchart TD\n  A --&gt; B\n&lt;/div&gt;"
    ensures Extract(s) == kw + rest
  {
    EscapedDiv(pre, kw, rest, s);
    ProseChars(pre);
    PlainKeyword(kw);
    PlainRest(rest);
    ExtractEscapedAfterLine(pre, kw, rest, 0);
  }

  lemma EscapedDiv(pre: string, kw: string, rest: string, s: string)
    requires pre == "<div>" && kw == "flowchart" && rest == " TD\n  A --> B\n</div>"
    requires s == "&lt;div&gt;\nflowchart TD\n  A --&gt; B\n&lt;/div&gt;"
    ensures EscapeHtml(pre + ['\n'] + (kw + rest)) == s
  {
    var x := pre + ['\n'] + (kw + rest);
    var m1, m2 := "\nflowchart TD\n  A --", " B\n";
    var m := m1 + ">" + m2;
    DivUnescaped(pre, kw, rest, m1, m2);
    EscapeSplits("<div>", m, "</div>", x);
    EscapeSplits(m1, ">", m2, m);
    DivLines(m1, m2);
    DivTags();
    DivEscaped(s, m1, m2);
  }

  lemma DivUnescaped(pre: string, kw: string, rest: string, m1: string, m2: string)
    requires pre == "<div>" && kw == "flowchart" && rest == " TD\n  A --> B\n</div>"
    requires m1 == "\nflowchart TD\n  A --" && m2 == " B\n"
    ensures pre + ['\n'] + (kw + rest) == "<div>" + (m1 + ">" + m2) + "</div>"
  {
  }

  lemma DivEscaped(s: string, m1: string, m2: string)
    requires s == "&lt;div&gt;\nflowchart TD\n  A --&gt; B\n&lt;/div&gt;"
    requires m1 == "\nflowchart TD\n  A --" && m2 == " B\n"
    ensures s == "&lt;div&gt;" + (m1 + "&gt;" + m2) + "&lt;/div&gt;"
  {
  }

  lemma DivTags()
    ensures EscapeHtml("<div>") == "&lt;div&gt;" && EscapeHtml("</div>") == "&lt;/div&gt;"
    ensures EscapeHtml(">") == "&gt;"
  {
    CloseTag();
  }

  lemma CloseTag()
    ensures EscapeHtml("</div>") == "&lt;/div&gt;"
  {
  }

  lemma DivLines(m1: string, m2: string)
    requires m1 == "\nflowchart TD\n  A --" && m2 == " B\n"
    ensures EscapeHtml(m1) == m1 && EscapeHtml(m2) == m2
  {
    forall c | c in m1 ensures c != '&' && c != '<' && c != '>' && c != '"' && c != '\'' {
      var k :| 0 <= k < |m1| && m1[k] == c;
    }
    EscapeKeeps(m1);
    EscapeKeeps(m2);
  }

  /** `Just some text without a diagram.` is returned as it is (tests lines 35-38). */
  lemma ExtractProseOnly(s: string)
    requires s == "Just some text without a diagram."
    ensures Extract(s) == s
  {
    ProseOnlyChars(s);
    ExtractProse(s);
  }

  lemma ProseOnlyChars(s: string)
    requires s == "Just some text without a diagram."
    ensures Plain(s) && |s| >= 2 && !KeywordOpening(s) && '\n' !in s && Trimmed(s)
  {
    forall c | c in s ensures c != '&' && c != '`' && !IsSpecialSpace(c) && c != '\n' {
      var k :| 0 <= k < |s| && s[k] == c;
    }
  }

  lemma ProseChars(pre: string)
    requires pre == "Here is a diagram:" || pre == "Some text" || pre == "<div>"
    ensures Plain(pre) && |pre| >= 2 && !KeywordOpening(pre) && !IsSpace(pre[0]) && '\n' !in pre
  {
    forall c | c in pre ensures c != '&' && c != '`' && !IsSpecialSpace(c) && c != '\n' {
      var k :| 0 <= k < |pre| && pre[k] == c;
    }
  }

  lemma PlainKeyword(kw: string)
    requires kw == "flowchart" || kw == "sequenceDiagram"
    ensures Plain(kw) && Keywords[0] == "flowchart" && Keywords[2] == "sequenceDiagram"
  {
    forall c | c in kw ensures c != '&' && c != '`' && !IsSpecialSpace(c) {
      var k :| 0 <= k < |kw| && kw[k] == c;
    }
  }

  lemma PlainSequence(rest: string)
    requires rest == "\n  A->>B: Hello\n\ngraph TD\n  C-->D"
    ensures Plain(rest) && rest != [] && !IsWordChar(rest[0]) && !IsSpace(rest[|rest| - 1])
  {
    forall c | c in rest ensures c != '&' && c != '`' && !IsSpecialSpace(c) {
      var k :| 0 <= k < |rest| && rest[k] == c;
    }
  }

  lemma PlainRest(rest: string)
    requires rest == " TD\n  A --> B" || rest == " TD\n  A --> B\n</div>"
    ensures Plain(rest) && rest != [] && !IsWordChar(rest[0]) && !IsSpace(rest[|rest| - 1])
  {
    forall c | c in rest ensures c != '&' && c != '`' && !IsSpecialSpace(c) {
      var k :| 0 <= k < |rest| && rest[k] == c;
    }
  }

  lemma ExtractFlowchart(s: string)
    requires s == "flowchart TD\n  A --> B"
    ensures Extract(s) == s
  {
    FlowchartChars(s);
    FlowchartShape(s);
    CleanKeepsPlainText(s);
    NoBacktickNoRun(s);
    KeywordsWellFormed();
    FirstKeyword();
    LeadingDiagram(s, Keywords, 0);
  }

  lemma ExtractUpperCaseKeyword(s: string)
    requires s == "FLOWCHART TD\n  A --> B"
    ensures Extract(s) == s
  {
    FlowchartChars(s);
    FlowchartShape(s);
    CleanKeepsPlainText(s);
    NoBacktickNoRun(s);
    KeywordsWellFormed();
    FirstKeyword();
    LeadingDiagram(s, Keywords, 0);
  }

  lemma FirstKeyword()
    ensures Keywords[0] == "flowchart"
  {
  }

  lemma FlowchartChars(s: string)
    requires s == "flowchart TD\n  A --> B" || s == "FLOWCHART TD\n  A --> B"
    ensures '&' !in s && '`' !in s && forall c :: c in s ==> !IsSpecialSpace(c)
  {
    forall c | c in s ensures c != '&' && c != '`' && !IsSpecialSpace(c) {
      var k :| 0 <= k < |s| && s[k] == c;
    }
  }

  lemma FlowchartShape(s: string)
    requires s == "flowchart TD\n  A --> B" || s == "FLOWCHART TD\n  A --> B"
    ensures Trimmed(s) && !WordAt(s, 9)
    ensures MatchesAt(s, 0, "flowchart", true)
  {
    KeywordMatches(s);
    FlowchartEnds(s);
  }

  lemma FlowchartEnds(s: string)
    requires s == "flowchart TD\n  A --> B" || s == "FLOWCHART TD\n  A --> B"
    ensures Trimmed(s) && !WordAt(s, 9)
  {
    assert s[9] == ' ' && !IsSpace(s[0]) && !IsSpace(s[|s| - 1]);
  }

  /** Either spelling of the keyword matches case-insensitively. */
  lemma KeywordMatches(s: string)
    requires s == "flowchart TD\n  A --> B" || s == "FLOWCHART TD\n  A --> B"
    ensures MatchesAt(s, 0, "flowchart", true)
  {
    assert MatchesAt(s, 7, "rt", true);
    assert MatchesAt(s, 4, "chart", true);
    assert MatchesAt(s, 1, "lowchart", true);
  }
}
