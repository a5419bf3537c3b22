/**
 * stripMarkdownCodeFences_ (main.js:199-205): removes one Markdown code fence that opens
 * the text (optionally tagged `mermaid`, in any case) and one that closes it, then trims.
 */
module Fences {
  import opened Wrappers
  import opened JsText

  const Fence: string := "```"

  /** The text ends with three backticks. */
  predicate EndsWithFence(s: string)
  {
    |s| >= 3 && s[|s| - 3..] == Fence
  }

  /** `s.replace(/^\s*```(?:mermaid)?\s*&#47;i, '')`: the opening fence, its tag and the
      whitespace around them go; a text that does not open with a fence is kept whole.
      What is left is a suffix of the text. */
  function StripOpeningFence(s: string): (r: string)
    ensures |r| <= |s| && r == s[|s| - |r|..]
    ensures !MatchesAt(TrimStart(s), 0, Fence) ==> r == s
  {
    var t := TrimStart(s);
    if MatchesAt(t, 0, Fence) then
      var u := t[3..];
      var v := if MatchesAt(u, 0, "mermaid", true) then u[7..] else u;
      assert v == s[|s| - |v|..];
      TrimStart(v)
    else s
  }

  /** What the opening fence leaves: the tag goes only when it is `mermaid` in some mix of
      cases; any other text after the fence stays, less the whitespace before it. */
  lemma OpeningFenceCut(s: string)
    ensures var t := TrimStart(s);
      MatchesAt(t, 0, Fence) && MatchesAt(t, 3, "mermaid", true) ==>
        StripOpeningFence(s) == TrimStart(t[10..])
    ensures var t := TrimStart(s);
      MatchesAt(t, 0, Fence) && !MatchesAt(t, 3, "mermaid", true) ==>
        StripOpeningFence(s) == TrimStart(t[3..])
  {
    var t := TrimStart(s);
    if MatchesAt(t, 0, Fence) {
      MatchesInSuffix(t, 3, 0, "mermaid", true);
      if MatchesAt(t, 3, "mermaid", true) {
        assert t[3..][7..] == t[10..];
      }
    }
  }

  /** `s.replace(/\s*```[\s\r\n]*$/i, '')`: a fence followed only by whitespace goes, with the
      whitespace on both sides of it; a text that does not close with a fence is kept whole.
      What is left is a prefix of the text. */
  function StripClosingFence(s: string): (r: string)
    ensures |r| <= |s| && r == s[..|r|]
    ensures !EndsWithFence(TrimEnd(s)) ==> r == s
    ensures EndsWithFence(TrimEnd(s)) ==> |r| <= |TrimEnd(s)| - 3
  {
    var t := TrimEnd(s);
    if EndsWithFence(t) then TrimEnd(t[..|t| - 3]) else s
  }

  /** stripMarkdownCodeFences_: absent input gives the empty string; the result is trimmed,
      no longer than the input and made of the input's characters. */
  function StripMarkdownCodeFences(text: Option<string>): (r: string)
    ensures text.None? ==> r == ""
    ensures Trimmed(r)
    ensures |r| <= |OrEmpty(text)| && forall c :: c in r ==> c in OrEmpty(text)
  {
    var s := OrEmpty(text);
    var o := StripOpeningFence(s);
    var t := StripClosingFence(o);
    FencesKeepChars(s, o, t);
    Trim(t)
  }

  /** A prefix of a suffix of `s` holds only characters of `s`. */
  lemma FencesKeepChars(s: string, o: string, t: string)
    requires |o| <= |s| && o == s[|s| - |o|..] && |t| <= |o| && t == o[..|t|]
    ensures |t| <= |s| && forall c :: c in t ==> c in s
  {
    forall c | c in t ensures c in s {
      var k :| 0 <= k < |t| && t[k] == c;
      assert o[k] == c;
      assert s[|s| - |o| + k] == c;
    }
  }

  function Strip(s: string): string
  {
    StripMarkdownCodeFences(Some(s))
  }

  /** A text without backticks is only trimmed. */
  lemma StripPlainText(s: string)
    requires '`' !in s
    ensures Strip(s) == Trim(s)
  {
    var t := TrimStart(s);
    if t != [] {
      assert t[0] in s;
      NoMatchWhereDiffer(t, 0, Fence, 0);
    }
    assert StripOpeningFence(s) == s;
    var e := TrimEnd(s);
    if |e| >= 3 {
      assert e[|e| - 1] in s;
      assert e[|e| - 3..][2] != Fence[2];
    }
    assert StripClosingFence(s) == s;
    assert OrEmpty(Some(s)) == s;
  }

  /** The tag an opening fence may carry: nothing, or `mermaid` in any mix of cases. */
  predicate FenceTag(tag: string)
  {
    tag == [] || (|tag| == 7 && MatchesAt(tag, 0, "mermaid", true))
  }

  /** A diagram wrapped in a fenced code block comes out as the diagram alone, whatever
      whitespace surrounds the fences, as long as a line break or other whitespace follows the
      opening fence and its tag. */
  lemma StripFencedBlock(w1: string, tag: string, w2: string, body: string, w3: string, w4: string)
    requires AllSpace(w1) && AllSpace(w2) && AllSpace(w3) && AllSpace(w4)
    requires w2 != [] && FenceTag(tag) && Trimmed(body)
    ensures Strip(w1 + Fence + tag + w2 + body + w3 + Fence + w4) == body
  {
    var tail := body + w3 + Fence + w4;
    BlockRegroups(w1, tag, w2, body, w3, w4);
    OpeningOfBlock(w1, tag, w2, tail);
    ClosingOfBlock(w2, body, w3, w4);
    var s := w1 + Fence + tag + w2 + tail;
    StripFromParts(s, StripOpeningFence(s), body);
  }

  lemma BlockRegroups(w1: string, tag: string, w2: string, body: string, w3: string, w4: string)
    ensures w1 + Fence + tag + w2 + (body + w3 + Fence + w4) == w1 + Fence + tag + w2 + body + w3 + Fence + w4
    ensures w2 + (body + w3 + Fence + w4) == w2 + body + w3 + Fence + w4
  {
  }

  lemma StripFromParts(s: string, o: string, body: string)
    requires o == StripOpeningFence(s) && body == StripClosingFence(o) && Trimmed(body)
    ensures Strip(s) == body
  {
    assert OrEmpty(Some(s)) == s;
    TrimmedFixed(body);
  }

  lemma OpeningOfBlock(w1: string, tag: string, w2: string, tail: string)
    requires AllSpace(w1) && AllSpace(w2) && w2 != [] && FenceTag(tag)
    ensures StripOpeningFence(w1 + Fence + tag + w2 + tail) == TrimStart(w2 + tail)
  {
    var s := w1 + (Fence + (tag + (w2 + tail)));
    assert s == w1 + Fence + tag + w2 + tail;
    TrimStartOver(w1, Fence + (tag + (w2 + tail)));
    var t := TrimStart(s);
    assert t == Fence + (tag + (w2 + tail));
    PrefixMatches(Fence, tag + (w2 + tail), false);
    var u := t[3..];
    assert u == tag + (w2 + tail);
    if tag == [] {
      assert u == w2 + tail;
      UntaggedOpening(w2, tail);
    } else {
      MatchesExtend(tag, w2 + tail, 0, "mermaid", true);
      assert u[7..] == w2 + tail;
    }
  }

  /** Whitespace right after the fence is not the tag. */
  lemma UntaggedOpening(w2: string, tail: string)
    requires AllSpace(w2) && w2 != []
    ensures !MatchesAt(w2 + tail, 0, "mermaid", true)
  {
    assert (w2 + tail)[0] == w2[0];
    assert IsSpace(w2[0]);
  }

  lemma ClosingOfBlock(w2: string, body: string, w3: string, w4: string)
    requires AllSpace(w2) && AllSpace(w3) && AllSpace(w4) && Trimmed(body)
    ensures StripClosingFence(TrimStart(w2 + body + w3 + Fence + w4)) == body
  {
    var o := TrimStart(w2 + body + w3 + Fence + w4);
    if body != [] {
      var closed := body + w3 + Fence;
      assert w2 + body + w3 + Fence + w4 == w2 + (closed + w4);
      TrimStartOver(w2, closed + w4);
      TrimEndOver(closed, w4);
      assert closed[..|closed| - 3] == body + w3;
      TrimEndOver(body, w3);
    } else {
      assert w2 + body + w3 + Fence + w4 == (w2 + w3) + (Fence + w4);
      AllSpaceJoin(w2, w3);
      TrimStartOver(w2 + w3, Fence + w4);
      TrimEndOver(Fence, w4);
      assert Fence[..0] == [];
    }
  }

  /** A fence tagged with anything but `mermaid` keeps its tag: the fences and the outer
      whitespace go, and the tag stays in front of the body. */
  lemma StripOtherTag(w1: string, tag: string, w2: string, body: string, w3: string, w4: string)
    requires AllSpace(w1) && AllSpace(w2) && AllSpace(w3) && AllSpace(w4)
    requires w2 != [] && tag != [] && !IsSpace(tag[0]) && !MatchesAt(tag, 0, "mermaid", true)
    requires body != [] && Trimmed(body)
    ensures Strip(w1 + Fence + tag + w2 + body + w3 + Fence + w4) == tag + w2 + body
  {
    var tail := body + w3 + Fence + w4;
    BlockRegroups(w1, tag, w2, body, w3, w4);
    OpeningOfOtherTag(w1, tag, w2, tail);
    ClosingOfOtherTag(tag, w2, body, w3, w4);
    TailRegroups(tag, w2, body, w3, Fence, w4);
    var s := w1 + Fence + tag + w2 + tail;
    StripFromParts(s, StripOpeningFence(s), tag + w2 + body);
  }

  /** No `mermaid` can be read where the tag is something else and whitespace follows it. */
  lemma NotMermaid(tag: string, rest: string)
    requires !MatchesAt(tag, 0, "mermaid", true) && rest != [] && IsSpace(rest[0])
    ensures !MatchesAt(tag + rest, 0, "mermaid", true)
  {
    var k := MismatchOf(tag, 0, "mermaid", true);
    var x := tag + rest;
    if k == |tag| {
      assert x[k] == rest[0];
      assert 'a' <= "mermaid"[k] <= 'z';
    } else {
      assert x[k] == tag[k];
    }
    assert !SameChar(x[k], "mermaid"[k], true);
    if MatchesAt(x, 0, "mermaid", true) {
      MatchesAtChars(x, 0, "mermaid", k, true);
    }
  }

  lemma OpeningOfOtherTag(w1: string, tag: string, w2: string, tail: string)
    requires AllSpace(w1) && AllSpace(w2) && w2 != [] && tag != [] && !IsSpace(tag[0])
    requires !MatchesAt(tag, 0, "mermaid", true)
    ensures StripOpeningFence(w1 + Fence + tag + w2 + tail) == tag + w2 + tail
  {
    var u := tag + w2 + tail;
    Regroup(w1, Fence, tag, w2, tail);
    TrimStartOver(w1, Fence + u);
    assert u == tag + (w2 + tail) && (w2 + tail)[0] == w2[0];
    NotMermaid(tag, w2 + tail);
    OpeningBeforeText(w1 + (Fence + u), u);
  }

  lemma TailRegroups(a: string, b: string, c: string, d: string, e: string, f: string)
    ensures a + b + (c + d + e + f) == a + b + c + d + e + f
  {
  }

  lemma Regroup(a: string, b: string, c: string, d: string, e: string)
    ensures a + b + c + d + e == a + (b + (c + d + e))
    ensures c + d + e == c + (d + e)
  {
  }

  /** After a fence that is followed by neither `mermaid` nor whitespace, the text stays. */
  lemma OpeningBeforeText(s: string, u: string)
    requires TrimStart(s) == Fence + u && u != [] && !IsSpace(u[0])
    requires !MatchesAt(u, 0, "mermaid", true)
    ensures StripOpeningFence(s) == u
  {
    var t := TrimStart(s);
    PrefixMatches(Fence, u, false);
    assert t[3..] == u;
    MatchesInSuffix(t, 3, 0, "mermaid", true);
    OpeningFenceCut(s);
    TrimStartOver([], u);
    assert [] + u == u;
  }

  lemma ClosingOfOtherTag(tag: string, w2: string, body: string, w3: string, w4: string)
    requires AllSpace(w2) && AllSpace(w3) && AllSpace(w4) && tag != [] && !IsSpace(tag[0])
    requires body != [] && Trimmed(body)
    ensures StripClosingFence(tag + w2 + body + w3 + Fence + w4) == tag + w2 + body
    ensures Trimmed(tag + w2 + body)
  {
    var kept := tag + w2 + body;
    var closed := kept + w3 + Fence;
    assert tag + w2 + body + w3 + Fence + w4 == closed + w4;
    TrimEndOver(closed, w4);
    assert closed[..|closed| - 3] == kept + w3;
    assert kept[|kept| - 1] == body[|body| - 1];
    TrimEndOver(kept, w3);
  }

  // ---------------------------------------------------------------------------
  // Worked cases of tests/stripMarkdownCodeFences.test.js.

  lemma StripTaggedBlock(s: string)
    requires s == "```mermaid\ncode\n```"
    ensures Strip(s) == "code"
  {
    assert s == "" + Fence + "mermaid" + "\n" + "code" + "\n" + Fence + "";
    assert FenceTag("mermaid");
    StripFencedBlock("", "mermaid", "\n", "code", "\n", "");
  }

  lemma StripUpperCaseTag(s: string)
    requires s == "```MERMAID\ncode\n```"
    ensures Strip(s) == "code"
  {
    assert s == "" + Fence + "MERMAID" + "\n" + "code" + "\n" + Fence + "";
    assert FenceTag("MERMAID");
    StripFencedBlock("", "MERMAID", "\n", "code", "\n", "");
  }

  lemma StripPaddedFences(s: string)
    requires s == "   ```mermaid   \ncode\n   ```   "
    ensures Strip(s) == "code"
  {
    PaddedParts(s);
    PaddingSpaces();
    assert FenceTag("mermaid");
    StripFencedBlock("   ", "mermaid", "   \n", "code", "\n   ", "   ");
  }

  lemma StripEmptyBlock(s: string)
    requires s == "```mermaid\n```"
    ensures Strip(s) == ""
  {
    assert s == "" + Fence + "mermaid" + "\n" + "" + "" + Fence + "";
    assert FenceTag("mermaid");
    StripFencedBlock("", "mermaid", "\n", "", "", "");
  }

  /** A fence tagged `js` keeps the tag: only `mermaid` is an optional part of the fence. */
  lemma StripJsBlock(s: string)
    requires s == "```js\ncode\n```"
    ensures Strip(s) == "js\ncode"
  {
    JsParts(s);
    StripOtherTag(s[..0], s[3..5], s[5..6], s[6..10], s[10..11], s[14..]);
    ThreeSlices(s, 3, 5, 6, 10);
  }

  lemma ThreeSlices(s: string, a: nat, b: nat, c: nat, d: nat)
    requires a <= b <= c <= d <= |s|
    ensures s[a..b] + s[b..c] + s[c..d] == s[a..d]
  {
  }

  lemma JsParts(s: string)
    requires s == "```js\ncode\n```"
    ensures s == s[..0] + Fence + s[3..5] + s[5..6] + s[6..10] + s[10..11] + Fence + s[14..]
    ensures AllSpace(s[..0]) && AllSpace(s[5..6]) && AllSpace(s[10..11]) && AllSpace(s[14..])
    ensures s[3..5] != [] && !IsSpace(s[3]) && !MatchesAt(s[3..5], 0, "mermaid", true)
    ensures s[6..10] != [] && Trimmed(s[6..10]) && s[3..10] == "js\ncode"
  {
    assert s[3..5] == "js";
  }

  lemma PaddedParts(s: string)
    requires s == "   ```mermaid   \ncode\n   ```   "
    ensures s == "   " + Fence + "mermaid" + "   \n" + "code" + "\n   " + Fence + "   "
  {
  }

  lemma PaddingSpaces()
    ensures AllSpace("   ") && AllSpace("   \n") && AllSpace("\n   ")
  {
  }

  lemma StripKeepsPlainText(s: string)
    requires s == "just some text"
    ensures Strip(s) == s
  {
    PlainParts(s);
    StripPlainText(s);
    TrimmedFixed(s);
  }

  lemma PlainParts(s: string)
    requires s == "just some text"
    ensures '`' !in s && Trimmed(s)
  {
  }
}
