/**
 * decodeHtmlEntities_ (main.js:207-219): eight global replacements done once each,
 * in a fixed order, so decoding is a single pass and not a fixed point.
 */
module Entities {
  import opened Wrappers
  import opened JsText

  /** The replacements of main.js:210-217, in the order they are applied. */
  const EntityTable: seq<(string, string)> := [
    ("&quot;", "\""), ("&#34;", "\""), ("&apos;", "'"), ("&#39;", "'"),
    ("&lt;", "<"), ("&gt;", ">"), ("&amp;", "&"), ("&nbsp;", " ")
  ]

  /** Every pattern of `table` is a non-empty entity reference starting with `&`,
      and no replacement is longer than its pattern. */
  predicate EntityRows(table: seq<(string, string)>)
  {
    forall k :: 0 <= k < |table| ==> table[k].0 != [] && table[k].0[0] == '&' && |table[k].1| <= |table[k].0|
  }

  /** Applies the rows of `table` one after another, each as a global replacement. */
  function ReplaceInOrder(s: string, table: seq<(string, string)>): (r: string)
    requires EntityRows(table)
    ensures |r| <= |s|
    ensures '&' !in s ==> r == s
    decreases |table|
  {
    if table == [] then s
    else ReplaceInOrder(ReplaceAll(s, table[0].0, table[0].1), table[1..])
  }

  /** decodeHtmlEntities_: absent input gives the empty string; decoding never lengthens
      the text, and a text without `&` is returned unchanged. */
  function DecodeHtmlEntities(text: Option<string>): (r: string)
    ensures text.None? ==> r == ""
    ensures |r| <= |OrEmpty(text)|
    ensures '&' !in OrEmpty(text) ==> r == OrEmpty(text)
  {
    ReplaceInOrder(OrEmpty(text), EntityTable)
  }

  function Decode(s: string): string
  {
    DecodeHtmlEntities(Some(s))
  }

  // ---------------------------------------------------------------------------
  // An independent reference: the HTML escaper whose output the decoder undoes.

  function EscapeChar(c: char): string
  {
    if c == '&' then "&amp;"
    else if c == '<' then "&lt;"
    else if c == '>' then "&gt;"
    else if c == '"' then "&quot;"
    else if c == '\'' then "&#39;"
    else [c]
  }

  /** Escapes the five characters that markup escapes, one character at a time. */
  function EscapeHtml(s: string): string
  {
    if s == [] then "" else EscapeChar(s[0]) + EscapeHtml(s[1..])
  }

  /** What character `c` has become after `EscapeHtml` and the first `k` rows of the table. */
  function Token(c: char, k: nat): string
  {
    if c == '"' then (if k >= 1 then "\"" else "&quot;")
    else if c == '\'' then (if k >= 4 then "'" else "&#39;")
    else if c == '<' then (if k >= 5 then "<" else "&lt;")
    else if c == '>' then (if k >= 6 then ">" else "&gt;")
    else if c == '&' then (if k >= 7 then "&" else "&amp;")
    else [c]
  }

  function Tokens(s: string, k: nat): string
  {
    if s == [] then "" else Token(s[0], k) + Tokens(s[1..], k)
  }

  lemma {:induction false} TokensBounds(s: string)
    ensures Tokens(s, 0) == EscapeHtml(s)
    ensures Tokens(s, 7) == s
  {
    if s != [] {
      TokensBounds(s[1..]);
    }
  }

  /** An entity reference: `&`, a name without `;`, then `;`. */
  predicate EntityShaped(x: string)
  {
    |x| >= 2 && x[0] == '&' && x[|x| - 1] == ';' && forall i :: 0 <= i < |x| - 1 ==> x[i] != ';'
  }

  /** Two different entity references are never prefixes of one another. */
  lemma EntitiesDoNotOverlap(t: string, pat: string, rest: string)
    requires EntityShaped(t) && EntityShaped(pat) && t != pat
    ensures !MatchesAt(t + rest, 0, pat)
  {
    var m: nat;
    if |pat| < |t| {
      m := |pat| - 1;
    } else if |pat| > |t| {
      m := |t| - 1;
    } else {
      m :| m < |t| && t[m] != pat[m];
    }
    assert (t + rest)[m] == t[m] != pat[m];
    NoMatchWhereDiffer(t + rest, 0, pat, m);
  }

  /** Row `k` of the table turns each token of stage `k` into its token of stage `k + 1`. */
  lemma TokenStep(c: char, k: nat, rest: string)
    requires k < 7
    ensures ReplaceAll(Token(c, k) + rest, EntityTable[k].0, EntityTable[k].1)
         == Token(c, k + 1) + ReplaceAll(rest, EntityTable[k].0, EntityTable[k].1)
  {
    var pat, rep := EntityTable[k].0, EntityTable[k].1;
    assert EntityShaped(pat);
    var t := Token(c, k);
    if t == pat {
      assert Token(c, k + 1) == rep;
      assert (t + rest)[|pat|..] == rest;
      PrefixMatches(t, rest, false);
    } else {
      assert Token(c, k + 1) == t;
      if |t| == 1 {
        assert t[0] != '&';
        NoMatchWhereDiffer(t + rest, 0, pat, 0);
      } else {
        assert EntityShaped(t);
        EntitiesDoNotOverlap(t, pat, rest);
      }
      ReplaceAllSkips(t, rest, pat, rep);
    }
  }

  lemma {:induction false} StageStep(s: string, k: nat)
    requires k < 7
    ensures ReplaceAll(Tokens(s, k), EntityTable[k].0, EntityTable[k].1) == Tokens(s, k + 1)
  {
    if s != [] {
      TokenStep(s[0], k, Tokens(s[1..], k));
      StageStep(s[1..], k);
    }
  }

  lemma {:induction false} StagesFrom(s: string, k: nat)
    requires k <= 7
    ensures ReplaceInOrder(Tokens(s, k), EntityTable[k..]) == ReplaceAll(s, "&nbsp;", " ")
    decreases 7 - k
  {
    TokensBounds(s);
    if k < 7 {
      assert EntityTable[k..][1..] == EntityTable[k + 1..];
      StageStep(s, k);
      StagesFrom(s, k + 1);
    } else {
      assert EntityTable[7..][1..] == [];
    }
  }

  /** Decoding escaped text gives the text back with every `&nbsp;` in it turned into a space. */
  lemma DecodeEscaped(s: string)
    ensures Decode(EscapeHtml(s)) == ReplaceAll(s, "&nbsp;", " ")
  {
    TokensBounds(s);
    StagesFrom(s, 0);
    assert EntityTable[0..] == EntityTable;
  }

  /** Decoding undoes `EscapeHtml` exactly when the text holds no `&nbsp;`: the `&amp;` row runs
      before the `&nbsp;` row, so an escaped `&nbsp;` is decoded twice into a space. */
  lemma DecodeEscapeRoundTrip(s: string)
    ensures (forall i: nat :: !MatchesAt(s, i, "&nbsp;")) ==> Decode(EscapeHtml(s)) == s
    ensures Decode(EscapeHtml(s)) == s ==> forall i: nat :: !MatchesAt(s, i, "&nbsp;")
  {
    DecodeEscaped(s);
    ReplaceAllKeepsIff(s, "&nbsp;", " ");
  }

  /** Escaping works character by character, so it distributes over concatenation. */
  lemma {:induction false} EscapeAppend(a: string, b: string)
    ensures EscapeHtml(a + b) == EscapeHtml(a) + EscapeHtml(b)
  {
    if a != [] {
      assert (a + b)[1..] == a[1..] + b;
      EscapeAppend(a[1..], b);
    } else {
      assert a + b == b;
    }
  }

  /** Text holding none of the five escaped characters is left as it is. */
  lemma {:induction false} EscapeKeeps(x: string)
    requires forall c :: c in x ==> c != '&' && c != '<' && c != '>' && c != '"' && c != '\''
    ensures EscapeHtml(x) == x
  {
    if x != [] {
      assert x[0] in x && x == [x[0]] + x[1..];
      assert forall c :: c in x[1..] ==> c in x;
      EscapeKeeps(x[1..]);
    }
  }

  // ---------------------------------------------------------------------------
  // Worked cases of tests/decodeHtmlEntities.test.js.

  lemma DecodeQuot(s: string)
    requires s == "&quot;"
    ensures Decode(s) == "\""
  {
    var d: string := "\"";
    EscapeOne(d, s);
    DecodeEscaped(d);
  }

  lemma DecodeAmp(s: string)
    requires s == "&amp;"
    ensures Decode(s) == "&"
  {
    var d: string := "&";
    EscapeOne(d, s);
    DecodeEscaped(d);
  }

  /** A one-character text escapes to its entity and holds no `&nbsp;`. */
  lemma EscapeOne(d: string, s: string)
    requires |d| == 1 && s == EscapeChar(d[0])
    ensures EscapeHtml(d) == s && ReplaceAll(d, "&nbsp;", " ") == d
  {
    assert EscapeHtml(d) == EscapeChar(d[0]) + EscapeHtml(d[1..]);
    assert forall i: nat :: !MatchesAt(d, i, "&nbsp;");
    NoMatchKeeps(d, "&nbsp;", " ");
  }

  lemma EscapeMarkup(t: string)
    requires t == "<b>Hello</b>"
    ensures EscapeHtml(t) == "&lt;b&gt;Hello&lt;/b&gt;"
  {
    EscapeSplits("<b>", "Hello", "</b>", t);
    EscapeTags();
    Glue();
  }

  lemma Glue()
    ensures "&lt;b&gt;" + "Hello" + "&lt;/b&gt;" == "&lt;b&gt;Hello&lt;/b&gt;"
  {
  }

  lemma EscapeTags()
    ensures EscapeHtml("<b>") == "&lt;b&gt;" && EscapeHtml("</b>") == "&lt;/b&gt;"
    ensures EscapeHtml("Hello") == "Hello"
  {
  }

  lemma EscapeSplits(a: string, b: string, c: string, s: string)
    requires s == a + b + c
    ensures EscapeHtml(s) == EscapeHtml(a) + EscapeHtml(b) + EscapeHtml(c)
  {
    EscapeAppend(a + b, c);
    EscapeAppend(a, b);
  }

  lemma DecodeMarkup(s: string)
    requires s == "&lt;b&gt;Hello&lt;/b&gt;"
    ensures Decode(s) == "<b>Hello</b>"
  {
    EscapeMarkup("<b>Hello</b>");
    DecodeEscaped("<b>Hello</b>");
  }

  /** Decoding is a single pass: `&amp;quot;` decodes to `&quot;`, which decodes again to `"`. */
  lemma DecodeNotIdempotent(s: string)
    requires s == "&amp;quot;"
    ensures Decode(s) == "&quot;" && Decode(Decode(s)) == "\""
  {
    EscapeEntity("&quot;");
    DecodeEscaped("&quot;");
    NoNbspInQuot("&quot;");
    DecodeQuot(Decode(s));
  }

  lemma EscapeEntity(t: string)
    requires t == "&quot;"
    ensures EscapeHtml(t) == "&amp;quot;"
  {
    EscapeAppend("&", "quot;");
    assert t == "&" + "quot;";
    assert EscapeHtml("quot;") == "quot;";
  }

  lemma NoNbspInQuot(s: string)
    requires s == "&quot;"
    ensures ReplaceAll(s, "&nbsp;", " ") == s
  {
    forall i: nat ensures !MatchesAt(s, i, "&nbsp;") {
      if i == 0 {
        NoMatchWhereDiffer(s, 0, "&nbsp;", 1);
      } else if i < |s| {
        NoMatchWhereDiffer(s, i, "&nbsp;", 0);
      }
    }
    NoMatchKeeps(s, "&nbsp;", " ");
  }

  lemma DecodePlainText()
    ensures Decode("Hello World") == "Hello World"
  {
    var s := "Hello World";
    assert '&' !in s;
    assert OrEmpty(Some(s)) == s;
  }

  lemma DecodeNothing()
    ensures DecodeHtmlEntities(None) == "" && Decode("") == ""
  {
  }
}
