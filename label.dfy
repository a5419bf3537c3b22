/**
 * escapeFlowLabel_ (main.js:375-385): makes a text safe to put between the double quotes of a
 * flowchart label. Typographic quotes become ASCII quotes, byte-order marks go, every double
 * quote (with any backslashes escaping it) becomes a single quote, line breaks and the
 * whitespace around them become one space, and the ends are trimmed.
 */
module Label {
  import opened Wrappers
  import opened JsText

  /** The class `[“”„‟❝❞]`. */
  predicate IsFancyDouble(c: char)
  {
    c == '\U{201C}' || c == '\U{201D}' || c == '\U{201E}' || c == '\U{201F}' || c == '\U{275D}' || c == '\U{275E}'
  }

  /** The class `[‘’‚‛❛❜]`. */
  predicate IsFancySingle(c: char)
  {
    c == '\U{2018}' || c == '\U{2019}' || c == '\U{201A}' || c == '\U{201B}' || c == '\U{275B}' || c == '\U{275C}'
  }

  predicate IsBom(c: char)
  {
    c == '\U{FEFF}'
  }

  predicate IsDoubleQuote(c: char)
  {
    c == '"'
  }

  /** The end of the run of backslashes that starts at `i`. */
  function BackslashRun(s: string, i: nat): (j: nat)
    requires i <= |s|
    ensures i <= j <= |s| && (j == |s| || s[j] != '\\')
    ensures forall k :: i <= k < j ==> s[k] == '\\'
    decreases |s| - i
  {
    if i < |s| && s[i] == '\\' then BackslashRun(s, i + 1) else i
  }

  /** No backslash stands right before a double quote. */
  predicate NoEscapedQuote(s: string)
  {
    forall k :: 0 <= k < |s| - 1 ==> !(s[k] == '\\' && s[k + 1] == '"')
  }

  /** `s.replace(/\\+"/g, "'")`: a run of backslashes followed by a double quote becomes one
      single quote; a run not followed by a double quote stays. */
  function ReplaceEscapedQuotes(s: string): (r: string)
    ensures forall c :: c in r ==> c in s || c == '\''
    ensures |r| <= |s|
    decreases |s|
  {
    if s == [] then []
    else if s[0] == '\\' then
      var j := BackslashRun(s, 0);
      if j < |s| && s[j] == '"' then
        var rest := ReplaceEscapedQuotes(s[j + 1..]);
        assert forall c :: c in rest ==> c in s || c == '\'' by {
          forall c | c in rest && c != '\'' ensures c in s {
            assert c in s[j + 1..];
          }
        }
        "'" + rest
      else
        var rest := ReplaceEscapedQuotes(s[j..]);
        assert forall c :: c in rest ==> c in s || c == '\'' by {
          forall c | c in rest && c != '\'' ensures c in s {
            assert c in s[j..];
          }
        }
        s[..j] + rest
    else
      var rest := ReplaceEscapedQuotes(s[1..]);
      assert forall c :: c in rest ==> c in s || c == '\'' by {
        forall c | c in rest && c != '\'' ensures c in s {
          assert c in s[1..];
        }
      }
      [s[0]] + rest
  }

  /** After the replacement no backslash stands right before a double quote. */
  lemma {:induction false} EscapedQuotesGone(s: string)
    ensures NoEscapedQuote(ReplaceEscapedQuotes(s))
    ensures var r := ReplaceEscapedQuotes(s); r != [] && r[0] == '"' ==> s != [] && s[0] == '"'
    decreases |s|
  {
    if s != [] {
      if s[0] == '\\' {
        var j := BackslashRun(s, 0);
        if j < |s| && s[j] == '"' {
          EscapedQuotesGone(s[j + 1..]);
          var rest := ReplaceEscapedQuotes(s[j + 1..]);
          var r := "'" + rest;
          forall k | 0 <= k < |r| - 1 ensures !(r[k] == '\\' && r[k + 1] == '"') {
            if k > 0 {
              assert r[k] == rest[k - 1] && r[k + 1] == rest[k];
            }
          }
        } else {
          EscapedQuotesGone(s[j..]);
          var rest := ReplaceEscapedQuotes(s[j..]);
          var r := s[..j] + rest;
          forall k | 0 <= k < |r| - 1 ensures !(r[k] == '\\' && r[k + 1] == '"') {
            if k >= j {
              assert r[k] == rest[k - j] && r[k + 1] == rest[k - j + 1];
            } else if k == j - 1 {
              assert rest != [] ==> rest[0] != '"';
            }
          }
        }
      } else {
        EscapedQuotesGone(s[1..]);
        var rest := ReplaceEscapedQuotes(s[1..]);
        var r := [s[0]] + rest;
        forall k | 0 <= k < |r| - 1 ensures !(r[k] == '\\' && r[k + 1] == '"') {
          if k > 0 {
            assert r[k] == rest[k - 1] && r[k + 1] == rest[k];
          } else if s[0] == '\\' {
          }
        }
      }
    }
  }

  /** Without double quotes there is nothing to replace. */
  lemma {:induction false} NoQuoteEscapesKept(s: string)
    requires '"' !in s
    ensures ReplaceEscapedQuotes(s) == s
    decreases |s|
  {
    if s != [] {
      if s[0] == '\\' {
        var j := BackslashRun(s, 0);
        var t := s[j..];
        if j < |s| {
          assert s[j] in s;
        }
        assert '"' !in t by {
          forall k | 0 <= k < |t| ensures t[k] != '"' { assert s[j + k] in s; }
        }
        NoQuoteEscapesKept(t);
        assert ReplaceEscapedQuotes(s) == s[..j] + ReplaceEscapedQuotes(t);
        assert s[..j] + t == s;
      } else {
        var t := s[1..];
        assert '"' !in t by {
          forall k | 0 <= k < |t| ensures t[k] != '"' { assert s[1 + k] in s; }
        }
        NoQuoteEscapesKept(t);
        assert ReplaceEscapedQuotes(s) == [s[0]] + ReplaceEscapedQuotes(t);
        assert [s[0]] + t == s;
      }
    }
  }

  /** `s.replace(/\s*\n+\s*&#47;g, ' ')`: every maximal whitespace run that holds a line feed
      becomes one space; other whitespace runs stay. */
  function CollapseLineBreaks(s: string): (r: string)
    ensures '\n' !in r
    ensures forall c :: c in r ==> c in s || c == ' '
    ensures '\n' !in s ==> r == s
    decreases |s|
  {
    if s == [] then []
    else if IsSpace(s[0]) then
      var j := SpaceRun(s, 0);
      var rest := CollapseLineBreaks(s[j..]);
      assert forall c :: c in rest ==> c in s || c == ' ' by {
        forall c | c in rest && c != ' ' ensures c in s {
          assert c in s[j..];
        }
      }
      if '\n' in s[..j] then " " + rest
      else
        assert '\n' !in s ==> rest == s[j..] by {
          if '\n' !in s {
            assert '\n' !in s[j..] by {
              forall k | 0 <= k < |s| - j ensures s[j..][k] != '\n' { assert s[j + k] in s; }
            }
          }
        }
        assert s[..j] + s[j..] == s;
        s[..j] + rest
    else
      var rest := CollapseLineBreaks(s[1..]);
      assert forall c :: c in rest ==> c in s || c == ' ' by {
        forall c | c in rest && c != ' ' ensures c in s {
          assert c in s[1..];
        }
      }
      assert '\n' !in s ==> rest == s[1..] by {
        if '\n' !in s {
          assert '\n' !in s[1..] by {
            forall k | 0 <= k < |s| - 1 ensures s[1..][k] != '\n' { assert s[1 + k] in s; }
          }
        }
      }
      assert [s[0]] + s[1..] == s;
      [s[0]] + rest
  }

  /** A character the escaper never lets through. */
  predicate Unsafe(c: char)
  {
    c == '"' || c == '\n' || IsFancyDouble(c) || IsFancySingle(c) || IsBom(c)
  }

  /** escapeFlowLabel_: absent input gives the empty string; the result is trimmed and holds
      no double quote, typographic quote, byte-order mark or line feed, and every character in
      it comes from the label or is a single quote or a space. */
  function EscapeFlowLabel(text: Option<string>): (r: string)
    ensures text.None? ==> r == ""
    ensures Trimmed(r)
    ensures forall c :: c in r ==> !Unsafe(c)
    ensures forall c :: c in r ==> c in OrEmpty(text) || c == '\'' || c == ' '
  {
    var s0 := OrEmpty(text);
    var s1 := MapChars(s0, IsFancyDouble, '"');
    var s2 := MapChars(s1, IsFancySingle, '\'');
    var s3 := RemoveChars(s2, IsBom);
    var s4 := ReplaceEscapedQuotes(s3);
    var s5 := MapChars(s4, IsDoubleQuote, '\'');
    var s6 := CollapseLineBreaks(s5);
    QuotesUnified(s0, s1, s2);
    QuotesDropped(s3, s4, s5, s6);
    EscapeSteps(s0, s2, s3, s6);
    Trim(s6)
  }

  lemma EscapeSteps(s0: string, s2: string, s3: string, s6: string)
    requires forall c :: c in s2 && c != '"' && c != '\'' ==> c in s0 && !IsFancyDouble(c) && !IsFancySingle(c)
    requires forall c :: c in s3 ==> c in s2 && !IsBom(c)
    requires forall c :: c in s6 ==> c != '"' && c != '\n' && (c in s3 || c == '\'' || c == ' ')
    ensures forall c :: c in s6 ==> !Unsafe(c) && (c in s0 || c == '\'' || c == ' ')
  {
  }

  lemma QuotesDropped(s3: string, s4: string, s5: string, s6: string)
    requires s4 == ReplaceEscapedQuotes(s3)
    requires s5 == MapChars(s4, IsDoubleQuote, '\'') && s6 == CollapseLineBreaks(s5)
    ensures forall c :: c in s6 ==> c != '"' && c != '\n' && (c in s3 || c == '\'' || c == ' ')
  {
    forall c | c in s6 ensures c != '"' && c != '\n' && (c in s3 || c == '\'' || c == ' ') {
      if c != ' ' {
        assert c in s5 && c != '"';
        if c != '\'' {
          assert c in s4;
        }
      }
    }
  }

  lemma QuotesUnified(s0: string, s1: string, s2: string)
    requires s1 == MapChars(s0, IsFancyDouble, '"') && s2 == MapChars(s1, IsFancySingle, '\'')
    ensures forall c :: c in s2 && c != '"' && c != '\'' ==> c in s0 && !IsFancyDouble(c) && !IsFancySingle(c)
  {
    forall c | c in s2 && c != '"' && c != '\'' ensures c in s0 && !IsFancyDouble(c) && !IsFancySingle(c) {
      assert c in s1 && !IsFancySingle(c);
      assert c in s0 && !IsFancyDouble(c);
    }
  }

  function Escape(s: string): string
  {
    EscapeFlowLabel(Some(s))
  }

  /** A label that is already trimmed and free of the characters the escaper rewrites comes
      back unchanged. */
  lemma CleanLabelKept(s: string)
    requires Trimmed(s) && forall c :: c in s ==> !Unsafe(c)
    ensures Escape(s) == s
  {
    MapCharsKeeps(s, IsFancyDouble, '"');
    assert MapChars(s, IsFancyDouble, '"') == s;
    MapCharsKeeps(s, IsFancySingle, '\'');
    assert MapChars(s, IsFancySingle, '\'') == s;
    RemoveCharsKeeps(s, IsBom);
    assert RemoveChars(s, IsBom) == s;
    NoQuoteEscapesKept(s);
    MapCharsKeeps(s, IsDoubleQuote, '\'');
    assert MapChars(s, IsDoubleQuote, '\'') == s;
    assert CollapseLineBreaks(s) == s;
    TrimmedFixed(s);
  }

  /** Escaping twice is escaping once. */
  lemma EscapeIdempotent(s: string)
    ensures Escape(Escape(s)) == Escape(s)
  {
    CleanLabelKept(Escape(s));
  }

  /** The quote marks the escaper turns into single quotes. */
  predicate IsQuoteMark(c: char)
  {
    c == '"' || IsFancyDouble(c) || IsFancySingle(c)
  }

  /** Without backslashes there is nothing to replace either. */
  lemma {:induction false} NoBackslashKept(s: string)
    requires '\\' !in s
    ensures ReplaceEscapedQuotes(s) == s
    decreases |s|
  {
    if s != [] {
      assert s[0] in s;
      assert '\\' !in s[1..] by {
        forall k | 0 <= k < |s| - 1 ensures s[1..][k] != '\\' { assert s[1 + k] in s; }
      }
      NoBackslashKept(s[1..]);
      assert [s[0]] + s[1..] == s;
    }
  }

  /** A trimmed label on one line, without backslashes or byte-order marks, has each of its
      quote marks, straight or typographic, double or single, turned into a single quote and
      nothing else changed. */
  lemma QuoteMarksBecomeApostrophes(s: string)
    requires Trimmed(s) && '\n' !in s && '\\' !in s && forall c :: c in s ==> !IsBom(c)
    ensures Escape(s) == MapChars(s, IsQuoteMark, '\'')
  {
    var s1 := MapChars(s, IsFancyDouble, '"');
    var s2 := MapChars(s1, IsFancySingle, '\'');
    assert forall c :: c in s2 ==> !IsBom(c);
    RemoveCharsKeeps(s2, IsBom);
    assert forall c :: c in s2 ==> c != '\\';
    NoBackslashKept(s2);
    var m := MapChars(s, IsQuoteMark, '\'');
    QuoteStagesAgree(s, s1, s2, m);
    MarksKeepTrimmed(s, m);
    TrimmedFixed(m);
  }

  lemma QuoteStagesAgree(s: string, s1: string, s2: string, m: string)
    requires s1 == MapChars(s, IsFancyDouble, '"') && s2 == MapChars(s1, IsFancySingle, '\'')
    requires m == MapChars(s, IsQuoteMark, '\'')
    ensures MapChars(s2, IsDoubleQuote, '\'') == m
  {
    var s5 := MapChars(s2, IsDoubleQuote, '\'');
    forall k | 0 <= k < |s| ensures s5[k] == m[k] {
      QuoteMarkSteps(s[k]);
      assert s5[k] == (if s2[k] == '"' then '\'' else s2[k]);
      assert s2[k] == (if IsFancySingle(s1[k]) then '\'' else s1[k]);
      assert s1[k] == (if IsFancyDouble(s[k]) then '"' else s[k]);
    }
    SameChars(s5, m);
  }

  lemma MarksKeepTrimmed(s: string, m: string)
    requires Trimmed(s) && '\n' !in s
    requires m == MapChars(s, IsQuoteMark, '\'')
    ensures Trimmed(m) && '\n' !in m
  {
    forall k | 0 <= k < |s| ensures m[k] != '\n' && (IsSpace(m[k]) == IsSpace(s[k])) {
      assert s[k] in s;
      QuoteMarkSteps(s[k]);
    }
  }

  lemma SameChars(a: string, b: string)
    requires |a| == |b| && forall k :: 0 <= k < |a| ==> a[k] == b[k]
    ensures a == b
  {
  }

  /** The three quote steps, on one character. */
  lemma QuoteMarkSteps(c: char)
    ensures var c1 := if IsFancyDouble(c) then '"' else c;
            var c2 := if IsFancySingle(c1) then '\'' else c1;
            (if c2 == '"' then '\'' else c2) == (if IsQuoteMark(c) then '\'' else c)
    ensures IsQuoteMark(c) ==> !IsSpace(c)
  {
  }

  /** A byte-order mark at the front is dropped. */
  lemma BomDropped(t: string, s: string)
    requires t == "\U{FEFF}" + s
    ensures Escape(t) == Escape(s)
  {
    assert t[1..] == s;
    var t1 := MapChars(t, IsFancyDouble, '"');
    var s1 := MapChars(s, IsFancyDouble, '"');
    assert t1 == ['\U{FEFF}'] + s1 by {
      forall k | 0 <= k < |t1| ensures t1[k] == (['\U{FEFF}'] + s1)[k] {
        if k > 0 { assert t[k] == s[k - 1]; }
      }
    }
    var t2 := MapChars(t1, IsFancySingle, '\'');
    var s2 := MapChars(s1, IsFancySingle, '\'');
    assert t2 == ['\U{FEFF}'] + s2 by {
      forall k | 0 <= k < |t2| ensures t2[k] == (['\U{FEFF}'] + s2)[k] {
        if k > 0 { assert t1[k] == s1[k - 1]; }
      }
    }
    assert t2[1..] == s2;
    assert RemoveChars(t2, IsBom) == RemoveChars(s2, IsBom);
  }

  /** Replacing escaped quotes works piece by piece when the first piece does not end in a
      backslash, since no run of backslashes then straddles the two pieces. */
  lemma {:induction false} EscapedQuotesSplit(x: string, y: string)
    requires x == [] || x[|x| - 1] != '\\'
    ensures ReplaceEscapedQuotes(x + y) == ReplaceEscapedQuotes(x) + ReplaceEscapedQuotes(y)
    decreases |x|
  {
    if x == [] {
      assert x + y == y;
    } else if x[0] == '\\' {
      var j := BackslashRun(x, 0);
      BackslashRunsAgree(x, y, 0);
      if x[j] == '"' {
        EscapedQuotesSplit(x[j + 1..], y);
        EscapedRunStep(x, y, j, x[j + 1..]);
      } else {
        EscapedQuotesSplit(x[j..], y);
        EscapedRunStep(x, y, j, x[j..]);
      }
    } else {
      var t := x[1..];
      assert (x + y)[1..] == t + y;
      EscapedQuotesSplit(t, y);
      PlainUnfolds(x + y);
      PlainUnfolds(x);
      Regroup([x[0]], ReplaceEscapedQuotes(t), ReplaceEscapedQuotes(y));
    }
  }

  lemma PlainUnfolds(s: string)
    requires s != [] && s[0] != '\\'
    ensures ReplaceEscapedQuotes(s) == [s[0]] + ReplaceEscapedQuotes(s[1..])
  {
  }

  /** One step of the split: the run of backslashes at the front lies inside `x`. */
  lemma EscapedRunStep(x: string, y: string, j: nat, rest: string)
    requires x != [] && x[0] == '\\' && x[|x| - 1] != '\\'
    requires j == BackslashRun(x, 0) && j == BackslashRun(x + y, 0)
    requires rest == (if x[j] == '"' then x[j + 1..] else x[j..])
    requires ReplaceEscapedQuotes(rest + y) == ReplaceEscapedQuotes(rest) + ReplaceEscapedQuotes(y)
    ensures ReplaceEscapedQuotes(x + y) == ReplaceEscapedQuotes(x) + ReplaceEscapedQuotes(y)
  {
    assert (x + y)[j] == x[j];
    if x[j] == '"' {
      QuotedRunStep(x, y, j);
    } else {
      BareRunStep(x, y, j);
    }
  }

  lemma QuotedRunStep(x: string, y: string, j: nat)
    requires j < |x| && x[j] == '"' && x[0] == '\\'
    requires j == BackslashRun(x, 0) && j == BackslashRun(x + y, 0)
    requires ReplaceEscapedQuotes(x[j + 1..] + y) == ReplaceEscapedQuotes(x[j + 1..]) + ReplaceEscapedQuotes(y)
    ensures ReplaceEscapedQuotes(x + y) == ReplaceEscapedQuotes(x) + ReplaceEscapedQuotes(y)
  {
    var t := x[j + 1..];
    assert (x + y)[j + 1..] == t + y;
    QuotedRunUnfolds(x + y, j);
    QuotedRunUnfolds(x, j);
    Regroup("'", ReplaceEscapedQuotes(t), ReplaceEscapedQuotes(y));
  }

  lemma Regroup(a: string, b: string, c: string)
    ensures a + (b + c) == (a + b) + c
  {
  }

  lemma QuotedRunUnfolds(s: string, j: nat)
    requires j < |s| && s[j] == '"' && s[0] == '\\' && j == BackslashRun(s, 0)
    ensures ReplaceEscapedQuotes(s) == "'" + ReplaceEscapedQuotes(s[j + 1..])
  {
  }

  lemma BareRunStep(x: string, y: string, j: nat)
    requires j < |x| && x[j] != '"' && x[0] == '\\'
    requires j == BackslashRun(x, 0) && j == BackslashRun(x + y, 0)
    requires ReplaceEscapedQuotes(x[j..] + y) == ReplaceEscapedQuotes(x[j..]) + ReplaceEscapedQuotes(y)
    ensures ReplaceEscapedQuotes(x + y) == ReplaceEscapedQuotes(x) + ReplaceEscapedQuotes(y)
  {
    assert (x + y)[j] == x[j];
    assert (x + y)[j..] == x[j..] + y;
    assert (x + y)[..j] == x[..j];
  }

  lemma {:induction false} BackslashRunsAgree(x: string, y: string, i: nat)
    requires i < |x| && x[|x| - 1] != '\\'
    ensures BackslashRun(x + y, i) == BackslashRun(x, i)
    decreases |x| - i
  {
    assert (x + y)[i] == x[i];
    if x[i] == '\\' {
      BackslashRunsAgree(x, y, i + 1);
    }
  }

  /** A label free of typographic quotes and byte-order marks goes through the last four
      steps only. */
  lemma PlainQuotesOnly(s: string)
    requires forall c :: c in s ==> !IsFancyDouble(c) && !IsFancySingle(c) && !IsBom(c)
    ensures Escape(s) == Trim(CollapseLineBreaks(MapChars(ReplaceEscapedQuotes(s), IsDoubleQuote, '\'')))
  {
    MapCharsKeeps(s, IsFancyDouble, '"');
    assert MapChars(s, IsFancyDouble, '"') == s;
    MapCharsKeeps(s, IsFancySingle, '\'');
    assert MapChars(s, IsFancySingle, '\'') == s;
    RemoveCharsKeeps(s, IsBom);
  }

  /** Collapsing line breaks works piece by piece when the first piece does not end in
      whitespace, since no whitespace run then straddles the two pieces. */
  lemma {:induction false} LineBreaksSplit(x: string, y: string)
    requires x == [] || !IsSpace(x[|x| - 1])
    ensures CollapseLineBreaks(x + y) == CollapseLineBreaks(x) + CollapseLineBreaks(y)
    decreases |x|
  {
    if x == [] {
      assert x + y == y;
    } else {
      var s := x + y;
      assert s[0] == x[0];
      if IsSpace(x[0]) {
        SpaceRunsAgree(x, y, 0);
        var j := SpaceRun(s, 0);
        var t := x[j..];
        assert s[j..] == t + y;
        assert s[..j] == x[..j];
        LineBreaksSplit(t, y);
        SpaceRunUnfolds(s, j);
        SpaceRunUnfolds(x, j);
        var h := if '\n' in x[..j] then " " else x[..j];
        Regroup(h, CollapseLineBreaks(t), CollapseLineBreaks(y));
      } else {
        var t := x[1..];
        assert s[1..] == t + y;
        LineBreaksSplit(t, y);
        NonSpaceUnfolds(s);
        NonSpaceUnfolds(x);
        Regroup([x[0]], CollapseLineBreaks(t), CollapseLineBreaks(y));
      }
    }
  }

  lemma SpaceRunUnfolds(s: string, j: nat)
    requires s != [] && IsSpace(s[0]) && j == SpaceRun(s, 0)
    ensures CollapseLineBreaks(s) == (if '\n' in s[..j] then " " else s[..j]) + CollapseLineBreaks(s[j..])
  {
  }

  lemma NonSpaceUnfolds(s: string)
    requires s != [] && !IsSpace(s[0])
    ensures CollapseLineBreaks(s) == [s[0]] + CollapseLineBreaks(s[1..])
  {
  }

  lemma {:induction false} SpaceRunsAgree(x: string, y: string, i: nat)
    requires i < |x| && !IsSpace(x[|x| - 1])
    ensures SpaceRun(x + y, i) == SpaceRun(x, i)
    decreases |x| - i
  {
    assert (x + y)[i] == x[i];
    if IsSpace(x[i]) {
      SpaceRunsAgree(x, y, i + 1);
    }
  }

  /** A whitespace run that holds a line feed, followed by text, becomes one space. */
  lemma LineBreakCollapses(w: string, y: string)
    requires AllSpace(w) && '\n' in w && (y == [] || !IsSpace(y[0]))
    ensures CollapseLineBreaks(w + y) == " " + CollapseLineBreaks(y)
  {
    SpaceRunOver(w, y, 0);
    assert (w + y)[..|w|] == w;
    assert (w + y)[|w|..] == y;
  }

  /** Two clean words separated by whitespace that holds a line break come out joined by one
      space. */
  lemma LineBreakJoins(s: string, a: string, w: string, b: string)
    requires a != [] && b != [] && Trimmed(a) && Trimmed(b)
    requires forall c :: c in a ==> !Unsafe(c)
    requires forall c :: c in b ==> !Unsafe(c)
    requires AllSpace(w) && '\n' in w && forall c :: c in w ==> !IsBom(c)
    requires s == a + w + b
    ensures Escape(s) == a + " " + b
  {
    JoinedIsPlain(a, w, b);
    QuotelessEscape(s);
    JoinedCollapses(a, w, b);
    JoinedTrimmed(a, b);
    TrimmedFixed(a + " " + b);
  }

  /** A text without quote marks or byte-order marks only has its line breaks collapsed and
      is trimmed. */
  lemma QuotelessEscape(s: string)
    requires forall c :: c in s ==> !IsFancyDouble(c) && !IsFancySingle(c) && !IsBom(c) && c != '"'
    ensures Escape(s) == Trim(CollapseLineBreaks(s))
  {
    PlainQuotesOnly(s);
    NoQuoteEscapesKept(s);
    MapCharsKeeps(s, IsDoubleQuote, '\'');
  }

  lemma JoinedIsPlain(a: string, w: string, b: string)
    requires forall c :: c in a ==> !Unsafe(c)
    requires forall c :: c in b ==> !Unsafe(c)
    requires AllSpace(w) && forall c :: c in w ==> !IsBom(c)
    ensures forall c :: c in a + w + b ==> !IsFancyDouble(c) && !IsFancySingle(c) && !IsBom(c) && c != '"'
  {
    forall c | c in a + w + b ensures !IsFancyDouble(c) && !IsFancySingle(c) && !IsBom(c) && c != '"' {
      if c in w {
        var k :| 0 <= k < |w| && w[k] == c;
        assert IsSpace(c);
      }
    }
  }

  lemma JoinedCollapses(a: string, w: string, b: string)
    requires a != [] && b != [] && Trimmed(a) && Trimmed(b) && '\n' !in a && '\n' !in b
    requires AllSpace(w) && '\n' in w
    ensures CollapseLineBreaks(a + w + b) == a + " " + b
  {
    assert a + w + b == a + (w + b);
    SplitAtWord(a, w + b);
    LineBreakCollapses(w, b);
  }

  lemma JoinedTrimmed(a: string, b: string)
    requires a != [] && b != [] && Trimmed(a) && Trimmed(b)
    ensures Trimmed(a + " " + b)
  {
    var r := a + " " + b;
    assert r[0] == a[0] && r[|r| - 1] == b[|b| - 1];
  }

  lemma SplitAtWord(a: string, t: string)
    requires a != [] && Trimmed(a) && '\n' !in a
    ensures CollapseLineBreaks(a + t) == a + CollapseLineBreaks(t)
  {
    LineBreaksSplit(a, t);
  }

  /** Whitespace on one line around a clean label is trimmed away. */
  lemma PaddingTrimmed(s: string, w1: string, x: string, w2: string)
    requires Trimmed(x) && forall c :: c in x ==> !Unsafe(c)
    requires AllSpace(w1) && AllSpace(w2)
    requires forall c :: c in w1 + w2 ==> c != '\n' && !IsBom(c)
    requires s == w1 + x + w2
    ensures Escape(s) == x
  {
    assert forall c :: c in s ==> c in w1 + w2 || c in x;
    forall c | c in w1 + w2 ensures IsSpace(c) {
      var k :| 0 <= k < |w1 + w2| && (w1 + w2)[k] == c;
      if k < |w1| { assert w1[k] == c; } else { assert w2[k - |w1|] == c; }
    }
    CleanSpacedKept(s);
    TrimOver(w1, x, w2);
  }

  lemma CleanSpacedKept(s: string)
    requires forall c :: c in s ==> !Unsafe(c)
    ensures Escape(s) == Trim(s)
  {
    PlainQuotesOnly(s);
    NoQuoteEscapesKept(s);
    MapCharsKeeps(s, IsDoubleQuote, '\'');
    assert MapChars(s, IsDoubleQuote, '\'') == s;
  }

  // ---------------------------------------------------------------------------
  // Worked cases of tests/escapeFlowLabel.test.js.

  lemma EscapeNothing()
    ensures EscapeFlowLabel(None) == ""
  {
  }

  lemma EscapePlainWords(s: string)
    requires s == "Hello World" || s == "123"
    ensures Escape(s) == s
  {
    WordsAreClean(s);
    CleanLabelKept(s);
  }

  /** A word between two quote marks, after a plain prefix, comes out between two single
      quotes. */
  lemma QuotedWord(s: string, p: string, q1: char, w: string, q2: char)
    requires IsQuoteMark(q1) && IsQuoteMark(q2) && CleanWord(w)
    requires (p == [] || !IsSpace(p[0])) && forall c :: c in p ==> !Unsafe(c) && !IsQuoteMark(c) && c != '\\'
    requires s == p + [q1] + w + [q2]
    ensures Escape(s) == p + "'" + w + "'"
  {
    QuotedMarkFacts(s, p, q1, w, q2);
    QuotedWordMapped(s, p, q1, w, q2);
    QuoteMarksBecomeApostrophes(s);
  }

  lemma QuotedMarkFacts(s: string, p: string, q1: char, w: string, q2: char)
    requires IsQuoteMark(q1) && IsQuoteMark(q2) && CleanWord(w)
    requires (p == [] || !IsSpace(p[0])) && forall c :: c in p ==> !Unsafe(c) && !IsQuoteMark(c) && c != '\\'
    requires s == p + [q1] + w + [q2]
    ensures Trimmed(s) && '\n' !in s && '\\' !in s && forall c :: c in s ==> !IsBom(c)
  {
    QuoteMarkSteps(q1);
    QuoteMarkSteps(q2);
    QuotedWordFacts(s, p, q1, w, q2);
  }

  lemma QuotedWordFacts(s: string, p: string, q1: char, w: string, q2: char)
    requires !IsSpace(q1) && !IsSpace(q2) && q1 != '\\' && q2 != '\\' && CleanWord(w)
    requires (p == [] || !IsSpace(p[0])) && forall c :: c in p ==> !Unsafe(c) && !IsQuoteMark(c) && c != '\\'
    requires s == p + [q1] + w + [q2]
    ensures Trimmed(s) && '\n' !in s && '\\' !in s && forall c :: c in s ==> !IsBom(c)
  {
    forall c | c in s ensures c != '\n' && c != '\\' && !IsBom(c) {
      assert c in p || c == q1 || c in w || c == q2;
    }
    if p != [] {
      assert s[0] == p[0];
    }
  }

  lemma QuotedWordMapped(s: string, p: string, q1: char, w: string, q2: char)
    requires IsQuoteMark(q1) && IsQuoteMark(q2) && CleanWord(w)
    requires forall c :: c in p ==> !IsQuoteMark(c)
    requires s == p + [q1] + w + [q2]
    ensures MapChars(s, IsQuoteMark, '\'') == p + "'" + w + "'"
  {
    var n := |p|;
    var m := MapChars(s, IsQuoteMark, '\'');
    var e := p + "'" + w + "'";
    forall k | 0 <= k < |s| ensures m[k] == e[k] {
      if k < n {
        assert s[k] == p[k] == e[k];
        assert s[k] in p;
      } else if n < k < |s| - 1 {
        assert s[k] == w[k - n - 1] == e[k];
        assert s[k] in w;
      }
    }
    SameChars(m, e);
  }

  /** A non-empty trimmed word the escaper leaves alone and that holds no quote mark or
      backslash. */
  predicate CleanWord(w: string)
  {
    w != [] && Trimmed(w) && forall c :: c in w ==> !Unsafe(c) && !IsQuoteMark(c) && c != '\\'
  }

  lemma WordsAreClean(w: string)
    requires w == "Hello" || w == "World" || w == "Hello World" || w == "123"
    ensures CleanWord(w)
  {
    WordEnds(w);
    WordChars(w);
  }

  lemma WordEnds(w: string)
    requires w == "Hello" || w == "World" || w == "Hello World" || w == "123"
    ensures w != [] && Trimmed(w)
  {
  }

  lemma WordChars(w: string)
    requires w == "Hello" || w == "World" || w == "Hello World" || w == "123"
    ensures forall c :: c in w ==> !Unsafe(c) && !IsQuoteMark(c) && c != '\\'
  {
  }

  lemma EscapeTypographicQuotes(s: string)
    requires s == "\U{201C}Hello\U{201D}" || s == "\U{201E}Hello\U{201D}" || s == "\U{201F}Hello\U{201D}"
          || s == "\U{2018}Hello\U{2019}" || s == "\U{201A}Hello\U{2019}" || s == "\U{201B}Hello\U{2019}"
    ensures Escape(s) == "'Hello'"
  {
    var w := s[1..6];
    TypographicParts(s, w);
    WordsAreClean(w);
    QuotedWord(s, [], s[0], w, s[6]);
    HelloQuoted(w);
  }

  lemma TypographicParts(s: string, w: string)
    requires s == "\U{201C}Hello\U{201D}" || s == "\U{201E}Hello\U{201D}" || s == "\U{201F}Hello\U{201D}"
          || s == "\U{2018}Hello\U{2019}" || s == "\U{201A}Hello\U{2019}" || s == "\U{201B}Hello\U{2019}"
    requires w == s[1..6]
    ensures |s| == 7 && s == [] + [s[0]] + w + [s[6]] && IsQuoteMark(s[0]) && IsQuoteMark(s[6])
    ensures w == "Hello"
  {
    assert s[1] == 'H' && s[2] == 'e' && s[3] == 'l' && s[4] == 'l' && s[5] == 'o';
    SpelledHello(w);
  }

  lemma SpelledHello(w: string)
    requires |w| == 5 && w[0] == 'H' && w[1] == 'e' && w[2] == 'l' && w[3] == 'l' && w[4] == 'o'
    ensures w == "Hello"
  {
  }

  lemma HelloQuoted(w: string)
    requires w == "Hello"
    ensures [] + "'" + w + "'" == "'Hello'"
  {
  }

  lemma EscapeStraightQuotes(s: string)
    requires s == "Hello \"World\""
    ensures Escape(s) == "Hello 'World'"
  {
    var p, w := s[..6], s[7..12];
    assert s == p + [s[6]] + w + [s[12]];
    WordsAreClean(w);
    PrefixFacts(p);
    assert p + "'" + w + "'" == "Hello 'World'";
    QuotedWord(s, p, s[6], w, s[12]);
  }

  lemma PrefixFacts(p: string)
    requires p == "Hello "
    ensures !IsSpace(p[0]) && forall c :: c in p ==> !Unsafe(c) && !IsQuoteMark(c) && c != '\\'
  {
  }

  predicate Backslashes(bs: string)
  {
    bs != [] && forall k :: 0 <= k < |bs| ==> bs[k] == '\\'
  }

  lemma {:induction false} BackslashRunOver(bs: string, t: string, i: nat)
    requires Backslashes(bs) && i <= |bs| && t != [] && t[0] != '\\'
    ensures BackslashRun(bs + t, i) == |bs|
    decreases |bs| - i
  {
    if i < |bs| {
      assert (bs + t)[i] == bs[i];
      BackslashRunOver(bs, t, i + 1);
    } else {
      assert (bs + t)[i] == t[0];
    }
  }

  /** A run of backslashes and the double quote it escapes become one single quote. */
  lemma EscapedQuoteUnfolds(bs: string, t: string)
    requires Backslashes(bs)
    ensures ReplaceEscapedQuotes(bs + "\"" + t) == "'" + ReplaceEscapedQuotes(t)
  {
    var s := bs + ("\"" + t);
    assert s == bs + "\"" + t;
    BackslashRunOver(bs, "\"" + t, 0);
    assert s[|bs|] == '"' && s[0] == '\\';
    assert s[|bs| + 1..] == t;
    QuotedRunUnfolds(s, |bs|);
  }

  /** A word between two escaped double quotes, after a plain prefix, comes out between two
      single quotes, whatever the number of backslashes. */
  lemma EscapedQuotedWord(s: string, p: string, bs1: string, w: string, bs2: string)
    requires Backslashes(bs1) && Backslashes(bs2) && CleanWord(w)
    requires (p == [] || !IsSpace(p[0])) && forall c :: c in p ==> !Unsafe(c) && !IsQuoteMark(c) && c != '\\'
    requires s == p + bs1 + "\"" + w + bs2 + "\""
    ensures Escape(s) == p + "'" + w + "'"
  {
    var q := '\'';
    var r := p + [q] + w + [q];
    EscapedWordReplaced(s, p, bs1, w, bs2, q);
    EscapedWordUnmarked(s, p, bs1, w, bs2);
    PlainQuotesOnly(s);
    QuotedWordSettled(r, p, w, q);
    assert r == p + "'" + w + "'";
  }

  lemma EscapedWordUnmarked(s: string, p: string, bs1: string, w: string, bs2: string)
    requires Backslashes(bs1) && Backslashes(bs2) && CleanWord(w)
    requires forall c :: c in p ==> !Unsafe(c)
    requires s == p + bs1 + "\"" + w + bs2 + "\""
    ensures forall c :: c in s ==> !IsFancyDouble(c) && !IsFancySingle(c) && !IsBom(c)
  {
    forall c | c in s ensures !IsFancyDouble(c) && !IsFancySingle(c) && !IsBom(c) {
      assert c in p || c in bs1 || c == '"' || c in w || c in bs2;
      if c in bs1 {
        var k :| 0 <= k < |bs1| && bs1[k] == c;
      } else if c in bs2 {
        var k :| 0 <= k < |bs2| && bs2[k] == c;
      }
    }
  }

  /** A plain prefix and a word between single quotes go through the last three steps
      unchanged. */
  lemma QuotedWordSettled(r: string, p: string, w: string, q: char)
    requires CleanWord(w) && q == '\''
    requires (p == [] || !IsSpace(p[0])) && forall c :: c in p ==> !Unsafe(c) && !IsQuoteMark(c) && c != '\\'
    requires r == p + [q] + w + [q]
    ensures Trim(CollapseLineBreaks(MapChars(r, IsDoubleQuote, q))) == r
  {
    QuotedWordFacts(r, p, q, w, q);
    forall c | c in r ensures c != '"' {
      assert c in p || c == q || c in w;
    }
    SettledUnchanged(r, q);
  }

  lemma SettledUnchanged(r: string, q: char)
    requires Trimmed(r) && '\n' !in r && '"' !in r
    ensures Trim(CollapseLineBreaks(MapChars(r, IsDoubleQuote, q))) == r
  {
    MapCharsKeeps(r, IsDoubleQuote, q);
    assert MapChars(r, IsDoubleQuote, q) == r;
    TrimmedFixed(r);
  }

  lemma EscapedWordReplaced(s: string, p: string, bs1: string, w: string, bs2: string, q: char)
    requires Backslashes(bs1) && Backslashes(bs2) && CleanWord(w) && q == '\''
    requires forall c :: c in p ==> c != '\\'
    requires s == p + bs1 + "\"" + w + bs2 + "\""
    ensures ReplaceEscapedQuotes(s) == p + [q] + w + [q]
  {
    var mid := w + (bs2 + "\"");
    var right := bs1 + "\"" + mid;
    EscapedRight(bs1, w, bs2, q, mid, right);
    EscapedRegroup(s, p, bs1, w, bs2, right);
    EscapedPrefix(s, p, right);
    Regroup(p, [q], w + [q]);
  }

  lemma EscapedRight(bs1: string, w: string, bs2: string, q: char, mid: string, right: string)
    requires Backslashes(bs1) && Backslashes(bs2) && CleanWord(w) && q == '\''
    requires mid == w + (bs2 + "\"") && right == bs1 + "\"" + mid
    ensures ReplaceEscapedQuotes(right) == [q] + (w + [q])
  {
    EscapedTail(w, bs2, q);
    EscapedQuoteUnfolds(bs1, mid);
  }

  lemma EscapedRegroup(s: string, p: string, bs1: string, w: string, bs2: string, right: string)
    requires s == p + bs1 + "\"" + w + bs2 + "\""
    requires right == bs1 + "\"" + (w + (bs2 + "\""))
    ensures s == p + right
  {
  }

  lemma EscapedPrefix(s: string, p: string, right: string)
    requires forall c :: c in p ==> c != '\\'
    requires s == p + right
    ensures ReplaceEscapedQuotes(s) == p + ReplaceEscapedQuotes(right)
  {
    if p != [] {
      assert p[|p| - 1] in p;
    }
    EscapedQuotesSplit(p, right);
    NoBackslashKept(p);
  }

  lemma EscapedTail(w: string, bs2: string, q: char)
    requires Backslashes(bs2) && CleanWord(w) && q == '\''
    ensures ReplaceEscapedQuotes(w + (bs2 + "\"")) == w + [q]
  {
    assert bs2 + "\"" + [] == bs2 + "\"";
    EscapedQuoteUnfolds(bs2, []);
    assert w[|w| - 1] in w;
    EscapedQuotesSplit(w, bs2 + "\"");
    NoBackslashKept(w);
  }

  lemma EscapeEscapedQuotes(s: string)
    requires s == "Hello \\\"World\\\"" || s == "Hello \\\\\"World\\\\\""
    ensures Escape(s) == "Hello 'World'"
  {
    if s == "Hello \\\"World\\\"" {
      EscapeOneBackslash(s);
    } else {
      EscapeTwoBackslashes(s);
    }
  }

  lemma EscapeOneBackslash(s: string)
    requires s == "Hello \\\"World\\\""
    ensures Escape(s) == "Hello 'World'"
  {
    var p, bs1, w, bs2 := s[..6], s[6..7], s[8..13], s[13..14];
    assert s == p + bs1 + [s[7]] + w + bs2 + [s[14]];
    EscapedCase(s, p, bs1, w, bs2);
  }

  lemma EscapeTwoBackslashes(s: string)
    requires s == "Hello \\\\\"World\\\\\""
    ensures Escape(s) == "Hello 'World'"
  {
    var p, bs1, w, bs2 := s[..6], s[6..8], s[9..14], s[14..16];
    assert s == p + bs1 + [s[8]] + w + bs2 + [s[16]];
    EscapedCase(s, p, bs1, w, bs2);
  }

  lemma EscapedCase(s: string, p: string, bs1: string, w: string, bs2: string)
    requires p == "Hello " && w == "World" && Backslashes(bs1) && Backslashes(bs2)
    requires s == p + bs1 + "\"" + w + bs2 + "\""
    ensures Escape(s) == "Hello 'World'"
  {
    WordsAreClean(w);
    PrefixFacts(p);
    assert p + "'" + w + "'" == "Hello 'World'";
    EscapedQuotedWord(s, p, bs1, w, bs2);
  }

  /** Runs of single quotes are not collapsed: `''World''` keeps all four quotes. */
  lemma EscapeKeepsRepeatedQuotes(s: string)
    requires s == "Hello ''World''"
    ensures Escape(s) == s
  {
    RepeatedQuoteFacts(s);
    CleanLabelKept(s);
  }

  lemma RepeatedQuoteFacts(s: string)
    requires s == "Hello ''World''"
    ensures Trimmed(s) && forall c :: c in s ==> !Unsafe(c)
  {
  }

  lemma EscapeBom(s: string)
    requires s == "\U{FEFF}Hello"
    ensures Escape(s) == "Hello"
  {
    var t := s[1..];
    assert s == "\U{FEFF}" + t;
    BomDropped(s, t);
    WordsAreClean(t);
    CleanLabelKept(t);
  }

  lemma EscapeNewlines(s: string)
    requires s == "Hello\nWorld" || s == "Hello\r\nWorld" || s == "Hello\n\nWorld"
    ensures Escape(s) == "Hello World"
  {
    var a, w, b := s[..5], s[5..|s| - 5], s[|s| - 5..];
    NewlineParts(s, a, w, b);
    WordsAreClean(a);
    WordsAreClean(b);
    HelloWorldSpaced(a, b);
    LineBreakJoins(s, a, w, b);
  }

  lemma NewlineParts(s: string, a: string, w: string, b: string)
    requires s == "Hello\nWorld" || s == "Hello\r\nWorld" || s == "Hello\n\nWorld"
    requires 10 <= |s| && a == s[..5] && w == s[5..|s| - 5] && b == s[|s| - 5..]
    ensures s == a + w + b && a == "Hello" && b == "World"
    ensures AllSpace(w) && '\n' in w && forall c :: c in w ==> !IsBom(c)
  {
    assert s[0] == 'H' && s[1] == 'e' && s[2] == 'l' && s[3] == 'l' && s[4] == 'o';
    SpelledHello(a);
    var n := |s|;
    assert s[n - 5] == 'W' && s[n - 4] == 'o' && s[n - 3] == 'r' && s[n - 2] == 'l' && s[n - 1] == 'd';
    SpelledWorld(b);
    if |w| == 1 {
      assert w[0] == '\n';
    } else {
      assert w[0] == '\n' || w[0] == '\r';
      assert w[1] == '\n';
    }
  }

  lemma SpelledWorld(w: string)
    requires |w| == 5 && w[0] == 'W' && w[1] == 'o' && w[2] == 'r' && w[3] == 'l' && w[4] == 'd'
    ensures w == "World"
  {
  }

  lemma HelloWorldSpaced(a: string, b: string)
    requires a == "Hello" && b == "World"
    ensures a + " " + b == "Hello World"
  {
  }

  lemma EscapePadding(s: string)
    requires s == "  Hello World  "
    ensures Escape(s) == "Hello World"
  {
    var w1, x, w2 := s[..2], s[2..13], s[13..];
    assert s == w1 + x + w2;
    WordsAreClean(x);
    assert AllSpace(w1) && AllSpace(w2);
    assert w1 + w2 == "    ";
    PaddingTrimmed(s, w1, x, w2);
  }

  /** A label without backslashes or byte-order marks has its quote marks turned into single
      quotes, then its line breaks collapsed, then is trimmed. */
  lemma QuotesThenBreaks(s: string)
    requires '\\' !in s && forall c :: c in s ==> !IsBom(c)
    ensures Escape(s) == Trim(CollapseLineBreaks(MapChars(s, IsQuoteMark, '\'')))
  {
    var s1 := MapChars(s, IsFancyDouble, '"');
    var s2 := MapChars(s1, IsFancySingle, '\'');
    assert forall c :: c in s2 ==> !IsBom(c);
    RemoveCharsKeeps(s2, IsBom);
    assert forall c :: c in s2 ==> c != '\\';
    NoBackslashKept(s2);
    QuoteStagesAgree(s, s1, s2, MapChars(s, IsQuoteMark, '\''));
  }


  /** The mixed case: a byte-order mark, padding, typographic and straight quotes and a line
      break in one label. */
  lemma EscapeMixed(s: string)
    requires s == "\U{FEFF}  \U{201C}Hello\U{201D}\nWorld  \"Test\"  "
    ensures Escape(s) == "'Hello' World  'Test'"
  {
    var t := s[1..];
    assert s == "\U{FEFF}" + t;
    BomDropped(s, t);
    var w, x, y, z := "  ", "\U{201C}Hello\U{201D}", "\nWorld  ", "\"Test\"";
    MixedPieces(t, w, x, y, z);
    var x', z' := "'Hello'", "'Test'";
    MixedMapped(w, x, y, z, x', z');
    var r := "'Hello' World  'Test'";
    MixedCollapsed(w, x', y, z', r);
    TrimOver(w, r, w);
  }

  lemma MixedPieces(t: string, w: string, x: string, y: string, z: string)
    requires t == "  \U{201C}Hello\U{201D}\nWorld  \"Test\"  "
    requires w == "  " && x == "\U{201C}Hello\U{201D}" && y == "\nWorld  " && z == "\"Test\""
    ensures t == w + x + y + z + w
    ensures '\\' !in t && forall c :: c in t ==> !IsBom(c)
  {
  }

  /** Only the four quote marks change. */
  lemma MixedMapped(w: string, x: string, y: string, z: string, x': string, z': string)
    requires w == "  " && x == "\U{201C}Hello\U{201D}" && y == "\nWorld  " && z == "\"Test\""
    requires x' == "'Hello'" && z' == "'Test'"
    ensures Escape(w + x + y + z + w) == Trim(CollapseLineBreaks(w + x' + y + z' + w))
  {
    var t := w + x + y + z + w;
    MixedWords(w, y, x, z);
    MapCharsAppend(w + x + y + z, w, IsQuoteMark, '\'');
    MapCharsAppend(w + x + y, z, IsQuoteMark, '\'');
    MapCharsAppend(w + x, y, IsQuoteMark, '\'');
    MapCharsAppend(w, x, IsQuoteMark, '\'');
    MapCharsKeeps(w, IsQuoteMark, '\'');
    MapCharsKeeps(y, IsQuoteMark, '\'');
    QuotedWordMapped(x, [], x[0], x[1..6], x[6]);
    QuotedWordMapped(z, [], z[0], z[1..5], z[5]);
    QuotesThenBreaks(t);
  }

  lemma MixedWords(w: string, y: string, x: string, z: string)
    requires w == "  " && y == "\nWorld  " && x == "\U{201C}Hello\U{201D}" && z == "\"Test\""
    ensures forall c :: c in w ==> !IsQuoteMark(c)
    ensures forall c :: c in y ==> !IsQuoteMark(c)
    ensures x == [] + [x[0]] + x[1..6] + [x[6]] && IsQuoteMark(x[0]) && IsQuoteMark(x[6]) && CleanWord(x[1..6])
    ensures z == [] + [z[0]] + z[1..5] + [z[5]] && IsQuoteMark(z[0]) && IsQuoteMark(z[5]) && CleanWord(z[1..5])
    ensures [] + "'" + x[1..6] + "'" == "'Hello'" && [] + "'" + z[1..5] + "'" == "'Test'"
    ensures '\\' !in w + x + y + z + w && forall c :: c in w + x + y + z + w ==> !IsBom(c)
  {
    MixedQuoteFree(w, y);
    QuotedHello(x);
    QuotedTest(z);
    MixedClean(w, x, y, z);
  }

  lemma MixedQuoteFree(w: string, y: string)
    requires w == "  " && y == "\nWorld  "
    ensures forall c :: c in w ==> !IsQuoteMark(c)
    ensures forall c :: c in y ==> !IsQuoteMark(c)
  {
  }

  lemma QuotedHello(x: string)
    requires x == "\U{201C}Hello\U{201D}"
    ensures x == [] + [x[0]] + x[1..6] + [x[6]] && IsQuoteMark(x[0]) && IsQuoteMark(x[6]) && CleanWord(x[1..6])
    ensures [] + "'" + x[1..6] + "'" == "'Hello'"
  {
    assert x[1..6] == "Hello";
    WordsAreClean(x[1..6]);
  }

  lemma QuotedTest(z: string)
    requires z == "\"Test\""
    ensures z == [] + [z[0]] + z[1..5] + [z[5]] && IsQuoteMark(z[0]) && IsQuoteMark(z[5]) && CleanWord(z[1..5])
    ensures [] + "'" + z[1..5] + "'" == "'Test'"
  {
    assert z[1..5] == "Test";
  }

  lemma MixedClean(w: string, x: string, y: string, z: string)
    requires w == "  " && y == "\nWorld  " && x == "\U{201C}Hello\U{201D}" && z == "\"Test\""
    ensures '\\' !in w + x + y + z + w && forall c :: c in w + x + y + z + w ==> !IsBom(c)
  {
    forall c | c in w + x + y + z + w ensures c != '\\' && !IsBom(c) {
      assert c in w || c in x || c in y || c in z;
    }
  }

  /** The line break between the two words becomes one space; the rest has none. */
  lemma MixedCollapsed(w: string, x': string, y: string, z': string, r: string)
    requires w == "  " && x' == "'Hello'" && y == "\nWorld  " && z' == "'Test'"
    requires r == "'Hello' World  'Test'"
    ensures CollapseLineBreaks(w + x' + y + z' + w) == w + r + w && AllSpace(w) && Trimmed(r)
  {
    var v := y[1..];
    MixedRegrouped(w, x', y, z', r, v);
    LineBreaksSplit(w + x', "\n" + (v + z' + w));
    LineBreakCollapses("\n", v + z' + w);
  }

  lemma MixedRegrouped(w: string, x': string, y: string, z': string, r: string, v: string)
    requires w == "  " && x' == "'Hello'" && y == "\nWorld  " && z' == "'Test'"
    requires r == "'Hello' World  'Test'" && v == y[1..]
    ensures w + x' + y + z' + w == (w + x') + ("\n" + (v + z' + w))
    ensures (w + x') + (" " + (v + z' + w)) == w + r + w
    ensures AllSpace(w) && Trimmed(r) && (w + x')[|w + x'| - 1] == '\''
    ensures '\n' !in w + x' && '\n' !in v + z' + w && AllSpace("\n") && '\n' in "\n"
    ensures v + z' + w != [] && !IsSpace((v + z' + w)[0])
  {
    assert v == "World  ";
  }
}
