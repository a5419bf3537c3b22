/** The values JavaScript may pass as `null` or `undefined` where a string is expected. */
module Wrappers {
  datatype Option<+T> = None | Some(value: T)
}

/**
 * The JavaScript string primitives the clean-up pipeline of main.js is built from:
 * the `\s` and `\w` classes, `trim()`, global `replace` of a literal pattern,
 * per-character class replacement, `split('\n')` and `join('\n')`.
 * Characters are Unicode scalar values; every character the pipeline names lies
 * in the Basic Multilingual Plane, where a JavaScript code unit is one `char`.
 */
module JsText {
  import opened Wrappers

  /** `String(text == null ? '' : text)` for a value that is a string or absent. */
  function OrEmpty(text: Option<string>): string
  {
    if text.Some? then text.value else ""
  }

  /** What `\s` matches and `trim()` removes: ECMAScript WhiteSpace and LineTerminator. */
  predicate IsSpace(c: char)
  {
    c == '\t' || c == '\n' || c == '\U{000B}' || c == '\U{000C}' || c == '\r' || c == ' '
    || c == '\U{00A0}' || c == '\U{1680}' || ('\U{2000}' <= c <= '\U{200A}')
    || c == '\U{2028}' || c == '\U{2029}' || c == '\U{202F}' || c == '\U{205F}'
    || c == '\U{3000}' || c == '\U{FEFF}'
  }

  /** What `.` refuses and what `^`/`$` stand next to under the `m` flag. */
  predicate IsLineTerminator(c: char)
  {
    c == '\n' || c == '\r' || c == '\U{2028}' || c == '\U{2029}'
  }

  /** `[A-Za-z0-9_]`, the class `\w` and `\b` are made of. */
  predicate IsWordChar(c: char)
  {
    ('a' <= c <= 'z') || ('A' <= c <= 'Z') || ('0' <= c <= '9') || c == '_'
  }

  /** The class `[\u00A0\u1680\u180E\u2000-\u200B\u202F\u205F\u3000\uFEFF]`. */
  predicate IsSpecialSpace(c: char)
  {
    c == '\U{00A0}' || c == '\U{1680}' || c == '\U{180E}' || ('\U{2000}' <= c <= '\U{200B}')
    || c == '\U{202F}' || c == '\U{205F}' || c == '\U{3000}' || c == '\U{FEFF}'
  }

  /** A `\w` character sits at index `i`. */
  predicate WordAt(s: string, i: int)
  {
    0 <= i < |s| && IsWordChar(s[i])
  }

  /** ASCII case folding, which is what the `i` flag does to the ASCII patterns of main.js. */
  function Lower(c: char): char
  {
    if 'A' <= c <= 'Z' then (c as int + 32) as char else c
  }

  predicate SameChar(a: char, b: char, ignoreCase: bool)
  {
    if ignoreCase then Lower(a) == Lower(b) else a == b
  }

  /** The literal pattern `pat` occurs in `s` at index `i`. */
  predicate MatchesAt(s: string, i: nat, pat: string, ignoreCase: bool := false)
    ensures MatchesAt(s, i, pat, ignoreCase) ==> i + |pat| <= |s|
    decreases |pat|
  {
    if pat == [] then i <= |s|
    else i < |s| && SameChar(s[i], pat[0], ignoreCase) && MatchesAt(s, i + 1, pat[1..], ignoreCase)
  }

  predicate AllSpace(s: string)
  {
    forall k :: 0 <= k < |s| ==> IsSpace(s[k])
  }

  /** What `trim()` returns has no `\s` character at either end. */
  predicate Trimmed(s: string)
  {
    s == [] || (!IsSpace(s[0]) && !IsSpace(s[|s| - 1]))
  }

  /** The end of the run of `\s` characters that starts at `i`. */
  function SpaceRun(s: string, i: nat): (j: nat)
    requires i <= |s|
    ensures i <= j <= |s| && (j == |s| || !IsSpace(s[j]))
    ensures forall k :: i <= k < j ==> IsSpace(s[k])
    decreases |s| - i
  {
    if i < |s| && IsSpace(s[i]) then SpaceRun(s, i + 1) else i
  }

  /** A run of spaces from `i` that stops at `q` is what `SpaceRun` measures. */
  lemma {:induction false} SpaceRunTo(s: string, i: nat, q: nat)
    requires i <= q <= |s| && (q == |s| || !IsSpace(s[q]))
    requires forall k :: i <= k < q ==> IsSpace(s[k])
    ensures SpaceRun(s, i) == q
    decreases q - i
  {
    if i < q {
      SpaceRunTo(s, i + 1, q);
    }
  }

  /** The start of the run of `\s` characters that ends at `j`, not going below `lo`. */
  function SpaceRunBack(s: string, lo: nat, j: nat): (i: nat)
    requires lo <= j <= |s|
    ensures lo <= i <= j && (i == lo || !IsSpace(s[i - 1]))
    ensures forall k :: i <= k < j ==> IsSpace(s[k])
    decreases j
  {
    if lo < j && IsSpace(s[j - 1]) then SpaceRunBack(s, lo, j - 1) else j
  }

  /** `s.replace(/^\s+/, '')`. */
  function TrimStart(s: string): (r: string)
    ensures |r| <= |s| && r == s[|s| - |r|..] && AllSpace(s[..|s| - |r|])
    ensures r == [] || !IsSpace(r[0])
  {
    s[SpaceRun(s, 0)..]
  }

  /** `s.replace(/\s+$/, '')`. */
  function TrimEnd(s: string): (r: string)
    ensures |r| <= |s| && r == s[..|r|] && AllSpace(s[|r|..])
    ensures r == [] || !IsSpace(r[|r| - 1])
  {
    s[..SpaceRunBack(s, 0, |s|)]
  }

  /** `s.trim()`. */
  function Trim(s: string): (r: string)
    ensures Trimmed(r) && |r| <= |s|
    ensures forall c :: c in r ==> c in s
    ensures AllSpace(s) <==> r == []
  {
    TrimEnd(TrimStart(s))
  }

  /** `s.replace(/pat/g, rep)` (with the `i` flag when `ignoreCase`) for a pattern without
      metacharacters: matches are found left to right and scanning resumes after each one. */
  function ReplaceAll(s: string, pat: string, rep: string, ignoreCase: bool := false): (r: string)
    requires pat != []
    ensures forall c :: c in r ==> c in s || c in rep
    ensures |rep| <= |pat| ==> |r| <= |s|
    ensures (forall k :: 0 <= k < |s| ==> !SameChar(s[k], pat[0], ignoreCase)) ==> r == s
    decreases |s|
  {
    if s == [] then []
    else if MatchesAt(s, 0, pat, ignoreCase) then rep + ReplaceAll(s[|pat|..], pat, rep, ignoreCase)
    else [s[0]] + ReplaceAll(s[1..], pat, rep, ignoreCase)
  }

  /** `s.replace(/[class]/g, sub)` for the character class `p`. */
  function MapChars(s: string, p: char -> bool, sub: char): (r: string)
    ensures |r| == |s|
    ensures forall k :: 0 <= k < |s| ==> r[k] == (if p(s[k]) then sub else s[k])
    ensures forall c :: c in r ==> (c in s && !p(c)) || c == sub
  {
    if s == [] then []
    else
      var rest := MapChars(s[1..], p, sub);
      assert forall c :: c in rest ==> (c in s && !p(c)) || c == sub by {
        forall c | c in rest && c != sub ensures c in s && !p(c) {
          assert c in s[1..];
        }
      }
      [if p(s[0]) then sub else s[0]] + rest
  }

  /** Replacing a class that does not occur changes nothing. */
  lemma MapCharsKeeps(s: string, p: char -> bool, sub: char)
    requires forall c :: c in s ==> !p(c)
    ensures MapChars(s, p, sub) == s
  {
    var m := MapChars(s, p, sub);
    forall k | 0 <= k < |s| ensures m[k] == s[k] {
      assert s[k] in s;
    }
  }

  /** Replacing a class works piece by piece. */
  lemma {:induction false} MapCharsAppend(a: string, b: string, p: char -> bool, sub: char)
    ensures MapChars(a + b, p, sub) == MapChars(a, p, sub) + MapChars(b, p, sub)
    decreases |a|
  {
    if a == [] {
      assert a + b == b;
    } else {
      assert (a + b)[1..] == a[1..] + b;
      MapCharsAppend(a[1..], b, p, sub);
    }
  }

  /** `s.replace(/[class]/g, '')` for the character class `p`. */
  function RemoveChars(s: string, p: char -> bool): (r: string)
    ensures forall c :: c in r <==> c in s && !p(c)
    ensures |r| <= |s|
  {
    if s == [] then [] else (if p(s[0]) then [] else [s[0]]) + RemoveChars(s[1..], p)
  }

  /** Removing a class that does not occur changes nothing. */
  lemma {:induction false} RemoveCharsKeeps(s: string, p: char -> bool)
    requires forall c :: c in s ==> !p(c)
    ensures RemoveChars(s, p) == s
    decreases |s|
  {
    if s != [] {
      assert s[0] in s;
      forall c | c in s[1..] ensures !p(c) {
        assert c in s;
      }
      RemoveCharsKeeps(s[1..], p);
      assert [s[0]] + s[1..] == s;
    }
  }

  lemma {:induction false} RemoveCharsAppend(a: string, b: string, p: char -> bool)
    ensures RemoveChars(a + b, p) == RemoveChars(a, p) + RemoveChars(b, p)
    decreases |a|
  {
    if a == [] {
      assert a + b == b;
    } else {
      assert (a + b)[1..] == a[1..] + b;
      RemoveCharsAppend(a[1..], b, p);
    }
  }

  /** The number of occurrences of `c` in `s`: `(s.match(/c/g) || []).length`. */
  function Count(s: string, c: char): nat
  {
    if s == [] then 0 else (if s[0] == c then 1 else 0) + Count(s[1..], c)
  }

  /** `s.split('\n')`. */
  function Lines(s: string): (ls: seq<string>)
    ensures |ls| >= 1
    ensures forall k :: 0 <= k < |ls| ==> '\n' !in ls[k]
  {
    if s == [] then [""]
    else
      var rest := Lines(s[1..]);
      if s[0] == '\n' then [""] + rest else [[s[0]] + rest[0]] + rest[1..]
  }

  /** `ls.join('\n')`. */
  function Join(ls: seq<string>): string
  {
    if ls == [] then "" else if |ls| == 1 then ls[0] else ls[0] + "\n" + Join(ls[1..])
  }

  // ---------------------------------------------------------------------------
  // How trimming treats text framed by whitespace.

  lemma {:induction false} SpaceRunOver(w: string, x: string, i: nat)
    requires AllSpace(w) && i <= |w| && (x == [] || !IsSpace(x[0]))
    ensures SpaceRun(w + x, i) == |w|
    decreases |w| - i
  {
    if i < |w| {
      assert (w + x)[i] == w[i];
      SpaceRunOver(w, x, i + 1);
    } else if x != [] {
      assert (w + x)[i] == x[0];
    }
  }

  lemma {:induction false} SpaceRunBackOver(x: string, w: string, j: nat)
    requires AllSpace(w) && |x| <= j <= |x| + |w| && (x == [] || !IsSpace(x[|x| - 1]))
    ensures SpaceRunBack(x + w, 0, j) == |x|
    decreases j
  {
    if j > |x| {
      assert (x + w)[j - 1] == w[j - 1 - |x|];
      SpaceRunBackOver(x, w, j - 1);
    } else if x != [] {
      assert (x + w)[j - 1] == x[|x| - 1];
    }
  }

  /** Leading whitespace is all `trimStart` removes. */
  lemma TrimStartOver(w: string, x: string)
    requires AllSpace(w) && (x == [] || !IsSpace(x[0]))
    ensures TrimStart(w + x) == x
  {
    SpaceRunOver(w, x, 0);
    assert (w + x)[|w|..] == x;
  }

  /** Trailing whitespace is all `trimEnd` removes. */
  lemma TrimEndOver(x: string, w: string)
    requires AllSpace(w) && (x == [] || !IsSpace(x[|x| - 1]))
    ensures TrimEnd(x + w) == x
  {
    SpaceRunBackOver(x, w, |x| + |w|);
    assert (x + w)[..|x|] == x;
  }

  /** `trim()` returns exactly the text between the outer whitespace runs. */
  lemma TrimOver(w: string, x: string, w': string)
    requires AllSpace(w) && AllSpace(w') && Trimmed(x)
    ensures Trim(w + x + w') == x
  {
    assert w + x + w' == w + (x + w');
    if x == [] {
      assert x + w' == w';
      AllSpaceJoin(w, w');
      TrimStartOver(w + w', []);
      assert w + w' + [] == w + w';
    } else {
      TrimStartOver(w, x + w');
      TrimEndOver(x, w');
    }
  }

  /** Trimming a trimmed text changes nothing. */
  lemma TrimmedFixed(x: string)
    requires Trimmed(x)
    ensures Trim(x) == x
  {
    TrimOver([], x, []);
    assert [] + x + [] == x;
  }

  // ---------------------------------------------------------------------------
  // Where a literal pattern occurs, and what a global replacement then does.

  lemma {:induction false} MatchesAtChars(s: string, i: nat, pat: string, j: nat, ignoreCase: bool)
    requires MatchesAt(s, i, pat, ignoreCase) && j < |pat|
    ensures SameChar(s[i + j], pat[j], ignoreCase)
    decreases j
  {
    if j > 0 {
      MatchesAtChars(s, i + 1, pat[1..], j - 1, ignoreCase);
    }
  }

  /** A pattern cannot occur at index `i` of `s` when they differ `k` characters in. */
  lemma {:induction false} NoMatchWhereDiffer(s: string, i: nat, pat: string, k: nat)
    requires k < |pat| && i + k < |s| && s[i + k] != pat[k]
    ensures !MatchesAt(s, i, pat)
    decreases k
  {
    if k > 0 {
      NoMatchWhereDiffer(s, i + 1, pat[1..], k - 1);
    }
  }

  /** A text that starts with the pattern matches it at index 0. */
  lemma PrefixMatches(pat: string, rest: string, ignoreCase: bool)
    ensures MatchesAt(pat + rest, 0, pat, ignoreCase)
  {
    MatchesShifted(pat, rest, 0, ignoreCase);
  }

  lemma {:induction false} MatchesShifted(pat: string, rest: string, i: nat, ignoreCase: bool)
    requires i <= |pat|
    ensures MatchesAt(pat + rest, i, pat[i..], ignoreCase)
    decreases |pat| - i
  {
    if i < |pat| {
      MatchesShifted(pat, rest, i + 1, ignoreCase);
      assert pat[i..][1..] == pat[i + 1..];
    }
  }

  /** Text appended after a match does not undo it. */
  lemma {:induction false} MatchesExtend(s: string, rest: string, i: nat, pat: string, ignoreCase: bool)
    requires MatchesAt(s, i, pat, ignoreCase)
    ensures MatchesAt(s + rest, i, pat, ignoreCase)
    decreases |pat|
  {
    if pat != [] {
      MatchesExtend(s, rest, i + 1, pat[1..], ignoreCase);
    }
  }

  /** Where a pattern fails to occur, the text ends or differs from it some `k` characters in. */
  lemma {:induction false} MismatchOf(s: string, i: nat, pat: string, ignoreCase: bool) returns (k: nat)
    requires i <= |s| && !MatchesAt(s, i, pat, ignoreCase)
    ensures k < |pat| && i + k <= |s|
    ensures i + k == |s| || !SameChar(s[i + k], pat[k], ignoreCase)
    decreases |pat|
  {
    if i == |s| || !SameChar(s[i], pat[0], ignoreCase) {
      k := 0;
    } else {
      var k' := MismatchOf(s, i + 1, pat[1..], ignoreCase);
      k := k' + 1;
    }
  }

  /** A pattern occurs at `j + i` of `s` exactly when it occurs at `i` of the text from `j` on. */
  lemma {:induction false} MatchesInSuffix(s: string, j: nat, i: nat, pat: string, ignoreCase: bool)
    requires j <= |s|
    ensures MatchesAt(s, j + i, pat, ignoreCase) <==> MatchesAt(s[j..], i, pat, ignoreCase)
    decreases |pat|
  {
    if pat != [] {
      MatchesInSuffix(s, j, i + 1, pat[1..], ignoreCase);
      if i < |s[j..]| {
        assert s[j..][i] == s[j + i];
      }
    }
  }

  lemma {:induction false} MatchesSuffix(s: string, i: nat, pat: string)
    requires i >= 1 && MatchesAt(s, i, pat)
    ensures MatchesAt(s[1..], i - 1, pat)
    decreases |pat|
  {
    if pat != [] {
      MatchesSuffix(s, i + 1, pat[1..]);
    }
  }

  lemma {:induction false} MatchesUnshift(s: string, i: nat, pat: string)
    requires s != [] && MatchesAt(s[1..], i, pat)
    ensures MatchesAt(s, i + 1, pat)
    decreases |pat|
  {
    if pat != [] {
      MatchesUnshift(s, i + 1, pat[1..]);
    }
  }

  /** Scanning passes over a prefix `t` in which no match can start. */
  lemma {:induction false} ReplaceAllSkips(t: string, rest: string, pat: string, rep: string)
    requires pat != []
    requires t != [] ==> !MatchesAt(t + rest, 0, pat)
    requires forall i :: 1 <= i < |t| ==> t[i] != pat[0]
    ensures ReplaceAll(t + rest, pat, rep) == t + ReplaceAll(rest, pat, rep)
    decreases |t|
  {
    if t != [] {
      var u := t + rest;
      assert u[1..] == t[1..] + rest;
      if |t| > 1 {
        assert (t[1..] + rest)[0] == t[1];
        assert !MatchesAt(t[1..] + rest, 0, pat);
      }
      ReplaceAllSkips(t[1..], rest, pat, rep);
      assert ReplaceAll(u, pat, rep) == [u[0]] + ReplaceAll(u[1..], pat, rep);
      var r, h := ReplaceAll(rest, pat, rep), [t[0]];
      assert h + t[1..] == t;
      assert h + (t[1..] + r) == (h + t[1..]) + r;
    } else {
      assert t + rest == rest;
    }
  }


  /** A replacement shorter than its pattern shortens every text the pattern occurs in. */
  lemma {:induction false} ReplaceAllShortens(s: string, pat: string, rep: string, i: nat)
    requires pat != [] && |rep| < |pat| && MatchesAt(s, i, pat)
    ensures |ReplaceAll(s, pat, rep)| < |s|
    decreases |s|
  {
    if !MatchesAt(s, 0, pat) {
      assert i > 0 by { if i == 0 { assert false; } }
      MatchesSuffix(s, i, pat);
      ReplaceAllShortens(s[1..], pat, rep, i - 1);
    }
  }

  /** A global replacement whose pattern occurs nowhere changes nothing. */
  lemma {:induction false} NoMatchKeeps(s: string, pat: string, rep: string)
    requires pat != [] && forall i: nat :: !MatchesAt(s, i, pat)
    ensures ReplaceAll(s, pat, rep) == s
    decreases |s|
  {
    if s != [] {
      assert !MatchesAt(s, 0, pat);
      forall i ensures !MatchesAt(s[1..], i, pat) {
        if MatchesAt(s[1..], i, pat) {
          MatchesUnshift(s, i, pat);
        }
      }
      NoMatchKeeps(s[1..], pat, rep);
    }
  }

  /** A global replacement by something shorter leaves the text alone exactly when the
      pattern occurs nowhere in it. */
  lemma ReplaceAllKeepsIff(s: string, pat: string, rep: string)
    requires pat != [] && |rep| < |pat|
    ensures (forall i: nat :: !MatchesAt(s, i, pat)) ==> ReplaceAll(s, pat, rep) == s
    ensures ReplaceAll(s, pat, rep) == s ==> forall i: nat :: !MatchesAt(s, i, pat)
  {
    if ReplaceAll(s, pat, rep) == s {
      forall i: nat ensures !MatchesAt(s, i, pat) {
        if MatchesAt(s, i, pat) {
          ReplaceAllShortens(s, pat, rep, i);
        }
      }
    }
    if forall i: nat :: !MatchesAt(s, i, pat) {
      NoMatchKeeps(s, pat, rep);
    }
  }

  lemma AllSpaceJoin(a: string, b: string)
    requires AllSpace(a) && AllSpace(b)
    ensures AllSpace(a + b)
  {
    forall k | 0 <= k < |a + b| ensures IsSpace((a + b)[k]) {
      if k < |a| { assert (a + b)[k] == a[k]; } else { assert (a + b)[k] == b[k - |a|]; }
    }
  }
}
