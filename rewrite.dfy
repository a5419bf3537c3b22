/**
 * The scanning discipline of `String.prototype.replace` with a regular expression: the
 * expression is tried at each index from left to right; where it matches, the match is
 * replaced and scanning resumes after it; elsewhere the character is kept. A pattern is given
 * as a finder that says, for one index, whether a match starts there and, if so, where it ends
 * and what replaces it.
 */
module Rewrite {
  import opened Wrappers
  import opened JsText

  /** A match that ends (exclusively) at `end` and is replaced by `out`. */
  datatype Hit = Hit(end: nat, out: string)

  type Finder = (string, nat) -> Option<Hit>

  /** Every match the finder reports is non-empty and lies inside the text. */
  predicate Advances(s: string, find: Finder)
  {
    forall j: nat :: j <= |s| && find(s, j).Some? ==> j < find(s, j).value.end <= |s|
  }

  /** Global replacement (`/g`) of the matches of `find` in `s[i..]`. */
  function ReplaceFrom(s: string, i: nat, find: Finder): (r: string)
    requires i <= |s| && Advances(s, find)
    decreases |s| - i
  {
    if i == |s| then []
    else
      match find(s, i)
      case Some(h) => h.out + ReplaceFrom(s, h.end, find)
      case None => [s[i]] + ReplaceFrom(s, i + 1, find)
  }

  /** Replacement of the first match only (no `/g` flag), searching from `i`. */
  function ReplaceFirst(s: string, i: nat, find: Finder): (r: string)
    requires i <= |s| && Advances(s, find)
    decreases |s| - i
  {
    if i == |s| then []
    else
      match find(s, i)
      case Some(h) => h.out + s[h.end..]
      case None => [s[i]] + ReplaceFirst(s, i + 1, find)
  }

  /** Where the finder never matches, replacing changes nothing. */
  lemma {:induction false} ReplaceFromNone(s: string, i: nat, find: Finder)
    requires i <= |s| && Advances(s, find)
    requires forall j: nat :: i <= j <= |s| ==> find(s, j).None?
    ensures ReplaceFrom(s, i, find) == s[i..]
    decreases |s| - i
  {
    if i < |s| {
      ReplaceFromNone(s, i + 1, find);
      assert [s[i]] + s[i + 1..] == s[i..];
    }
  }

  lemma {:induction false} ReplaceFirstNone(s: string, i: nat, find: Finder)
    requires i <= |s| && Advances(s, find)
    requires forall j: nat :: i <= j <= |s| ==> find(s, j).None?
    ensures ReplaceFirst(s, i, find) == s[i..]
    decreases |s| - i
  {
    if i < |s| {
      ReplaceFirstNone(s, i + 1, find);
      assert [s[i]] + s[i + 1..] == s[i..];
    }
  }

  /** The scan copies the stretch `i..j` in which the finder never matches. */
  lemma {:induction false} ReplaceFromSkip(s: string, i: nat, j: nat, find: Finder)
    requires i <= j <= |s| && Advances(s, find)
    requires forall k: nat :: i <= k < j ==> find(s, k).None?
    ensures ReplaceFrom(s, i, find) == s[i..j] + ReplaceFrom(s, j, find)
    decreases j - i
  {
    if i < j {
      ReplaceFromSkip(s, i + 1, j, find);
      assert find(s, i).None?;
      var rest := ReplaceFrom(s, i + 1, find);
      assert ReplaceFrom(s, i, find) == [s[i]] + rest;
      assert s[i..j] == [s[i]] + s[i + 1..j];
      assert [s[i]] + (s[i + 1..j] + ReplaceFrom(s, j, find)) == [s[i]] + s[i + 1..j] + ReplaceFrom(s, j, find);
    } else {
      assert s[i..j] == [];
    }
  }

  /** The first match, at `p`, is written out; scanning goes on after it. */
  /** The hit a finder reports, put together from its parts. */
  lemma HitIs(s: string, p: nat, find: Finder, h: Hit)
    requires find(s, p).Some? && find(s, p).value.end == h.end && find(s, p).value.out == h.out
    ensures find(s, p) == Some(h)
  {
  }

  lemma ReplaceFromAt(s: string, p: nat, find: Finder, h: Hit)
    requires p < |s| && Advances(s, find)
    requires forall k: nat :: k < p ==> find(s, k).None?
    requires find(s, p) == Some(h)
    ensures p < h.end <= |s|
    ensures ReplaceFrom(s, 0, find) == s[..p] + h.out + ReplaceFrom(s, h.end, find)
  {
    ReplaceFromSkip(s, 0, p, find);
    assert s[0..p] == s[..p];
  }

  /** A single match that runs from `p` to the end of the text and writes that part back
      leaves the whole text as it is. */
  lemma ReplaceLast(s: string, p: nat, find: Finder)
    requires p < |s| && Advances(s, find)
    requires forall k: nat :: k < p ==> find(s, k).None?
    requires find(s, p).Some? && find(s, p).value.end == |s| && find(s, p).value.out == s[p..]
    ensures ReplaceFrom(s, 0, find) == s
  {
    ReplaceFromAt(s, p, find, find(s, p).value);
    assert ReplaceFrom(s, |s|, find) == [];
    assert s[..p] + s[p..] + [] == s;
  }

  /** The first match, at `p`, is written out and the rest of the text is copied as it is:
      a replacement without the `g` flag stops after one match. */
  lemma ReplaceFirstAt(s: string, p: nat, find: Finder, h: Hit)
    requires p < |s| && Advances(s, find)
    requires forall k: nat :: k < p ==> find(s, k).None?
    requires find(s, p) == Some(h)
    ensures p < h.end <= |s|
    ensures ReplaceFirst(s, 0, find) == s[..p] + h.out + s[h.end..]
  {
    ReplaceFirstSkip(s, 0, p, find);
    assert s[0..p] == s[..p];
  }

  lemma {:induction false} ReplaceFirstSkip(s: string, i: nat, j: nat, find: Finder)
    requires i <= j <= |s| && Advances(s, find)
    requires forall k: nat :: i <= k < j ==> find(s, k).None?
    ensures ReplaceFirst(s, i, find) == s[i..j] + ReplaceFirst(s, j, find)
    decreases j - i
  {
    if i < j {
      ReplaceFirstSkip(s, i + 1, j, find);
      assert find(s, i).None?;
      var rest := ReplaceFirst(s, i + 1, find);
      assert ReplaceFirst(s, i, find) == [s[i]] + rest;
      assert s[i..j] == [s[i]] + s[i + 1..j];
      assert [s[i]] + (s[i + 1..j] + ReplaceFirst(s, j, find)) == [s[i]] + s[i + 1..j] + ReplaceFirst(s, j, find);
    } else {
      assert s[i..j] == [];
    }
  }

  /** Every character a replacement writes satisfies `ok`. */
  predicate OutputsOk(s: string, find: Finder, ok: char -> bool)
  {
    forall j: nat, c :: j <= |s| && find(s, j).Some? && c in find(s, j).value.out ==> ok(c)
  }

  /** Every character the scan keeps, because no match starts at it, satisfies `ok`. */
  predicate KeptOk(s: string, find: Finder, ok: char -> bool)
  {
    forall j: nat :: j < |s| && find(s, j).None? ==> ok(s[j])
  }

  /** A property of single characters that holds of everything a global replacement writes
      and keeps holds of its whole result. */
  lemma {:induction false} ReplaceFromOk(s: string, i: nat, find: Finder, ok: char -> bool)
    requires i <= |s| && Advances(s, find) && OutputsOk(s, find, ok) && KeptOk(s, find, ok)
    ensures forall c :: c in ReplaceFrom(s, i, find) ==> ok(c)
    decreases |s| - i
  {
    if i < |s| {
      match find(s, i)
      case Some(h) =>
        ReplaceFromOk(s, h.end, find, ok);
      case None =>
        ReplaceFromOk(s, i + 1, find, ok);
    }
  }

  /** The same for a replacement of the first match, given that the text itself satisfies
      `ok` throughout. */
  lemma {:induction false} ReplaceFirstOk(s: string, i: nat, find: Finder, ok: char -> bool)
    requires i <= |s| && Advances(s, find) && OutputsOk(s, find, ok)
    requires forall c :: c in s ==> ok(c)
    ensures forall c :: c in ReplaceFirst(s, i, find) ==> ok(c)
    decreases |s| - i
  {
    if i < |s| {
      match find(s, i)
      case Some(h) =>
        forall c | c in s[h.end..] ensures ok(c) {
          var k :| 0 <= k < |s| - h.end && s[h.end..][k] == c;
          assert s[h.end + k] == c;
        }
      case None =>
        ReplaceFirstOk(s, i + 1, find, ok);
    }
  }

  /** The text with the characters of class `drop` left out. Unlike `RemoveChars` it carries
      no postcondition, which keeps the proofs about it small. */
  function Without(s: string, drop: char -> bool): string
  {
    if s == [] then [] else (if drop(s[0]) then [] else [s[0]]) + Without(s[1..], drop)
  }

  lemma {:induction false} WithoutAppend(a: string, b: string, drop: char -> bool)
    ensures Without(a + b, drop) == Without(a, drop) + Without(b, drop)
    decreases |a|
  {
    if a == [] {
      assert a + b == b;
    } else {
      assert (a + b)[1..] == a[1..] + b;
      WithoutAppend(a[1..], b, drop);
    }
  }

  lemma WithoutSlices(s: string, i: nat, j: nat, drop: char -> bool)
    requires i <= j <= |s|
    ensures Without(s[i..], drop) == Without(s[i..j], drop) + Without(s[j..], drop)
  {
    assert s[i..] == s[i..j] + s[j..];
    WithoutAppend(s[i..j], s[j..], drop);
  }

  lemma DropSplit(s: string, i: nat, j: nat, k: nat, drop: char -> bool)
    requires i <= j <= k <= |s|
    ensures Without(s[i..k], drop) == Without(s[i..j], drop) + Without(s[j..k], drop)
  {
    assert s[i..k] == s[i..j] + s[j..k];
    WithoutAppend(s[i..j], s[j..k], drop);
  }

  /** Every replacement rewrites only characters of the class `drop`: once those are removed,
      the match and what replaces it read the same. */
  predicate HitsOnlyMove(s: string, find: Finder, drop: char -> bool)
  {
    forall j: nat :: j < |s| && find(s, j).Some? && j < find(s, j).value.end <= |s| ==>
      Without(find(s, j).value.out, drop) == Without(s[j..find(s, j).value.end], drop)
  }

  /** Then the whole global replacement rewrites only characters of that class. */
  lemma {:induction false} ReplaceFromOnlyMoves(s: string, i: nat, find: Finder, drop: char -> bool)
    requires i <= |s| && Advances(s, find) && HitsOnlyMove(s, find, drop)
    ensures Without(ReplaceFrom(s, i, find), drop) == Without(s[i..], drop)
    decreases |s| - i
  {
    if i < |s| {
      WithoutSlices(s, i, i + 1, drop);
      match find(s, i)
      case Some(h) =>
        ReplaceFromOnlyMoves(s, h.end, find, drop);
        WithoutAppend(h.out, ReplaceFrom(s, h.end, find), drop);
        WithoutSlices(s, i, h.end, drop);
      case None =>
        ReplaceFromOnlyMoves(s, i + 1, find, drop);
        WithoutAppend([s[i]], ReplaceFrom(s, i + 1, find), drop);
        assert s[i..i + 1] == [s[i]];
    }
  }

  lemma {:induction false} ReplaceFirstOnlyMoves(s: string, i: nat, find: Finder, drop: char -> bool)
    requires i <= |s| && Advances(s, find) && HitsOnlyMove(s, find, drop)
    ensures Without(ReplaceFirst(s, i, find), drop) == Without(s[i..], drop)
    decreases |s| - i
  {
    if i < |s| {
      WithoutSlices(s, i, i + 1, drop);
      match find(s, i)
      case Some(h) =>
        WithoutAppend(h.out, s[h.end..], drop);
        WithoutSlices(s, i, h.end, drop);
      case None =>
        ReplaceFirstOnlyMoves(s, i + 1, find, drop);
        WithoutAppend([s[i]], ReplaceFirst(s, i + 1, find), drop);
        assert s[i..i + 1] == [s[i]];
    }
  }

}
