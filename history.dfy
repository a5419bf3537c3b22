/**
 * The diagram history kept in the user-property store (main.js:387-481). Each saved diagram
 * is one property under `DIAGRAM_HISTORY_ITEM_V1_<id>`; the ids, newest first, make up the
 * index property. Stored values are modelled by what they hold rather than as JSON text.
 */
module History {
  import opened Wrappers

  const IndexKey: string := "DIAGRAM_HISTORY_INDEX_V1"
  const ItemPrefix: string := "DIAGRAM_HISTORY_ITEM_V1_"
  const MaxEntries: nat := 30
  const MaxCodeChars: nat := 8000
  const MaxPromptChars: nat := 2000
  const DefaultPageSize: nat := 10

  /** The fields a caller hands in; a field that is not a string, or an entry that is not an
      object, reads as absent. */
  datatype RawEntry = RawEntry(
    prompt: Option<string>, code: Option<string>, diagramType: Option<string>,
    model: Option<string>, theme: Option<string>, fileName: Option<string>)

  /** What `normalizeHistoryEntry_` returns. */
  datatype Fields = Fields(
    prompt: string, code: string, diagramType: Option<string>,
    model: Option<string>, theme: Option<string>, fileName: Option<string>)

  /** A stored history item: the normalized fields with the id and creation time. */
  datatype Entry = Entry(fields: Fields, id: string, createdAt: int)

  function Min(a: nat, b: nat): nat
  {
    if a <= b then a else b
  }

  /** `s.slice(0, n)`. */
  function Take(s: string, n: nat): (r: string)
    ensures |r| == Min(n, |s|) && r == s[..|r|]
  {
    s[..Min(n, |s|)]
  }

  /** `normalizeHistoryEntry_`: absent text fields become empty, the prompt keeps at most its
      first 2000 characters and the code its first 8000. */
  function NormalizeEntry(raw: RawEntry): (f: Fields)
    ensures |f.prompt| == Min(MaxPromptChars, |OrEmptyText(raw.prompt)|)
      && f.prompt == OrEmptyText(raw.prompt)[..|f.prompt|]
    ensures |f.code| == Min(MaxCodeChars, |OrEmptyText(raw.code)|)
      && f.code == OrEmptyText(raw.code)[..|f.code|]
    ensures |OrEmptyText(raw.prompt)| <= MaxPromptChars ==> f.prompt == OrEmptyText(raw.prompt)
    ensures |OrEmptyText(raw.code)| <= MaxCodeChars ==> f.code == OrEmptyText(raw.code)
    ensures f.diagramType == raw.diagramType && f.model == raw.model
    ensures f.theme == raw.theme && f.fileName == raw.fileName
  {
    Fields(Take(OrEmptyText(raw.prompt), MaxPromptChars), Take(OrEmptyText(raw.code), MaxCodeChars),
      raw.diagramType, raw.model, raw.theme, raw.fileName)
  }

  function OrEmptyText(s: Option<string>): string
  {
    if s.Some? then s.value else ""
  }

  /** The normalized fields, handed in again. */
  function AsRaw(f: Fields): RawEntry
  {
    RawEntry(Some(f.prompt), Some(f.code), f.diagramType, f.model, f.theme, f.fileName)
  }

  /** Normalizing twice is normalizing once. */
  lemma NormalizeIdempotent(raw: RawEntry)
    ensures NormalizeEntry(AsRaw(NormalizeEntry(raw))) == NormalizeEntry(raw)
  {
    var f := NormalizeEntry(raw);
    assert f.prompt[..|f.prompt|] == f.prompt;
    assert f.code[..|f.code|] == f.code;
  }

  /** The property key of the item with id `id`. */
  function Key(id: string): string
  {
    ItemPrefix + id
  }

  lemma KeyInjective(a: string, b: string)
    requires Key(a) == Key(b)
    ensures a == b
  {
    assert a == Key(a)[|ItemPrefix|..];
    assert b == Key(b)[|ItemPrefix|..];
  }

  /** `ids.filter((x) => x !== id)`. */
  function Remove(ids: seq<string>, id: string): (r: seq<string>)
    ensures |r| <= |ids|
    ensures forall x :: x in r <==> x in ids && x != id
  {
    if ids == [] then []
    else (if ids[0] == id then [] else [ids[0]]) + Remove(ids[1..], id)
  }

  /** Filtering keeps the order of what it keeps: filtering a list with no `id` changes
      nothing, and filtering twice is filtering once. */
  lemma {:induction false} RemoveAbsent(ids: seq<string>, id: string)
    requires id !in ids
    ensures Remove(ids, id) == ids
    decreases |ids|
  {
    if ids != [] {
      assert ids[1..] + [] == ids[1..];
      RemoveAbsent(ids[1..], id);
      assert [ids[0]] + ids[1..] == ids;
    }
  }

  lemma RemoveIdempotent(ids: seq<string>, id: string)
    ensures Remove(Remove(ids, id), id) == Remove(ids, id)
  {
    RemoveAbsent(Remove(ids, id), id);
  }

  /** The keys of the items of the ids `ids`. */
  function KeysOf(ids: seq<string>): set<string>
  {
    set i | 0 <= i < |ids| :: Key(ids[i])
  }

  lemma KeysOfStep(ids: seq<string>, i: nat)
    requires i < |ids|
    ensures KeysOf(ids[..i + 1]) == KeysOf(ids[..i]) + {Key(ids[i])}
  {
    var a := ids[..i + 1];
    assert a[i] == ids[i];
    forall k | k in KeysOf(a) ensures k in KeysOf(ids[..i]) + {Key(ids[i])} {
      var j :| 0 <= j < |a| && k == Key(a[j]);
      if j < i {
        assert ids[..i][j] == a[j];
      }
    }
    forall k | k in KeysOf(ids[..i]) ensures k in KeysOf(a) {
      var j :| 0 <= j < i && k == Key(ids[..i][j]);
      assert a[j] == ids[..i][j];
    }
  }

  /** A key belongs to an id of `ids` exactly when the id is one of them. */
  lemma KeysOfMember(ids: seq<string>, id: string)
    ensures Key(id) in KeysOf(ids) <==> id in ids
  {
    if Key(id) in KeysOf(ids) {
      var j :| 0 <= j < |ids| && Key(id) == Key(ids[j]);
      KeyInjective(id, ids[j]);
    }
    if id in ids {
      var j :| 0 <= j < |ids| && ids[j] == id;
      assert Key(ids[j]) in KeysOf(ids);
    }
  }

  /** The index after the new id went in front and the list was cut at 30. */
  function SavedIndex(index: seq<string>, id: string): (r: seq<string>)
    ensures |r| <= MaxEntries && |r| == Min(MaxEntries, |index| + 1)
    ensures r[0] == id && r[1..] == index[..|r| - 1]
  {
    var all := [id] + index;
    assert all[1..] == index;
    all[..Min(MaxEntries, |all|)]
  }

  /** The ids pushed past position 30. */
  function Evicted(index: seq<string>, id: string): (r: seq<string>)
    ensures SavedIndex(index, id) + r == [id] + index
  {
    var all := [id] + index;
    assert all[..Min(MaxEntries, |all|)] + all[Min(MaxEntries, |all|)..] == all;
    all[Min(MaxEntries, |all|)..]
  }

  /** A page of `listDiagramHistoryPage`; `items` are the stored items of the page's ids. */
  datatype Page = Page(items: seq<Entry>, total: nat, offset: nat, limit: nat, hasMore: bool)

  /** `Number.isFinite(rawLimit) ? Math.max(1, Math.min(30, Math.floor(rawLimit))) : 10`,
      `limit` being the floored number or `None` when it is not finite. */
  function SafeLimit(limit: Option<int>): (r: nat)
    ensures 1 <= r <= MaxEntries
    ensures limit.None? ==> r == DefaultPageSize
    ensures limit.Some? && 1 <= limit.value <= MaxEntries ==> r == limit.value
    ensures limit.Some? && limit.value < 1 ==> r == 1
    ensures limit.Some? && limit.value > MaxEntries ==> r == MaxEntries
  {
    if limit.None? then DefaultPageSize
    else if limit.value < 1 then 1
    else if limit.value > MaxEntries then MaxEntries
    else limit.value
  }

  /** `Number.isFinite(rawOffset) ? Math.max(0, Math.floor(rawOffset)) : 0`. */
  function SafeOffset(offset: Option<int>): (r: nat)
    ensures offset.Some? && offset.value >= 0 ==> r == offset.value
    ensures offset.None? || offset.value < 0 ==> r == 0
  {
    if offset.Some? && offset.value >= 0 then offset.value else 0
  }

  /** `index.slice(from, to)` for `0 <= from <= to`. */
  function Slice(index: seq<string>, from: nat, to: nat): (r: seq<string>)
    requires from <= to
    ensures |r| == (if to <= |index| then to - from else if from <= |index| then |index| - from else 0)
  {
    if |index| <= from then [] else if to <= |index| then index[from..to] else index[from..]
  }

  /** `hasMore` says exactly whether ids lie beyond the page. */
  lemma HasMoreMeansBeyond(index: seq<string>, offset: nat, limit: nat)
    ensures offset + |Slice(index, offset, offset + limit)| < |index| <==> offset + limit < |index|
  {
  }

  /** The page `listDiagramHistoryPage` returns for an offset and a limit already clamped by
      `SafeOffset` and `SafeLimit`: the stored items of the ids in that window, newest first,
      and `hasMore` saying whether ids lie beyond it. */
  function PageOf(items: map<string, Entry>, ids: seq<string>, offset: nat, limit: nat): (p: Page)
    ensures p.total == |ids| && p.offset == offset && p.limit == limit
    ensures p.hasMore <==> offset + limit < |ids|
    ensures NewestFirst(p.items)
    ensures multiset(p.items) == multiset(Present(items, Slice(ids, offset, offset + limit)))
  {
    var slice := Slice(ids, offset, offset + limit);
    HasMoreMeansBeyond(ids, offset, limit);
    Page(SortNewestFirst(Present(items, slice)), |ids|, offset, limit, offset + |slice| < |ids|)
  }

  /** The page built from the stored items of the window, however they were collected. */
  lemma PageFromWindow(items: map<string, Entry>, ids: seq<string>, offset: nat, limit: nat, found: seq<Entry>)
    requires found == Present(items, Slice(ids, offset, offset + limit))
    ensures PageOf(items, ids, offset, limit)
      == Page(SortNewestFirst(found), |ids|, offset, limit, offset + |Slice(ids, offset, offset + limit)| < |ids|)
  {
  }

  /** `(b.createdAt || 0) - (a.createdAt || 0)`: newest first. */
  predicate NewestFirst(es: seq<Entry>)
  {
    forall i, j :: 0 <= i < j < |es| ==> es[i].createdAt >= es[j].createdAt
  }

  /** One step of a stable insertion sort: `e` goes after every item at least as new. */
  function Insert(e: Entry, es: seq<Entry>): (r: seq<Entry>)
    requires NewestFirst(es)
    ensures NewestFirst(r) && multiset(r) == multiset(es) + multiset{e}
    ensures forall x :: x in r ==> x in es || x == e
    decreases |es|
  {
    if es == [] then [e]
    else if es[0].createdAt < e.createdAt then [e] + es
    else
      var rest := Insert(e, es[1..]);
      InsertedAfter(es, e, rest);
      [es[0]] + rest
  }

  lemma InsertedAfter(es: seq<Entry>, e: Entry, rest: seq<Entry>)
    requires es != [] && NewestFirst(es) && NewestFirst(rest) && es[0].createdAt >= e.createdAt
    requires multiset(rest) == multiset(es[1..]) + multiset{e}
    requires forall x :: x in rest ==> x in es[1..] || x == e
    ensures NewestFirst([es[0]] + rest)
    ensures multiset([es[0]] + rest) == multiset(es) + multiset{e}
    ensures forall x :: x in [es[0]] + rest ==> x in es || x == e
  {
    assert es == [es[0]] + es[1..];
    forall j | 0 <= j < |rest| ensures rest[j].createdAt <= es[0].createdAt {
      assert rest[j] in rest;
      if rest[j] != e {
        var k :| 0 <= k < |es[1..]| && es[1..][k] == rest[j];
        assert es[k + 1] == rest[j];
      }
    }
  }

  /** `items.sort(...)`, which is stable. */
  function SortNewestFirst(es: seq<Entry>): (r: seq<Entry>)
    ensures NewestFirst(r) && multiset(r) == multiset(es)
    decreases |es|
  {
    if es == [] then []
    else
      var init := es[..|es| - 1];
      assert es == init + [es[|es| - 1]];
      Insert(es[|es| - 1], SortNewestFirst(init))
  }

  /** The stored items of `ids`, in the order of `ids`, skipping ids with no item. */
  function Present(items: map<string, Entry>, ids: seq<string>): (r: seq<Entry>)
    ensures |r| <= |ids|
    ensures forall k :: 0 <= k < |ids| && Key(ids[k]) !in items ==> |r| < |ids|
  {
    if ids == [] then []
    else
      var last := ids[|ids| - 1];
      var rest := Present(items, ids[..|ids| - 1]);
      assert forall k :: 0 <= k < |ids| - 1 ==> ids[..|ids| - 1][k] == ids[k];
      rest + (if Key(last) in items then [items[Key(last)]] else [])
  }

  /** Looking at one more id adds its item, if it is stored. */
  lemma PresentStep(items: map<string, Entry>, ids: seq<string>, i: nat)
    requires i < |ids|
    ensures Present(items, ids[..i + 1])
      == Present(items, ids[..i]) + (if Key(ids[i]) in items then [items[Key(ids[i])]] else [])
  {
    assert ids[..i + 1][..i] == ids[..i];
  }

  class Store {
    /** The item properties, by key. */
    var items: map<string, Entry>
    /** The ids in the index property as stored, newest first. */
    var index: seq<string>

    constructor()
      ensures items == map[] && index == []
    {
      items := map[];
      index := [];
    }

    /** `getHistoryIndex_`: the stored ids without the empty ones (`filter(Boolean)`). */
    function ReadIndex(): (r: seq<string>)
      reads this
      ensures "" !in r
      ensures forall x :: x in r <==> x in index && x != ""
    {
      Remove(index, "")
    }

    /** Every id the index lists has its item. */
    predicate Indexed()
      reads this
    {
      forall id :: id in ReadIndex() ==> Key(id) in items
    }

    /** `saveDiagramHistory`, given the id `Utilities.getUuid()` returns and the time
        `Date.now()` returns: the new item is stored, its id goes in front of the index, the
        index is cut at 30 and the items of the ids cut off are deleted. */
    method Save(raw: RawEntry, id: string, now: int) returns (newId: string)
      modifies this
      ensures newId == id
      ensures index == SavedIndex(old(ReadIndex()), id)
      ensures items == old(items)[Key(id) := Entry(NormalizeEntry(raw), id, now)]
        - KeysOf(Evicted(old(ReadIndex()), id))
    {
      var ids := ReadIndex();
      var entry := Entry(NormalizeEntry(raw), id, now);
      items := items[Key(id) := entry];
      var put := items;
      var toDelete := Evicted(ids, id);
      index := SavedIndex(ids, id);
      for i := 0 to |toDelete|
        invariant items == put - KeysOf(toDelete[..i])
        invariant index == SavedIndex(ids, id)
      {
        KeysOfStep(toDelete, i);
        items := items - {Key(toDelete[i])};
      }
      assert toDelete[..|toDelete|] == toDelete;
      newId := id;
    }

    /** `deleteDiagramHistory`: an empty id changes nothing; any other id loses its item and
        its places in the index. */
    method Delete(id: string) returns (ok: bool)
      modifies this
      ensures ok <==> id != ""
      ensures id == "" ==> items == old(items) && index == old(index)
      ensures id != "" ==> items == old(items) - {Key(id)} && index == Remove(old(ReadIndex()), id)
    {
      if id == "" {
        return false;
      }
      items := items - {Key(id)};
      index := Remove(ReadIndex(), id);
      return true;
    }

    /** `clearDiagramHistory`: the items of every indexed id go, and so does the index. */
    method Clear()
      modifies this
      ensures index == []
      ensures items == old(items) - KeysOf(old(ReadIndex()))
    {
      var ids := ReadIndex();
      var start := items;
      for i := 0 to |ids|
        invariant items == start - KeysOf(ids[..i])
      {
        KeysOfStep(ids, i);
        items := items - {Key(ids[i])};
      }
      assert ids[..|ids|] == ids;
      index := [];
    }

    /** `listDiagramHistoryPage`: the page of `PageOf` for the stored index and items, with
        the stored items of the window collected by a loop. Nothing changes. */
    method ListPage(limit: Option<int>, offset: Option<int>) returns (page: Page)
      ensures page == PageOf(items, ReadIndex(), SafeOffset(offset), SafeLimit(limit))
    {
      var ids := ReadIndex();
      var safeLimit := SafeLimit(limit);
      var safeOffset := SafeOffset(offset);
      var slice := Slice(ids, safeOffset, safeOffset + safeLimit);
      var found := CollectPresent(slice);
      assert ReadIndex() == ids;
      page := Page(SortNewestFirst(found), |ids|, safeOffset, safeLimit, safeOffset + |slice| < |ids|);
      PageFromWindow(items, ids, safeOffset, safeLimit, found);
    }

    /** The loop of `listDiagramHistoryPage` over the ids of the page: the stored item of each,
        in order, skipping ids with none. */
    method CollectPresent(slice: seq<string>) returns (found: seq<Entry>)
      ensures found == Present(items, slice)
    {
      found := [];
      for i := 0 to |slice|
        invariant found == Present(items, slice[..i])
      {
        PresentStep(items, slice, i);
        if Key(slice[i]) in items {
          found := found + [items[Key(slice[i])]];
        }
      }
      assert slice[..|slice|] == slice;
    }
  }

  /** No id is listed twice. */
  predicate Distinct(ids: seq<string>)
  {
    forall i, j :: 0 <= i < j < |ids| ==> ids[i] != ids[j]
  }

  /** Saving with a fresh id keeps every indexed id's item stored, and leaves no item for an id
      that was cut off. */
  lemma SaveKeepsIndexed(items: map<string, Entry>, ids: seq<string>, id: string, e: Entry)
    requires forall x :: x in ids ==> Key(x) in items
    requires Distinct(ids) && id !in ids
    ensures forall x :: x in SavedIndex(ids, id) ==> Key(x) in items[Key(id) := e] - KeysOf(Evicted(ids, id))
    ensures forall x :: x in Evicted(ids, id) ==> Key(x) !in items[Key(id) := e] - KeysOf(Evicted(ids, id))
  {
    var kept := SavedIndex(ids, id);
    var gone := Evicted(ids, id);
    ConsDistinct(id, ids);
    forall x | x in kept ensures Key(x) in items[Key(id) := e] - KeysOf(gone) {
      KeysOfMember(gone, x);
      NotInBoth([id] + ids, kept, gone, x);
      assert x in [id] + ids;
    }
    forall x | x in gone ensures Key(x) !in items[Key(id) := e] - KeysOf(gone) {
      KeysOfMember(gone, x);
    }
  }

  lemma ConsDistinct(id: string, ids: seq<string>)
    requires Distinct(ids) && id !in ids
    ensures Distinct([id] + ids)
  {
    var all := [id] + ids;
    forall i, j | 0 <= i < j < |all| ensures all[i] != all[j] {
      assert all[j] == ids[j - 1];
      if i > 0 {
        assert all[i] == ids[i - 1];
      }
    }
  }

  /** A list without repetitions split in two shares no id between the halves. */
  lemma NotInBoth(all: seq<string>, a: seq<string>, b: seq<string>, x: string)
    requires a + b == all && Distinct(all) && x in a
    ensures x !in b
  {
    var i :| 0 <= i < |a| && a[i] == x;
    forall j | 0 <= j < |b| ensures b[j] != x {
      assert all[i] == a[i] && all[|a| + j] == b[j];
    }
  }

  /** Saving with a fresh id keeps the index free of repetitions. */
  lemma SavedDistinct(ids: seq<string>, id: string)
    requires Distinct(ids) && id !in ids
    ensures Distinct(SavedIndex(ids, id))
  {
    ConsDistinct(id, ids);
    var kept := SavedIndex(ids, id);
    var all := [id] + ids;
    assert kept == all[..|kept|];
    forall i, j | 0 <= i < j < |kept| ensures kept[i] != kept[j] {
      assert kept[i] == all[i] && kept[j] == all[j];
    }
  }

  /** Deleting an id leaves every other indexed id with its item. */
  lemma DeleteKeepsIndexed(items: map<string, Entry>, ids: seq<string>, id: string)
    requires forall x :: x in ids ==> Key(x) in items
    ensures forall x :: x in Remove(ids, id) ==> Key(x) in items - {Key(id)}
    ensures id !in Remove(ids, id) && Key(id) !in items - {Key(id)}
  {
    forall x | x in Remove(ids, id) ensures Key(x) in items - {Key(id)} {
      if Key(x) == Key(id) {
        KeyInjective(x, id);
      }
    }
  }
}
