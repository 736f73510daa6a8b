/**
 * The search history: the search_history table behind SearchHistoryDao,
 * held as the list getRecentSearchesList returns (newest first), and the
 * repository's saveSearch rule that deduplicates a search and keeps the
 * ten newest.
 */
module History {
  import opened Text
  import opened Sequences
  import opened BusModel

  /** saveSearch keeps only this many searches after an insertion. */
  const MaxSearches: nat := 10

  /** "ORDER BY timestamp DESC": no row is older than a later one. */
  predicate NewestFirst(rows: seq<SearchHistoryItem>) {
    forall i, j :: 0 <= i < j < |rows| ==> rows[i].timestamp >= rows[j].timestamp
  }

  /** The primary key: no two rows share an id. */
  predicate UniqueIds(rows: seq<SearchHistoryItem>) {
    forall i, j :: 0 <= i < j < |rows| ==> rows[i].id != rows[j].id
  }

  lemma HeadNewest(rows: seq<SearchHistoryItem>)
    requires rows != []
    ensures NewestFirst(rows) ==>
      NewestFirst(rows[1..]) && forall x :: x in rows[1..] ==> rows[0].timestamp >= x.timestamp
  {
    if NewestFirst(rows) {
      forall x | x in rows[1..] ensures rows[0].timestamp >= x.timestamp {
        var m :| 0 <= m < |rows[1..]| && rows[1..][m] == x;
        assert rows[m + 1] == x;
      }
    }
  }

  lemma ConsNewest(a: SearchHistoryItem, rest: seq<SearchHistoryItem>)
    ensures NewestFirst(rest) && (forall x :: x in rest ==> a.timestamp >= x.timestamp) ==>
      NewestFirst([a] + rest)
  {
    if NewestFirst(rest) && (forall x :: x in rest ==> a.timestamp >= x.timestamp) {
      var r := [a] + rest;
      forall i, j | 0 <= i < j < |r| ensures r[i].timestamp >= r[j].timestamp {
        assert r[j] == rest[j - 1];
        if i > 0 { assert r[i] == rest[i - 1]; } else { assert rest[j - 1] in rest; }
      }
    }
  }

  lemma HeadUnique(rows: seq<SearchHistoryItem>)
    requires rows != []
    ensures UniqueIds(rows) ==>
      UniqueIds(rows[1..]) && forall x :: x in rows[1..] ==> x.id != rows[0].id
  {
    if UniqueIds(rows) {
      forall x | x in rows[1..] ensures x.id != rows[0].id {
        var m :| 0 <= m < |rows[1..]| && rows[1..][m] == x;
        assert rows[m + 1] == x;
      }
    }
  }

  lemma ConsUnique(a: SearchHistoryItem, rest: seq<SearchHistoryItem>)
    ensures UniqueIds(rest) && (forall x :: x in rest ==> x.id != a.id) ==> UniqueIds([a] + rest)
  {
    if UniqueIds(rest) && (forall x :: x in rest ==> x.id != a.id) {
      var r := [a] + rest;
      forall i, j | 0 <= i < j < |r| ensures r[i].id != r[j].id {
        assert r[j] == rest[j - 1];
        if i > 0 { assert r[i] == rest[i - 1]; } else { assert rest[j - 1] in rest; }
      }
    }
  }

  /** Where a written row shows up in the newest-first list: before the
      first row that is not newer than it. */
  function Place(rows: seq<SearchHistoryItem>, e: SearchHistoryItem): (r: seq<SearchHistoryItem>)
    ensures |r| == |rows| + 1
    ensures forall x :: x in r <==> x in rows || x == e
    ensures multiset(r) == multiset(rows) + multiset{e}
    ensures NewestFirst(rows) ==> NewestFirst(r)
    ensures UniqueIds(rows) && (forall x :: x in rows ==> x.id != e.id) ==> UniqueIds(r)
    decreases |rows|
  {
    if rows == [] || rows[0].timestamp <= e.timestamp then
      ConsNewest(e, rows);
      ConsUnique(e, rows);
      [e] + rows
    else
      var rest := Place(rows[1..], e);
      PlaceBehind(rows, e, rest);
      [rows[0]] + rest
  }

  /** The step of Place that keeps the first row in front of the rest. */
  lemma PlaceBehind(rows: seq<SearchHistoryItem>, e: SearchHistoryItem, rest: seq<SearchHistoryItem>)
    requires rows != [] && rows[0].timestamp > e.timestamp
    requires forall x :: x in rest <==> x in rows[1..] || x == e
    requires multiset(rest) == multiset(rows[1..]) + multiset{e}
    requires NewestFirst(rows[1..]) ==> NewestFirst(rest)
    requires UniqueIds(rows[1..]) && (forall x :: x in rows[1..] ==> x.id != e.id) ==> UniqueIds(rest)
    ensures forall x :: x in [rows[0]] + rest <==> x in rows || x == e
    ensures multiset([rows[0]] + rest) == multiset(rows) + multiset{e}
    ensures NewestFirst(rows) ==> NewestFirst([rows[0]] + rest)
    ensures UniqueIds(rows) && (forall x :: x in rows ==> x.id != e.id) ==> UniqueIds([rows[0]] + rest)
  {
    assert rows == [rows[0]] + rows[1..];
    HeadNewest(rows);
    ConsNewest(rows[0], rest);
    HeadUnique(rows);
    assert rows[0] in rows;
    ConsUnique(rows[0], rest);
  }

  /** "DELETE ... WHERE id = :id": every row with that id goes, the others
      keep their order. */
  function RemoveId(rows: seq<SearchHistoryItem>, id: int): (r: seq<SearchHistoryItem>)
    ensures |r| <= |rows|
    ensures forall x :: x in r <==> x in rows && x.id != id
    ensures NewestFirst(rows) ==> NewestFirst(r)
    ensures UniqueIds(rows) ==> UniqueIds(r)
    decreases |rows|
  {
    if rows == [] then []
    else
      var rest := RemoveId(rows[1..], id);
      assert rows == [rows[0]] + rows[1..];
      HeadNewest(rows);
      HeadUnique(rows);
      if rows[0].id == id then rest
      else
        ConsNewest(rows[0], rest);
        ConsUnique(rows[0], rest);
        [rows[0]] + rest
  }

  /** With unique ids, removing the id of row i removes exactly row i. */
  lemma {:induction false} RemoveIdAt(rows: seq<SearchHistoryItem>, i: int)
    requires UniqueIds(rows) && 0 <= i < |rows|
    ensures RemoveId(rows, rows[i].id) == rows[..i] + rows[i + 1..]
    decreases |rows|
  {
    HeadUnique(rows);
    if i == 0 {
      RemoveIdAbsent(rows[1..], rows[0].id);
    } else {
      var tail := rows[1..];
      assert rows[0].id != rows[i].id;
      assert tail[i - 1] == rows[i];
      RemoveIdAt(tail, i - 1);
      RemoveIdKeepsHead(rows, rows[i].id);
      SpliceBehindHead(rows, i);
    }
  }

  /** A first row with another id stays in front. */
  lemma RemoveIdKeepsHead(rows: seq<SearchHistoryItem>, id: int)
    requires rows != [] && rows[0].id != id
    ensures RemoveId(rows, id) == [rows[0]] + RemoveId(rows[1..], id)
  {
  }

  /** Dropping element i > 0 of a list is dropping element i - 1 of its
      tail behind the same head. */
  lemma SpliceBehindHead<T>(s: seq<T>, i: int)
    requires 0 < i < |s|
    ensures [s[0]] + (s[1..][..i - 1] + s[1..][i..]) == s[..i] + s[i + 1..]
  {
    assert s[1..][..i - 1] == s[1..i] && s[1..][i..] == s[i + 1..];
    assert s[..i] == [s[0]] + s[1..i];
  }

  /** Removing an id no row has changes nothing. */
  lemma {:induction false} RemoveIdAbsent(rows: seq<SearchHistoryItem>, id: int)
    requires forall x :: x in rows ==> x.id != id
    ensures RemoveId(rows, id) == rows
    decreases |rows|
  {
    if rows != [] {
      assert rows == [rows[0]] + rows[1..];
      assert rows[0] in rows;
      RemoveIdAbsent(rows[1..], id);
    }
  }

  /** The invariant of the table: rows newest first, keys unique, non-zero
      and below the next key to be generated. */
  ghost predicate ValidRows(rows: seq<SearchHistoryItem>, nextId: int) {
    nextId > 0 && NewestFirst(rows) && UniqueIds(rows) &&
    forall k :: 0 <= k < |rows| ==> rows[k].id != 0 && rows[k].id < nextId
  }

  /** Every row of a valid table has a key below the next one, and not 0. */
  lemma ValidKeys(rows: seq<SearchHistoryItem>, nextId: int)
    requires ValidRows(rows, nextId)
    ensures forall x :: x in rows ==> x.id != 0 && x.id < nextId
  {
    forall x | x in rows ensures x.id != 0 && x.id < nextId {
      var m :| 0 <= m < |rows| && rows[m] == x;
    }
  }

  /** Rows that come from a valid table keep its key invariant. */
  lemma KeysFromMembers(rows: seq<SearchHistoryItem>, nextId: int)
    requires forall x :: x in rows ==> x.id != 0 && x.id < nextId
    ensures forall k :: 0 <= k < |rows| ==> rows[k].id != 0 && rows[k].id < nextId
  {
    assert forall k :: 0 <= k < |rows| ==> rows[k] in rows;
  }

  /** Some row has the given id. */
  predicate HasId(rows: seq<SearchHistoryItem>, id: int) {
    exists k :: 0 <= k < |rows| && rows[k].id == id
  }

  /**
   * The search_history table, as the newest-first list of its rows, and
   * the key the next auto-generated row receives.
   */
  class SearchHistoryStore {
    var rows: seq<SearchHistoryItem>
    var nextId: int

    ghost predicate Valid()
      reads this
    {
      ValidRows(rows, nextId)
    }

    /** An empty table; SQLite's first generated key is 1. */
    constructor ()
      ensures Valid() && rows == [] && nextId == 1
    {
      rows := [];
      nextId := 1;
    }

    /** insertSearch(search) with OnConflictStrategy.REPLACE: an id of 0
        means "generate one"; any other id replaces the row holding it. */
    method InsertSearch(search: SearchHistoryItem) returns (stored: SearchHistoryItem)
      requires Valid()
      modifies this
      ensures Valid()
      ensures stored == if search.id == 0 then search.(id := old(nextId)) else search
      ensures rows == Place(RemoveId(old(rows), stored.id), stored)
      ensures nextId == if search.id == 0 then old(nextId) + 1
                        else if search.id < old(nextId) then old(nextId) else search.id + 1
    {
      if search.id == 0 {
        stored := search.(id := nextId);
        nextId := nextId + 1;
      } else {
        stored := search;
        if search.id >= nextId {
          nextId := search.id + 1;
        }
      }
      ValidKeys(rows, old(nextId));
      var kept := RemoveId(rows, stored.id);
      assert forall x :: x in kept ==> x in rows;
      rows := Place(kept, stored);
      KeysFromMembers(rows, nextId);
    }

    /** updateSearch(search): the row holding search.id takes its values;
        nothing happens when no row holds it. */
    method UpdateSearch(search: SearchHistoryItem)
      requires Valid()
      modifies this
      ensures Valid()
      ensures rows == if HasId(old(rows), search.id) then Place(RemoveId(old(rows), search.id), search) else old(rows)
      ensures nextId == old(nextId)
    {
      if HasId(rows, search.id) {
        var k :| 0 <= k < |rows| && rows[k].id == search.id;
        ValidKeys(rows, nextId);
        assert rows[k] in rows;
        var kept := RemoveId(rows, search.id);
        rows := Place(kept, search);
        KeysFromMembers(rows, nextId);
      }
    }

    /** deleteSearch(search): the row holding search.id goes. */
    method DeleteSearch(search: SearchHistoryItem)
      requires Valid()
      modifies this
      ensures Valid()
      ensures rows == RemoveId(old(rows), search.id)
      ensures nextId == old(nextId)
    {
      ValidKeys(rows, nextId);
      rows := RemoveId(rows, search.id);
      KeysFromMembers(rows, nextId);
    }

    /** clearHistory(). */
    method ClearHistory()
      requires Valid()
      modifies this
      ensures Valid() && rows == [] && nextId == old(nextId)
    {
      rows := [];
    }
  }

  /** The duplicate test of saveSearch: the stored row's locations equal the
      given ones, ignoring case. The given ones are not trimmed. */
  predicate SameSearch(row: SearchHistoryItem, from: string, to: string) {
    EqualsIgnoreCase(row.fromLocation, from) && EqualsIgnoreCase(row.toLocation, to)
  }

  /** The index of the first (newest) row matching the search, or -1. */
  function FirstSameSearch(rows: seq<SearchHistoryItem>, from: string, to: string): (r: int)
    ensures -1 <= r < |rows|
    ensures r >= 0 ==> SameSearch(rows[r], from, to) && forall j :: 0 <= j < r ==> !SameSearch(rows[j], from, to)
    ensures r == -1 <==> forall j :: 0 <= j < |rows| ==> !SameSearch(rows[j], from, to)
  {
    IndexOfFirst(rows, (row: SearchHistoryItem) => SameSearch(row, from, to))
  }

  /** The first MaxSearches rows, the rest being deleted. */
  function KeepNewest(rows: seq<SearchHistoryItem>): (r: seq<SearchHistoryItem>)
    ensures |r| == if |rows| > MaxSearches then MaxSearches else |rows|
    ensures r == rows[..|r|]
  {
    if |rows| > MaxSearches then rows[..MaxSearches] else rows
  }

  /** The row saveSearch inserts for a new search. */
  function NewSearch(nextId: int, from: string, to: string, now: int): SearchHistoryItem {
    SearchHistoryItem(nextId, Trim(from), Trim(to), now)
  }

  /** The history after saveSearch(from, to) at time now: a matching row is
      re-stamped in place of itself; otherwise a trimmed row is inserted and
      only the ten newest rows are kept. */
  function SaveRows(rows: seq<SearchHistoryItem>, nextId: int, from: string, to: string, now: int): seq<SearchHistoryItem> {
    var k := FirstSameSearch(rows, from, to);
    if k == -1 then KeepNewest(Place(RemoveId(rows, nextId), NewSearch(nextId, from, to, now)))
    else
      var existing := rows[k];
      Place(RemoveId(rows, existing.id), existing.(timestamp := now))
  }

  /** The key generator after saveSearch. */
  function SaveNextId(rows: seq<SearchHistoryItem>, nextId: int, from: string, to: string): int {
    if FirstSameSearch(rows, from, to) == -1 then nextId + 1 else nextId
  }

  /** The rows after the insertion branch of saveSearch. */
  lemma InsertBranch(rows: seq<SearchHistoryItem>, nextId: int, from: string, to: string, now: int)
    requires ValidRows(rows, nextId)
    requires FirstSameSearch(rows, from, to) == -1
    ensures SaveRows(rows, nextId, from, to, now) == KeepNewest(Place(rows, NewSearch(nextId, from, to, now)))
    ensures SaveNextId(rows, nextId, from, to) == nextId + 1
  {
    ValidKeys(rows, nextId);
    RemoveIdAbsent(rows, nextId);
  }

  /** The rows after the update branch of saveSearch: the first matching row
      is written back with the new time stamp. */
  lemma UpdateBranch(rows: seq<SearchHistoryItem>, nextId: int, from: string, to: string, now: int)
    requires FirstSameSearch(rows, from, to) != -1
    ensures var existing := rows[FirstSameSearch(rows, from, to)];
      SaveRows(rows, nextId, from, to, now) == Place(RemoveId(rows, existing.id), existing.(timestamp := now))
    ensures SaveNextId(rows, nextId, from, to) == nextId
  {
  }

  /** The clean-up loop of saveSearch: every row after the ten newest is
      deleted, one by one. */
  method DeleteBeyondNewest(store: SearchHistoryStore)
    requires store.Valid()
    modifies store
    ensures store.Valid()
    ensures store.rows == KeepNewest(old(store.rows))
    ensures store.nextId == old(store.nextId)
  {
    var allSearches := store.rows;
    if |allSearches| > MaxSearches {
      var toDelete := allSearches[MaxSearches..];
      for i := 0 to |toDelete|
        invariant store.Valid()
        invariant store.rows == allSearches[..MaxSearches] + toDelete[i..]
        invariant store.nextId == old(store.nextId)
      {
        var here := store.rows;
        assert here[MaxSearches] == toDelete[i];
        RemoveIdAt(here, MaxSearches);
        store.DeleteSearch(toDelete[i]);
        assert here[..MaxSearches] == allSearches[..MaxSearches];
        assert here[MaxSearches + 1..] == toDelete[i + 1..];
      }
      assert toDelete[|toDelete|..] == [];
      assert allSearches[..MaxSearches] + [] == allSearches[..MaxSearches];
    }
  }

  /** saveSearch(from, to) with the clock reading now. */
  method SaveSearch(store: SearchHistoryStore, from: string, to: string, now: int)
    requires store.Valid()
    modifies store
    ensures store.Valid()
    ensures store.rows == SaveRows(old(store.rows), old(store.nextId), from, to, now)
    ensures store.nextId == SaveNextId(old(store.rows), old(store.nextId), from, to)
  {
    var existingSearches := store.rows;
    var k := FirstSameSearch(existingSearches, from, to);
    if k == -1 {
      InsertBranch(existingSearches, store.nextId, from, to, now);
      ValidKeys(existingSearches, store.nextId);
      RemoveIdAbsent(existingSearches, store.nextId);
      var stored := store.InsertSearch(SearchHistoryItem(0, Trim(from), Trim(to), now));
      DeleteBeyondNewest(store);
    } else {
      var existing := existingSearches[k];
      UpdateBranch(existingSearches, store.nextId, from, to, now);
      assert HasId(existingSearches, existing.id);
      store.UpdateSearch(existing.(timestamp := now));
    }
  }

  /** A matched search only has its timestamp changed: the row count stays,
      and the rows are the old ones with that row re-stamped. */
  lemma {:induction false} RepeatedSearchOnlyRestamps(rows: seq<SearchHistoryItem>, nextId: int, from: string, to: string, now: int)
    requires ValidRows(rows, nextId)
    requires FirstSameSearch(rows, from, to) != -1
    ensures var k := FirstSameSearch(rows, from, to);
      |SaveRows(rows, nextId, from, to, now)| == |rows| &&
      multiset(SaveRows(rows, nextId, from, to, now)) ==
        multiset(rows) - multiset{rows[k]} + multiset{rows[k].(timestamp := now)}
  {
    var k := FirstSameSearch(rows, from, to);
    UpdateBranch(rows, nextId, from, to, now);
    RemoveIdAt(rows, k);
    RemoveAtMultiset(rows, k);
  }

  lemma RemoveAtMultiset(rows: seq<SearchHistoryItem>, k: int)
    requires 0 <= k < |rows|
    ensures multiset(rows[..k] + rows[k + 1..]) == multiset(rows) - multiset{rows[k]}
  {
    assert rows == rows[..k] + [rows[k]] + rows[k + 1..];
  }

  /** A new search adds one trimmed row and leaves at most ten; every row
      kept is an old row or the new one, and no old row that was dropped is
      newer than a kept one. */
  lemma {:induction false} NewSearchIsCapped(rows: seq<SearchHistoryItem>, nextId: int, from: string, to: string, now: int)
    requires ValidRows(rows, nextId)
    requires FirstSameSearch(rows, from, to) == -1
    ensures var r := SaveRows(rows, nextId, from, to, now);
      |r| == if |rows| + 1 > MaxSearches then MaxSearches else |rows| + 1
    ensures forall x :: x in SaveRows(rows, nextId, from, to, now) ==> x in rows || x == NewSearch(nextId, from, to, now)
    ensures var r := SaveRows(rows, nextId, from, to, now);
      forall x, y :: x in r && y in rows && y !in r ==> x.timestamp >= y.timestamp
  {
    InsertBranch(rows, nextId, from, to, now);
    var p := Place(rows, NewSearch(nextId, from, to, now));
    assert forall x :: x in KeepNewest(p) ==> x in p;
    KeepNewestDropsOlder(p);
  }

  /** On a newest-first table, a row KeepNewest drops is no newer than any
      row it keeps. */
  lemma KeepNewestDropsOlder(p: seq<SearchHistoryItem>)
    requires NewestFirst(p)
    ensures var r := KeepNewest(p);
      forall x, y :: x in r && y in p && y !in r ==> x.timestamp >= y.timestamp
  {
    var r := KeepNewest(p);
    forall x, y | x in r && y in p && y !in r ensures x.timestamp >= y.timestamp {
      var i :| 0 <= i < |r| && r[i] == x;
      var j :| 0 <= j < |p| && p[j] == y;
      assert j >= |r|;
    }
  }

  /** With a clock that never runs backwards, the new search heads the
      history. */
  lemma {:induction false} NewSearchComesFirst(rows: seq<SearchHistoryItem>, nextId: int, from: string, to: string, now: int)
    requires ValidRows(rows, nextId)
    requires FirstSameSearch(rows, from, to) == -1
    requires forall k :: 0 <= k < |rows| ==> rows[k].timestamp <= now
    ensures SaveRows(rows, nextId, from, to, now) != []
    ensures SaveRows(rows, nextId, from, to, now)[0] == NewSearch(nextId, from, to, now)
  {
    InsertBranch(rows, nextId, from, to, now);
  }

  /** Writing a row under a fresh valid key keeps the table valid. */
  lemma PlaceValid(rows: seq<SearchHistoryItem>, nextId: int, e: SearchHistoryItem)
    requires ValidRows(rows, nextId)
    requires forall x :: x in rows ==> x.id != e.id
    requires e.id != 0 && e.id < nextId
    ensures ValidRows(Place(rows, e), nextId)
  {
    ValidKeys(rows, nextId);
    var p := Place(rows, e);
    assert forall x :: x in p ==> x in rows || x == e;
    KeysFromMembers(p, nextId);
  }

  /** Removing rows keeps the table valid. */
  lemma RemoveIdValid(rows: seq<SearchHistoryItem>, nextId: int, id: int)
    requires ValidRows(rows, nextId)
    ensures ValidRows(RemoveId(rows, id), nextId)
  {
    ValidKeys(rows, nextId);
    var r := RemoveId(rows, id);
    assert forall x :: x in r ==> x in rows;
    KeysFromMembers(r, nextId);
  }

  /** Keeping only the newest rows keeps the table valid. */
  lemma KeepNewestValid(rows: seq<SearchHistoryItem>, nextId: int)
    requires ValidRows(rows, nextId)
    ensures ValidRows(KeepNewest(rows), nextId)
  {
    var r := KeepNewest(rows);
    assert forall j :: 0 <= j < |r| ==> r[j] == rows[j];
  }

  /** The invariant of the table survives saveSearch. */
  lemma {:induction false} SavedRowsValid(rows: seq<SearchHistoryItem>, nextId: int, from: string, to: string, now: int)
    requires ValidRows(rows, nextId)
    ensures ValidRows(SaveRows(rows, nextId, from, to, now), SaveNextId(rows, nextId, from, to))
  {
    var k := FirstSameSearch(rows, from, to);
    ValidKeys(rows, nextId);
    if k == -1 {
      InsertBranch(rows, nextId, from, to, now);
      assert ValidRows(rows, nextId + 1);
      PlaceValid(rows, nextId + 1, NewSearch(nextId, from, to, now));
      KeepNewestValid(Place(rows, NewSearch(nextId, from, to, now)), nextId + 1);
    } else {
      UpdateBranch(rows, nextId, from, to, now);
      var existing := rows[k];
      assert existing in rows;
      RemoveIdValid(rows, nextId, existing.id);
      PlaceValid(RemoveId(rows, existing.id), nextId, existing.(timestamp := now));
    }
  }

  /** A row of the list that matches the search makes it found. */
  lemma FoundIfMember(rows: seq<SearchHistoryItem>, e: SearchHistoryItem, from: string, to: string)
    requires e in rows && SameSearch(e, from, to)
    ensures FirstSameSearch(rows, from, to) != -1
  {
    var m :| 0 <= m < |rows| && rows[m] == e;
  }

  lemma PlacedRowFound(rows: seq<SearchHistoryItem>, e: SearchHistoryItem, from: string, to: string)
    requires SameSearch(e, from, to)
    ensures FirstSameSearch(Place(rows, e), from, to) != -1
  {
    FoundIfMember(Place(rows, e), e, from, to);
  }

  /** A trimmed search is found again by the next save. */
  lemma {:induction false} SavedSearchIsFound(rows: seq<SearchHistoryItem>, nextId: int, from: string, to: string, now: int)
    requires ValidRows(rows, nextId)
    requires Trim(from) == from && Trim(to) == to
    requires forall k :: 0 <= k < |rows| ==> rows[k].timestamp <= now
    ensures FirstSameSearch(SaveRows(rows, nextId, from, to, now), from, to) != -1
  {
    var r1 := SaveRows(rows, nextId, from, to, now);
    var k := FirstSameSearch(rows, from, to);
    if k == -1 {
      NewSearchComesFirst(rows, nextId, from, to, now);
      FoundIfMember(r1, NewSearch(nextId, from, to, now), from, to);
    } else {
      var existing := rows[k];
      var e := existing.(timestamp := now);
      assert SameSearch(e, from, to) by {
        assert e.fromLocation == existing.fromLocation && e.toLocation == existing.toLocation;
      }
      UpdateBranch(rows, nextId, from, to, now);
      PlacedRowFound(RemoveId(rows, existing.id), e, from, to);
    }
  }

  /** Saving the same trimmed search twice leaves one row for it: the second
      save only re-stamps. */
  lemma {:induction false} SavingTwiceKeepsOneRow(rows: seq<SearchHistoryItem>, nextId: int, from: string, to: string, now1: int, now2: int)
    requires ValidRows(rows, nextId)
    requires Trim(from) == from && Trim(to) == to
    requires forall k :: 0 <= k < |rows| ==> rows[k].timestamp <= now1
    ensures var r1 := SaveRows(rows, nextId, from, to, now1);
      |SaveRows(r1, SaveNextId(rows, nextId, from, to), from, to, now2)| == |r1|
  {
    var r1 := SaveRows(rows, nextId, from, to, now1);
    var n1 := SaveNextId(rows, nextId, from, to);
    SavedSearchIsFound(rows, nextId, from, to, now1);
    SavedRowsValid(rows, nextId, from, to, now1);
    RepeatedSearchOnlyRestamps(r1, n1, from, to, now2);
  }

  /** A search typed with surrounding blanks is stored trimmed but compared
      untrimmed, so the next identical save does not find it and stores a
      second row. */
  lemma {:induction false} PaddedSearchIsStoredTwice(nextId: int, from: string, to: string, now1: int, now2: int)
    requires nextId > 0
    requires Trim(from) != from
    ensures var r1 := SaveRows([], nextId, from, to, now1);
      |SaveRows(r1, SaveNextId([], nextId, from, to), from, to, now2)| == 2
  {
    var row := NewSearch(nextId, from, to, now1);
    FirstSaveIsOneRow(nextId, from, to, now1);
    PaddedRowNotFound(row, from, to);
    NewSearchIsCapped([row], nextId + 1, from, to, now2);
  }

  /** The first save into an empty table stores exactly its trimmed row. */
  lemma FirstSaveIsOneRow(nextId: int, from: string, to: string, now: int)
    requires nextId > 0
    ensures SaveRows([], nextId, from, to, now) == [NewSearch(nextId, from, to, now)]
    ensures SaveNextId([], nextId, from, to) == nextId + 1
    ensures ValidRows([NewSearch(nextId, from, to, now)], nextId + 1)
  {
    InsertBranch([], nextId, from, to, now);
    assert Place([], NewSearch(nextId, from, to, now)) == [NewSearch(nextId, from, to, now)];
    SavedRowsValid([], nextId, from, to, now);
  }

  /** A row stored trimmed does not match the padded search it came from. */
  lemma PaddedRowNotFound(row: SearchHistoryItem, from: string, to: string)
    requires row.fromLocation == Trim(from) && Trim(from) != from
    ensures FirstSameSearch([row], from, to) == -1
  {
    assert |Lower(Trim(from))| != |Lower(from)|;
    assert !SameSearch([row][0], from, to);
  }
}
