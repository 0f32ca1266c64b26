/**
  The result store and the ranking query of services/storage.ts.

  Local storage is one abstract cell under the history key. The clock
  (`Date.now`), the id generator (`crypto.randomUUID`) and the outcome of
  the write (`localStorage.setItem`) are parameters.
 */
module Storage {
  import opened Types
  import opened StableSort

  /** Most items the store keeps. */
  const HISTORY_CAP: nat := 50

  /** One day in milliseconds: 24 * 60 * 60 * 1000. */
  const DAY_MS: int := 86_400_000

  /**
    What `localStorage.getItem` yields for the history key: nothing (null or
    the empty string, both falsy), a blob that does not parse as an array,
    or a parsed array of items.
   */
  datatype Cell = Absent | Corrupt | Valid(items: seq<HistoryItem>)

  datatype Period = Day | Week | Month

  /** Length of a ranking window. */
  function WindowMs(period: Period): (w: int)
    ensures DAY_MS <= w <= 30 * DAY_MS
    ensures period == Day <==> w == DAY_MS
  {
    match period
    case Day => DAY_MS
    case Week => 7 * DAY_MS
    case Month => 30 * DAY_MS
  }

  /** The item is younger than the window: its age is strictly below it. */
  predicate InWindow(item: HistoryItem, now: int, period: Period) {
    now - item.timestamp < WindowMs(period)
  }

  /** The record saved for `result`: every result field plus id, time and thumbnail. */
  function NewItem(result: AnalysisResult, id: Text, now: int, thumbnail: Text): (item: HistoryItem)
    ensures ResultOf(item) == result
    ensures item.id == id && item.timestamp == now && item.thumbnail == thumbnail
  {
    HistoryItem(result.title, result.totalScore, result.summary, result.criteria, result.advice,
                result.avatarCritique, result.posingAdvice, result.accessoryRecommendations,
                result.technicalDetails, id, now, thumbnail)
  }

  function Min(a: int, b: int): int { if a <= b then a else b }

  /**
    The list a save writes: the previous list with `item` appended, sorted
    by timestamp (newest first, stable), cut to the first HISTORY_CAP items.
   */
  function Appended(history: seq<HistoryItem>, item: HistoryItem): (r: seq<HistoryItem>)
    ensures |r| == Min(HISTORY_CAP, |history| + 1)
    ensures SortedDesc(r, Timestamp)
    ensures multiset(r) <= multiset(history + [item])
  {
    var sorted := SortDesc(history + [item], Timestamp);
    assert sorted == sorted[..Min(HISTORY_CAP, |history| + 1)] + sorted[Min(HISTORY_CAP, |history| + 1)..];
    sorted[..Min(HISTORY_CAP, |history| + 1)]
  }

  /** What every successful save leaves behind: at most 50 items, newest first. */
  predicate WellFormedStore(cell: Cell) {
    cell.Valid? ==> |cell.items| <= HISTORY_CAP && SortedDesc(cell.items, Timestamp)
  }

  /**
    `saveAnalysisResult`. Never fails: an unparseable blob or a failed write
    leaves the cell as it was; an absent key reads as the empty list.
   */
  function SaveAnalysisResult(cell: Cell, result: AnalysisResult, thumbnail: Text,
                              id: Text, now: int, writeFails: bool): (c: Cell)
    ensures cell.Corrupt? || writeFails ==> c == cell
    ensures WellFormedStore(cell) ==> WellFormedStore(c)
    ensures !cell.Corrupt? && !writeFails ==>
              && c.Valid?
              && |c.items| <= HISTORY_CAP
              && SortedDesc(c.items, Timestamp)
    ensures cell.Absent? && !writeFails ==> c == Valid([NewItem(result, id, now, thumbnail)])
    ensures cell.Valid? && !writeFails ==>
              && |c.items| == Min(HISTORY_CAP, |cell.items| + 1)
              && multiset(c.items) <= multiset(cell.items + [NewItem(result, id, now, thumbnail)])
  {
    var history :=
      match cell
      case Absent => Some([])
      case Corrupt => None
      case Valid(items) => Some(items);
    if history.None? || writeFails then cell
    else Valid(Appended(history.value, NewItem(result, id, now, thumbnail)))
  }

  /** The items of `history` inside the window, in stored order. */
  function Recent(history: seq<HistoryItem>, now: int, period: Period): (r: seq<HistoryItem>)
    ensures |r| <= |history|
    ensures forall i | 0 <= i < |r| :: InWindow(r[i], now, period)
  {
    if |history| == 0 then []
    else
      var rest := Recent(history[1..], now, period);
      assert history == [history[0]] + history[1..];
      if InWindow(history[0], now, period) then [history[0]] + rest else rest
  }

  /** Filtering never adds an item, nor a copy of one. */
  lemma {:induction false} RecentSubMultiset(history: seq<HistoryItem>, now: int, period: Period)
    ensures multiset(Recent(history, now, period)) <= multiset(history)
  {
    if |history| > 0 {
      RecentSubMultiset(history[1..], now, period);
      assert history == [history[0]] + history[1..];
    }
  }

  /** An item is kept exactly when it is stored and inside the window. */
  lemma {:induction false} RecentMembers(history: seq<HistoryItem>, now: int, period: Period)
    ensures forall x :: x in Recent(history, now, period) <==> x in history && InWindow(x, now, period)
  {
    if |history| > 0 {
      RecentMembers(history[1..], now, period);
      assert history == [history[0]] + history[1..];
    }
  }

  /**
    `getRankings`: the stored items inside the window, best score first,
    equal scores in stored order; empty when nothing can be read.
   */
  function GetRankings(cell: Cell, now: int, period: Period): (r: seq<HistoryItem>)
    ensures !cell.Valid? ==> r == []
    ensures cell.Valid? ==> IsStableSortDesc(Recent(cell.items, now, period), r, TotalScore)
    ensures forall x :: x in r <==> cell.Valid? && x in cell.items && InWindow(x, now, period)
  {
    match cell
    case Valid(items) =>
      var r := SortDesc(Recent(items, now, period), TotalScore);
      RecentMembers(items, now, period);
      assert forall x :: x in r <==> x in multiset(r);
      r
    case _ => []
  }

  /** The list a save starts from: the stored items, or none when the key is absent. */
  function StoredItems(cell: Cell): seq<HistoryItem> {
    if cell.Valid? then cell.items else []
  }

  /** A save that reads a list and writes successfully writes `Appended` of that list. */
  lemma SaveWrites(cell: Cell, result: AnalysisResult, thumbnail: Text, id: Text, now: int)
    requires !cell.Corrupt?
    ensures SaveAnalysisResult(cell, result, thumbnail, id, now, false)
         == Valid(Appended(StoredItems(cell), NewItem(result, id, now, thumbnail)))
  {
  }

  lemma AppendedIsStableSortPrefix(history: seq<HistoryItem>, item: HistoryItem, sorted: seq<HistoryItem>)
    requires IsStableSortDesc(history + [item], sorted, Timestamp)
    ensures |sorted| == |history| + 1
    ensures Appended(history, item) == sorted[..Min(HISTORY_CAP, |history| + 1)]
  {
    var all := history + [item];
    assert |sorted| == |multiset(sorted)| == |multiset(all)| == |all|;
    StableSortUnique(all, SortDesc(all, Timestamp), sorted, Timestamp);
  }

  /**
    The saved list is exactly the first min(50, n + 1) elements of the stable
    newest-first sort of the old list with the new item appended: any
    sequence meeting that sort's specification, cut there, is what is written.
   */
  lemma SaveIsStableSortPrefix(cell: Cell, result: AnalysisResult, thumbnail: Text,
                               id: Text, now: int, sorted: seq<HistoryItem>)
    requires !cell.Corrupt?
    requires IsStableSortDesc(StoredItems(cell) + [NewItem(result, id, now, thumbnail)], sorted, Timestamp)
    ensures |sorted| == |StoredItems(cell)| + 1
    ensures SaveAnalysisResult(cell, result, thumbnail, id, now, false)
         == Valid(sorted[..Min(HISTORY_CAP, |StoredItems(cell)| + 1)])
  {
    SaveWrites(cell, result, thumbnail, id, now);
    AppendedIsStableSortPrefix(StoredItems(cell), NewItem(result, id, now, thumbnail), sorted);
  }

  lemma AppendedKeepsAllBelowCap(history: seq<HistoryItem>, item: HistoryItem)
    requires |history| < HISTORY_CAP
    ensures multiset(Appended(history, item)) == multiset(history + [item])
  {
    var all := history + [item];
    var sorted := SortDesc(all, Timestamp);
    assert Appended(history, item) == sorted[..|all|];
    assert sorted[..|all|] == sorted;
  }

  /** Below the cap nothing is dropped: the saved list is a rearrangement of old items plus the new one. */
  lemma SaveKeepsAllBelowCap(cell: Cell, result: AnalysisResult, thumbnail: Text, id: Text, now: int)
    requires !cell.Corrupt?
    requires |StoredItems(cell)| < HISTORY_CAP
    ensures SaveAnalysisResult(cell, result, thumbnail, id, now, false).Valid?
    ensures multiset(SaveAnalysisResult(cell, result, thumbnail, id, now, false).items)
         == multiset(StoredItems(cell) + [NewItem(result, id, now, thumbnail)])
  {
    SaveWrites(cell, result, thumbnail, id, now);
    AppendedKeepsAllBelowCap(StoredItems(cell), NewItem(result, id, now, thumbnail));
  }

  /** In a newest-first list, everything after position `m` is no newer than anything before it. */
  lemma PrefixIsNewest(sorted: seq<HistoryItem>, m: nat)
    requires SortedDesc(sorted, Timestamp) && m <= |sorted|
    ensures forall x, y | x in sorted[..m] && y in sorted[m..] :: y.timestamp <= x.timestamp
  {
    forall x, y | x in sorted[..m] && y in sorted[m..] ensures y.timestamp <= x.timestamp {
      var i :| 0 <= i < m && sorted[i] == x;
      var j :| m <= j < |sorted| && sorted[j] == y;
      assert Timestamp(sorted[i]) >= Timestamp(sorted[j]);
    }
  }

  lemma AppendedEvictsOldest(history: seq<HistoryItem>, item: HistoryItem)
    ensures var kept := Appended(history, item);
            forall x: HistoryItem, y: HistoryItem
              | x in kept && y in multiset(history + [item]) - multiset(kept) :: y.timestamp <= x.timestamp
  {
    var all := history + [item];
    var sorted := SortDesc(all, Timestamp);
    var m := Min(HISTORY_CAP, |all|);
    var kept := sorted[..m];
    assert kept == Appended(history, item);
    assert sorted == kept + sorted[m..];
    assert multiset(all) - multiset(kept) == multiset(sorted[m..]);
    PrefixIsNewest(sorted, m);
  }

  /**
    Eviction is by recency: every item the save drops is at least as old as
    every item it keeps.
   */
  lemma SaveEvictsOldest(cell: Cell, result: AnalysisResult, thumbnail: Text, id: Text, now: int)
    requires !cell.Corrupt?
    ensures var all := StoredItems(cell) + [NewItem(result, id, now, thumbnail)];
            var kept := SaveAnalysisResult(cell, result, thumbnail, id, now, false).items;
            forall x: HistoryItem, y: HistoryItem
              | x in kept && y in multiset(all) - multiset(kept) :: y.timestamp <= x.timestamp
  {
    SaveWrites(cell, result, thumbnail, id, now);
    AppendedEvictsOldest(StoredItems(cell), NewItem(result, id, now, thumbnail));
  }

  lemma AppendedNewestFirst(history: seq<HistoryItem>, item: HistoryItem)
    requires forall x | x in history :: x.timestamp < item.timestamp
    ensures Appended(history, item)[0] == item
  {
    var all := history + [item];
    var sorted := SortDesc(all, Timestamp);
    assert Appended(history, item)[0] == sorted[0];
    assert item in multiset(sorted);
    var j :| 0 <= j < |sorted| && sorted[j] == item;
    assert sorted[0] in multiset(all);
    assert Timestamp(sorted[0]) >= Timestamp(sorted[j]);
  }

  /**
    A new item no newer than any item of a full, newest-first store sorts
    after all of them, being appended last, and is cut at once.
   */
  lemma AppendedToFullStoreOfNewer(history: seq<HistoryItem>, item: HistoryItem)
    requires |history| == HISTORY_CAP && SortedDesc(history, Timestamp)
    requires forall x | x in history :: x.timestamp >= item.timestamp
    ensures Appended(history, item) == history
  {
    var all := history + [item];
    assert SortedDesc(all, Timestamp) by {
      forall i, j | 0 <= i < j < |all| ensures Timestamp(all[i]) >= Timestamp(all[j]) {
        if j == |history| {
          assert all[i] in history;
        }
      }
    }
    SortDescOfSorted(all, Timestamp);
    assert all[..HISTORY_CAP] == history;
  }

  /** When the clock is ahead of every stored timestamp the new item is saved first. */
  lemma SaveNewestFirst(cell: Cell, result: AnalysisResult, thumbnail: Text, id: Text, now: int)
    requires !cell.Corrupt?
    requires forall x | x in StoredItems(cell) :: x.timestamp < now
    ensures SaveAnalysisResult(cell, result, thumbnail, id, now, false).items[0]
         == NewItem(result, id, now, thumbnail)
  {
    SaveWrites(cell, result, thumbnail, id, now);
    AppendedNewestFirst(StoredItems(cell), NewItem(result, id, now, thumbnail));
  }

  /**
    When `now` is later than every stored timestamp, a saved result shows up
    in any ranking window that still covers the moment it was saved.
   */
  lemma SaveThenRanked(cell: Cell, result: AnalysisResult, thumbnail: Text, id: Text,
                       now: int, later: int, period: Period)
    requires !cell.Corrupt?
    requires forall x | x in StoredItems(cell) :: x.timestamp < now
    requires later - now < WindowMs(period)
    ensures NewItem(result, id, now, thumbnail)
         in GetRankings(SaveAnalysisResult(cell, result, thumbnail, id, now, false), later, period)
  {
    var saved := SaveAnalysisResult(cell, result, thumbnail, id, now, false);
    SaveNewestFirst(cell, result, thumbnail, id, now);
    assert saved.items[0] in saved.items;
  }

  /** Filtering with a narrower window after a wider one is filtering with the narrower one. */
  lemma {:induction false} RecentNested(history: seq<HistoryItem>, now: int, narrow: Period, wide: Period)
    requires WindowMs(narrow) <= WindowMs(wide)
    ensures Recent(Recent(history, now, wide), now, narrow) == Recent(history, now, narrow)
  {
    if |history| > 0 {
      RecentNested(history[1..], now, narrow, wide);
      var rest := Recent(history[1..], now, wide);
      if InWindow(history[0], now, wide) {
        assert ([history[0]] + rest)[1..] == rest;
      }
    }
  }

  /** The day ranking is contained in the week ranking, which is contained in the month ranking. */
  lemma RankingsNested(cell: Cell, now: int)
    ensures multiset(GetRankings(cell, now, Day)) <= multiset(GetRankings(cell, now, Week))
    ensures multiset(GetRankings(cell, now, Week)) <= multiset(GetRankings(cell, now, Month))
  {
    if cell.Valid? {
      RecentNested(cell.items, now, Day, Week);
      RecentNested(cell.items, now, Week, Month);
      RecentSubMultiset(Recent(cell.items, now, Week), now, Day);
      RecentSubMultiset(Recent(cell.items, now, Month), now, Week);
    }
  }
}
