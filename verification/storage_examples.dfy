/**
  An example of the ranking windows: four stored items aged 25 hours,
  2 days, 10 days and 40 days, and which of them each window returns.
 */
module StorageExamples {
  import opened Types
  import opened Storage

  const HOUR_MS: int := 3_600_000

  predicate Ages(a: HistoryItem, b: HistoryItem, c: HistoryItem, d: HistoryItem, now: int) {
    && a.timestamp == now - 25 * HOUR_MS
    && b.timestamp == now - 2 * DAY_MS
    && c.timestamp == now - 10 * DAY_MS
    && d.timestamp == now - 40 * DAY_MS
  }

  lemma RecentCons(x: HistoryItem, rest: seq<HistoryItem>, now: int, period: Period)
    ensures Recent([x] + rest, now, period)
         == (if InWindow(x, now, period) then [x] else []) + Recent(rest, now, period)
  {
    assert ([x] + rest)[1..] == rest;
  }

  /** 25 hours is beyond the day window, so the day filter keeps none of them. */
  lemma DayRecent(a: HistoryItem, b: HistoryItem, c: HistoryItem, d: HistoryItem, now: int)
    requires Ages(a, b, c, d, now)
    ensures Recent([a, b, c, d], now, Day) == []
  {
    RecentCons(d, [], now, Day);
    assert Recent([d], now, Day) == [];
    RecentCons(c, [d], now, Day);
    assert Recent([c, d], now, Day) == [];
    RecentCons(b, [c, d], now, Day);
    assert Recent([b, c, d], now, Day) == [];
    RecentCons(a, [b, c, d], now, Day);
  }

  /** The week filter keeps the first two. */
  lemma WeekRecent(a: HistoryItem, b: HistoryItem, c: HistoryItem, d: HistoryItem, now: int)
    requires Ages(a, b, c, d, now)
    ensures Recent([a, b, c, d], now, Week) == [a, b]
  {
    RecentCons(d, [], now, Week);
    assert Recent([d], now, Week) == [];
    RecentCons(c, [d], now, Week);
    assert Recent([c, d], now, Week) == [];
    RecentCons(b, [c, d], now, Week);
    assert Recent([b, c, d], now, Week) == [b];
    RecentCons(a, [b, c, d], now, Week);
  }

  /** The month filter keeps the first three; the 40-day-old item is in no window. */
  lemma MonthRecent(a: HistoryItem, b: HistoryItem, c: HistoryItem, d: HistoryItem, now: int)
    requires Ages(a, b, c, d, now)
    ensures Recent([a, b, c, d], now, Month) == [a, b, c]
  {
    RecentCons(d, [], now, Month);
    assert Recent([d], now, Month) == [];
    RecentCons(c, [d], now, Month);
    assert Recent([c, d], now, Month) == [c];
    RecentCons(b, [c, d], now, Month);
    assert Recent([b, c, d], now, Month) == [b, c];
    RecentCons(a, [b, c, d], now, Month);
  }

  /** The three rankings of the example store. */
  lemma WindowExample(a: HistoryItem, b: HistoryItem, c: HistoryItem, d: HistoryItem, now: int)
    requires Ages(a, b, c, d, now)
    ensures GetRankings(Valid([a, b, c, d]), now, Day) == []
    ensures multiset(GetRankings(Valid([a, b, c, d]), now, Week)) == multiset{a, b}
    ensures multiset(GetRankings(Valid([a, b, c, d]), now, Month)) == multiset{a, b, c}
  {
    DayRecent(a, b, c, d, now);
    WeekRecent(a, b, c, d, now);
    MonthRecent(a, b, c, d, now);
  }
}
