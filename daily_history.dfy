/**
 * The history tab: results grouped by calendar day, each group with its own
 * totals, newest day first.
 */
module DailyHistory {
  import opened Dose
  import opened Results
  import Calendar
  import opened Wrappers
  import opened Seqs

  /** One day's group. `date` is the day key; totals as in `Results`. */
  datatype DailySummary = DailySummary(date: int, items: seq<CalculationResult>, totalCarbs: nat, totalInsulin: nat)

  function DayOf(item: CalculationResult): int {
    Calendar.DayKey(item.timestamp)
  }

  /** The items of `history` that fall on day `d`, in their original order. */
  function ItemsOn(history: seq<CalculationResult>, d: int): seq<CalculationResult>
    decreases |history|
  {
    if history == [] then []
    else ItemsOn(history[..|history| - 1], d)
         + (if DayOf(history[|history| - 1]) == d then [history[|history| - 1]] else [])
  }

  /** The days `history` touches. */
  function Days(history: seq<CalculationResult>): set<int>
    decreases |history|
  {
    if history == [] then {}
    else Days(history[..|history| - 1]) + {DayOf(history[|history| - 1])}
  }

  /** The group for day `d`, as the component builds it. */
  function SummaryOf(history: seq<CalculationResult>, d: int): DailySummary {
    var items := ItemsOn(history, d);
    DailySummary(d, items, TotalCarbs(items), TotalInsulin(items))
  }

  /** Groups in strictly descending date order, hence no two with the same day. */
  predicate StrictlyDescending(groups: seq<DailySummary>) {
    forall i, j :: 0 <= i < j < |groups| ==> groups[i].date > groups[j].date
  }

  predicate DistinctDates(groups: seq<DailySummary>) {
    forall i, j :: 0 <= i < j < |groups| ==> groups[i].date != groups[j].date
  }

  lemma {:induction false} DaysMembership(history: seq<CalculationResult>, d: int)
    ensures d in Days(history) <==> exists k :: 0 <= k < |history| && DayOf(history[k]) == d
    ensures d !in Days(history) ==> ItemsOn(history, d) == []
    decreases |history|
  {
    if history != [] {
      var prev := history[..|history| - 1];
      DaysMembership(prev, d);
      if d in Days(history) && d !in Days(prev) {
        assert DayOf(history[|history| - 1]) == d;
      }
      if exists k :: 0 <= k < |history| && DayOf(history[k]) == d {
        var k :| 0 <= k < |history| && DayOf(history[k]) == d;
        if k < |prev| {
          assert prev[k] == history[k];
        }
      }
    }
  }

  /** Insert into a date-descending sequence (one step of the sort). */
  function InsertByDate(x: DailySummary, sorted: seq<DailySummary>): (r: seq<DailySummary>)
    requires StrictlyDescending(sorted)
    requires forall k :: 0 <= k < |sorted| ==> sorted[k].date != x.date
    ensures multiset(r) == multiset(sorted) + multiset{x}
    ensures StrictlyDescending(r)
    ensures r[0] == x || (|sorted| > 0 && r[0] == sorted[0])
    decreases |sorted|
  {
    if sorted == [] || x.date > sorted[0].date then
      PrependDescending(x, sorted);
      [x] + sorted
    else
      var y, tail := sorted[0], sorted[1..];
      DropFirst(x, sorted);
      var rest := InsertByDate(x, tail);
      InsertBehind(x, y, tail, rest);
      [y] + rest
  }

  /** What holds of a sorted sequence without `x`'s date holds of its tail. */
  lemma DropFirst(x: DailySummary, sorted: seq<DailySummary>)
    requires |sorted| > 0 && StrictlyDescending(sorted)
    requires forall k :: 0 <= k < |sorted| ==> sorted[k].date != x.date
    ensures sorted == [sorted[0]] + sorted[1..]
    ensures StrictlyDescending(sorted[1..])
    ensures forall k :: 0 <= k < |sorted[1..]| ==> sorted[1..][k].date != x.date
  {
    forall k | 0 <= k < |sorted[1..]| ensures sorted[1..][k].date != x.date {
      assert sorted[1..][k] == sorted[k + 1];
    }
  }

  /** Putting the older group `x` into the tail keeps the head in front. */
  lemma InsertBehind(x: DailySummary, y: DailySummary, tail: seq<DailySummary>, rest: seq<DailySummary>)
    requires StrictlyDescending([y] + tail) && x.date < y.date
    requires multiset(rest) == multiset(tail) + multiset{x} && StrictlyDescending(rest)
    requires rest[0] == x || (|tail| > 0 && rest[0] == tail[0])
    ensures multiset([y] + rest) == multiset([y] + tail) + multiset{x}
    ensures StrictlyDescending([y] + rest)
  {
    assert |rest| > 0 by { assert x in multiset(rest); }
    if rest[0] != x {
      var s := [y] + tail;
      assert s[0] == y && s[1] == tail[0];
      assert s[0].date > s[1].date;
    }
    PrependDescending(y, rest);
    assert multiset([y] + rest) == multiset{y} + multiset(rest);
    assert multiset([y] + tail) == multiset{y} + multiset(tail);
  }

  /** A group newer than the first of a descending sequence can go in front of it. */
  lemma PrependDescending(y: DailySummary, s: seq<DailySummary>)
    requires StrictlyDescending(s) && (|s| > 0 ==> y.date > s[0].date)
    ensures StrictlyDescending([y] + s)
  {
    var r := [y] + s;
    forall i, j | 0 <= i < j < |r| ensures r[i].date > r[j].date {
      if i == 0 && j > 1 {
        assert r[j] == s[j - 1] && s[0].date > s[j - 1].date;
      }
    }
  }

  /** The sort of the groups, newest day first, on groups with distinct dates. */
  function SortByDateDescending(groups: seq<DailySummary>): (r: seq<DailySummary>)
    requires DistinctDates(groups)
    ensures multiset(r) == multiset(groups)
    ensures StrictlyDescending(r)
    decreases |groups|
  {
    if groups == [] then []
    else
      var rest := SortByDateDescending(groups[1..]);
      NotInRest(groups, rest);
      assert groups == [groups[0]] + groups[1..];
      InsertByDate(groups[0], rest)
  }

  lemma NotInRest(groups: seq<DailySummary>, rest: seq<DailySummary>)
    requires |groups| > 0 && DistinctDates(groups)
    requires multiset(rest) == multiset(groups[1..])
    ensures forall k :: 0 <= k < |rest| ==> rest[k].date != groups[0].date
  {
    forall k | 0 <= k < |rest| ensures rest[k].date != groups[0].date {
      assert rest[k] in multiset(groups[1..]);
      var j :| 0 <= j < |groups[1..]| && groups[1..][j] == rest[k];
      assert groups[j + 1] == rest[k];
    }
  }

  /** How many history items the groups hold between them. */
  function ItemCount(groups: seq<DailySummary>): nat
    decreases |groups|
  {
    if groups == [] then 0 else ItemCount(groups[..|groups| - 1]) + |groups[|groups| - 1].items|
  }

  lemma ItemCountAppend(groups: seq<DailySummary>, x: DailySummary)
    ensures ItemCount(groups + [x]) == ItemCount(groups) + |x.items|
  {
    assert (groups + [x])[..|groups|] == groups;
  }

  lemma {:induction false} ItemCountPrepend(x: DailySummary, groups: seq<DailySummary>)
    ensures ItemCount([x] + groups) == |x.items| + ItemCount(groups)
    decreases |groups|
  {
    if groups != [] {
      var init := groups[..|groups| - 1];
      ItemCountPrepend(x, init);
      assert ([x] + groups)[..|groups|] == [x] + init;
    }
  }

  lemma {:induction false} ItemCountUpdate(groups: seq<DailySummary>, idx: nat, x: DailySummary)
    requires idx < |groups|
    ensures ItemCount(groups[idx := x]) + |groups[idx].items| == ItemCount(groups) + |x.items|
    decreases |groups|
  {
    var n := |groups| - 1;
    if idx < n {
      ItemCountUpdate(groups[..n], idx, x);
      assert groups[idx := x][..n] == groups[..n][idx := x];
    } else {
      assert groups[idx := x][..n] == groups[..n];
    }
  }

  lemma {:induction false} ItemCountInsert(x: DailySummary, sorted: seq<DailySummary>)
    requires StrictlyDescending(sorted)
    requires forall k :: 0 <= k < |sorted| ==> sorted[k].date != x.date
    ensures ItemCount(InsertByDate(x, sorted)) == |x.items| + ItemCount(sorted)
    decreases |sorted|
  {
    if sorted == [] || x.date > sorted[0].date {
      ItemCountPrepend(x, sorted);
    } else {
      var tail := sorted[1..];
      var rest := InsertByDate(x, tail);
      ItemCountInsert(x, tail);
      ItemCountPrepend(sorted[0], rest);
      ItemCountPrepend(sorted[0], tail);
      assert InsertByDate(x, sorted) == [sorted[0]] + rest;
      assert [sorted[0]] + tail == sorted;
    }
  }

  /** Sorting moves groups around but keeps every item. */
  lemma {:induction false} ItemCountSorted(groups: seq<DailySummary>)
    requires DistinctDates(groups)
    ensures ItemCount(SortByDateDescending(groups)) == ItemCount(groups)
    decreases |groups|
  {
    if groups != [] {
      var rest := SortByDateDescending(groups[1..]);
      ItemCountSorted(groups[1..]);
      NotInRest(groups, rest);
      ItemCountInsert(groups[0], rest);
      ItemCountPrepend(groups[0], groups[1..]);
      assert [groups[0]] + groups[1..] == groups;
    }
  }

  /**
   * An item added to its day's group: appended to the items, its carbs and
   * dose added to the totals, so totals that were the sums of the items stay so.
   */
  function AddItem(summary: DailySummary, item: CalculationResult): (r: DailySummary)
    ensures r.date == summary.date && |r.items| == |summary.items| + 1 && r.items[..|summary.items|] == summary.items
    ensures summary.totalCarbs == TotalCarbs(summary.items) && summary.totalInsulin == TotalInsulin(summary.items)
            ==> r.totalCarbs == TotalCarbs(r.items) && r.totalInsulin == TotalInsulin(r.items)
  {
    TotalsOfAppend(summary.items, item);
    assert (summary.items + [item])[..|summary.items|] == summary.items;
    summary.(items := summary.items + [item],
             totalCarbs := summary.totalCarbs + item.carbsEstimate,
             totalInsulin := summary.totalInsulin + item.insulinDose)
  }

  /** Adding one item to the history changes only that item's day group, by appending it. */
  lemma SummaryStep(prefix: seq<CalculationResult>, item: CalculationResult, d: int)
    ensures var before := SummaryOf(prefix, d);
            SummaryOf(prefix + [item], d) == if DayOf(item) == d then AddItem(before, item) else before
  {
    var before := ItemsOn(prefix, d);
    assert (prefix + [item])[..|prefix|] == prefix;
    if DayOf(item) == d {
      assert ItemsOn(prefix + [item], d) == before + [item];
      TotalsOfAppend(before, item);
    } else {
      assert ItemsOn(prefix + [item], d) == before + [];
      assert before + [] == before;
    }
  }

  lemma DaysStep(prefix: seq<CalculationResult>, item: CalculationResult)
    ensures Days(prefix + [item]) == Days(prefix) + {DayOf(item)}
  {
    assert (prefix + [item])[..|prefix|] == prefix;
  }

  /** The groups `dailySummaries` produces for `history`, in any order. */
  predicate GroupsHistory(history: seq<CalculationResult>, groups: seq<DailySummary>) {
    && DistinctDates(groups)
    && (forall k :: 0 <= k < |groups| ==> groups[k] == SummaryOf(history, groups[k].date))
    && (forall k :: 0 <= k < |groups| ==> groups[k].date in Days(history))
    && (forall d :: d in Days(history) ==> exists k :: 0 <= k < |groups| && groups[k].date == d)
  }

  /** The groups `dailySummaries` returns: every day once, with its own summary, newest first. */
  predicate IsDailyGrouping(history: seq<CalculationResult>, groups: seq<DailySummary>) {
    StrictlyDescending(groups) && GroupsHistory(history, groups)
  }

  /** The summary-map lookup of a day, on the entries of the map in insertion order. */
  function FindDay(entries: seq<DailySummary>, d: int): (r: Option<nat>)
    ensures r.Some? ==> r.value < |entries| && entries[r.value].date == d
    ensures r.None? <==> forall k :: 0 <= k < |entries| ==> entries[k].date != d
  {
    if entries == [] then None
    else if entries[0].date == d then Some(0)
    else match FindDay(entries[1..], d)
      case None => None
      case Some(k) => Some(k + 1)
  }

  /**
   * The entries for `prefix` with entry `idx` reserved for the next item's
   * day: every entry is its day's summary, and every entry but `idx` is a
   * day `prefix` already touches.
   */
  predicate GroupsBeforeStep(prefix: seq<CalculationResult>, entries: seq<DailySummary>, idx: nat) {
    && idx < |entries|
    && DistinctDates(entries)
    && (forall k :: 0 <= k < |entries| ==> entries[k] == SummaryOf(prefix, entries[k].date))
    && (forall k :: 0 <= k < |entries| && k != idx ==> entries[k].date in Days(prefix))
    && (forall d :: d in Days(prefix) ==> exists k :: 0 <= k < |entries| && entries[k].date == d)
  }

  /** A day not seen yet gets an empty group with zero totals. */
  lemma NewDay(prefix: seq<CalculationResult>, entries: seq<DailySummary>, d: int)
    requires GroupsHistory(prefix, entries)
    requires forall k :: 0 <= k < |entries| ==> entries[k].date != d
    ensures GroupsBeforeStep(prefix, entries + [DailySummary(d, [], 0, 0)], |entries|)
  {
    DaysMembership(prefix, d);
    var e := entries + [DailySummary(d, [], 0, 0)];
    forall d' | d' in Days(prefix) ensures exists k :: 0 <= k < |e| && e[k].date == d' {
      var k :| 0 <= k < |entries| && entries[k].date == d';
      assert e[k] == entries[k];
    }
  }

  /** After the step every entry is its day's summary: the item's day gained the item, the others are as before. */
  lemma StepSummaries(prefix: seq<CalculationResult>, item: CalculationResult, entries: seq<DailySummary>, idx: nat)
    requires idx < |entries| && entries[idx].date == DayOf(item) && DistinctDates(entries)
    requires forall k :: 0 <= k < |entries| ==> entries[k] == SummaryOf(prefix, entries[k].date)
    ensures var updated := entries[idx := AddItem(entries[idx], item)];
            forall k :: 0 <= k < |updated| ==> updated[k] == SummaryOf(prefix + [item], updated[k].date)
  {
    var updated := entries[idx := AddItem(entries[idx], item)];
    forall k | 0 <= k < |updated| ensures updated[k] == SummaryOf(prefix + [item], updated[k].date) {
      SummaryStep(prefix, item, updated[k].date);
      if k != idx {
        assert updated[k] == entries[k];
      }
    }
  }

  /** After the step the entries' days are exactly the days of the longer history. */
  lemma StepDays(prefix: seq<CalculationResult>, item: CalculationResult, entries: seq<DailySummary>, idx: nat)
    requires idx < |entries| && entries[idx].date == DayOf(item)
    requires forall k :: 0 <= k < |entries| && k != idx ==> entries[k].date in Days(prefix)
    requires forall d :: d in Days(prefix) ==> exists k :: 0 <= k < |entries| && entries[k].date == d
    ensures var updated := entries[idx := AddItem(entries[idx], item)];
            && (forall k :: 0 <= k < |updated| ==> updated[k].date in Days(prefix + [item]))
            && (forall d :: d in Days(prefix + [item]) ==> exists k :: 0 <= k < |updated| && updated[k].date == d)
  {
    var updated := entries[idx := AddItem(entries[idx], item)];
    DaysStep(prefix, item);
    forall k | 0 <= k < |updated| ensures updated[k].date in Days(prefix + [item]) {
      if k != idx {
        assert updated[k] == entries[k];
      }
    }
    forall d | d in Days(prefix + [item]) ensures exists k :: 0 <= k < |updated| && updated[k].date == d {
      if d != DayOf(item) {
        var k :| 0 <= k < |entries| && entries[k].date == d;
        assert updated[k].date == d;
      } else {
        assert updated[idx].date == d;
      }
    }
  }

  /** One turn of the `forEach`: push the item onto its day's entry and add to its totals. */
  lemma GroupStep(prefix: seq<CalculationResult>, item: CalculationResult, entries: seq<DailySummary>, idx: nat)
    requires GroupsBeforeStep(prefix, entries, idx) && entries[idx].date == DayOf(item)
    ensures GroupsHistory(prefix + [item], entries[idx := AddItem(entries[idx], item)])
  {
    StepSummaries(prefix, item, entries, idx);
    StepDays(prefix, item, entries, idx);
    var updated := entries[idx := AddItem(entries[idx], item)];
    assert DistinctDates(updated) by {
      forall a, b | 0 <= a < b < |updated| ensures updated[a].date != updated[b].date {
        assert updated[a].date == entries[a].date && updated[b].date == entries[b].date;
      }
    }
  }

  /**
   * The callback of the `forEach`: find or create the entry for the item's
   * day, then push the item onto it and add to its totals.
   */
  method AddToDay(entries: seq<DailySummary>, item: CalculationResult, ghost prefix: seq<CalculationResult>)
    returns (updated: seq<DailySummary>)
    requires GroupsHistory(prefix, entries)
    ensures GroupsHistory(prefix + [item], updated)
    ensures ItemCount(updated) == ItemCount(entries) + 1
  {
    var dayKey := DayOf(item);
    updated := entries;
    var idx: nat;
    match FindDay(entries, dayKey) {
      case None =>
        NewDay(prefix, entries, dayKey);
        ItemCountAppend(entries, DailySummary(dayKey, [], 0, 0));
        updated := entries + [DailySummary(dayKey, [], 0, 0)];
        idx := |entries|;
      case Some(k) =>
        idx := k;
    }
    GroupStep(prefix, item, updated, idx);
    ItemCountUpdate(updated, idx, AddItem(updated[idx], item));
    updated := updated[idx := AddItem(updated[idx], item)];
  }

  /**
   * The `forEach` of `dailySummaries`: one pass over the history that keeps
   * one entry per day, in the order days were first seen (the iteration
   * order of a JavaScript `Map`).
   */
  method GroupByDay(history: seq<CalculationResult>) returns (entries: seq<DailySummary>)
    ensures GroupsHistory(history, entries)
    ensures ItemCount(entries) == |history|
  {
    entries := [];
    var i := 0;
    while i < |history|
      invariant 0 <= i <= |history|
      invariant GroupsHistory(history[..i], entries)
      invariant ItemCount(entries) == i
    {
      PrefixStep(history, i);
      entries := AddToDay(entries, history[i], history[..i]);
      i := i + 1;
    }
    assert history[..i] == history;
  }

  /** `dailySummaries`: the entries of `GroupByDay`, sorted newest day first. */
  method DailySummaries(history: seq<CalculationResult>) returns (groups: seq<DailySummary>)
    ensures IsDailyGrouping(history, groups)
    ensures |groups| == 0 <==> |history| == 0
    ensures ItemCount(groups) == |history|
  {
    var entries := GroupByDay(history);
    groups := SortByDateDescending(entries);
    ItemCountSorted(entries);
    PermutedGrouping(history, entries, groups);
    NonEmptyIff(history, groups);
  }

  /** Reordering the groups keeps them the groups of the same history. */
  lemma PermutedGrouping(history: seq<CalculationResult>, entries: seq<DailySummary>, groups: seq<DailySummary>)
    requires GroupsHistory(history, entries)
    requires multiset(groups) == multiset(entries) && StrictlyDescending(groups)
    ensures IsDailyGrouping(history, groups)
  {
    forall k | 0 <= k < |groups|
      ensures groups[k] == SummaryOf(history, groups[k].date) && groups[k].date in Days(history)
    {
      var j := IndexIn(groups, entries, k);
    }
    forall d | d in Days(history)
      ensures exists k :: 0 <= k < |groups| && groups[k].date == d
    {
      var j :| 0 <= j < |entries| && entries[j].date == d;
      var k := IndexIn(entries, groups, j);
    }
  }

  /** Where the `k`-th element of `a` sits in `b`, a permutation of `a`. */
  lemma IndexIn<T>(a: seq<T>, b: seq<T>, k: nat) returns (j: nat)
    requires multiset(a) == multiset(b) && k < |a|
    ensures j < |b| && b[j] == a[k]
  {
    assert a[k] in multiset(b);
    j :| j < |b| && b[j] == a[k];
  }

  /** There are no groups exactly when there is no history. */
  lemma NonEmptyIff(history: seq<CalculationResult>, groups: seq<DailySummary>)
    requires GroupsHistory(history, groups)
    ensures |groups| == 0 <==> |history| == 0
  {
    if |groups| > 0 {
      assert groups[0].date in Days(history);
    }
    if |history| > 0 {
      DaysMembership(history, DayOf(history[0]));
      assert DayOf(history[0]) in Days(history);
    } else {
      assert Days(history) == {};
    }
  }

  /** A day's items are exactly the history items whose day it is. */
  lemma {:induction false} ItemsOnMembership(history: seq<CalculationResult>, d: int, x: CalculationResult)
    ensures x in ItemsOn(history, d) <==> x in history && DayOf(x) == d
    decreases |history|
  {
    if history != [] {
      var prev := history[..|history| - 1];
      ItemsOnMembership(prev, d, x);
      assert history == prev + [history[|history| - 1]];
    }
  }

  /**
   * Items keep their history order inside a group: the group of an earlier
   * stretch of the history is a prefix of the group of the whole history.
   */
  lemma {:induction false} ItemsOnKeepsOrder(history: seq<CalculationResult>, m: nat, d: int)
    requires m <= |history|
    ensures ItemsOn(history[..m], d) <= ItemsOn(history, d)
    decreases |history| - m
  {
    if m < |history| {
      ItemsOnKeepsOrder(history, m + 1, d);
      assert history[..m + 1][..m] == history[..m];
    } else {
      assert history[..m] == history;
    }
  }

  /** Each history item is in the group of its own day, and in no group of another day. */
  lemma ItemInItsDayGroup(history: seq<CalculationResult>, groups: seq<DailySummary>, k: nat)
    requires IsDailyGrouping(history, groups) && k < |history|
    ensures exists j :: 0 <= j < |groups| && groups[j].date == DayOf(history[k]) && history[k] in groups[j].items
    ensures forall j :: 0 <= j < |groups| && history[k] in groups[j].items ==> groups[j].date == DayOf(history[k])
  {
    var x := history[k];
    DaysMembership(history, DayOf(x));
    var j :| 0 <= j < |groups| && groups[j].date == DayOf(x);
    ItemsOnMembership(history, DayOf(x), x);
    assert x in groups[j].items;
    forall j' | 0 <= j' < |groups| && x in groups[j'].items ensures groups[j'].date == DayOf(x) {
      ItemsOnMembership(history, groups[j'].date, x);
    }
  }

  /**
   * The history tab shows its empty-state message exactly when there is no
   * history, that is when no day has anything to list.
   */
  function ShowsEmptyState(history: seq<CalculationResult>): (empty: bool)
    ensures empty <==> history == []
    ensures empty <==> Days(history) == {}
  {
    if |history| == 0 then true
    else
      DaysMembership(history, DayOf(history[0]));
      false
  }

  /** The empty state and the list of days exclude each other: the message shows exactly when `dailySummaries` is empty. */
  lemma EmptyStateIffNoGroups(history: seq<CalculationResult>, groups: seq<DailySummary>)
    requires IsDailyGrouping(history, groups)
    ensures ShowsEmptyState(history) <==> groups == []
  {
    NonEmptyIff(history, groups);
  }
}
