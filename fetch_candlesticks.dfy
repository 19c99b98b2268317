/** fetch_candlesticks.py: gather every candle after the last stored one, clean
    the new rows and append them to the pair's parquet file; and the choice of
    the pairs to update from the exchange's catalog. */
module FetchCandlesticks {
  import opened Seqs
  import opened Candles
  import opened Preprocessing
  import opened Pagination

  /** SHAVE_OFF_TODAY: cut the candles of the current day off every written file. */
  const ShaveOffToday: bool := true

  /** gather_new_candles: the list starts with an empty frame; every later element
      is a response appended by the cursor loop. */
  method GatherNewCandles(fetch: Fetch, ghost horizon: int, lastTimestamp: int) returns (batches: seq<Batch>)
    requires Sound(fetch, horizon)
    ensures batches == [[]] + Paginate(fetch, horizon, lastTimestamp, None)
  {
    var previous: Option<int> := None;
    var last := lastTimestamp;
    batches := [[]];
    ghost var target := [[]] + Paginate(fetch, horizon, last, None);
    // Each round moves the cursor strictly up, so the loop ends through a break
    // and never through its guard.
    ghost var stopped := false;
    while previous != Some(last)
      invariant previous.Some? ==> previous.value < last
      invariant batches + Paginate(fetch, horizon, last, None) == target
      decreases horizon - last
    {
      previous := Some(last);
      var newBatch := fetch(last + 1, BatchSize);
      if newBatch == [] {
        PaginateStops(fetch, horizon, last, None);
        stopped := true;
        break;
      }
      PaginateCons(fetch, horizon, last, None);
      last := BatchMax(newBatch).value;
      if previous == Some(last) {
        assert false;
        break;
      }
      ghost var rest := Paginate(fetch, horizon, last, None);
      assert batches + ([newBatch] + rest) == target;
      assert (batches + [newBatch]) + rest == batches + ([newBatch] + rest);
      batches := batches + [newBatch];
    }
    if !stopped {
      assert false;
    }
    assert batches == target;
  }

  /** get_parquet_info: the newest stored open time in ms and the number of stored
      candles; (0, 0) when there is no file or it is empty. */
  function ParquetInfo(store: Option<seq<Candle>>): (info: (int, nat))
    ensures store.None? ==> info == (0, 0)
    ensures store.Some? && store.value == [] ==> info == (0, 0)
    ensures store.Some? && store.value != [] ==>
              && info.1 == |store.value|
              && (exists i :: 0 <= i < |store.value| && store.value[i].openTime == info.0)
              && (forall i :: 0 <= i < |store.value| ==> store.value[i].openTime <= info.0)
  {
    match store
    case None => (0, 0)
    case Some(s) =>
      if s == [] then (0, 0)
      else
        var newest := MaxPresent(OpenTimes(s));
        assert OpenTimes(s)[0].Some?;
        (newest.value, |s|)
  }

  /** The stored candles, none without a file. */
  function StoredRows(store: Option<seq<Candle>>): seq<Candle>
  {
    if store.Some? then store.value else []
  }

  /** No stored candle opens after the cursor get_parquet_info reports. */
  lemma StoredAtMostCursor(store: Option<seq<Candle>>)
    ensures var old_ := StoredRows(store);
      forall i :: 0 <= i < |old_| ==> old_[i].openTime <= ParquetInfo(store).0
  {
  }

  /** What write_to_parquet returns, and the file it leaves behind. */
  datatype Written = Written(count: nat, stored: seq<Candle>)

  /** write_to_parquet: concatenate the batches, clean them and merge them into the
      file; the returned count is the number of concatenated raw rows. */
  function WriteToParquet(batches: seq<Batch>, append: bool, store: Option<seq<Candle>>, today: int)
    : (r: Result<Written, IntegrityError>)
    ensures r.Success?
    ensures r.value.count == |Concat(batches)|
    ensures append && store.Some? ==>
              |store.value| <= |r.value.stored| && r.value.stored[..|store.value|] == store.value
    ensures |r.value.stored| <= (if append && store.Some? then |store.value| else 0) + r.value.count
  {
    var df := Concat(batches);
    match WriteRawToParquet(df, ShaveOffToday, append, store, today)
    case Failure(e) => assert false; Failure(e)
    case Success(written) => Success(Written(|df|, written))
  }

  /** The count is the number of fetched rows whatever the file held; the file keeps
      what it held, when appending, and gains the cleaned new rows after it. */
  lemma WriteToParquetSpec(batches: seq<Batch>, append: bool, store: Option<seq<Candle>>, today: int)
    ensures CleanRaw(Concat(batches), ShaveOffToday, today).Success?
    ensures WriteToParquet(batches, append, store, today)
            == Success(Written(|Concat(batches)|,
                               (if append && store.Some? then store.value else [])
                               + CleanRaw(Concat(batches), ShaveOffToday, today).value))
  {
    CleanRawPassesIntegrity(Concat(batches), ShaveOffToday, today);
    assert [] + CleanRaw(Concat(batches), ShaveOffToday, today).value
           == CleanRaw(Concat(batches), ShaveOffToday, today).value;
  }

  /** The count is not the number of rows added: two fetched rows with the same
      open time count twice and are written once. */
  lemma WriteToParquetCountsRawRows(c: RawCandle, today: int)
    requires IsComplete(c) && c.openTime.value < today
    ensures WriteToParquet([[], [c, c]], true, Some([]), today)
            == Success(Written(2, [Indexed(c)]))
  {
    assert Concat([[], [c, c]]) == [c, c] by {
      assert Init([[], [c, c]]) == [[]];
      ConcatSingle<RawCandle>([]);
    }
    CleanRawDropsRepeat(c, today);
    WriteToParquetSpec([[], [c, c]], true, Some([]), today);
    assert [] + [Indexed(c)] == [Indexed(c)];
  }

  /** What all_candles_to_parquet computes: the cursor from the file, the loop, and
      the write with append on (the call in the source passes base and quote as
      extra positional arguments; the intended call is modelled). */
  ghost function ParquetRun(store: Option<seq<Candle>>, fetch: Fetch, horizon: int, today: int)
    : (r: Result<Written, IntegrityError>)
    requires Sound(fetch, horizon)
    ensures r.Success?
    ensures |StoredRows(store)| <= |r.value.stored|
    ensures r.value.stored[..|StoredRows(store)|] == StoredRows(store)
  {
    WriteToParquet([[]] + Paginate(fetch, horizon, ParquetInfo(store).0, None), true, store, today)
  }

  method AllCandlesToParquet(store: Option<seq<Candle>>, fetch: Fetch, ghost horizon: int, today: int)
    returns (r: Result<Written, IntegrityError>)
    requires Sound(fetch, horizon)
    ensures r == ParquetRun(store, fetch, horizon, today)
  {
    var info := ParquetInfo(store);
    var batches := GatherNewCandles(fetch, horizon, info.0);
    r := WriteToParquet(batches, true, store, today);
  }

  /** The leading empty frame adds no rows. */
  lemma ConcatAfterEmpty(pages: seq<Batch>)
    ensures Concat([[]] + pages) == Concat(pages)
  {
    ConcatAppend([[]], pages);
    ConcatSingle<RawCandle>([]);
  }

  /** A run counts the fetched rows and writes the file's candles followed by the
      cleaned fetched rows. */
  lemma ParquetRunSpec(store: Option<seq<Candle>>, fetch: Fetch, horizon: int, today: int, raw: seq<RawCandle>)
    requires Sound(fetch, horizon)
    requires raw == Concat(Paginate(fetch, horizon, ParquetInfo(store).0, None))
    ensures && CleanRaw(raw, ShaveOffToday, today).Success?
      && ParquetRun(store, fetch, horizon, today)
         == Success(Written(|raw|, StoredRows(store) + CleanRaw(raw, ShaveOffToday, today).value))
  {
    var pages := Paginate(fetch, horizon, ParquetInfo(store).0, None);
    ConcatAfterEmpty(pages);
    WriteToParquetSpec([[]] + pages, true, store, today);
  }

  /** Candles at or before cursor followed by distinct candles between cursor and
      today. */
  lemma AppendAbove(old_: seq<Candle>, cleaned: seq<Candle>, cursor: int, today: int)
    requires forall i :: 0 <= i < |old_| ==> old_[i].openTime <= cursor
    requires forall j :: 0 <= j < |cleaned| ==> cursor < cleaned[j].openTime < today
    requires Distinct(OpenTimes(cleaned))
    ensures var stored := old_ + cleaned;
      && stored[..|old_|] == old_
      && (forall i, j :: 0 <= i < |old_| <= j < |stored| ==> old_[i].openTime < stored[j].openTime)
      && (forall j :: |old_| <= j < |stored| ==> stored[j].openTime < today)
      && (Distinct(OpenTimes(old_)) ==> Distinct(OpenTimes(stored)))
  {
    var stored := old_ + cleaned;
    assert stored[..|old_|] == old_;
    forall i, j | 0 <= i < |old_| <= j < |stored|
      ensures old_[i].openTime < stored[j].openTime
    {
      assert stored[j] == cleaned[j - |old_|];
    }
    forall j | |old_| <= j < |stored|
      ensures stored[j].openTime < today
    {
      assert stored[j] == cleaned[j - |old_|];
    }
    if Distinct(OpenTimes(old_)) {
      MapAppend(old_, cleaned, CandleKey);
      DistinctAppend(OpenTimes(old_), OpenTimes(cleaned));
    }
  }

  /** A run appends after the stored candles, and every candle it adds opens after
      the newest stored one and before today: though write_raw_to_parquet does not
      deduplicate across the file and the new rows, a run adds no open time the
      file already has. */
  lemma ParquetRunAppendsNewer(store: Option<seq<Candle>>, fetch: Fetch, horizon: int, today: int)
    requires Sound(fetch, horizon)
    ensures var r := ParquetRun(store, fetch, horizon, today);
      var old_ := StoredRows(store);
      && r.Success?
      && |old_| <= |r.value.stored|
      && r.value.stored[..|old_|] == old_
      && (forall i, j :: 0 <= i < |old_| <= j < |r.value.stored| ==> old_[i].openTime < r.value.stored[j].openTime)
      && (forall j :: |old_| <= j < |r.value.stored| ==> r.value.stored[j].openTime < today)
      && (Distinct(OpenTimes(old_)) ==> Distinct(OpenTimes(r.value.stored)))
  {
    ParquetRunSpec(store, fetch, horizon, today, Concat(Paginate(fetch, horizon, ParquetInfo(store).0, None)));
    FetchedAfter(fetch, horizon, ParquetInfo(store).0, None);
    StoredThenCleanedAbove(store, Concat(Paginate(fetch, horizon, ParquetInfo(store).0, None)), today);
  }

  /** The stored rows followed by cleaned rows that all open after the file's
      cursor: the file stays a prefix and keeps its distinct open times. */
  lemma StoredThenCleanedAbove(store: Option<seq<Candle>>, raw: seq<RawCandle>, today: int)
    requires forall i :: 0 <= i < |raw| ==> raw[i].openTime.Some? && ParquetInfo(store).0 < raw[i].openTime.value
    ensures var old_ := StoredRows(store);
      var stored := old_ + CleanRaw(raw, ShaveOffToday, today).value;
      && stored[..|old_|] == old_
      && (forall i, j :: 0 <= i < |old_| <= j < |stored| ==> old_[i].openTime < stored[j].openTime)
      && (forall j :: |old_| <= j < |stored| ==> stored[j].openTime < today)
      && (Distinct(OpenTimes(old_)) ==> Distinct(OpenTimes(stored)))
  {
    CleanRawAbove(raw, ShaveOffToday, today, ParquetInfo(store).0);
    CleanRawOrder(raw, ShaveOffToday, today);
    StoredAtMostCursor(store);
    AppendAbove(StoredRows(store), CleanRaw(raw, ShaveOffToday, today).value, ParquetInfo(store).0, today);
  }

  /** A pair that is up to date stays as it is: when the exchange has nothing after
      the cursor, the count is 0 and the file is unchanged (created empty if it was
      missing). */
  lemma ParquetRunUpToDate(store: Option<seq<Candle>>, fetch: Fetch, horizon: int, today: int)
    requires Sound(fetch, horizon)
    requires fetch(ParquetInfo(store).0 + 1, BatchSize) == []
    ensures ParquetRun(store, fetch, horizon, today)
            == Success(Written(0, StoredRows(store)))
  {
    var cursor := ParquetInfo(store).0;
    PaginateStops(fetch, horizon, cursor, None);
    ParquetRunSpec(store, fetch, horizon, today, []);
    CleanRawUnfold([], ShaveOffToday, today);
    assert DropDuplicates([]) == [];
    var old_ := StoredRows(store);
    assert old_ + [] == old_;
  }

  /** Against an exchange that serves a sorted history, a run cleans exactly the
      candles after the cursor and appends them to the file. */
  lemma ParquetRunHistory(store: Option<seq<Candle>>, h: seq<RawCandle>, horizon: int, today: int)
    requires History(h, horizon)
    ensures Sound(HistoryFetch(h), horizon)
    ensures var raw := Since(h, ParquetInfo(store).0 + 1);
      && CleanRaw(raw, ShaveOffToday, today).Success?
      && ParquetRun(store, HistoryFetch(h), horizon, today)
         == Success(Written(|raw|, StoredRows(store) + CleanRaw(raw, ShaveOffToday, today).value))
  {
    PaginateHistory(h, horizon, ParquetInfo(store).0);
    ParquetRunSpec(store, HistoryFetch(h), horizon, today, Since(h, ParquetInfo(store).0 + 1));
  }

  /** Ascending candles at or before cursor followed by ascending candles after it. */
  lemma AppendAscending(old_: seq<Candle>, cleaned: seq<Candle>, cursor: int)
    requires Ascending(OpenTimes(old_)) && Ascending(OpenTimes(cleaned))
    requires forall i :: 0 <= i < |old_| ==> old_[i].openTime <= cursor
    requires forall j :: 0 <= j < |cleaned| ==> cursor < cleaned[j].openTime
    ensures Ascending(OpenTimes(old_ + cleaned))
  {
    var stored := old_ + cleaned;
    MapAppend(old_, cleaned, CandleKey);
    forall i, j | 0 <= i < j < |stored|
      ensures OpenTimes(stored)[i].value < OpenTimes(stored)[j].value
    {
      if j < |old_| {
        assert OpenTimes(old_)[i] == OpenTimes(stored)[i];
        assert OpenTimes(old_)[j] == OpenTimes(stored)[j];
      } else if i >= |old_| {
        assert OpenTimes(cleaned)[i - |old_|] == OpenTimes(stored)[i];
        assert OpenTimes(cleaned)[j - |old_|] == OpenTimes(stored)[j];
      } else {
        assert stored[i] == old_[i] && stored[j] == cleaned[j - |old_|];
      }
    }
  }

  /** Cleaning the candles of an ascending history after cursor gives ascending
      candles after cursor. */
  lemma CleanSinceAscending(h: seq<RawCandle>, cursor: int, today: int)
    requires Ascending(RawKeys(h))
    ensures CleanRaw(Since(h, cursor + 1), ShaveOffToday, today).Success?
    ensures var cleaned := CleanRaw(Since(h, cursor + 1), ShaveOffToday, today).value;
      && Ascending(OpenTimes(cleaned))
      && forall j :: 0 <= j < |cleaned| ==> cursor < cleaned[j].openTime
  {
    var raw := Since(h, cursor + 1);
    SinceSpec(h, cursor + 1);
    CleanRawOrder(raw, ShaveOffToday, today);
    SubsequenceAscending(OpenTimes(CleanRaw(raw, ShaveOffToday, today).value), RawKeys(raw));
    forall i | 0 <= i < |raw| && raw[i].openTime.Some?
      ensures cursor < raw[i].openTime.value
    {
      assert raw[i] in raw;
    }
    CleanRawAbove(raw, ShaveOffToday, today, cursor);
  }

  /** Against an exchange that serves a sorted history, a file whose open times
      ascend still has ascending open times after the run. */
  lemma ParquetRunSorted(store: Option<seq<Candle>>, h: seq<RawCandle>, horizon: int, today: int)
    requires History(h, horizon)
    requires store.Some? ==> Ascending(OpenTimes(store.value))
    ensures Sound(HistoryFetch(h), horizon)
    ensures ParquetRun(store, HistoryFetch(h), horizon, today).Success?
    ensures Ascending(OpenTimes(ParquetRun(store, HistoryFetch(h), horizon, today).value.stored))
  {
    ParquetRunHistory(store, h, horizon, today);
    StoredThenSinceSorted(store, h, today);
  }

  /** The stored rows followed by the cleaned history after the file's cursor
      ascend. */
  lemma StoredThenSinceSorted(store: Option<seq<Candle>>, h: seq<RawCandle>, today: int)
    requires Ascending(RawKeys(h))
    requires store.Some? ==> Ascending(OpenTimes(store.value))
    ensures CleanRaw(Since(h, ParquetInfo(store).0 + 1), ShaveOffToday, today).Success?
    ensures Ascending(OpenTimes(StoredRows(store) + CleanRaw(Since(h, ParquetInfo(store).0 + 1), ShaveOffToday, today).value))
  {
    StoredAtMostCursor(store);
    MergedSorted(StoredRows(store), h, ParquetInfo(store).0, today);
  }

  /** Rows that ascend up to the cursor, followed by the cleaned history after it,
      ascend. */
  lemma MergedSorted(old_: seq<Candle>, h: seq<RawCandle>, cursor: int, today: int)
    requires Ascending(RawKeys(h)) && Ascending(OpenTimes(old_))
    requires forall i :: 0 <= i < |old_| ==> old_[i].openTime <= cursor
    ensures CleanRaw(Since(h, cursor + 1), ShaveOffToday, today).Success?
    ensures Ascending(OpenTimes(old_ + CleanRaw(Since(h, cursor + 1), ShaveOffToday, today).value))
  {
    CleanSinceAscending(h, cursor, today);
    AppendAscending(old_, CleanRaw(Since(h, cursor + 1), ShaveOffToday, today).value, cursor);
  }

  /** In ascending keys no row repeats an earlier open time. */
  lemma AscendingNotDuplicated(raw: seq<RawCandle>, i: int)
    requires Ascending(RawKeys(raw)) && 0 <= i < |raw|
    ensures !IsDuplicated(raw, i)
  {
  }

  /** Cleaning the candles of an ascending history from start on keeps every
      complete one that opens before today. */
  lemma CleanSinceKeepsComplete(h: seq<RawCandle>, start: int, today: int)
    requires Ascending(RawKeys(h))
    ensures CleanRaw(Since(h, start), ShaveOffToday, today).Success?
    ensures forall x :: x in h && IsComplete(x) && start <= x.openTime.value < today ==>
              Candle(x.openTime.value, x.fields) in CleanRaw(Since(h, start), ShaveOffToday, today).value
  {
    var raw := Since(h, start);
    SinceSpec(h, start);
    CleanRawKeepsComplete(raw, ShaveOffToday, today);
    forall x | x in h && IsComplete(x) && start <= x.openTime.value < today
      ensures Candle(x.openTime.value, x.fields) in CleanRaw(raw, ShaveOffToday, today).value
    {
      assert x in raw;
      var i :| 0 <= i < |raw| && raw[i] == x;
      AscendingNotDuplicated(raw, i);
    }
  }

  /** Against an exchange that serves a sorted history, a run writes every complete
      candle after the newest stored one that opens before today. */
  lemma ParquetRunComplete(store: Option<seq<Candle>>, h: seq<RawCandle>, horizon: int, today: int)
    requires History(h, horizon)
    ensures Sound(HistoryFetch(h), horizon)
    ensures ParquetRun(store, HistoryFetch(h), horizon, today).Success?
    ensures forall x :: x in h && IsComplete(x) && ParquetInfo(store).0 < x.openTime.value < today ==>
              Candle(x.openTime.value, x.fields) in ParquetRun(store, HistoryFetch(h), horizon, today).value.stored
  {
    ParquetRunHistory(store, h, horizon, today);
    CleanSinceKeepsComplete(h, ParquetInfo(store).0 + 1, today);
  }

  // ---------------------------------------------------------------------------
  // The pairs to update

  /** One entry of the exchange's symbol catalog, reduced to the fields read. */
  datatype SymbolInfo = SymbolInfo(baseAsset: string, quoteAsset: string, status: string)

  function PairOf(s: SymbolInfo): (string, string)
  {
    (s.baseAsset, s.quoteAsset)
  }

  predicate IsTrading(s: SymbolInfo)
  {
    s.status == "TRADING"
  }

  /** The (baseAsset, quoteAsset) pairs main updates, before they are shuffled. */
  function SelectPairs(catalog: seq<SymbolInfo>, skipDelisted: bool): (pairs: seq<(string, string)>)
    ensures |pairs| == if skipDelisted then Count(catalog, IsTrading) else |catalog|
  {
    FilterCount(catalog, IsTrading);
    if skipDelisted then Map(Filter(catalog, IsTrading), PairOf) else Map(catalog, PairOf)
  }

  /** With SKIP_DELISTED the pairs are exactly those of the trading entries, in
      catalog order; without it every entry gives its pair, in catalog order. */
  lemma SelectPairsSpec(catalog: seq<SymbolInfo>)
    ensures |SelectPairs(catalog, false)| == |catalog|
    ensures forall i :: 0 <= i < |catalog| ==> SelectPairs(catalog, false)[i] == PairOf(catalog[i])
    ensures IsSubsequence(SelectPairs(catalog, true), SelectPairs(catalog, false))
    ensures forall p :: p in SelectPairs(catalog, true) <==>
              exists i :: 0 <= i < |catalog| && IsTrading(catalog[i]) && PairOf(catalog[i]) == p
    ensures |SelectPairs(catalog, true)| <= |catalog|
    ensures |SelectPairs(catalog, true)| == Count(catalog, IsTrading)
  {
    var active := Filter(catalog, IsTrading);
    FilterSpec(catalog, IsTrading);
    FilterCount(catalog, IsTrading);
    SubsequenceMap(active, catalog, PairOf);
    forall p
      ensures p in SelectPairs(catalog, true) <==>
              exists i :: 0 <= i < |catalog| && IsTrading(catalog[i]) && PairOf(catalog[i]) == p
    {
      if p in SelectPairs(catalog, true) {
        var k :| 0 <= k < |active| && PairOf(active[k]) == p;
        assert active[k] in active;
        var i :| 0 <= i < |catalog| && catalog[i] == active[k];
      }
      if exists i :: 0 <= i < |catalog| && IsTrading(catalog[i]) && PairOf(catalog[i]) == p {
        var i :| 0 <= i < |catalog| && IsTrading(catalog[i]) && PairOf(catalog[i]) == p;
        assert catalog[i] in active;
        var k :| 0 <= k < |active| && active[k] == catalog[i];
        assert SelectPairs(catalog, true)[k] == p;
      }
    }
  }
}
