/** all_candles_to_csv (main.py): the older per-pair update that keeps the raw
    history in a CSV file. The saved rows are the first frame, the cursor is their
    newest open time (0 without a file), the loop fetches until today, and the
    concatenation is cleaned and written back only when something was fetched. */
module MainCsv {
  import opened Seqs
  import opened Candles
  import opened Preprocessing
  import opened Pagination

  /** quick_clean does not exist in preprocessing.py; it is taken to be clean_raw
      called with its default limit_to_today=True. */
  const LimitToToday := true

  /** Why a run stops without writing: the saved frame has no open time to take the
      maximum of (pandas gives NaN and date.fromtimestamp raises), or clean_raw's
      integrity assertion fails. */
  datatype RunError = NoCursor | Integrity(error: IntegrityError)

  /** The returned line count and the frame the CSV is rewritten with, None when
      the CSV is left as it is. */
  datatype CsvOutcome = CsvOutcome(newLines: int, rewritten: Option<seq<Candle>>)

  /** The first frame: the saved rows, or an empty frame without a file. */
  function SavedRows(saved: Option<seq<RawCandle>>): seq<RawCandle>
  {
    if saved.Some? then saved.value else []
  }

  /** last_timestamp before the loop: the newest saved open time, 0 without a file,
      None when the saved frame has no open time. */
  function StartCursor(saved: Option<seq<RawCandle>>): (c: Option<int>)
    ensures saved.None? ==> c == Some(0)
    ensures saved.Some? ==> (c.None? <==> forall i :: 0 <= i < |saved.value| ==> saved.value[i].openTime.None?)
    ensures saved.Some? && c.Some? ==>
              && (exists i :: 0 <= i < |saved.value| && saved.value[i].openTime == c)
              && (forall i :: 0 <= i < |saved.value| && saved.value[i].openTime.Some? ==>
                    saved.value[i].openTime.value <= c.value)
  {
    if saved.Some? then MaxPresent(RawKeys(saved.value)) else Some(0)
  }

  /** No saved row opens after the starting cursor. */
  lemma SavedAtMostCursor(saved: Option<seq<RawCandle>>, cursor: int)
    requires StartCursor(saved) == Some(cursor)
    ensures var first := SavedRows(saved);
      forall i :: 0 <= i < |first| && first[i].openTime.Some? ==> first[i].openTime.value <= cursor
  {
  }

  /** The end of all_candles_to_csv: clean the concatenated frames with the cut-off
      at the start of today (quick_clean is taken to be clean_raw), and rewrite the
      CSV and return the change in line count only when a batch was appended after
      the saved frame. */
  function FinishCsv(batches: seq<Batch>, oldLines: nat, today: int): (r: Result<CsvOutcome, RunError>)
    ensures r.Success?
    ensures r.value.rewritten.None? <==> |batches| <= 1
    ensures r.value.rewritten.None? ==> r.value.newLines == 0
    ensures r.value.rewritten.Some? ==>
              && Distinct(OpenTimes(r.value.rewritten.value))
              && (forall j :: 0 <= j < |r.value.rewritten.value| ==> r.value.rewritten.value[j].openTime < today)
  {
    CleanRawOrder(Concat(batches), LimitToToday, today);
    match CleanRaw(Concat(batches), LimitToToday, today)
    case Failure(e) => assert false; Failure(Integrity(e))
    case Success(df) =>
      if |batches| > 1 then Success(CsvOutcome(|df| - oldLines, Some(df)))
      else Success(CsvOutcome(0, None))
  }

  /** What all_candles_to_csv computes. */
  ghost function CsvRun(saved: Option<seq<RawCandle>>, fetch: Fetch, horizon: int, today: int)
    : (r: Result<CsvOutcome, RunError>)
    requires Sound(fetch, horizon)
    ensures r.Failure? <==> StartCursor(saved).None?
    ensures r.Failure? ==> r.error == NoCursor
  {
    match StartCursor(saved)
    case None => Failure(NoCursor)
    case Some(cursor) =>
      FinishCsv([SavedRows(saved)] + Paginate(fetch, horizon, cursor, Some(today)), |SavedRows(saved)|, today)
  }

  lemma CsvRunUnfold(saved: Option<seq<RawCandle>>, fetch: Fetch, horizon: int, today: int, cursor: int)
    requires Sound(fetch, horizon) && StartCursor(saved) == Some(cursor)
    ensures CsvRun(saved, fetch, horizon, today)
            == FinishCsv([SavedRows(saved)] + Paginate(fetch, horizon, cursor, Some(today)), |SavedRows(saved)|, today)
  {
  }

  method AllCandlesToCsv(saved: Option<seq<RawCandle>>, fetch: Fetch, ghost horizon: int, today: int)
    returns (r: Result<CsvOutcome, RunError>)
    requires Sound(fetch, horizon)
    ensures r == CsvRun(saved, fetch, horizon, today)
  {
    var first: Batch;
    var lastTimestamp: Option<int>;
    if saved.Some? {
      first := saved.value;
      lastTimestamp := MaxPresent(RawKeys(first));
    } else {
      first := [];
      lastTimestamp := Some(0);
    }
    var oldLines := |first|;
    if lastTimestamp.None? {
      return Failure(NoCursor);
    }
    var batches := [first];
    var previous: Option<int> := None;
    var last := lastTimestamp.value;
    ghost var target := [first] + Paginate(fetch, horizon, last, Some(today));
    // Each round moves the cursor strictly up, so the loop ends through a break
    // and never through its guard.
    ghost var stopped := false;
    while previous != Some(last)
      invariant previous.Some? ==> previous.value < last
      invariant batches + Paginate(fetch, horizon, last, Some(today)) == target
      decreases horizon - last
    {
      if last >= today {
        PaginateStops(fetch, horizon, last, Some(today));
        stopped := true;
        break;
      }
      previous := Some(last);
      var newBatch := fetch(last + 1, BatchSize);
      if newBatch == [] {
        PaginateStops(fetch, horizon, last, Some(today));
        stopped := true;
        break;
      }
      PaginateCons(fetch, horizon, last, Some(today));
      last := BatchMax(newBatch).value;
      if previous == Some(last) {
        assert false;
        break;
      }
      ghost var rest := Paginate(fetch, horizon, last, Some(today));
      assert batches + ([newBatch] + rest) == target;
      assert (batches + [newBatch]) + rest == batches + ([newBatch] + rest);
      batches := batches + [newBatch];
    }
    if !stopped {
      assert false;
    }
    assert batches == target;
    CsvRunUnfold(saved, fetch, horizon, today, lastTimestamp.value);
    r := FinishCsv(batches, oldLines, today);
  }

  /** The saved rows, all at or before cursor, followed by fetched rows, all after
      it: cleaning the whole cleans each part, the saved part first. */
  lemma CleanSavedThenFetched(first: seq<RawCandle>, fetched: seq<RawCandle>, cursor: int, today: int)
    requires forall i :: 0 <= i < |first| && first[i].openTime.Some? ==> first[i].openTime.value <= cursor
    requires forall i :: 0 <= i < |fetched| ==> fetched[i].openTime.Some? && cursor < fetched[i].openTime.value
    ensures CleanRaw(first, LimitToToday, today).Success? && CleanRaw(fetched, LimitToToday, today).Success?
    ensures CleanRaw(first + fetched, LimitToToday, today)
            == Success(CleanRaw(first, LimitToToday, today).value + CleanRaw(fetched, LimitToToday, today).value)
    ensures forall j :: 0 <= j < |CleanRaw(first, LimitToToday, today).value| ==>
              CleanRaw(first, LimitToToday, today).value[j].openTime <= cursor
    ensures forall j :: 0 <= j < |CleanRaw(fetched, LimitToToday, today).value| ==>
              cursor < CleanRaw(fetched, LimitToToday, today).value[j].openTime < today
  {
    forall i, j | 0 <= i < |first| && 0 <= j < |fetched|
      ensures first[i].openTime != fetched[j].openTime
    {
    }
    CleanRawAppend(first, fetched, LimitToToday, today);
    CleanRawAtMost(first, LimitToToday, today, cursor);
    CleanRawAbove(fetched, LimitToToday, today, cursor);
    CleanRawOrder(fetched, LimitToToday, today);
  }

  lemma FinishCsvSplit(first: seq<RawCandle>, pages: seq<Batch>, cursor: int, today: int)
    requires forall i :: 0 <= i < |first| && first[i].openTime.Some? ==> first[i].openTime.value <= cursor
    requires var fetched := Concat(pages);
      forall i :: 0 <= i < |fetched| ==> fetched[i].openTime.Some? && cursor < fetched[i].openTime.value
    ensures CleanRaw(first, LimitToToday, today).Success? && CleanRaw(Concat(pages), LimitToToday, today).Success?
    ensures var r := FinishCsv([first] + pages, |first|, today);
      var df := CleanRaw(first, LimitToToday, today).value + CleanRaw(Concat(pages), LimitToToday, today).value;
      && r.Success?
      && r.value.rewritten == (if pages == [] then None else Some(df))
      && r.value.newLines == (if pages == [] then 0 else |df| - |first|)
  {
    ConcatAppend([first], pages);
    ConcatSingle(first);
    CleanSavedThenFetched(first, Concat(pages), cursor, today);
  }

  /** The frame all_candles_to_csv cleans is the saved frame followed by the fetched
      batches in fetch order. Because every fetched candle opens after the newest
      saved one, the cleaned frame is the cleaned saved rows followed by the cleaned
      fetched rows. Nothing is rewritten and 0 is returned when no batch was
      appended; otherwise the count is the cleaned length minus the saved length,
      which is negative when cleaning drops more saved rows than there are new
      ones. */
  lemma CsvRunSavedFirst(saved: Option<seq<RawCandle>>, fetch: Fetch, horizon: int, today: int,
                         cursor: int, pages: seq<Batch>)
    requires Sound(fetch, horizon) && StartCursor(saved) == Some(cursor)
    requires pages == Paginate(fetch, horizon, cursor, Some(today))
    ensures CleanRaw(SavedRows(saved), LimitToToday, today).Success?
    ensures CleanRaw(Concat(pages), LimitToToday, today).Success?
    ensures var r := CsvRun(saved, fetch, horizon, today);
      var df := CleanRaw(SavedRows(saved), LimitToToday, today).value + CleanRaw(Concat(pages), LimitToToday, today).value;
      && r.Success?
      && r.value.rewritten == (if pages == [] then None else Some(df))
      && r.value.newLines == (if pages == [] then 0 else |df| - |SavedRows(saved)|)
  {
    CsvRunUnfold(saved, fetch, horizon, today, cursor);
    FetchedAfter(fetch, horizon, cursor, Some(today));
    SavedAtMostCursor(saved, cursor);
    FinishCsvSplit(SavedRows(saved), pages, cursor, today);
  }

  /** A run fails exactly when the saved frame has no open time at all (an empty
      saved file included); clean_raw's integrity assertion never fails. */
  lemma CsvRunFails(saved: Option<seq<RawCandle>>, fetch: Fetch, horizon: int, today: int)
    requires Sound(fetch, horizon)
    ensures CsvRun(saved, fetch, horizon, today).Failure? <==>
              saved.Some? && forall i :: 0 <= i < |saved.value| ==> saved.value[i].openTime.None?
    ensures CsvRun(saved, fetch, horizon, today).Failure? ==> CsvRun(saved, fetch, horizon, today).error == NoCursor
  {
    var c := StartCursor(saved);
    if c.Some? {
      CsvRunSavedFirst(saved, fetch, horizon, today, c.value, Paginate(fetch, horizon, c.value, Some(today)));
    }
  }

  /** No request is made once the cursor is at or after the start of today, and a
      pair with nothing new upstream is left as it is: 0 lines, no rewrite. */
  lemma CsvRunUpToDate(saved: Option<seq<RawCandle>>, fetch: Fetch, horizon: int, today: int, cursor: int)
    requires Sound(fetch, horizon) && StartCursor(saved) == Some(cursor)
    requires cursor >= today || fetch(cursor + 1, BatchSize) == []
    ensures CsvRun(saved, fetch, horizon, today) == Success(CsvOutcome(0, None))
  {
    assert Paginate(fetch, horizon, cursor, Some(today)) == [];
    CsvRunSavedFirst(saved, fetch, horizon, today, cursor, []);
  }

  /** A rewritten CSV holds no open time twice and nothing from today on, and
      its saved part opens at or before the cursor, its new part after it. */
  lemma CsvRunFrame(saved: Option<seq<RawCandle>>, fetch: Fetch, horizon: int, today: int, cursor: int)
    requires Sound(fetch, horizon) && StartCursor(saved) == Some(cursor)
    ensures CsvRun(saved, fetch, horizon, today).Success?
    ensures CleanRaw(SavedRows(saved), LimitToToday, today).Success?
    ensures var r := CsvRun(saved, fetch, horizon, today).value;
      var kept := |CleanRaw(SavedRows(saved), LimitToToday, today).value|;
      r.rewritten.Some? ==>
        && kept <= |r.rewritten.value|
        && Distinct(OpenTimes(r.rewritten.value))
        && (forall j :: 0 <= j < |r.rewritten.value| ==> r.rewritten.value[j].openTime < today)
        && (forall j :: 0 <= j < kept ==> r.rewritten.value[j].openTime <= cursor)
        && (forall j :: kept <= j < |r.rewritten.value| ==> cursor < r.rewritten.value[j].openTime)
  {
    CsvRunSavedFirst(saved, fetch, horizon, today, cursor, Paginate(fetch, horizon, cursor, Some(today)));
    FetchedAfter(fetch, horizon, cursor, Some(today));
    SavedAtMostCursor(saved, cursor);
    CleanedFrame(SavedRows(saved), Concat(Paginate(fetch, horizon, cursor, Some(today))), cursor, today);
  }

  /** The cleaned saved rows followed by the cleaned fetched rows repeat no open
      time, end before today, and split at the cursor. */
  lemma CleanedFrame(first: seq<RawCandle>, fetched: seq<RawCandle>, cursor: int, today: int)
    requires forall i :: 0 <= i < |first| && first[i].openTime.Some? ==> first[i].openTime.value <= cursor
    requires forall i :: 0 <= i < |fetched| ==> fetched[i].openTime.Some? && cursor < fetched[i].openTime.value
    ensures CleanRaw(first, LimitToToday, today).Success? && CleanRaw(fetched, LimitToToday, today).Success?
    ensures var a := CleanRaw(first, LimitToToday, today).value;
      var df := a + CleanRaw(fetched, LimitToToday, today).value;
      && Distinct(OpenTimes(df))
      && (forall j :: 0 <= j < |df| ==> df[j].openTime < today)
      && (forall j :: 0 <= j < |a| ==> df[j].openTime <= cursor)
      && (forall j :: |a| <= j < |df| ==> cursor < df[j].openTime)
  {
    CleanSavedThenFetched(first, fetched, cursor, today);
    CleanRawOrder(first + fetched, LimitToToday, today);
    SplitFrame(CleanRaw(first, LimitToToday, today).value, CleanRaw(fetched, LimitToToday, today).value, cursor);
  }

  /** Candles at or before cursor followed by candles after it. */
  lemma SplitFrame(a: seq<Candle>, b: seq<Candle>, cursor: int)
    requires forall j :: 0 <= j < |a| ==> a[j].openTime <= cursor
    requires forall j :: 0 <= j < |b| ==> cursor < b[j].openTime
    ensures forall j :: 0 <= j < |a| ==> (a + b)[j].openTime <= cursor
    ensures forall j :: |a| <= j < |a + b| ==> cursor < (a + b)[j].openTime
  {
    forall j | |a| <= j < |a + b|
      ensures cursor < (a + b)[j].openTime
    {
      assert (a + b)[j] == b[j - |a|];
    }
  }
}
