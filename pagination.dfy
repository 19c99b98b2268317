/** The cursor loop of gather_new_candles (fetch_candlesticks.py) and of
    all_candles_to_csv (main.py), as a specification over an abstract upstream:
    request from cursor + 1, stop on an empty response or on a response whose
    newest open time is the cursor itself, otherwise keep the response and move
    the cursor to its newest open time. main.py's variant also stops, before
    requesting, once the cursor has reached the start of today. */
module Pagination {
  import opened Seqs
  import opened Candles

  /** The klines request with startTime and limit: the rows of the response, or the
      empty frame that a non-200 response becomes. The retries after connection
      errors happen inside the request and are not visible here. */
  type Fetch = (int, nat) -> Batch

  /** What the loop's termination rests on: every candle of every response has an
      open time, at or after the requested start and at or before horizon, the
      newest open time upstream has. */
  ghost predicate Sound(fetch: Fetch, horizon: int)
  {
    forall start: int, limit: nat, x: RawCandle :: x in fetch(start, limit) ==>
      x.openTime.Some? && start <= x.openTime.value <= horizon
  }

  /** new_batch["open_time"].max() */
  function BatchMax(b: Batch): Option<int>
  {
    MaxPresent(RawKeys(b))
  }

  lemma SoundBatch(fetch: Fetch, horizon: int, start: int, limit: nat)
    requires Sound(fetch, horizon)
    ensures forall x :: x in fetch(start, limit) ==> x.openTime.Some? && start <= x.openTime.value <= horizon
    ensures fetch(start, limit) != [] ==>
              BatchMax(fetch(start, limit)).Some? && start <= BatchMax(fetch(start, limit)).value <= horizon
  {
    var b := fetch(start, limit);
    if b != [] {
      assert b[0] in b;
      assert RawKeys(b)[0].Some?;
      var m := BatchMax(b);
      var i :| 0 <= i < |b| && RawKeys(b)[i] == m;
      assert b[i] in b;
    }
  }

  /** The batches the loop appends, in order, starting from cursor. With
      until = Some(today) the loop stops, before requesting, once the cursor is at
      or after today. The branch "newest open time equals the cursor" mirrors the
      source; under Sound it is never taken. */
  ghost function Paginate(fetch: Fetch, horizon: int, cursor: int, until: Option<int>): (pages: seq<Batch>)
    requires Sound(fetch, horizon)
    ensures forall i :: 0 <= i < |pages| ==> pages[i] != []
    decreases horizon - cursor
  {
    if until.Some? && cursor >= until.value then []
    else
      var batch := fetch(cursor + 1, BatchSize);
      if batch == [] then []
      else
        SoundBatch(fetch, horizon, cursor + 1, BatchSize);
        var last := BatchMax(batch).value;
        if last == cursor then [] else [batch] + Paginate(fetch, horizon, last, until)
  }

  /** One round of the loop: a non-empty result starts with the response to the
      request from cursor + 1, whose candles all open after the cursor, and goes on
      from that response's newest open time. */
  lemma PaginateStep(fetch: Fetch, horizon: int, cursor: int, until: Option<int>)
    requires Sound(fetch, horizon)
    requires Paginate(fetch, horizon, cursor, until) != []
    ensures until.Some? ==> cursor < until.value
    ensures fetch(cursor + 1, BatchSize) != []
    ensures BatchMax(fetch(cursor + 1, BatchSize)).Some?
    ensures cursor < BatchMax(fetch(cursor + 1, BatchSize)).value <= horizon
    ensures forall x :: x in fetch(cursor + 1, BatchSize) ==> x.openTime.Some? && cursor < x.openTime.value
    ensures Paginate(fetch, horizon, cursor, until)
            == [fetch(cursor + 1, BatchSize)]
               + Paginate(fetch, horizon, BatchMax(fetch(cursor + 1, BatchSize)).value, until)
  {
    SoundBatch(fetch, horizon, cursor + 1, BatchSize);
  }

  /** The loop stops: before requesting once the cursor reaches until, or on an
      empty response. */
  lemma PaginateStops(fetch: Fetch, horizon: int, cursor: int, until: Option<int>)
    requires Sound(fetch, horizon)
    requires (until.Some? && cursor >= until.value) || fetch(cursor + 1, BatchSize) == []
    ensures Paginate(fetch, horizon, cursor, until) == []
  {
  }

  /** The loop goes on: a non-empty response is kept and the cursor moves up to its
      newest open time. */
  lemma PaginateCons(fetch: Fetch, horizon: int, cursor: int, until: Option<int>)
    requires Sound(fetch, horizon)
    requires until.Some? ==> cursor < until.value
    requires fetch(cursor + 1, BatchSize) != []
    ensures BatchMax(fetch(cursor + 1, BatchSize)).Some?
    ensures cursor < BatchMax(fetch(cursor + 1, BatchSize)).value
    ensures Paginate(fetch, horizon, cursor, until)
            == [fetch(cursor + 1, BatchSize)]
               + Paginate(fetch, horizon, BatchMax(fetch(cursor + 1, BatchSize)).value, until)
  {
    SoundBatch(fetch, horizon, cursor + 1, BatchSize);
  }

  /** The cursor before the request that produced pages[i]: the starting cursor,
      then the newest open time of the previous page. */
  function CursorAt(pages: seq<Batch>, cursor: int, i: nat): int
    requires i <= |pages|
  {
    if i == 0 then cursor
    else match BatchMax(pages[i - 1])
      case Some(m) => m
      case None => cursor
  }

  /** Page i is non-empty and is the answer to the request from the cursor before
      it + 1 with limit BATCH_SIZE, that cursor was before until, and the page moves
      the cursor strictly up to its own newest open time. */
  ghost predicate RequestAt(fetch: Fetch, pages: seq<Batch>, cursor: int, until: Option<int>, i: nat)
    requires i < |pages|
  {
    && pages[i] != []
    && pages[i] == fetch(CursorAt(pages, cursor, i) + 1, BatchSize)
    && BatchMax(pages[i]).Some?
    && CursorAt(pages, cursor, i) < CursorAt(pages, cursor, i + 1) == BatchMax(pages[i]).value
    && (until.Some? ==> CursorAt(pages, cursor, i) < until.value)
  }

  lemma CursorShift(batch: Batch, rest: seq<Batch>, cursor: int, j: nat)
    requires BatchMax(batch).Some? && j <= |rest|
    requires j > 0 ==> BatchMax(rest[j - 1]).Some?
    ensures CursorAt([batch] + rest, cursor, j + 1) == CursorAt(rest, BatchMax(batch).value, j)
  {
    assert ([batch] + rest)[0] == batch;
    if j > 0 {
      assert ([batch] + rest)[j] == rest[j - 1];
    }
  }

  /** Page i + 1 of [batch] + rest is page i of rest, asked from the same cursor. */
  lemma RequestConsAt(fetch: Fetch, batch: Batch, rest: seq<Batch>, cursor: int, until: Option<int>, i: nat)
    requires BatchMax(batch).Some? && i < |rest|
    requires RequestAt(fetch, rest, BatchMax(batch).value, until, i)
    requires i > 0 ==> RequestAt(fetch, rest, BatchMax(batch).value, until, i - 1)
    ensures RequestAt(fetch, [batch] + rest, cursor, until, i + 1)
  {
    var last := BatchMax(batch).value;
    CursorShift(batch, rest, cursor, i);
    CursorShift(batch, rest, cursor, i + 1);
    assert ([batch] + rest)[i + 1] == rest[i];
  }

  /** Putting the answer to the request from cursor + 1 in front of pages that
      answer the requests from its newest open time on. */
  lemma RequestsCons(fetch: Fetch, batch: Batch, rest: seq<Batch>, cursor: int, until: Option<int>)
    requires batch != [] && batch == fetch(cursor + 1, BatchSize)
    requires BatchMax(batch).Some? && cursor < BatchMax(batch).value
    requires until.Some? ==> cursor < until.value
    requires forall i :: 0 <= i < |rest| ==> RequestAt(fetch, rest, BatchMax(batch).value, until, i)
    ensures forall i :: 0 <= i < |[batch] + rest| ==> RequestAt(fetch, [batch] + rest, cursor, until, i)
  {
    var pages := [batch] + rest;
    forall i | 0 <= i < |pages|
      ensures RequestAt(fetch, pages, cursor, until, i)
    {
      if i == 0 {
        assert pages[0] == batch;
        assert CursorAt(pages, cursor, 1) == BatchMax(batch).value;
      } else {
        RequestConsAt(fetch, batch, rest, cursor, until, i - 1);
      }
    }
  }

  /** Every appended page answers the request made from the cursor the previous
      page left, the cursor strictly increases, and with until every request was
      made with the cursor before it. */
  lemma {:induction false} PaginateRequests(fetch: Fetch, horizon: int, cursor: int, until: Option<int>)
    requires Sound(fetch, horizon)
    ensures var pages := Paginate(fetch, horizon, cursor, until);
      forall i :: 0 <= i < |pages| ==> RequestAt(fetch, pages, cursor, until, i)
    decreases horizon - cursor
  {
    if Paginate(fetch, horizon, cursor, until) != [] {
      PaginateStep(fetch, horizon, cursor, until);
      var batch := fetch(cursor + 1, BatchSize);
      var last := BatchMax(batch).value;
      PaginateRequests(fetch, horizon, last, until);
      RequestsCons(fetch, batch, Paginate(fetch, horizon, last, until), cursor, until);
    }
  }

  /** Every candle of every page opens strictly after cursor. */
  ghost predicate AllAfter(pages: seq<Batch>, cursor: int)
  {
    forall j, x :: 0 <= j < |pages| && x in pages[j] ==> x.openTime.Some? && cursor < x.openTime.value
  }

  /** Every candle of a page opens after the newest candle of every earlier page. */
  ghost predicate PagesIncrease(pages: seq<Batch>)
  {
    forall i, j, x :: 0 <= i < j < |pages| && x in pages[j] ==>
      BatchMax(pages[i]).Some? && x.openTime.Some? && BatchMax(pages[i]).value < x.openTime.value
  }

  lemma AllAfterCons(batch: Batch, rest: seq<Batch>, cursor: int, last: int)
    requires forall x :: x in batch ==> x.openTime.Some? && cursor < x.openTime.value
    requires cursor < last && AllAfter(rest, last)
    ensures AllAfter([batch] + rest, cursor)
  {
    var pages := [batch] + rest;
    forall j, x: RawCandle | 0 <= j < |pages| && x in pages[j]
      ensures x.openTime.Some? && cursor < x.openTime.value
    {
      if j > 0 {
        assert pages[j] == rest[j - 1];
      } else {
        assert pages[0] == batch;
      }
    }
  }

  lemma PagesIncreaseAt(pages: seq<Batch>, i: int, j: int, x: RawCandle)
    requires PagesIncrease(pages) && 0 <= i < j < |pages| && x in pages[j]
    ensures BatchMax(pages[i]).Some? && x.openTime.Some? && BatchMax(pages[i]).value < x.openTime.value
  {
  }

  lemma AllAfterAt(pages: seq<Batch>, cursor: int, j: int, x: RawCandle)
    requires AllAfter(pages, cursor) && 0 <= j < |pages| && x in pages[j]
    ensures x.openTime.Some? && cursor < x.openTime.value
  {
  }

  lemma PagesIncreaseCons(batch: Batch, rest: seq<Batch>)
    requires BatchMax(batch).Some?
    requires AllAfter(rest, BatchMax(batch).value) && PagesIncrease(rest)
    ensures PagesIncrease([batch] + rest)
  {
    var pages := [batch] + rest;
    forall i, j, x: RawCandle | 0 <= i < j < |pages| && x in pages[j]
      ensures BatchMax(pages[i]).Some? && x.openTime.Some? && BatchMax(pages[i]).value < x.openTime.value
    {
      assert pages[j] == rest[j - 1];
      if i > 0 {
        assert pages[i] == rest[i - 1];
        PagesIncreaseAt(rest, i - 1, j - 1, x);
      } else {
        assert pages[0] == batch;
        AllAfterAt(rest, BatchMax(batch).value, j - 1, x);
      }
    }
    assert PagesIncrease(pages);
  }

  /** Every candle of every appended page opens strictly after the starting cursor. */
  lemma {:induction false} PaginateAbove(fetch: Fetch, horizon: int, cursor: int, until: Option<int>)
    requires Sound(fetch, horizon)
    ensures AllAfter(Paginate(fetch, horizon, cursor, until), cursor)
    decreases horizon - cursor
  {
    if Paginate(fetch, horizon, cursor, until) != [] {
      PaginateStep(fetch, horizon, cursor, until);
      var batch := fetch(cursor + 1, BatchSize);
      var last := BatchMax(batch).value;
      PaginateAbove(fetch, horizon, last, until);
      AllAfterCons(batch, Paginate(fetch, horizon, last, until), cursor, last);
    }
  }

  /** Every candle of the concatenated pages opens after the starting cursor. */
  lemma FetchedAfter(fetch: Fetch, horizon: int, cursor: int, until: Option<int>)
    requires Sound(fetch, horizon)
    ensures var raw := Concat(Paginate(fetch, horizon, cursor, until));
      forall i :: 0 <= i < |raw| ==> raw[i].openTime.Some? && cursor < raw[i].openTime.value
  {
    var pages := Paginate(fetch, horizon, cursor, until);
    PaginateAbove(fetch, horizon, cursor, until);
    ConcatMembers(pages);
    var raw := Concat(pages);
    forall i | 0 <= i < |raw|
      ensures raw[i].openTime.Some? && cursor < raw[i].openTime.value
    {
      assert raw[i] in raw;
      var j :| 0 <= j < |pages| && raw[i] in pages[j];
    }
  }

  /** Each appended page's candles all open after the newest candle of every
      earlier page; in particular no open time is fetched twice. */
  lemma {:induction false} PaginateIncreasing(fetch: Fetch, horizon: int, cursor: int, until: Option<int>)
    requires Sound(fetch, horizon)
    ensures PagesIncrease(Paginate(fetch, horizon, cursor, until))
    decreases horizon - cursor
  {
    if Paginate(fetch, horizon, cursor, until) != [] {
      PaginateStep(fetch, horizon, cursor, until);
      var batch := fetch(cursor + 1, BatchSize);
      var last := BatchMax(batch).value;
      PaginateIncreasing(fetch, horizon, last, until);
      PaginateAbove(fetch, horizon, last, until);
      PagesIncreaseCons(batch, Paginate(fetch, horizon, last, until));
    }
  }

  /** The loop ends: each appended page moves the cursor up by at least one, and
      never past horizon. */
  lemma {:induction false} PaginateBound(fetch: Fetch, horizon: int, cursor: int, until: Option<int>)
    requires Sound(fetch, horizon)
    ensures |Paginate(fetch, horizon, cursor, until)| <= if cursor < horizon then horizon - cursor else 0
    decreases horizon - cursor
  {
    var pages := Paginate(fetch, horizon, cursor, until);
    if pages != [] {
      PaginateStep(fetch, horizon, cursor, until);
      PaginateBound(fetch, horizon, BatchMax(fetch(cursor + 1, BatchSize)).value, until);
    }
  }

  /** main.py's variant fetches a prefix of what fetch_candlesticks.py's fetches
      from the same cursor. */
  lemma {:induction false} PaginateUntilIsPrefix(fetch: Fetch, horizon: int, cursor: int, today: int)
    requires Sound(fetch, horizon)
    ensures Paginate(fetch, horizon, cursor, Some(today)) <= Paginate(fetch, horizon, cursor, None)
    decreases horizon - cursor
  {
    if cursor < today {
      var batch := fetch(cursor + 1, BatchSize);
      if batch != [] {
        SoundBatch(fetch, horizon, cursor + 1, BatchSize);
        var last := BatchMax(batch).value;
        PaginateUntilIsPrefix(fetch, horizon, last, today);
      }
    }
  }

  // ---------------------------------------------------------------------------
  // An upstream that serves a sorted history

  function AtOrAfter(start: int): RawCandle -> bool
  {
    (c: RawCandle) => c.openTime.Some? && c.openTime.value >= start
  }

  /** The candles of h that open at or after start. */
  function Since(h: seq<RawCandle>, start: int): seq<RawCandle>
  {
    Filter(h, AtOrAfter(start))
  }

  /** The exchange serving the history h: the first limit candles at or after the
      requested start. */
  function HistoryFetch(h: seq<RawCandle>): Fetch
  {
    (start: int, limit: nat) => Take(Since(h, start), limit)
  }

  lemma HistoryFetchAt(h: seq<RawCandle>, start: int, limit: nat)
    ensures HistoryFetch(h)(start, limit) == Take(Since(h, start), limit)
  {
  }

  /** h's open times strictly increase and none is after horizon. */
  ghost predicate History(h: seq<RawCandle>, horizon: int)
  {
    Ascending(RawKeys(h)) && forall i :: 0 <= i < |h| ==> h[i].openTime.value <= horizon
  }

  lemma SinceSpec(h: seq<RawCandle>, start: int)
    requires Ascending(RawKeys(h))
    ensures Ascending(RawKeys(Since(h, start)))
    ensures forall x :: x in Since(h, start) <==> x in h && x.openTime.Some? && x.openTime.value >= start
  {
    FilterSpec(h, AtOrAfter(start));
    SubsequenceMap(Since(h, start), h, RawKey);
    SubsequenceAscending(RawKeys(Since(h, start)), RawKeys(h));
  }

  lemma HistorySound(h: seq<RawCandle>, horizon: int)
    requires History(h, horizon)
    ensures Sound(HistoryFetch(h), horizon)
  {
    forall start: int, limit: nat, i: int | 0 <= i < |HistoryFetch(h)(start, limit)|
      ensures HistoryFetch(h)(start, limit)[i].openTime.Some?
      ensures start <= HistoryFetch(h)(start, limit)[i].openTime.value <= horizon
    {
      SinceSpec(h, start);
      var b := Take(Since(h, start), limit);
      assert HistoryFetch(h)(start, limit) == b;
      assert b[i] in Since(h, start);
      var k :| 0 <= k < |h| && h[k] == b[i];
    }
  }

  /** In ascending keys the newest is the last one. */
  lemma AscendingMax(ks: seq<Option<int>>)
    requires Ascending(ks) && ks != []
    ensures MaxPresent(ks) == Last(ks)
  {
    var m := MaxPresent(ks);
    assert ks[0].Some?;
    var j :| 0 <= j < |ks| && ks[j] == m;
    assert ks[|ks| - 1].value <= m.value;
  }

  /** The newest candle of the first k of an ascending frame is the k-th. */
  lemma PrefixMax(s: seq<RawCandle>, k: nat)
    requires Ascending(RawKeys(s)) && 0 < k <= |s|
    ensures BatchMax(s[..k]) == s[k - 1].openTime
  {
    var ks := RawKeys(s[..k]);
    assert ks == RawKeys(s)[..k];
    assert Ascending(ks);
    AscendingMax(ks);
  }

  lemma SinceSkipsPrefix(s: seq<RawCandle>, k: nat, m: int)
    requires Ascending(RawKeys(s)) && 0 < k <= |s| && s[k - 1].openTime == Some(m)
    ensures Since(s[..k], m + 1) == []
  {
    forall i | 0 <= i < k
      ensures !AtOrAfter(m + 1)(s[..k][i])
    {
      assert RawKeys(s)[i] == s[i].openTime;
      assert RawKeys(s)[k - 1] == s[k - 1].openTime;
    }
    FilterDropsAll(s[..k], AtOrAfter(m + 1));
  }

  lemma SinceKeepsSuffix(s: seq<RawCandle>, k: nat, m: int)
    requires Ascending(RawKeys(s)) && 0 < k <= |s| && s[k - 1].openTime == Some(m)
    ensures Since(s[k..], m + 1) == s[k..]
  {
    forall i | 0 <= i < |s| - k
      ensures AtOrAfter(m + 1)(s[k..][i])
    {
      assert RawKeys(s)[k + i] == s[k + i].openTime;
      assert RawKeys(s)[k - 1] == s[k - 1].openTime;
    }
    FilterKeepsAll(s[k..], AtOrAfter(m + 1));
  }

  /** In an ascending frame, the candles after the k-th are the rest of the frame. */
  lemma SinceAfterPrefix(s: seq<RawCandle>, k: nat, m: int)
    requires Ascending(RawKeys(s)) && 0 < k <= |s| && s[k - 1].openTime == Some(m)
    ensures Since(s, m + 1) == s[k..]
  {
    assert s == s[..k] + s[k..];
    FilterAppend(s[..k], s[k..], AtOrAfter(m + 1));
    SinceSkipsPrefix(s, k, m);
    SinceKeepsSuffix(s, k, m);
    assert [] + s[k..] == s[k..];
  }

  /** The first limit candles of an ascending frame whose candles all open after
      cursor: a non-empty prefix whose newest candle is its last, after cursor, and
      the candles after that one are the rest of the frame. */
  lemma TakeStep(s: seq<RawCandle>, cursor: int) returns (k: nat, last: int)
    requires Ascending(RawKeys(s)) && s != []
    requires forall x :: x in s ==> x.openTime.Some? && x.openTime.value >= cursor + 1
    ensures 0 < k <= |s| && k == (if |s| < BatchSize then |s| else BatchSize)
    ensures Take(s, BatchSize) == s[..k]
    ensures BatchMax(s[..k]) == Some(last)
    ensures cursor < last
    ensures Since(s, last + 1) == s[k..]
  {
    k := |Take(s, BatchSize)|;
    PrefixMax(s, k);
    assert s[k - 1] in s;
    last := s[k - 1].openTime.value;
    SinceAfterPrefix(s, k, last);
  }

  /** Candles at or after a later start, taken from the candles at or after an
      earlier one, are those of the whole history. */
  lemma SinceSince(h: seq<RawCandle>, start: int, later: int)
    requires start <= later
    ensures Since(Since(h, start), later) == Since(h, later)
  {
    FilterFilter(h, AtOrAfter(start), AtOrAfter(later));
  }

  /** One request against a sorted history: the answer is the first k candles after
      the cursor, and the candles after its newest one are the remaining ones. */
  lemma HistoryStep(h: seq<RawCandle>, cursor: int) returns (k: nat, last: int)
    requires Ascending(RawKeys(h)) && Since(h, cursor + 1) != []
    ensures var s := Since(h, cursor + 1);
      var batch := HistoryFetch(h)(cursor + 1, BatchSize);
      && 0 < k <= |s|
      && |batch| == k
      && batch == s[..k]
      && k == (if |s| < BatchSize then |s| else BatchSize)
      && BatchMax(batch) == Some(last)
      && cursor < last
      && Since(h, last + 1) == s[k..]
  {
    var s := Since(h, cursor + 1);
    SinceSpec(h, cursor + 1);
    k, last := TakeStep(s, cursor);
    SinceSince(h, cursor + 1, last + 1);
    HistoryFetchAt(h, cursor + 1, BatchSize);
    var batch := HistoryFetch(h)(cursor + 1, BatchSize);
    assert batch == s[..k];
    assert BatchMax(batch) == Some(last);
    assert Since(s, last + 1) == s[k..];
    assert Since(h, last + 1) == s[k..];
  }

  /** The first page of a sorted history followed by the pages of the rest. */
  lemma HistoryCons(batch: Batch, rest: seq<Batch>, s: seq<RawCandle>, k: nat)
    requires 0 < k <= |s| && k == (if |s| < BatchSize then |s| else BatchSize) && batch == s[..k]
    requires Concat(rest) == s[k..] && |rest| == (|s[k..]| + BatchSize - 1) / BatchSize
    ensures Concat([batch] + rest) == s
    ensures |[batch] + rest| == (|s| + BatchSize - 1) / BatchSize
  {
    ConcatAppend([batch], rest);
    assert Concat([batch]) == batch by {
      assert Init([batch]) == [];
    }
    assert s == s[..k] + s[k..];
  }

  /** Against a sorted history the loop is complete and as short as it can be: the
      appended pages are, concatenated, exactly the candles after the cursor, and
      there are ceil(n / BATCH_SIZE) of them for n such candles (one more request,
      the empty one, ends the loop). */
  lemma {:induction false} PaginateHistory(h: seq<RawCandle>, horizon: int, cursor: int)
    requires History(h, horizon)
    ensures Sound(HistoryFetch(h), horizon)
    ensures Concat(Paginate(HistoryFetch(h), horizon, cursor, None)) == Since(h, cursor + 1)
    ensures |Paginate(HistoryFetch(h), horizon, cursor, None)|
            == (|Since(h, cursor + 1)| + BatchSize - 1) / BatchSize
    decreases horizon - cursor
  {
    HistorySound(h, horizon);
    var fetch := HistoryFetch(h);
    var s := Since(h, cursor + 1);
    var batch := fetch(cursor + 1, BatchSize);
    var pages := Paginate(fetch, horizon, cursor, None);
    if s == [] {
      assert batch == Take(s, BatchSize) == [];
      assert pages == [];
    } else {
      var k, last := HistoryStep(h, cursor);
      var rest := Paginate(fetch, horizon, last, None);
      assert pages == [batch] + rest;
      PaginateHistory(h, horizon, last);
      HistoryCons(batch, rest, s, k);
    }
  }
}
