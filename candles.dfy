/** The records the engine moves around, at their three stages: a kline as the
    exchange returns it, a row once the transport-only columns are dropped, and a
    stored candle indexed by its open time. Missing cells (NaN in a frame) are
    None. */
module Candles {
  import opened Seqs

  datatype Option<+T> = None | Some(value: T)

  datatype Result<+T, +E> = Success(value: T) | Failure(error: E)

  datatype Outcome<+E> = Pass | Fail(error: E)

  /** One numeric cell; None is a missing value. The numeric type is left abstract. */
  type Cell = Option<int>

  /** One kline in the exchange's column order: open_time, the nine numeric columns
      open .. taker_buy_quote_asset_volume (kept opaque in fields, in order, without
      close_time), close_time and the trailing ignore field. Times are in ms. */
  datatype RawCandle = RawCandle(openTime: Option<int>, closeTime: Option<int>, fields: seq<Cell>, ignore: Cell)

  /** A row after close_time and ignore are dropped. */
  datatype Row = Row(openTime: Option<int>, fields: seq<Cell>)

  /** A stored candle: the open time in ms is the index of the stored frame. */
  datatype Candle = Candle(openTime: int, fields: seq<Cell>)

  /** One response of the klines endpoint, or one frame read from disk. */
  type Batch = seq<RawCandle>

  /** Candles requested per call (BATCH_SIZE). */
  const BatchSize: nat := 1000

  /** close_time - open_time of a complete one-minute candle, in ms. */
  const CandleSpan: int := 59999

  function RawKey(c: RawCandle): Option<int> { c.openTime }

  function RowKey(r: Row): Option<int> { r.openTime }

  function CandleKey(c: Candle): Option<int> { Some(c.openTime) }

  /** The open_time column of a raw frame. */
  function RawKeys(s: seq<RawCandle>): seq<Option<int>> { Map(s, RawKey) }

  function RowKeys(s: seq<Row>): seq<Option<int>> { Map(s, RowKey) }

  /** The index of a stored frame, as keys comparable with the raw ones. */
  function OpenTimes(s: seq<Candle>): seq<Option<int>> { Map(s, CandleKey) }

  /** The largest present key, skipping missing ones as pandas' max does;
      None when no key is present (pandas gives NaN). */
  function MaxPresent(ks: seq<Option<int>>): (m: Option<int>)
    ensures m.None? <==> forall i :: 0 <= i < |ks| ==> ks[i].None?
    ensures m.Some? ==> m in ks
    ensures m.Some? ==> forall i :: 0 <= i < |ks| && ks[i].Some? ==> ks[i].value <= m.value
    decreases |ks|
  {
    if ks == [] then None
    else
      var rest := MaxPresent(Init(ks));
      match Last(ks)
      case None => rest
      case Some(k) => if rest.Some? && rest.value > k then rest else Some(k)
  }

  /** Every key present and the keys strictly increasing: sorted with no duplicates. */
  predicate Ascending(ks: seq<Option<int>>)
  {
    && (forall i :: 0 <= i < |ks| ==> ks[i].Some?)
    && (forall i, j :: 0 <= i < j < |ks| ==> ks[i].value < ks[j].value)
  }

  lemma {:induction false} SubsequenceAscending(a: seq<Option<int>>, b: seq<Option<int>>)
    requires IsSubsequence(a, b) && Ascending(b)
    ensures Ascending(a)
    decreases |b|
  {
    SubsequenceMembers(a, b);
    if b != [] {
      if IsSubsequence(a, Init(b)) {
        SubsequenceAscending(a, Init(b));
      } else {
        SubsequenceAscending(Init(a), Init(b));
        SubsequenceMembers(Init(a), Init(b));
        forall i | 0 <= i < |a| - 1
          ensures a[i].value < Last(a).value
        {
          assert a[i] in Init(b);
        }
      }
    }
  }
}
