/** The cleaning pipeline of preprocessing.py: drop duplicate open times keeping
    the first row, keep complete one-minute candles, drop close_time and ignore,
    check integrity, index by open time and optionally cut off the current day;
    then the merge with what is already stored. */
module Preprocessing {
  import opened Seqs
  import opened Candles

  /** The two assertions of assert_integrity. */
  datatype IntegrityError = EmptyRow | DuplicateOpenTime

  /** Series.duplicated() with keep='first': row i repeats the open time of an
      earlier row (two missing open times count as equal, as in pandas). */
  predicate IsDuplicated(s: seq<RawCandle>, i: int)
    requires 0 <= i < |s|
  {
    exists j :: 0 <= j < i && s[j].openTime == s[i].openTime
  }

  /** duplicated().sum() > 0 */
  predicate HasDuplicates(s: seq<RawCandle>)
  {
    exists i :: 0 <= i < |s| && IsDuplicated(s, i)
  }

  /** df[df['open_time'].duplicated() == False] */
  function DropDuplicates(s: seq<RawCandle>): (r: seq<RawCandle>)
    ensures |r| <= |s|
    ensures s != [] ==> r != [] && r[0] == s[0]
    decreases |s|
  {
    if s == [] then []
    else DropDuplicates(Init(s)) + (if IsDuplicated(s, |s| - 1) then [] else [Last(s)])
  }

  /** The filter keeps a row when not (open_time - close_time != -59999). A missing
      value makes the difference NaN, which is != -59999, so the row goes. */
  predicate IsComplete(c: RawCandle)
  {
    c.openTime.Some? && c.closeTime.Some? && c.openTime.value - c.closeTime.value == -CandleSpan
  }

  /** df.drop(['close_time', 'ignore'], axis=1) on one row. */
  function DropColumns(c: RawCandle): Row
  {
    Row(c.openTime, c.fields)
  }

  /** A row whose every cell, open_time included, is missing. */
  predicate IsEmptyRow(r: Row)
  {
    r.openTime.None? && forall k :: 0 <= k < |r.fields| ==> r.fields[k].None?
  }

  /** assert_integrity: the first assertion fails on an entirely empty row, the
      second on a repeated open time. */
  function AssertIntegrity(rows: seq<Row>): (o: Outcome<IntegrityError>)
    ensures o == Pass <==>
              && (forall i :: 0 <= i < |rows| ==> rows[i].openTime.Some? || exists k :: 0 <= k < |rows[i].fields| && rows[i].fields[k].Some?)
              && (forall i, j :: 0 <= i < j < |rows| ==> rows[i].openTime != rows[j].openTime)
    ensures o == Fail(EmptyRow) <==> exists i :: 0 <= i < |rows| && rows[i].openTime.None? && forall k :: 0 <= k < |rows[i].fields| ==> rows[i].fields[k].None?
  {
    if exists i :: 0 <= i < |rows| && IsEmptyRow(rows[i]) then Fail(EmptyRow)
    else if !Distinct(RowKeys(rows)) then Fail(DuplicateOpenTime)
    else Pass
  }

  /** set_dtypes_compressed: open_time becomes the index of the frame. The cells
      pass through unchanged (the float32 and uint16 casts are not modelled). */
  function SetDtypes(rows: seq<Row>): (r: seq<Candle>)
    requires forall i :: 0 <= i < |rows| ==> rows[i].openTime.Some?
    ensures OpenTimes(r) == RowKeys(rows)
  {
    seq(|rows|, i requires 0 <= i < |rows| => Candle(rows[i].openTime.value, rows[i].fields))
  }

  function BeforeDay(today: int): Candle -> bool
  {
    (c: Candle) => c.openTime < today
  }

  /** df[df.index < str(date.today())] when limit_to_today; today is the start of
      the current day in ms. */
  function TrimToToday(cs: seq<Candle>, limitToToday: bool, today: int): seq<Candle>
  {
    if limitToToday then Filter(cs, BeforeDay(today)) else cs
  }

  /** clean_raw. The sort_values call of the source discards its result, so no
      step here reorders rows. */
  function CleanRaw(raw: seq<RawCandle>, limitToToday: bool, today: int): (r: Result<seq<Candle>, IntegrityError>)
    ensures r.Success?
    ensures |r.value| <= |raw|
  {
    var deduped := if HasDuplicates(raw) then DropDuplicates(raw) else raw;
    var complete := Filter(deduped, IsComplete);
    var rows := Map(complete, DropColumns);
    DedupStep(raw);
    CompleteRowsSpec(raw);
    CompleteRowsHaveKeys(deduped);
    assert RowKeys(rows) == RawKeys(complete);
    FilterSpec(deduped, IsComplete);
    match AssertIntegrity(rows)
    case Fail(e) => assert false; Failure(e)
    case Pass =>
      FilterSpec(SetDtypes(rows), BeforeDay(today));
      Success(TrimToToday(SetDtypes(rows), limitToToday, today))
  }

  /** write_raw_to_parquet: clean the new rows; with append and an existing file,
      the written frame is the stored rows followed by the cleaned ones. */
  function WriteRawToParquet(raw: seq<RawCandle>, limitToToday: bool, append: bool,
                             stored: Option<seq<Candle>>, today: int): (r: Result<seq<Candle>, IntegrityError>)
    ensures r.Success?
    ensures var kept := if append && stored.Some? then stored.value else [];
      && |r.value| == |kept| + |CleanRaw(raw, limitToToday, today).value|
      && r.value[..|kept|] == kept
      && r.value[|kept|..] == CleanRaw(raw, limitToToday, today).value
  {
    match CleanRaw(raw, limitToToday, today)
    case Failure(e) => assert false; Failure(e)
    case Success(cleaned) =>
      Success(if append && stored.Some? then stored.value + cleaned else cleaned)
  }

  lemma CompleteRowsHaveKeys(s: seq<RawCandle>)
    ensures forall i :: 0 <= i < |Filter(s, IsComplete)| ==> Filter(s, IsComplete)[i].openTime.Some?
    ensures forall i :: 0 <= i < |Filter(s, IsComplete)| ==> Map(Filter(s, IsComplete), DropColumns)[i].openTime.Some?
  {
    FilterSpec(s, IsComplete);
    forall i | 0 <= i < |Filter(s, IsComplete)|
      ensures Filter(s, IsComplete)[i].openTime.Some?
    {
      assert Filter(s, IsComplete)[i] in Filter(s, IsComplete);
    }
  }

  // ---------------------------------------------------------------------------
  // Dropping duplicates

  lemma DuplicatedInPrefix(s: seq<RawCandle>, n: nat)
    requires n <= |s|
    ensures forall i :: 0 <= i < n ==> (IsDuplicated(s, i) <==> IsDuplicated(s[..n], i))
  {
    forall i | 0 <= i < n
      ensures IsDuplicated(s, i) <==> IsDuplicated(s[..n], i)
    {
      if IsDuplicated(s, i) {
        var j :| 0 <= j < i && s[j].openTime == s[i].openTime;
        assert s[..n][j] == s[j];
      }
      if IsDuplicated(s[..n], i) {
        var j :| 0 <= j < i && s[..n][j].openTime == s[..n][i].openTime;
        assert s[j] == s[..n][j];
      }
    }
  }

  lemma {:induction false} DropDuplicatesSubsequence(s: seq<RawCandle>)
    ensures IsSubsequence(DropDuplicates(s), s)
    decreases |s|
  {
    if s != [] {
      DropDuplicatesSubsequence(Init(s));
      var r := DropDuplicates(s);
      if !IsDuplicated(s, |s| - 1) {
        assert Init(r) == DropDuplicates(Init(s)) && Last(r) == Last(s);
      } else {
        assert r == DropDuplicates(Init(s));
      }
    }
  }

  /** Every row that survives is the first row of its open time. */
  lemma {:induction false} DropDuplicatesOnlyFirst(s: seq<RawCandle>)
    ensures forall x :: x in DropDuplicates(s) ==> exists i :: 0 <= i < |s| && s[i] == x && !IsDuplicated(s, i)
    decreases |s|
  {
    if s != [] {
      var t := Init(s);
      DropDuplicatesOnlyFirst(t);
      DuplicatedInPrefix(s, |t|);
      var n := |s| - 1;
      assert DropDuplicates(s) == DropDuplicates(t) + (if IsDuplicated(s, n) then [] else [s[n]]);
      forall y | y in DropDuplicates(s)
        ensures exists i :: 0 <= i < |s| && s[i] == y && !IsDuplicated(s, i)
      {
        if y in DropDuplicates(t) {
          var i :| 0 <= i < |t| && t[i] == y && !IsDuplicated(t, i);
          assert s[i] == t[i];
          assert !IsDuplicated(s, i);
        } else {
          assert y == s[n] && !IsDuplicated(s, n);
        }
      }
    }
  }

  /** The first row of every open time survives. */
  lemma {:induction false} DropDuplicatesKeepsFirst(s: seq<RawCandle>)
    ensures forall i :: 0 <= i < |s| && !IsDuplicated(s, i) ==> s[i] in DropDuplicates(s)
    decreases |s|
  {
    if s != [] {
      var t := Init(s);
      DropDuplicatesKeepsFirst(t);
      DuplicatedInPrefix(s, |t|);
      forall i | 0 <= i < |s| && !IsDuplicated(s, i)
        ensures s[i] in DropDuplicates(s)
      {
        if i < |t| {
          assert s[i] == t[i];
          assert s[i] in DropDuplicates(t);
        }
      }
    }
  }

  /** No open time repeats after dropping duplicates. */
  lemma {:induction false} DropDuplicatesDistinct(s: seq<RawCandle>)
    ensures Distinct(RawKeys(DropDuplicates(s)))
    decreases |s|
  {
    if s != [] {
      var t, x := Init(s), Last(s);
      var r' := DropDuplicates(t);
      DropDuplicatesDistinct(t);
      if !IsDuplicated(s, |s| - 1) {
        DropDuplicatesSubsequence(t);
        SubsequenceMembers(r', t);
        forall k | 0 <= k < |r'|
          ensures r'[k].openTime != x.openTime
        {
          assert r'[k] in t;
          var j :| 0 <= j < |t| && t[j] == r'[k];
          assert s[j] == t[j];
        }
        assert DropDuplicates(s) == r' + [x];
      }
    }
  }

  /** Exactly the first row of every open time survives, in input order, and no
      open time repeats afterwards. */
  lemma DropDuplicatesSpec(s: seq<RawCandle>)
    ensures Distinct(RawKeys(DropDuplicates(s)))
    ensures IsSubsequence(DropDuplicates(s), s)
    ensures forall i :: 0 <= i < |s| && !IsDuplicated(s, i) ==> s[i] in DropDuplicates(s)
    ensures forall x :: x in DropDuplicates(s) ==> exists i :: 0 <= i < |s| && s[i] == x && !IsDuplicated(s, i)
  {
    DropDuplicatesDistinct(s);
    DropDuplicatesSubsequence(s);
    DropDuplicatesKeepsFirst(s);
    DropDuplicatesOnlyFirst(s);
  }

  lemma NoDuplicatesIsDistinct(s: seq<RawCandle>)
    ensures !HasDuplicates(s) <==> Distinct(RawKeys(s))
  {
    if !HasDuplicates(s) {
      forall i, j | 0 <= i < j < |s|
        ensures s[i].openTime != s[j].openTime
      {
        assert !IsDuplicated(s, j);
      }
    }
  }

  /** Without duplicates the mask keeps every row, so the source's "if dupes > 0"
      guard makes no difference. */
  lemma {:induction false} DropDuplicatesKeepsUnique(s: seq<RawCandle>)
    requires !HasDuplicates(s)
    ensures DropDuplicates(s) == s
    decreases |s|
  {
    if s != [] {
      DuplicatedInPrefix(s, |s| - 1);
      assert !HasDuplicates(Init(s)) by {
        forall i | 0 <= i < |Init(s)|
          ensures !IsDuplicated(Init(s), i)
        {
          assert !IsDuplicated(s, i);
        }
      }
      DropDuplicatesKeepsUnique(Init(s));
      assert !IsDuplicated(s, |s| - 1);
      assert DropDuplicates(s) == Init(s) + [Last(s)];
      assert Init(s) + [Last(s)] == s;
    }
  }

  predicate DisjointKeys(a: seq<RawCandle>, b: seq<RawCandle>)
  {
    forall i, j :: 0 <= i < |a| && 0 <= j < |b| ==> a[i].openTime != b[j].openTime
  }

  /** When the two frames share no open time, dropping duplicates of their
      concatenation treats them separately. */
  lemma {:induction false} DropDuplicatesAppend(a: seq<RawCandle>, b: seq<RawCandle>)
    requires DisjointKeys(a, b)
    ensures DropDuplicates(a + b) == DropDuplicates(a) + DropDuplicates(b)
    decreases |b|
  {
    if b == [] {
      assert a + b == a;
    } else {
      var s := a + b;
      assert Init(s) == a + Init(b);
      assert Last(s) == Last(b);
      DropDuplicatesAppend(a, Init(b));
      var n := |s| - 1;
      if IsDuplicated(s, n) {
        var j :| 0 <= j < n && s[j].openTime == s[n].openTime;
        assert j >= |a|;
        assert b[j - |a|] == s[j];
        assert IsDuplicated(b, |b| - 1);
      }
      if IsDuplicated(b, |b| - 1) {
        var j :| 0 <= j < |b| - 1 && b[j].openTime == b[|b| - 1].openTime;
        assert s[|a| + j] == b[j];
        assert IsDuplicated(s, n);
      }
      var tail := if IsDuplicated(b, |b| - 1) then [] else [Last(b)];
      calc {
        DropDuplicates(s);
        DropDuplicates(Init(s)) + tail;
        DropDuplicates(a) + DropDuplicates(Init(b)) + tail;
        DropDuplicates(a) + (DropDuplicates(Init(b)) + tail);
        DropDuplicates(a) + DropDuplicates(b);
      }
    }
  }

  /** The deduplication step of clean_raw, guard included, is DropDuplicates. */
  lemma DedupStep(raw: seq<RawCandle>)
    ensures (if HasDuplicates(raw) then DropDuplicates(raw) else raw) == DropDuplicates(raw)
  {
    if !HasDuplicates(raw) {
      DropDuplicatesKeepsUnique(raw);
    }
  }

  // ---------------------------------------------------------------------------
  // clean_raw

  /** The complete first rows of every open time, in input order. */
  function CompleteRows(raw: seq<RawCandle>): seq<RawCandle>
  {
    Filter(DropDuplicates(raw), IsComplete)
  }

  /** The frame clean_raw builds before the cut-off of the current day. */
  function IndexedRows(raw: seq<RawCandle>): seq<Candle>
  {
    CompleteRowsHaveKeys(DropDuplicates(raw));
    SetDtypes(Map(CompleteRows(raw), DropColumns))
  }

  lemma IndexedRowsAt(raw: seq<RawCandle>, k: int)
    requires 0 <= k < |IndexedRows(raw)|
    ensures |IndexedRows(raw)| == |CompleteRows(raw)|
    ensures CompleteRows(raw)[k].openTime.Some?
    ensures IndexedRows(raw)[k] == Candle(CompleteRows(raw)[k].openTime.value, CompleteRows(raw)[k].fields)
  {
    CompleteRowsHaveKeys(DropDuplicates(raw));
  }

  lemma CompleteRowsSpec(raw: seq<RawCandle>)
    ensures forall x :: x in CompleteRows(raw) <==> x in DropDuplicates(raw) && IsComplete(x)
    ensures IsSubsequence(RawKeys(CompleteRows(raw)), RawKeys(DropDuplicates(raw)))
    ensures Distinct(RawKeys(CompleteRows(raw)))
  {
    var d := DropDuplicates(raw);
    FilterSpec(d, IsComplete);
    SubsequenceMap(CompleteRows(raw), d, RawKey);
    DropDuplicatesDistinct(raw);
    SubsequenceDistinct(RawKeys(CompleteRows(raw)), RawKeys(d));
  }

  lemma CleanRawUnfold(raw: seq<RawCandle>, limitToToday: bool, today: int)
    ensures CleanRaw(raw, limitToToday, today) == Success(TrimToToday(IndexedRows(raw), limitToToday, today))
  {
    DedupStep(raw);
    CompleteRowsSpec(raw);
    CompleteRowsHaveKeys(DropDuplicates(raw));
    var rows := Map(CompleteRows(raw), DropColumns);
    assert RowKeys(rows) == RawKeys(CompleteRows(raw));
    assert forall i :: 0 <= i < |rows| ==> !IsEmptyRow(rows[i]);
  }

  /** assert_integrity can never fail inside clean_raw: the rows it checks have no
      repeated open time (duplicates were dropped first) and no missing open time
      (the completeness filter removed those). */
  lemma CleanRawPassesIntegrity(raw: seq<RawCandle>, limitToToday: bool, today: int)
    ensures CleanRaw(raw, limitToToday, today).Success?
  {
    CleanRawUnfold(raw, limitToToday, today);
  }

  /** The cleaned frame has no repeated open time, its open times occur in the
      order of their first occurrences in the input (it is NOT sorted: the
      source's sort is discarded), and with limit_to_today they all lie before the start of today. */
  lemma CleanRawOrder(raw: seq<RawCandle>, limitToToday: bool, today: int)
    ensures CleanRaw(raw, limitToToday, today).Success?
    ensures Distinct(OpenTimes(CleanRaw(raw, limitToToday, today).value))
    ensures IsSubsequence(OpenTimes(CleanRaw(raw, limitToToday, today).value), RawKeys(raw))
    ensures IsSubsequence(OpenTimes(CleanRaw(raw, limitToToday, today).value), RawKeys(DropDuplicates(raw)))
    ensures limitToToday ==> forall i :: 0 <= i < |CleanRaw(raw, limitToToday, today).value| ==>
                               CleanRaw(raw, limitToToday, today).value[i].openTime < today
  {
    CleanRawUnfold(raw, limitToToday, today);
    var indexed := IndexedRows(raw);
    var out := TrimToToday(indexed, limitToToday, today);
    CompleteRowsSpec(raw);
    CompleteRowsHaveKeys(DropDuplicates(raw));
    var rows := Map(CompleteRows(raw), DropColumns);
    assert RowKeys(rows) == RawKeys(CompleteRows(raw));
    assert OpenTimes(indexed) == RawKeys(CompleteRows(raw));
    DropDuplicatesSubsequence(raw);
    SubsequenceMap(DropDuplicates(raw), raw, RawKey);
    SubsequenceTrans(OpenTimes(indexed), RawKeys(DropDuplicates(raw)), RawKeys(raw));
    if limitToToday {
      FilterSpec(indexed, BeforeDay(today));
      SubsequenceMap(out, indexed, CandleKey);
      SubsequenceTrans(OpenTimes(out), OpenTimes(indexed), RawKeys(raw));
      SubsequenceTrans(OpenTimes(out), OpenTimes(indexed), RawKeys(DropDuplicates(raw)));
      SubsequenceDistinct(OpenTimes(out), OpenTimes(indexed));
      forall i | 0 <= i < |out|
        ensures out[i].openTime < today
      {
        assert out[i] in out;
      }
    }
  }

  /** Each cleaned candle carries the cells of the first row of its open time in
      the input, and that row is complete: a later complete row with the same open
      time cannot replace an incomplete first one. */
  lemma CleanRawProvenance(raw: seq<RawCandle>, limitToToday: bool, today: int)
    ensures CleanRaw(raw, limitToToday, today).Success?
    ensures forall j, i :: (0 <= j < |CleanRaw(raw, limitToToday, today).value| && 0 <= i < |raw| &&
                            raw[i].openTime == Some(CleanRaw(raw, limitToToday, today).value[j].openTime) &&
                            !IsDuplicated(raw, i)) ==>
              IsComplete(raw[i]) && raw[i].fields == CleanRaw(raw, limitToToday, today).value[j].fields
  {
    CleanRawUnfold(raw, limitToToday, today);
    var indexed := IndexedRows(raw);
    var out := TrimToToday(indexed, limitToToday, today);
    FilterSpec(indexed, BeforeDay(today));
    CompleteRowsSpec(raw);
    DropDuplicatesOnlyFirst(raw);
    forall j, i | 0 <= j < |out| && 0 <= i < |raw| && raw[i].openTime == Some(out[j].openTime) && !IsDuplicated(raw, i)
      ensures IsComplete(raw[i]) && raw[i].fields == out[j].fields
    {
      assert out[j] in indexed;
      var k :| 0 <= k < |indexed| && indexed[k] == out[j];
      IndexedRowsAt(raw, k);
      var x := CompleteRows(raw)[k];
      assert x in CompleteRows(raw);
      var i0 :| 0 <= i0 < |raw| && raw[i0] == x && !IsDuplicated(raw, i0);
      assert raw[i].openTime == raw[i0].openTime;
    }
  }

  /** Every complete first row of an open time reaches the cleaned frame, unless
      the cut-off of the current day removes it. */
  lemma CleanRawKeepsComplete(raw: seq<RawCandle>, limitToToday: bool, today: int)
    ensures CleanRaw(raw, limitToToday, today).Success?
    ensures forall i :: (0 <= i < |raw| && !IsDuplicated(raw, i) && IsComplete(raw[i]) &&
                         (limitToToday ==> raw[i].openTime.value < today)) ==>
              Candle(raw[i].openTime.value, raw[i].fields) in CleanRaw(raw, limitToToday, today).value
  {
    CleanRawUnfold(raw, limitToToday, today);
    var indexed := IndexedRows(raw);
    var out := TrimToToday(indexed, limitToToday, today);
    FilterSpec(indexed, BeforeDay(today));
    CompleteRowsSpec(raw);
    DropDuplicatesKeepsFirst(raw);
    forall i | 0 <= i < |raw| && !IsDuplicated(raw, i) && IsComplete(raw[i]) &&
               (limitToToday ==> raw[i].openTime.value < today)
      ensures Candle(raw[i].openTime.value, raw[i].fields) in out
    {
      assert raw[i] in CompleteRows(raw);
      var k :| 0 <= k < |CompleteRows(raw)| && CompleteRows(raw)[k] == raw[i];
      IndexedRowsAt(raw, k);
      assert indexed[k] in indexed;
    }
  }

  lemma IndexedRowsAppend(a: seq<RawCandle>, b: seq<RawCandle>)
    requires DisjointKeys(a, b)
    ensures IndexedRows(a + b) == IndexedRows(a) + IndexedRows(b)
  {
    DropDuplicatesAppend(a, b);
    FilterAppend(DropDuplicates(a), DropDuplicates(b), IsComplete);
    assert CompleteRows(a + b) == CompleteRows(a) + CompleteRows(b);
    var ia, ib, iab := IndexedRows(a), IndexedRows(b), IndexedRows(a + b);
    if 0 < |iab| {
      IndexedRowsAt(a + b, 0);
    }
    if 0 < |ia| {
      IndexedRowsAt(a, 0);
    }
    if 0 < |ib| {
      IndexedRowsAt(b, 0);
    }
    forall k | 0 <= k < |iab|
      ensures iab[k] == (ia + ib)[k]
    {
      IndexedRowsAt(a + b, k);
      if k < |ia| {
        IndexedRowsAt(a, k);
      } else {
        IndexedRowsAt(b, k - |ia|);
      }
    }
  }

  /** When the input is two frames with no open time in common, cleaning their
      concatenation cleans each and keeps the first frame's rows first. */
  lemma CleanRawAppend(a: seq<RawCandle>, b: seq<RawCandle>, limitToToday: bool, today: int)
    requires DisjointKeys(a, b)
    ensures CleanRaw(a, limitToToday, today).Success? && CleanRaw(b, limitToToday, today).Success?
    ensures CleanRaw(a + b, limitToToday, today)
            == Success(CleanRaw(a, limitToToday, today).value + CleanRaw(b, limitToToday, today).value)
  {
    CleanRawUnfold(a + b, limitToToday, today);
    CleanRawUnfold(a, limitToToday, today);
    CleanRawUnfold(b, limitToToday, today);
    IndexedRowsAppend(a, b);
    if limitToToday {
      FilterAppend(IndexedRows(a), IndexedRows(b), BeforeDay(today));
    }
  }

  /** The stored form of a complete candle: indexed by its open time, with its cells. */
  function Indexed(c: RawCandle): Candle
    requires IsComplete(c)
  {
    Candle(c.openTime.value, c.fields)
  }

  /** A frame of complete candles with distinct open times, all before today when
      cutting off, comes out whole and in its own order. */
  lemma CleanRawKeepsAll(raw: seq<RawCandle>, limitToToday: bool, today: int)
    requires !HasDuplicates(raw)
    requires forall i :: 0 <= i < |raw| ==> IsComplete(raw[i]) && (limitToToday ==> raw[i].openTime.value < today)
    ensures CleanRaw(raw, limitToToday, today).Success?
    ensures |CleanRaw(raw, limitToToday, today).value| == |raw|
    ensures forall i :: 0 <= i < |raw| ==>
              CleanRaw(raw, limitToToday, today).value[i] == Indexed(raw[i])
  {
    CleanRawUnfold(raw, limitToToday, today);
    DropDuplicatesKeepsUnique(raw);
    FilterKeepsAll(raw, IsComplete);
    assert CompleteRows(raw) == raw;
    var indexed := IndexedRows(raw);
    CompleteRowsHaveKeys(DropDuplicates(raw));
    assert |indexed| == |raw|;
    forall i | 0 <= i < |raw|
      ensures indexed[i] == Indexed(raw[i])
    {
      IndexedRowsAt(raw, i);
    }
    if limitToToday {
      FilterKeepsAll(indexed, BeforeDay(today));
    }
  }

  /** The output keeps the input's order: an input whose later candle opens
      earlier comes out in that same, unsorted, order. */
  lemma CleanRawDoesNotSort(a: RawCandle, b: RawCandle, today: int)
    requires IsComplete(a) && IsComplete(b) && b.openTime.value < a.openTime.value
    ensures CleanRaw([a, b], false, today)
            == Success([Indexed(a), Indexed(b)])
  {
    var raw := [a, b];
    assert !IsDuplicated(raw, 0);
    assert !IsDuplicated(raw, 1);
    CleanRawKeepsAll(raw, false, today);
    var out := CleanRaw(raw, false, today).value;
    assert out == [Indexed(a), Indexed(b)];
  }

  /** write_raw_to_parquet does not deduplicate across the stored and the new rows:
      with append and a stored frame, the written frame is free of repeated open
      times exactly when the stored one is and no cleaned row reuses a stored open
      time. */
  lemma WriteRawToParquetDistinct(raw: seq<RawCandle>, limitToToday: bool, stored: seq<Candle>, today: int)
    ensures CleanRaw(raw, limitToToday, today).Success?
    ensures WriteRawToParquet(raw, limitToToday, true, Some(stored), today)
            == Success(stored + CleanRaw(raw, limitToToday, today).value)
    ensures var cleaned := CleanRaw(raw, limitToToday, today).value;
            Distinct(OpenTimes(stored + cleaned)) <==>
              Distinct(OpenTimes(stored)) &&
              forall i, j :: 0 <= i < |stored| && 0 <= j < |cleaned| ==> stored[i].openTime != cleaned[j].openTime
  {
    CleanRawOrder(raw, limitToToday, today);
    var cleaned := CleanRaw(raw, limitToToday, today).value;
    MapAppend(stored, cleaned, CandleKey);
    DistinctAppend(OpenTimes(stored), OpenTimes(cleaned));
  }

  /** Every cleaned open time comes from the input: a lower bound on the input's
      open times holds of the cleaned frame too. */
  lemma CleanRawAbove(raw: seq<RawCandle>, limitToToday: bool, today: int, bound: int)
    requires forall i :: 0 <= i < |raw| && raw[i].openTime.Some? ==> bound < raw[i].openTime.value
    ensures CleanRaw(raw, limitToToday, today).Success?
    ensures forall j :: 0 <= j < |CleanRaw(raw, limitToToday, today).value| ==>
              bound < CleanRaw(raw, limitToToday, today).value[j].openTime
  {
    CleanRawOrder(raw, limitToToday, today);
    var out := CleanRaw(raw, limitToToday, today).value;
    SubsequenceMembers(OpenTimes(out), RawKeys(raw));
    forall j | 0 <= j < |out|
      ensures bound < out[j].openTime
    {
      assert OpenTimes(out)[j] in RawKeys(raw);
      var i :| 0 <= i < |raw| && RawKeys(raw)[i] == Some(out[j].openTime);
    }
  }

  /** An upper bound on the input's open times holds of the cleaned frame too. */
  lemma CleanRawAtMost(raw: seq<RawCandle>, limitToToday: bool, today: int, bound: int)
    requires forall i :: 0 <= i < |raw| && raw[i].openTime.Some? ==> raw[i].openTime.value <= bound
    ensures CleanRaw(raw, limitToToday, today).Success?
    ensures forall j :: 0 <= j < |CleanRaw(raw, limitToToday, today).value| ==>
              CleanRaw(raw, limitToToday, today).value[j].openTime <= bound
  {
    CleanRawOrder(raw, limitToToday, today);
    var out := CleanRaw(raw, limitToToday, today).value;
    SubsequenceMembers(OpenTimes(out), RawKeys(raw));
    forall j | 0 <= j < |out|
      ensures out[j].openTime <= bound
    {
      assert OpenTimes(out)[j] in RawKeys(raw);
      var i :| 0 <= i < |raw| && RawKeys(raw)[i] == Some(out[j].openTime);
    }
  }

  /** A repeated open time is written once, from its first row. */
  lemma CleanRawDropsRepeat(c: RawCandle, today: int)
    requires IsComplete(c) && c.openTime.value < today
    ensures CleanRaw([c, c], true, today) == Success([Indexed(c)])
  {
    var raw := [c, c];
    assert raw[0].openTime == raw[1].openTime;
    assert IsDuplicated(raw, 1);
    assert DropDuplicates(raw) == [c] by {
      assert Init(raw) == [c];
      assert !IsDuplicated([c], 0);
      assert DropDuplicates([c]) == [c] by {
        assert Init([c]) == [];
      }
    }
    assert CompleteRows(raw) == CompleteRows([c]);
    CleanRawUnfold(raw, true, today);
    CleanRawUnfold([c], true, today);
    assert !IsDuplicated([c], 0);
    CleanRawKeepsAll([c], true, today);
    assert CleanRaw([c], true, today).value == [Indexed(c)];
  }

  /** A stored candle and a new complete candle with the same open time are both
      written. */
  lemma WriteRawToParquetKeepsOverlap(c: RawCandle, today: int)
    requires IsComplete(c)
    ensures WriteRawToParquet([c], false, true, Some([Indexed(c)]), today) == Success([Indexed(c), Indexed(c)])
  {
    assert !IsDuplicated([c], 0);
    CleanRawKeepsAll([c], false, today);
    assert CleanRaw([c], false, today).value == [Indexed(c)];
    assert [Indexed(c)] + [Indexed(c)] == [Indexed(c), Indexed(c)];
  }
}
