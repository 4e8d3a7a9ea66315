/**
 * The data source's per-query handler, `query`: decode the query model, widen
 * the range by one day at the start, fetch the series, keep the dates of the
 * series strictly inside the widened range that carry a rate, and answer with
 * one frame of two aligned columns. Decoding the query JSON and fetching the
 * series are outside the model: both are function parameters.
 */
module Plugin {
  import opened Errors
  import opened Calendar
  import opened Frames
  import ExchangeRates

  /** The query editor's model: `{"baseCurrency": ..., "toCurrency": ...}`. */
  datatype QueryModel = QueryModel(baseCurrency: string, toCurrency: string)

  datatype TimeRange = TimeRange(from: Instant, to: Instant)

  /** `backend.DataQuery`, restricted to what `query` reads. */
  datatype DataQuery = DataQuery(refId: string, json: seq<bv8>, timeRange: TimeRange)

  /** What the series fetch returns: the dates in its own order, and a rate per date. */
  datatype Series = Series(order: seq<Instant>, rates: map<Instant, Float64>)

  /** The arguments `query` passes to the series fetch. */
  datatype FetchRequest = FetchRequest(base: string, from: Instant, to: Instant, symbol: string)

  /** `backend.DataResponse`: an error, or the frames answering the query. */
  datatype DataResponse = DataResponse(error: Option<Error>, frames: seq<Frame>)

  /** `query` shows one more day before the requested range: 24 hours. */
  const WIDENING: int := 24 * NANOS_PER_HOUR

  // ---------------------------------------------------------------- the window

  /** Whether `when` passes the filter: strictly inside (from, to), and carrying a rate. */
  predicate InWindow(when: Instant, rates: map<Instant, Float64>, from: Instant, to: Instant) {
    from < when < to && when in rates
  }

  /**
   * The dates of `order` that pass the filter, in the order they come in. Every
   * one of them lies strictly inside (from, to) and has a rate.
   */
  function Window(order: seq<Instant>, rates: map<Instant, Float64>, from: Instant, to: Instant): (w: seq<Instant>)
    ensures |w| <= |order|
    ensures forall i :: 0 <= i < |w| ==> from < w[i] < to && w[i] in rates
    decreases |order|
  {
    if order == [] then []
    else
      var last := order[|order| - 1];
      Window(order[..|order| - 1], rates, from, to) + (if InWindow(last, rates, from, to) then [last] else [])
  }

  /** `exchangeRate` runs beside `times`: entry i is the rate of date i. */
  ghost predicate Aligned(times: seq<Instant>, exchangeRate: seq<Float64>, rates: map<Instant, Float64>) {
    |exchangeRate| == |times|
    && forall i :: 0 <= i < |times| ==> times[i] in rates && exchangeRate[i] == rates[times[i]]
  }

  /** `a` is `b` with some entries dropped and the rest left in their order. */
  ghost predicate IsSubsequence(a: seq<Instant>, b: seq<Instant>)
    decreases |b|
  {
    if a == [] then true
    else if b == [] then false
    else
      (a[|a| - 1] == b[|b| - 1] && IsSubsequence(a[..|a| - 1], b[..|b| - 1]))
      || IsSubsequence(a, b[..|b| - 1])
  }

  /**
   * The loop of plugin.go, lines 131 to 138: walks `order` once and appends
   * every date that passes the filter, with its rate beside it.
   */
  method FilterWindow(order: seq<Instant>, rates: map<Instant, Float64>, from: Instant, to: Instant)
    returns (times: seq<Instant>, exchangeRate: seq<Float64>)
    ensures times == Window(order, rates, from, to)
    ensures Aligned(times, exchangeRate, rates)
  {
    times, exchangeRate := [], [];
    var i := 0;
    while i < |order|
      invariant 0 <= i <= |order|
      invariant times == Window(order[..i], rates, from, to)
      invariant Aligned(times, exchangeRate, rates)
    {
      var when := order[i];
      if from < when && when < to {
        if when in rates {
          times := times + [when];
          exchangeRate := exchangeRate + [rates[when]];
        }
      }
      assert order[..i + 1][..i] == order[..i];
      i := i + 1;
    }
    assert order[..i] == order;
  }

  /** Soundness and completeness: a date is emitted exactly when it is in `order`, inside the range, and has a rate. */
  lemma {:induction false} WindowMembers(order: seq<Instant>, rates: map<Instant, Float64>, from: Instant, to: Instant, x: Instant)
    ensures x in Window(order, rates, from, to) <==> x in order && from < x < to && x in rates
    decreases |order|
  {
    if order != [] {
      var init := order[..|order| - 1];
      WindowMembers(init, rates, from, to, x);
      assert order == init + [order[|order| - 1]];
    }
  }

  /** The emitted dates are a subsequence of `order`: none is invented and their order is kept. */
  lemma {:induction false} WindowSubsequence(order: seq<Instant>, rates: map<Instant, Float64>, from: Instant, to: Instant)
    ensures IsSubsequence(Window(order, rates, from, to), order)
    decreases |order|
  {
    if order != [] {
      var init, last := order[..|order| - 1], order[|order| - 1];
      var w := Window(init, rates, from, to);
      WindowSubsequence(init, rates, from, to);
      if InWindow(last, rates, from, to) {
        assert (w + [last])[..|w|] == w;
      } else {
        assert Window(order, rates, from, to) == w;
        SubsequenceDropLast(w, order);
      }
    }
  }

  /** A subsequence of `init` is a subsequence of `init` with one more entry at the end. */
  lemma SubsequenceDropLast(a: seq<Instant>, b: seq<Instant>)
    requires b != [] && IsSubsequence(a, b[..|b| - 1])
    ensures IsSubsequence(a, b)
  {
  }

  /** Every entry of a subsequence is an entry of the whole. */
  lemma {:induction false} SubsequenceMembers(a: seq<Instant>, b: seq<Instant>)
    requires IsSubsequence(a, b)
    ensures forall x :: x in a ==> x in b
    decreases |b|
  {
    if a != [] {
      var b' := b[..|b| - 1];
      assert b == b' + [b[|b| - 1]];
      if a[|a| - 1] == b[|b| - 1] && IsSubsequence(a[..|a| - 1], b') {
        SubsequenceMembers(a[..|a| - 1], b');
        assert a == a[..|a| - 1] + [a[|a| - 1]];
      } else {
        SubsequenceMembers(a, b');
      }
    }
  }

  /** A subsequence of a strictly ascending sequence is strictly ascending. */
  lemma {:induction false} SubsequenceAscending(a: seq<Instant>, b: seq<Instant>)
    requires IsSubsequence(a, b) && ExchangeRates.StrictlyAscending(b)
    ensures ExchangeRates.StrictlyAscending(a)
    decreases |b|
  {
    if a != [] {
      var a', b' := a[..|a| - 1], b[..|b| - 1];
      assert ExchangeRates.StrictlyAscending(b');
      if a[|a| - 1] == b[|b| - 1] && IsSubsequence(a', b') {
        SubsequenceAscending(a', b');
        SubsequenceMembers(a', b');
        forall i | 0 <= i < |a'|
          ensures a'[i] < a[|a| - 1]
        {
          assert a'[i] in b';
        }
      } else {
        SubsequenceAscending(a, b');
      }
    }
  }

  /** When the series lists its dates in ascending order, so does the time column. */
  lemma WindowAscending(order: seq<Instant>, rates: map<Instant, Float64>, from: Instant, to: Instant)
    requires ExchangeRates.StrictlyAscending(order)
    ensures ExchangeRates.StrictlyAscending(Window(order, rates, from, to))
  {
    WindowSubsequence(order, rates, from, to);
    SubsequenceAscending(Window(order, rates, from, to), order);
  }

  /** Midnight UTC of 2024-01-01, 2024-01-02 and 2024-01-03. */
  const JAN1: Instant := 1_704_067_200 * NANOS_PER_SECOND
  const JAN2: Instant := JAN1 + NANOS_PER_DAY
  const JAN3: Instant := JAN2 + NANOS_PER_DAY

  /** The three constants above are the midnights of those dates. */
  lemma JanuaryMidnights()
    ensures JAN1 == DayStart(Date(2024, 1, 1)) && JAN2 == DayStart(Date(2024, 1, 2))
    ensures JAN3 == DayStart(Date(2024, 1, 3))
  {
  }

  /**
   * The filter runs against the widened lower bound: for a range from
   * 2024-01-01 to 2024-01-03 (both at midnight UTC) and a series holding the
   * three days, the first day is kept.
   */
  lemma WidenedFilterKeepsFirstDay(rates: map<Instant, Float64>)
    requires JAN1 in rates && JAN2 in rates && JAN3 in rates
    ensures Window([JAN1, JAN2, JAN3], rates, JAN1 - WIDENING, JAN3) == [JAN1, JAN2]
  {
    var widened := JAN1 - WIDENING;
    assert InWindow(JAN1, rates, widened, JAN3) && InWindow(JAN2, rates, widened, JAN3);
    assert !InWindow(JAN3, rates, widened, JAN3);
    assert [JAN1] == [] + [JAN1] && [JAN1, JAN2] == [JAN1] + [JAN2] && [JAN1, JAN2, JAN3] == [JAN1, JAN2] + [JAN3];
    WindowAppend([], JAN1, rates, widened, JAN3);
    WindowAppend([JAN1], JAN2, rates, widened, JAN3);
    WindowAppend([JAN1, JAN2], JAN3, rates, widened, JAN3);
  }

  /** The same series filtered against the unwidened bound would keep 2024-01-02 alone. */
  lemma UnwidenedFilterDropsFirstDay(rates: map<Instant, Float64>)
    requires JAN1 in rates && JAN2 in rates && JAN3 in rates
    ensures Window([JAN1, JAN2, JAN3], rates, JAN1, JAN3) == [JAN2]
  {
    assert !InWindow(JAN1, rates, JAN1, JAN3) && InWindow(JAN2, rates, JAN1, JAN3);
    assert !InWindow(JAN3, rates, JAN1, JAN3);
    assert [JAN1] == [] + [JAN1] && [JAN1, JAN2] == [JAN1] + [JAN2] && [JAN1, JAN2, JAN3] == [JAN1, JAN2] + [JAN3];
    WindowAppend([], JAN1, rates, JAN1, JAN3);
    WindowAppend([JAN1], JAN2, rates, JAN1, JAN3);
    WindowAppend([JAN1, JAN2], JAN3, rates, JAN1, JAN3);
  }

  /** One more date at the end of `order` adds itself to the window when it passes the filter. */
  lemma WindowAppend(order: seq<Instant>, x: Instant, rates: map<Instant, Float64>, from: Instant, to: Instant)
    ensures Window(order + [x], rates, from, to)
      == Window(order, rates, from, to) + (if InWindow(x, rates, from, to) then [x] else [])
  {
    assert (order + [x])[..|order|] == order;
  }

  // ---------------------------------------------------------------- query

  /**
   * `query(ctx, pCtx, query)`. `unmarshal` stands for `json.Unmarshal` into the
   * query model and `fetchRange` for the data source's series fetch; `request`
   * is the fetch `query` issued, if any.
   */
  method Query(query: DataQuery, unmarshal: seq<bv8> -> Result<QueryModel>, fetchRange: FetchRequest -> Result<Series>)
    returns (request: Option<FetchRequest>, response: DataResponse)
    ensures unmarshal(query.json).Err? ==>
      request == None && response == DataResponse(Some(unmarshal(query.json).error), [])
    ensures unmarshal(query.json).Ok? ==>
      var qm, range := unmarshal(query.json).value, query.timeRange;
      request == Some(FetchRequest(qm.baseCurrency, range.from - WIDENING, range.to, qm.toCurrency))
    ensures request.Some? && fetchRange(request.value).Err? ==>
      response == DataResponse(Some(fetchRange(request.value).error), [])
    ensures request.Some? && fetchRange(request.value).Ok? ==>
      var series, qm := fetchRange(request.value).value, unmarshal(query.json).value;
      && response.error == None && |response.frames| == 1
      && var frame := response.frames[0];
      && frame.name == FRAME_NAME && |frame.fields| == 2
      && frame.fields[0].name == "time" && frame.fields[0].values.Times?
      && frame.fields[1].name == qm.toCurrency && frame.fields[1].values.Floats?
      && frame.fields[0].values.times == Window(series.order, series.rates, request.value.from, request.value.to)
      && Aligned(frame.fields[0].values.times, frame.fields[1].values.floats, series.rates)
  {
    response := DataResponse(None, []);
    var qm := unmarshal(query.json);
    if qm.Err? {
      response := response.(error := Some(qm.error));
      return None, response;
    }
    var range := query.timeRange;
    range := range.(from := range.from - WIDENING);
    request := Some(FetchRequest(qm.value.baseCurrency, range.from, range.to, qm.value.toCurrency));
    var rates := fetchRange(request.value);
    if rates.Err? {
      response := response.(error := Some(rates.error));
      return;
    }
    var times, exchangeRate := FilterWindow(rates.value.order, rates.value.rates, range.from, range.to);
    var frame := Frame(FRAME_NAME, []);
    frame := frame.(fields := frame.fields + [Field("time", Times(times))]);
    frame := frame.(fields := frame.fields + [Field(qm.value.toCurrency, Floats(exchangeRate))]);
    response := response.(frames := response.frames + [frame]);
  }
}
