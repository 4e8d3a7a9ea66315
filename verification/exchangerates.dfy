/**
 * `FetchRange`: requests a time series of rates for a base currency and a list
 * of symbols, keeps the dates strictly inside the requested range, sorts them,
 * and lays the result out as a frame with a time column and one column per
 * symbol. The HTTP request and the JSON decoding are outside the model: their
 * outcome is a parameter.
 */
module ExchangeRates {
  import opened Errors
  import opened Calendar
  import opened DateLayout
  import opened Frames
  import opened UnixSort

  /** The decoded upstream payload: `{"base": ..., "rates": {"<date>": {"<symbol>": rate}}}`. */
  datatype TimeSeriesJson = TimeSeriesJson(base: string, rates: Rates)

  type Rates = map<string, map<string, Float64>>

  const START_DATE_PREFIX: string := "https://api.exchangerate.host/timeseries?start_date="
  const END_DATE_KEY: string := "&end_date="
  const BASE_KEY: string := "&base="
  const SYMBOLS_KEY: string := "&symbols="

  // ---------------------------------------------------------------- URL

  /** Go's `strings.Join(xs, sep)`: starts with the first part and ends with the last. */
  function Join(xs: seq<string>, sep: string): (s: string)
    ensures |xs| >= 1 ==> xs[0] <= s && |xs[|xs| - 1]| <= |s| && s[|s| - |xs[|xs| - 1]|..] == xs[|xs| - 1]
    decreases |xs|
  {
    if xs == [] then "" else if |xs| == 1 then xs[0] else xs[0] + sep + Join(xs[1..], sep)
  }

  /** Go's `strings.Split(s, string(c))`, the inverse of Join for parts free of `c`. */
  function Split(s: string, c: char): (parts: seq<string>)
    ensures |parts| >= 1
    decreases |s|
  {
    if s == [] then [""]
    else if s[0] == c then [""] + Split(s[1..], c)
    else
      var rest := Split(s[1..], c);
      [[s[0]] + rest[0]] + rest[1..]
  }

  lemma {:induction false} SplitFree(s: string, c: char)
    requires c !in s
    ensures Split(s, c) == [s]
    decreases |s|
  {
    if s != [] {
      SplitFree(s[1..], c);
      assert [s[0]] + s[1..] == s;
    }
  }

  lemma {:induction false} SplitAfter(a: string, c: char, b: string)
    requires c !in a
    ensures Split(a + [c] + b, c) == [a] + Split(b, c)
    decreases |a|
  {
    if a == [] {
      assert a + [c] + b == [c] + b;
      assert ([c] + b)[1..] == b;
    } else {
      assert (a + [c] + b)[1..] == a[1..] + [c] + b;
      SplitAfter(a[1..], c, b);
      assert [a[0]] + a[1..] == a;
    }
  }

  /** No symbols and one empty symbol give the same joined text: Join cannot be inverted on the empty list. */
  lemma JoinNoSymbols(sep: string)
    ensures Join([], sep) == Join([""], sep) == ""
  {
  }

  /** Splitting a non-empty list of joined symbols at the separator gives them back, in order, when none contains it. */
  lemma {:induction false} SplitJoin(xs: seq<string>, c: char)
    requires |xs| >= 1
    requires forall i :: 0 <= i < |xs| ==> c !in xs[i]
    ensures Split(Join(xs, [c]), c) == xs
    decreases |xs|
  {
    if |xs| == 1 {
      SplitFree(xs[0], c);
    } else {
      SplitJoin(xs[1..], c);
      SplitAfter(xs[0], c, Join(xs[1..], [c]));
      assert [xs[0]] + xs[1..] == xs;
    }
  }

  /** The upstream request URL (exchangerates.go, lines 21 to 26). */
  function RequestUrl(base: string, from: Instant, to: Instant, symbols: seq<string>): (url: string)
    ensures |Join(symbols, ",")| <= |url| && url[|url| - |Join(symbols, ",")|..] == Join(symbols, ",")
  {
    var head := START_DATE_PREFIX + FormatInstant(from) + END_DATE_KEY + FormatInstant(to)
      + BASE_KEY + base + SYMBOLS_KEY;
    var url := head + Join(symbols, ",");
    assert url[|head|..] == Join(symbols, ",");
    url
  }

  /**
   * For instants in years 0 to 9999, the URL carries the UTC date of `from` and
   * of `to` as ten-character fields that parse back to those dates, then the
   * base verbatim, then the symbols joined with ','.
   */
  lemma RequestUrlFields(base: string, from: Instant, to: Instant, symbols: seq<string>)
    requires 0 <= DateOf(from).year <= 9999 && 0 <= DateOf(to).year <= 9999
    ensures Parse(FormatInstant(from)) == Some(DateOf(from)) && Parse(FormatInstant(to)) == Some(DateOf(to))
    ensures var url, p := RequestUrl(base, from, to, symbols), |START_DATE_PREFIX|;
      var q := p + 10 + |END_DATE_KEY|;
      && |url| >= q + 10
      && url[..p] == START_DATE_PREFIX
      && url[p..p + 10] == FormatInstant(from)
      && url[p + 10..q] == END_DATE_KEY
      && url[q..q + 10] == FormatInstant(to)
      && url[q + 10..] == BASE_KEY + base + SYMBOLS_KEY + Join(symbols, ",")
  {
    DateField(from);
    DateField(to);
    ConcatFields(START_DATE_PREFIX, FormatInstant(from), END_DATE_KEY, FormatInstant(to), BASE_KEY, base, SYMBOLS_KEY, Join(symbols, ","));
  }

  lemma ConcatFields(p: string, f: string, e: string, t: string, b: string, base: string, k: string, j: string)
    requires |f| == 10 && |t| == 10
    ensures var url, q := p + f + e + t + b + base + k + j, |p| + 10 + |e|;
      && |url| >= q + 10
      && url[..|p|] == p && url[|p|..|p| + 10] == f && url[|p| + 10..q] == e
      && url[q..q + 10] == t && url[q + 10..] == b + base + k + j
  {
    var url := p + f + e + t + b + base + k + j;
    assert url == p + f + e + t + (b + base + k + j);
  }

  /** An instant of years 0 to 9999 formats to ten characters that parse back to its UTC date. */
  lemma DateField(t: Instant)
    requires 0 <= DateOf(t).year <= 9999
    ensures |FormatInstant(t)| == 10 && Parse(FormatInstant(t)) == Some(DateOf(t))
  {
    ParseFormat(DateOf(t));
  }

  // ---------------------------------------------------------------- dates

  /** Whether FetchRange keeps the rates entry under `key`: it parses, and its midnight is strictly inside (from, to). */
  predicate Kept(key: string, from: Instant, to: Instant)
    ensures Kept(key, from, to) ==> |key| == 10 && from < to
  {
    Parse(key).Some? && from < DayStart(Parse(key).value) < to
  }

  /** The instant `time.Parse` gives a key: the UTC midnight that starts its date. */
  function KeyInstant(key: string): (when: Instant)
    requires Parse(key).Some?
    ensures when % NANOS_PER_DAY == 0 && UnixSeconds(when) * NANOS_PER_SECOND == when
  {
    DayStart(Parse(key).value)
  }

  /** The instants of all kept keys. */
  ghost function KeptInstants(keys: set<string>, from: Instant, to: Instant): (kept: set<Instant>)
    ensures forall x :: x in kept ==> from < x < to
  {
    set k | k in keys && Kept(k, from, to) :: KeyInstant(k)
  }

  /** Adding one key adds its instant when it is kept, and that instant is new. */
  lemma KeptInstantsAdd(done: set<string>, raw: string, from: Instant, to: Instant)
    requires raw !in done
    ensures Kept(raw, from, to) ==> KeyInstant(raw) !in KeptInstants(done, from, to)
    ensures KeptInstants(done + {raw}, from, to)
      == KeptInstants(done, from, to) + (if Kept(raw, from, to) then {KeyInstant(raw)} else {})
  {
    if Kept(raw, from, to) && KeyInstant(raw) in KeptInstants(done, from, to) {
      var k :| k in done && Kept(k, from, to) && KeyInstant(k) == KeyInstant(raw);
      DayStartInjective(Parse(k).value, Parse(raw).value);
      ParseInjective(k, raw);
      assert false;
    }
  }

  ghost predicate StrictlyAscending(s: seq<Instant>) {
    forall i, j :: 0 <= i < j < |s| ==> s[i] < s[j]
  }

  /** A sequence with the multiset of a set holds no element twice. */
  lemma NoRepeats(s: seq<Instant>, set_: set<Instant>)
    requires multiset(s) == multiset(set_)
    ensures forall i, j :: 0 <= i < j < |s| ==> s[i] != s[j]
  {
    forall i, j | 0 <= i < j < |s|
      ensures s[i] != s[j]
    {
      assert s == s[..j] + s[j..];
      assert s[..j][i] == s[i] && s[j..][0] == s[j];
      assert multiset(s)[s[j]] == multiset(s[..j])[s[j]] + multiset(s[j..])[s[j]];
    }
  }

  /**
   * Instants on whole seconds that are pairwise distinct and sorted by Unix
   * seconds are strictly ascending: stable sorting by `Unix()` never meets a tie.
   */
  lemma SortedDistinctAscending(s: seq<Instant>)
    requires SortedByUnix(s)
    requires forall i :: 0 <= i < |s| ==> s[i] % NANOS_PER_SECOND == 0
    requires forall i, j :: 0 <= i < j < |s| ==> s[i] != s[j]
    ensures StrictlyAscending(s)
  {
    forall i, j | 0 <= i < j < |s|
      ensures s[i] < s[j]
    {
      assert s[i] == UnixSeconds(s[i]) * NANOS_PER_SECOND;
      assert s[j] == UnixSeconds(s[j]) * NANOS_PER_SECOND;
    }
  }

  /**
   * Two strictly ascending sequences with the same elements are equal: the
   * time column does not depend on the order Go happens to iterate the map in.
   */
  lemma {:induction false} AscendingUnique(a: seq<Instant>, b: seq<Instant>)
    requires StrictlyAscending(a) && StrictlyAscending(b)
    requires forall x :: x in a <==> x in b
    ensures a == b
    decreases |a|
  {
    if a != [] && b != [] {
      HeadsAgree(a, b);
      AscendingUnique(a[1..], b[1..]);
      assert a == [a[0]] + a[1..] && b == [b[0]] + b[1..];
    } else if a != [] {
      NotInEmpty(a[0], b);
    } else if b != [] {
      NotInEmpty(b[0], a);
    }
  }

  /** Nothing is in an empty sequence. */
  lemma NotInEmpty(x: Instant, s: seq<Instant>)
    requires x in s
    ensures s != []
  {
  }

  /** Same elements and strictly ascending: the first elements agree, and so do the rest. */
  lemma HeadsAgree(a: seq<Instant>, b: seq<Instant>)
    requires a != [] && b != []
    requires StrictlyAscending(a) && StrictlyAscending(b)
    requires forall x :: x in a <==> x in b
    ensures a[0] == b[0]
    ensures StrictlyAscending(a[1..]) && StrictlyAscending(b[1..])
    ensures forall x :: x in a[1..] <==> x in b[1..]
  {
    assert a[0] in a && b[0] in b;
    assert a == [a[0]] + a[1..] && b == [b[0]] + b[1..];
    assert forall x :: x in a[1..] ==> a[0] < x by {
      forall x | x in a[1..] ensures a[0] < x {
        var i :| 0 <= i < |a[1..]| && a[1..][i] == x;
        assert a[i + 1] == x;
      }
    }
    assert forall x :: x in b[1..] ==> b[0] < x by {
      forall x | x in b[1..] ensures b[0] < x {
        var i :| 0 <= i < |b[1..]| && b[1..][i] == x;
        assert b[i + 1] == x;
      }
    }
    assert a[0] == b[0];
    forall x ensures x in a[1..] <==> x in b[1..] {
      if x in a[1..] {
        assert x in b && x != b[0];
      }
      if x in b[1..] {
        assert x in a && x != a[0];
      }
    }
  }

  // ---------------------------------------------------------------- columns

  /** Go's `rates[key][symbol]`: the zero value when the date or the symbol is absent. */
  function RateAt(rates: Rates, key: string, symbol: string): (rate: Float64)
    ensures key !in rates || symbol !in rates[key] ==> rate == ZERO
  {
    if key in rates && symbol in rates[key] then rates[key][symbol] else ZERO
  }

  /** The column of `symbol`: one entry per time, looked up under the time's formatted date. */
  ghost predicate IsRateColumn(column: seq<Float64>, rates: Rates, times: seq<Instant>, symbol: string) {
    |column| == |times|
    && forall i :: 0 <= i < |times| ==> column[i] == RateAt(rates, FormatInstant(times[i]), symbol)
  }

  /** The inner loop of exchangerates.go, lines 62 to 66. */
  method RateColumn(rates: Rates, times: seq<Instant>, symbol: string) returns (exchangeRate: seq<Float64>)
    ensures IsRateColumn(exchangeRate, rates, times, symbol)
  {
    exchangeRate := [];
    var i := 0;
    while i < |times|
      invariant 0 <= i <= |times|
      invariant IsRateColumn(exchangeRate, rates, times[..i], symbol)
    {
      var key := FormatInstant(times[i]);
      RateColumnAppend(exchangeRate, rates, times[..i], times[i], symbol);
      exchangeRate := exchangeRate + [RateAt(rates, key, symbol)];
      assert times[..i + 1] == times[..i] + [times[i]];
      i := i + 1;
    }
    assert times[..i] == times;
  }

  /** A column stays a rate column when the rate of one more time is appended. */
  lemma RateColumnAppend(column: seq<Float64>, rates: Rates, times: seq<Instant>, t: Instant, symbol: string)
    requires IsRateColumn(column, rates, times, symbol)
    ensures IsRateColumn(column + [RateAt(rates, FormatInstant(t), symbol)], rates, times + [t], symbol)
  {
  }

  // ---------------------------------------------------------------- FetchRange

  /**
   * What the "time" column of FetchRange's frame holds: every kept date's
   * midnight exactly once (so nothing else), strictly ascending, strictly
   * inside (from, to), and each formatting back to the key it came from.
   */
  ghost predicate IsTimeColumn(ts: seq<Instant>, rates: Rates, from: Instant, to: Instant) {
    && multiset(ts) == multiset(KeptInstants(rates.Keys, from, to))
    && StrictlyAscending(ts)
    && (forall i :: 0 <= i < |ts| ==> from < ts[i] < to)
    && (forall i :: 0 <= i < |ts| ==>
          FormatInstant(ts[i]) in rates && Parse(FormatInstant(ts[i])).Some? && KeyInstant(FormatInstant(ts[i])) == ts[i])
  }

  /** Field 1 + k is named `symbols[k]` and holds that symbol's rate for each time. */
  ghost predicate AreSymbolColumns(fields: seq<Field>, rates: Rates, ts: seq<Instant>, symbols: seq<string>) {
    && |fields| == 1 + |symbols|
    && forall k :: 0 <= k < |symbols| ==>
         fields[1 + k].name == symbols[k] && fields[1 + k].values.Floats?
         && IsRateColumn(fields[1 + k].values.floats, rates, ts, symbols[k])
  }

  /**
   * The loop of exchangerates.go, lines 46 to 55: writes the midnight of every
   * key that parses and lies strictly inside (from, to) into `times`, whose
   * capacity is the number of keys, and returns how many it wrote. The map's
   * iteration order is left open: any order satisfies the contract.
   */
  method CollectKept(rates: Rates, from: Instant, to: Instant, times: array<Instant>) returns (n: nat)
    requires times.Length == |rates|
    modifies times
    ensures n <= times.Length
    ensures multiset(times[..n]) == multiset(KeptInstants(rates.Keys, from, to))
  {
    n := 0;
    var remaining := rates.Keys;
    while remaining != {}
      invariant remaining <= rates.Keys
      invariant n + |remaining| <= times.Length
      invariant multiset(times[..n]) == multiset(KeptInstants(rates.Keys - remaining, from, to))
      decreases remaining
    {
      var rawWhen :| rawWhen in remaining;
      ghost var done := rates.Keys - remaining;
      n := CollectOne(rawWhen, from, to, times, n, done);
      RemainingStep(rates.Keys, remaining, rawWhen);
      remaining := remaining - {rawWhen};
    }
    assert rates.Keys - remaining == rates.Keys;
  }

  /** Walking `x` moves it from the keys remaining to the keys done. */
  lemma RemainingStep(keys: set<string>, remaining: set<string>, x: string)
    requires x in remaining && remaining <= keys
    ensures keys - (remaining - {x}) == (keys - remaining) + {x}
    ensures |remaining - {x}| == |remaining| - 1
  {
  }

  /**
   * One pass of that loop, for the key `rawWhen`: a key that does not parse is
   * skipped, and a kept one's midnight is written at `times[n]`.
   */
  method CollectOne(rawWhen: string, from: Instant, to: Instant, times: array<Instant>, n: nat, ghost done: set<string>)
    returns (next: nat)
    requires n < times.Length && rawWhen !in done
    requires multiset(times[..n]) == multiset(KeptInstants(done, from, to))
    modifies times
    ensures next == n || next == n + 1
    ensures times[..n] == old(times[..n])
    ensures next == n + 1 <==> Kept(rawWhen, from, to)
    ensures next == n + 1 ==> times[n] == KeyInstant(rawWhen)
    ensures times[next..] == old(times[next..])
    ensures multiset(times[..next]) == multiset(KeptInstants(done + {rawWhen}, from, to))
  {
    ghost var before := times[..n];
    next := n;
    match Parse(rawWhen) {
      case None =>
      case Some(date) =>
        var when := DayStart(date);
        if from < when && when < to {
          times[n] := when;
          next := n + 1;
          assert times[..next] == before + [when];
        }
    }
    CollectStep(before, times[..next], done, rawWhen, from, to);
  }

  /** One iteration of CollectKept keeps its invariant. */
  lemma CollectStep(before: seq<Instant>, after: seq<Instant>, done: set<string>, raw: string, from: Instant, to: Instant)
    requires raw !in done
    requires multiset(before) == multiset(KeptInstants(done, from, to))
    requires after == if Kept(raw, from, to) then before + [KeyInstant(raw)] else before
    ensures multiset(after) == multiset(KeptInstants(done + {raw}, from, to))
  {
    KeptInstantsAdd(done, raw, from, to);
  }

  /** After sorting, the collected instants form the time column. */
  lemma SortedKeptIsTimeColumn(ts: seq<Instant>, rates: Rates, from: Instant, to: Instant)
    requires multiset(ts) == multiset(KeptInstants(rates.Keys, from, to))
    requires SortedByUnix(ts)
    ensures IsTimeColumn(ts, rates, from, to)
  {
    ghost var kept := KeptInstants(rates.Keys, from, to);
    NoRepeats(ts, kept);
    forall i | 0 <= i < |ts|
      ensures ts[i] % NANOS_PER_SECOND == 0
      ensures from < ts[i] < to
      ensures FormatInstant(ts[i]) in rates && Parse(FormatInstant(ts[i])).Some? && KeyInstant(FormatInstant(ts[i])) == ts[i]
    {
      assert ts[i] in multiset(kept);
      KeptElement(ts[i], rates, from, to);
    }
    SortedDistinctAscending(ts);
  }

  /** A kept instant is a whole second strictly inside the bounds, and formats back to a key of `rates`. */
  lemma KeptElement(x: Instant, rates: Rates, from: Instant, to: Instant)
    requires x in KeptInstants(rates.Keys, from, to)
    ensures x % NANOS_PER_SECOND == 0
    ensures from < x < to
    ensures FormatInstant(x) in rates && Parse(FormatInstant(x)).Some? && KeyInstant(FormatInstant(x)) == x
  {
    var k :| k in rates.Keys && Kept(k, from, to) && KeyInstant(k) == x;
    var d := Parse(k).value;
    assert x == DayStart(d);
    DayStartWhole(d);
    FormatDayStart(k);
    assert FormatInstant(x) == k;
  }

  /** Completeness: the midnight of every key that parses and lies strictly inside (from, to) is in the time column. */
  lemma TimeColumnComplete(ts: seq<Instant>, rates: Rates, from: Instant, to: Instant, key: string)
    requires IsTimeColumn(ts, rates, from, to)
    requires key in rates && Kept(key, from, to)
    ensures KeyInstant(key) in ts
  {
    assert KeyInstant(key) in KeptInstants(rates.Keys, from, to);
    assert KeyInstant(key) in multiset(ts);
  }

  /** Soundness: every entry of the time column is the midnight of a kept key. */
  lemma TimeColumnSound(ts: seq<Instant>, rates: Rates, from: Instant, to: Instant, i: int)
    requires IsTimeColumn(ts, rates, from, to) && 0 <= i < |ts|
    ensures exists key :: key in rates && Kept(key, from, to) && KeyInstant(key) == ts[i]
  {
    assert ts[i] in multiset(ts);
    assert ts[i] in KeptInstants(rates.Keys, from, to);
  }

  /** A key that does not parse is skipped: removing it leaves the kept instants unchanged. */
  lemma UnparsedKeySkipped(keys: set<string>, key: string, from: Instant, to: Instant)
    requires key in keys && Parse(key).None?
    ensures KeptInstants(keys, from, to) == KeptInstants(keys - {key}, from, to)
  {
    KeptInstantsAdd(keys - {key}, key, from, to);
    assert keys - {key} + {key} == keys;
  }

  /**
   * The time column is determined by the rates and the bounds alone: two
   * columns for the same input are equal, whatever order the map was walked in.
   */
  lemma TimeColumnUnique(ts: seq<Instant>, us: seq<Instant>, rates: Rates, from: Instant, to: Instant)
    requires IsTimeColumn(ts, rates, from, to) && IsTimeColumn(us, rates, from, to)
    ensures ts == us
  {
    forall x
      ensures x in ts <==> x in us
    {
      assert x in ts <==> x in multiset(ts);
      assert x in us <==> x in multiset(us);
    }
    AscendingUnique(ts, us);
  }

  /** The loop of exchangerates.go, lines 61 to 69: one float column per symbol, in argument order. */
  method SymbolColumns(rates: Rates, ts: seq<Instant>, symbols: seq<string>) returns (fields: seq<Field>)
    ensures |fields| == 1 + |symbols| && fields[0] == Field("time", Times(ts))
    ensures AreSymbolColumns(fields, rates, ts, symbols)
  {
    fields := [Field("time", Times(ts))];
    var s := 0;
    while s < |symbols|
      invariant 0 <= s <= |symbols|
      invariant |fields| == 1 + s && fields[0] == Field("time", Times(ts))
      invariant AreSymbolColumns(fields, rates, ts, symbols[..s])
    {
      var exchangeRate := RateColumn(rates, ts, symbols[s]);
      fields := fields + [Field(symbols[s], Floats(exchangeRate))];
      s := s + 1;
      assert symbols[..s][..s - 1] == symbols[..s - 1];
    }
    assert symbols[..s] == symbols;
  }

  /**
   * `FetchRange(base, from, to, symbols...)`. `upstream` is what the GET of
   * `url` decoded to (or the transport or decoding error). On success the frame
   * holds a "time" column with every kept date exactly once, strictly ascending,
   * and after it one column per symbol, in argument order.
   */
  method FetchRange(base: string, from: Instant, to: Instant, symbols: seq<string>, upstream: Result<TimeSeriesJson>)
    returns (url: string, out: Result<Frame>)
    ensures url == RequestUrl(base, from, to, symbols)
    ensures upstream.Err? ==> out == Err(upstream.error)
    ensures upstream.Ok? ==> out.Ok? && out.value.name == FRAME_NAME
    ensures upstream.Ok? ==>
      var fields := out.value.fields;
      && |fields| >= 1 && fields[0].name == "time" && fields[0].values.Times?
      && IsTimeColumn(fields[0].values.times, upstream.value.rates, from, to)
      && AreSymbolColumns(fields, upstream.value.rates, fields[0].values.times, symbols)
  {
    url := RequestUrl(base, from, to, symbols);
    if upstream.Err? {
      return url, Err(upstream.error);
    }
    var rates := upstream.value.rates;
    var times := new Instant[|rates|];
    var n := CollectKept(rates, from, to, times);
    SortByUnix(times, n);
    SortedKeptIsTimeColumn(times[..n], rates, from, to);
    var fields := SymbolColumns(rates, times[..n], symbols);
    out := Ok(Frame(FRAME_NAME, fields));
  }
}
