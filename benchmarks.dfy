/** Benchmarks (`src/comparar_fundos_br/benchmarks.py`): which source a
    benchmark name is read from, the date window and scaling of the series,
    its accumulated index, and the ticker suffixing of `get_stocks`. */
module Benchmarks {
  import opened Wrappers
  import opened Seqs
  import opened Text
  import opened Errors

  // ---------------------------------------------------------------------
  // Dispatch

  /** Where a benchmark is read from: the Tesouro Selic prices, a series of
      the central bank's time-series system (the SGS code), or the Ibovespa
      download, which returns its own frames. */
  datatype Route = Selic | BcbSeries(code: nat) | Ibovespa

  /** The names the dispatch accepts, after upper-casing. */
  const Known: seq<string> := ["CDI", "IMA-B", "IMA-B 5", "IMA-B 5+", "IBOV"]

  /** The if/elif chain of `get_benchmark`, on `benchmark.upper()`. */
  function Dispatch(benchmark: string): (r: Result<Route, Error>)
    ensures r.Err? <==> Upper(benchmark) !in Known
    ensures r.Err? ==> r.error == BenchmarkNotFound
    ensures r == Ok(Selic) <==> Upper(benchmark) == "CDI"
    ensures r == Ok(Ibovespa) <==> Upper(benchmark) == "IBOV"
    ensures r.Ok? && r.value.BcbSeries? ==> r.value.code in {12466, 12467, 12468}
  {
    var b := Upper(benchmark);
    if b == "CDI" then Ok(Selic)
    else if b == "IMA-B" then Ok(BcbSeries(12466))
    else if b == "IMA-B 5" then Ok(BcbSeries(12467))
    else if b == "IMA-B 5+" then Ok(BcbSeries(12468))
    else if b == "IBOV" then Ok(Ibovespa)
    else Err(BenchmarkNotFound)
  }

  /** The three IMA-B indices go to their own series, by exact name. */
  lemma ImaBSeries(benchmark: string)
    ensures Dispatch(benchmark) == Ok(BcbSeries(12466)) <==> Upper(benchmark) == "IMA-B"
    ensures Dispatch(benchmark) == Ok(BcbSeries(12467)) <==> Upper(benchmark) == "IMA-B 5"
    ensures Dispatch(benchmark) == Ok(BcbSeries(12468)) <==> Upper(benchmark) == "IMA-B 5+"
  {
  }

  /** The dispatch does not depend on the case of the name. */
  lemma DispatchIgnoresCase(benchmark: string)
    ensures Dispatch(Upper(benchmark)) == Dispatch(benchmark)
  {
    UpperIdempotent(benchmark);
  }

  /** "selic" is not a benchmark name, and the error says so. */
  lemma SelicRejected()
    ensures Dispatch("selic") == Err(BenchmarkNotFound)
    ensures Message(Dispatch("selic").error) == "Benchmark não encontrado."
  {
    assert Upper("selic") == "SELIC";
  }

  /** The JSON address of a central-bank series. */
  function SeriesUrl(code: nat): (r: string)
    ensures StartsWith(r, "http://api.bcb.gov.br/dados/serie/bcdata.sgs.")
    ensures EndsWith(r, "/dados?formato=json")
  {
    var r := "http://api.bcb.gov.br/dados/serie/bcdata.sgs." + NatToString(code) + "/dados?formato=json";
    assert r[..45] == "http://api.bcb.gov.br/dados/serie/bcdata.sgs.";
    assert r[|r| - 19..] == "/dados?formato=json";
    r
  }

  // ---------------------------------------------------------------------
  // The series

  /** One dated value; dates are day numbers. */
  datatype Point = Point(date: int, value: real)

  /** A one-column frame indexed by date. */
  datatype Frame = Frame(column: string, points: seq<Point>)

  /** `df[(df.index >= inicio) & (df.index <= fim)] / 100`: the closed date
      window, in percent points divided by 100. */
  function Window(points: seq<Point>, start: int, end: int): (r: seq<Point>)
    ensures |r| <= |points|
  {
    Map(Filter(points, (p: Point) => start <= p.date <= end), (p: Point) => Point(p.date, p.value / 100.0))
  }

  /** A point is in the window exactly when some input point on a date
      inside `[start, end]` has 100 times its value. */
  lemma WindowMembers(points: seq<Point>, start: int, end: int)
    ensures forall q :: q in Window(points, start, end) <==>
      (start <= q.date <= end && Point(q.date, q.value * 100.0) in points)
  {
    var kept := Filter(points, (p: Point) => start <= p.date <= end);
    forall q ensures q in Window(points, start, end) <==>
      (start <= q.date <= end && Point(q.date, q.value * 100.0) in points)
    {
      if q in Window(points, start, end) {
        var i :| 0 <= i < |kept| && Window(points, start, end)[i] == q;
        assert kept[i] in kept;
        assert kept[i] == Point(q.date, q.value * 100.0);
      }
      if start <= q.date <= end && Point(q.date, q.value * 100.0) in points {
        var p := Point(q.date, q.value * 100.0);
        assert p in kept;
        var i :| 0 <= i < |kept| && kept[i] == p;
        assert Window(points, start, end)[i] == q;
      }
    }
  }

  /** Dates strictly increase along the series. */
  predicate Increasing(points: seq<Point>) {
    forall i, j :: 0 <= i < j < |points| ==> points[i].date < points[j].date
  }

  /** The window keeps the order of the dates it is given. */
  lemma WindowKeepsOrder(points: seq<Point>, start: int, end: int)
    requires Increasing(points)
    ensures Increasing(Window(points, start, end))
  {
    var kept := Filter(points, (p: Point) => start <= p.date <= end);
    FilterKeepsOrder(points, (p: Point) => start <= p.date <= end);
    var w := Window(points, start, end);
    forall i, j | 0 <= i < j < |w| ensures w[i].date < w[j].date {
      assert w[i].date == kept[i].date && w[j].date == kept[j].date;
    }
  }

  lemma {:induction false} FilterKeepsOrder(points: seq<Point>, keep: Point -> bool)
    requires Increasing(points)
    ensures Increasing(Filter(points, keep))
  {
    if points != [] {
      var tail := points[1..];
      assert Increasing(tail) by {
        forall i, j | 0 <= i < j < |tail| ensures tail[i].date < tail[j].date {
          assert tail[i] == points[i + 1] && tail[j] == points[j + 1];
        }
      }
      FilterKeepsOrder(tail, keep);
      if keep(points[0]) {
        var f := Filter(tail, keep);
        forall y | y in f ensures points[0].date < y.date {
          var m :| 0 <= m < |tail| && tail[m] == y;
          assert tail[m] == points[m + 1];
        }
        IncreasingCons(points[0], f);
      }
    }
  }

  /** A point earlier than every point of an increasing sequence can start it. */
  lemma IncreasingCons(x: Point, f: seq<Point>)
    requires Increasing(f) && forall y :: y in f ==> x.date < y.date
    ensures Increasing([x] + f)
  {
    var g := [x] + f;
    forall i, j | 0 <= i < j < |g| ensures g[i].date < g[j].date {
      assert g[j] == f[j - 1];
      if i > 0 {
        assert g[i] == f[i - 1];
      }
    }
  }

  /** The product of the first `n` growth factors `1 + r`. */
  function Growth(rates: seq<real>, n: nat): real
    requires n <= |rates|
  {
    if n == 0 then 1.0 else Growth(rates, n - 1) * (1.0 + rates[n - 1])
  }

  /** `(1 + df).cumprod()` followed by `iloc[0] = 1`; the assignment fails
      on an empty frame. Entry 0 is overwritten, but the later entries keep
      the factor of the first rate. */
  function Accumulate(rates: seq<real>): (r: Result<seq<real>, Error>)
    ensures r.Err? <==> rates == []
    ensures r.Err? ==> r.error == NoValue
    ensures r.Ok? ==> |r.value| == |rates| && r.value[0] == 1.0
    ensures r.Ok? ==> forall i :: 1 <= i < |rates| ==> r.value[i] == Growth(rates, i + 1)
  {
    if rates == [] then Err(NoValue)
    else Ok(seq(|rates|, i requires 0 <= i < |rates| => Growth(rates, i + 1))[0 := 1.0])
  }

  /** From the third entry on, each accumulated value is the previous one
      times the day's factor; the second entry carries both of the first two
      factors, so the series does not step from 1 by the second day's rate. */
  lemma AccumulateSteps(rates: seq<real>)
    requires |rates| >= 2
    ensures var a := Accumulate(rates).value;
      && a[1] == (1.0 + rates[0]) * (1.0 + rates[1])
      && forall i :: 2 <= i < |rates| ==> a[i] == a[i - 1] * (1.0 + rates[i])
  {
    assert Growth(rates, 1) == 1.0 + rates[0];
  }

  /** Accumulating non-negative rates gives a non-decreasing index from the
      second entry on. */
  lemma {:induction false} GrowthMonotone(rates: seq<real>, n: nat)
    requires n <= |rates| && forall i :: 0 <= i < |rates| ==> rates[i] >= 0.0
    ensures Growth(rates, n) >= 1.0
    ensures n >= 1 ==> Growth(rates, n) >= Growth(rates, n - 1)
  {
    if n > 0 {
      GrowthMonotone(rates, n - 1);
      var g := Growth(rates, n - 1);
      assert g * (1.0 + rates[n - 1]) == g + g * rates[n - 1];
      assert g * rates[n - 1] >= 0.0;
    }
  }

  /** The two frames of a benchmark read from a series. */
  datatype Outcome =
    /** The IBOV route: `get_ibovespa`'s own frames are returned. */
    | Delegated
    | Frames(daily: Frame, accumulated: Frame)

  /** The window, scaling and accumulation shared by every series, with the
      column named `column`. */
  function SeriesFrames(points: seq<Point>, start: int, end: int, column: string): (r: Result<Outcome, Error>)
    ensures r.Err? <==> Window(points, start, end) == []
    ensures r.Err? ==> r.error == NoValue
    ensures r.Ok? ==> r.value.Frames? && r.value.daily.column == column && r.value.accumulated.column == column
    ensures r.Ok? ==> r.value.daily.points == Window(points, start, end)
    ensures r.Ok? ==> |r.value.accumulated.points| == |r.value.daily.points|
  {
    var daily := Window(points, start, end);
    var rates := Map(daily, (p: Point) => p.value);
    match Accumulate(rates)
    case Err(e) => Err(e)
    case Ok(acc) =>
      var accumulated := seq(|daily|, i requires 0 <= i < |daily| => Point(daily[i].date, acc[i]));
      Ok(Frames(Frame(column, daily), Frame(column, accumulated)))
  }

  /** The accumulated frame has the daily frame's dates, starts at 1 and
      compounds the daily values. */
  lemma SeriesFramesAccumulate(points: seq<Point>, start: int, end: int, column: string)
    requires SeriesFrames(points, start, end, column).Ok?
    ensures var o := SeriesFrames(points, start, end, column).value;
      var d, a := o.daily.points, o.accumulated.points;
      && (forall i :: 0 <= i < |d| ==> a[i].date == d[i].date)
      && a[0].value == 1.0
      && forall i :: 1 <= i < |d| ==> a[i].value == Growth(Map(d, (p: Point) => p.value), i + 1)
  {
  }

  /** `get_benchmark`. The Selic prices and the central-bank series are
      inputs: `selic` is what the Tesouro Direto query returns, and
      `series(code)` the parsed JSON of series `code`, `None` when the body
      is not a JSON table. */
  function GetBenchmark(benchmark: string, start: int, end: int,
                        selic: seq<Point>, series: nat -> Option<seq<Point>>): (r: Result<Outcome, Error>)
    ensures Dispatch(benchmark).Err? ==> r == Err(BenchmarkNotFound)
    ensures r.Ok? && r.value.Frames? ==>
      r.value.daily.column == Upper(benchmark) && r.value.accumulated.column == Upper(benchmark)
    ensures r == Ok(Delegated) <==> Upper(benchmark) == "IBOV"
    ensures Dispatch(benchmark) == Ok(Selic) ==> r == SeriesFrames(selic, start, end, Upper(benchmark))
    ensures Dispatch(benchmark).Ok? && Dispatch(benchmark).value.BcbSeries? ==>
      var code := Dispatch(benchmark).value.code;
      r == if series(code).None? then Err(DataUnavailable)
           else SeriesFrames(series(code).value, start, end, Upper(benchmark))
  {
    match Dispatch(benchmark)
    case Err(e) => Err(e)
    case Ok(Ibovespa) => Ok(Delegated)
    case Ok(Selic) => SeriesFrames(selic, start, end, Upper(benchmark))
    case Ok(BcbSeries(code)) =>
      match series(code)
      case None => Err(DataUnavailable)
      case Some(points) => SeriesFrames(points, start, end, Upper(benchmark))
  }

  /** An unknown name fails before any series is looked at: the outcome
      does not depend on the downloaded data. */
  lemma UnknownNeedsNoData(benchmark: string, start: int, end: int,
                           selic: seq<Point>, series: nat -> Option<seq<Point>>,
                           selic': seq<Point>, series': nat -> Option<seq<Point>>)
    requires Upper(benchmark) !in Known
    ensures GetBenchmark(benchmark, start, end, selic, series) == GetBenchmark(benchmark, start, end, selic', series')
  {
  }

  /** "IMA-B" reads series 12466: its window is the daily frame under the
      name `IMA-B`, and a body that is not a JSON table is `Dados não
      disponíveis`. */
  lemma ImaBReadsSeries(start: int, end: int, selic: seq<Point>, series: nat -> Option<seq<Point>>)
    ensures series(12466).None? ==> GetBenchmark("ima-b", start, end, selic, series) == Err(DataUnavailable)
    ensures series(12466).Some? && Window(series(12466).value, start, end) != [] ==>
      && GetBenchmark("ima-b", start, end, selic, series).Ok?
      && GetBenchmark("ima-b", start, end, selic, series).value.daily == Frame("IMA-B", Window(series(12466).value, start, end))
  {
    assert Upper("ima-b") == "IMA-B";
  }

  /** "CDI" reads the Selic prices, and their window is the daily frame. */
  lemma CdiReadsSelic(start: int, end: int, selic: seq<Point>, series: nat -> Option<seq<Point>>)
    requires Window(selic, start, end) != []
    ensures GetBenchmark("cdi", start, end, selic, series).Ok?
    ensures GetBenchmark("cdi", start, end, selic, series).value.daily == Frame("CDI", Window(selic, start, end))
  {
    assert Upper("cdi") == "CDI";
  }

  // ---------------------------------------------------------------------
  // get_stocks

  const MarketSuffix: string := ".SA"

  /** `st if st.endswith(".SA") else st + ".SA"`. */
  function Suffix(ticker: string): (r: string)
    ensures EndsWith(r, MarketSuffix)
    ensures r == ticker <==> EndsWith(ticker, MarketSuffix)
    ensures StartsWith(r, ticker)
  {
    if EndsWith(ticker, MarketSuffix) then ticker
    else
      var r := ticker + MarketSuffix;
      assert r[|r| - 3..] == MarketSuffix;
      assert r[..|ticker|] == ticker;
      r
  }

  /** Suffixing twice is suffixing once. */
  lemma SuffixIdempotent(ticker: string)
    ensures Suffix(Suffix(ticker)) == Suffix(ticker)
  {
  }

  /** `acoes` is a single ticker or a list of them. */
  datatype Tickers = Ticker(name: string) | TickerList(names: seq<string>)

  /** The tickers whose downloads `get_stocks` concatenates, in column
      order: each new frame goes in front, so a list comes out reversed. */
  method StockBlocks(acoes: Tickers) returns (blocks: seq<string>)
    ensures acoes.Ticker? ==> blocks == [Suffix(acoes.name)]
    ensures acoes.TickerList? ==> blocks == Reverse(Map(acoes.names, Suffix))
  {
    match acoes
    case Ticker(name) =>
      var st := name;
      if !EndsWith(st, MarketSuffix) {
        st := st + MarketSuffix;
      }
      blocks := [st];
    case TickerList(names) =>
      blocks := [];
      var i := 0;
      while i < |names|
        invariant 0 <= i <= |names|
        invariant blocks == Reverse(Map(names[..i], Suffix))
      {
        var st := names[i];
        if !EndsWith(st, MarketSuffix) {
          st := st + MarketSuffix;
        }
        ReverseStep(Map(names[..i], Suffix), st);
        assert Map(names[..i + 1], Suffix) == Map(names[..i], Suffix) + [st];
        blocks := [st] + blocks;
        i := i + 1;
      }
      assert names[..i] == names;
  }

  lemma ReverseStep<T>(s: seq<T>, x: T)
    ensures Reverse(s + [x]) == [x] + Reverse(s)
  {
    var r := Reverse(s + [x]);
    assert r[0] == x;
    forall i | 0 <= i < |s| ensures r[i + 1] == Reverse(s)[i] {
      assert (s + [x])[|s| - 1 - i] == s[|s| - 1 - i];
    }
  }

  /** Every block is a suffixed ticker, and every requested ticker has one. */
  lemma StockBlocksSuffixed(names: seq<string>)
    ensures forall b :: b in Reverse(Map(names, Suffix)) ==> EndsWith(b, MarketSuffix)
    ensures forall t :: t in names ==> Suffix(t) in Reverse(Map(names, Suffix))
  {
    var m := Map(names, Suffix);
    var r := Reverse(m);
    forall t | t in names ensures Suffix(t) in r {
      var i :| 0 <= i < |names| && names[i] == t;
      assert r[|m| - 1 - i] == m[i];
    }
  }
}
