/** The older benchmark module (`comparar_fundos_br/benchmarks.py`): every
    benchmark but the Ibovespa is read from a central-bank series, CDI
    included, and both frames are named "CDI" whatever was asked for. Its
    window, accumulation and `get_stocks` are those of `Benchmarks`. */
module BenchmarksLegacy {
  import opened Wrappers
  import opened Text
  import opened Errors
  import opened Benchmarks

  /** The if/elif chain of the older `get_benchmark`: CDI is series 12. */
  function LegacyDispatch(benchmark: string): (r: Result<Route, Error>)
    ensures r.Err? <==> Upper(benchmark) !in Known
    ensures r.Err? ==> r.error == BenchmarkNotFound
    ensures r != Ok(Selic)
    ensures r == Ok(BcbSeries(12)) <==> Upper(benchmark) == "CDI"
    ensures r == Ok(Ibovespa) <==> Upper(benchmark) == "IBOV"
  {
    var b := Upper(benchmark);
    if b == "CDI" then Ok(BcbSeries(12))
    else if b == "IMA-B" then Ok(BcbSeries(12466))
    else if b == "IMA-B 5" then Ok(BcbSeries(12467))
    else if b == "IMA-B 5+" then Ok(BcbSeries(12468))
    else if b == "IBOV" then Ok(Ibovespa)
    else Err(BenchmarkNotFound)
  }

  /** Both dispatch tables accept the same names and agree on every name
      but CDI. */
  lemma DispatchesAgree(benchmark: string)
    ensures LegacyDispatch(benchmark).Err? <==> Dispatch(benchmark).Err?
    ensures Upper(benchmark) != "CDI" ==> LegacyDispatch(benchmark) == Dispatch(benchmark)
  {
  }

  /** `get_benchmark` of the older module; `series(code)` is the parsed JSON
      of a series, `None` when the body is not a JSON table (the library's
      error then propagates). */
  function LegacyGetBenchmark(benchmark: string, start: int, end: int,
                              series: nat -> Option<seq<Point>>): (r: Result<Outcome, Error>)
    ensures LegacyDispatch(benchmark).Err? ==> r == Err(BenchmarkNotFound)
    ensures r == Ok(Delegated) <==> Upper(benchmark) == "IBOV"
    ensures LegacyDispatch(benchmark).Ok? && LegacyDispatch(benchmark).value.BcbSeries? ==>
      var code := LegacyDispatch(benchmark).value.code;
      r == if series(code).None? then Err(UnreadableJson)
           else SeriesFrames(series(code).value, start, end, "CDI")
  {
    match LegacyDispatch(benchmark)
    case Err(e) => Err(e)
    case Ok(Ibovespa) => Ok(Delegated)
    case Ok(Selic) => assert false; Err(BenchmarkNotFound)
    case Ok(BcbSeries(code)) =>
      match series(code)
      case None => Err(UnreadableJson)
      case Some(points) => SeriesFrames(points, start, end, "CDI")
  }

  /** The frames are named "CDI" whatever benchmark was asked for, so an
      IMA-B series comes back under the CDI label. */
  lemma AlwaysNamedCdi(benchmark: string, start: int, end: int, series: nat -> Option<seq<Point>>)
    requires LegacyGetBenchmark(benchmark, start, end, series).Ok?
    requires LegacyGetBenchmark(benchmark, start, end, series).value.Frames?
    ensures LegacyGetBenchmark(benchmark, start, end, series).value.daily.column == "CDI"
    ensures LegacyGetBenchmark(benchmark, start, end, series).value.accumulated.column == "CDI"
  {
  }

  /** The older module reads CDI from series 12 and windows it like any
      other series. */
  lemma CdiReadsSeries12(start: int, end: int, series: nat -> Option<seq<Point>>)
    requires series(12).Some? && Window(series(12).value, start, end) != []
    ensures LegacyGetBenchmark("CDI", start, end, series).Ok?
    ensures LegacyGetBenchmark("CDI", start, end, series).value.daily == Frame("CDI", Window(series(12).value, start, end))
  {
    assert Upper("CDI") == "CDI";
  }
}
