/** The analysis helpers of `src/comparar_fundos_br/comparador.py`: rolling
    holding-period returns, daily and cumulative returns, the share of
    windows in which a fund beats each benchmark, the frequency names of the
    heatmap, its cycle labels, and the column matching of the evolution
    chart. Dates are the row order of the frame; every column of one call is
    read on the same dates. */
module Comparador {
  import opened Wrappers
  import opened Seqs
  import opened Text
  import opened Errors
  import opened Tables
  import opened Columns

  // ---------------------------------------------------------------------
  // Rows of a frame

  /** One date of a frame: a cell per column. */
  type Row = seq<Option<real>>

  /** `dropna()` keeps a row when none of its cells is missing. */
  predicate Complete(row: Row) {
    forall c :: 0 <= c < |row| ==> row[c].Some?
  }

  /** Every row has `w` cells. */
  predicate Rect(rows: seq<Row>, w: nat) {
    forall k :: 0 <= k < |rows| ==> |rows[k]| == w
  }

  /** Every present cell is non-zero (division by zero is not modelled). */
  predicate NonZeroRows(rows: seq<Row>) {
    forall k, c :: 0 <= k < |rows| && 0 <= c < |rows[k]| && rows[k][c].Some? ==> rows[k][c].value != 0.0
  }

  /** The complete rows, in date order. */
  function Dense(rows: seq<Row>): (d: seq<Row>)
    ensures |d| == Count(rows, Complete)
    ensures forall i :: 0 <= i < |d| ==> Complete(d[i]) && d[i] in rows
  {
    Filter(rows, Complete)
  }

  lemma DenseShape(rows: seq<Row>, w: nat)
    requires Rect(rows, w) && NonZeroRows(rows)
    ensures Rect(Dense(rows), w) && NonZeroRows(Dense(rows))
    ensures forall i, c :: 0 <= i < |Dense(rows)| && 0 <= c < w ==> Dense(rows)[i][c].Some?
  {
    var d: seq<Row> := Dense(rows);
    forall i | 0 <= i < |d| ensures |d[i]| == w {
      assert d[i] in rows;
    }
    forall i, c | 0 <= i < |d| && 0 <= c < w ensures d[i][c].Some? {
      assert Complete(d[i]);
    }
  }

  lemma Cancel(a: real, b: real, c: real)
    requires b != 0.0 && c != 0.0
    ensures c / b != 0.0
    ensures (a / b) / (c / b) == a / c
  {
  }

  lemma DivNonZero(a: real, b: real)
    requires a != 0.0 && b != 0.0
    ensures a / b != 0.0
  {
  }

  /** Every complete row divided, cell by cell, by the first one. */
  function NormaliseRows(dense: seq<Row>, w: nat): (n: seq<seq<real>>)
    requires dense != [] && Rect(dense, w) && NonZeroRows(dense)
    requires forall i, c :: 0 <= i < |dense| && 0 <= c < w ==> dense[i][c].Some?
    ensures |n| == |dense|
    ensures forall i :: 0 <= i < |n| ==> |n[i]| == w
    ensures forall i, c :: 0 <= i < |n| && 0 <= c < w ==>
      n[i][c] == dense[i][c].value / dense[0][c].value && n[i][c] != 0.0
  {
    var n := seq(|dense|, i requires 0 <= i < |dense| =>
      seq(w, c requires 0 <= c < w => dense[i][c].value / dense[0][c].value));
    forall i, c | 0 <= i < |dense| && 0 <= c < w ensures n[i][c] != 0.0 {
      DivNonZero(dense[i][c].value, dense[0][c].value);
    }
    n
  }

  /** `pct_change(hp).dropna()` on rows without gaps. */
  function Windows(n: seq<seq<real>>, w: nat, hp: nat): (r: seq<seq<real>>)
    requires forall i :: 0 <= i < |n| ==> |n[i]| == w
    requires forall i, c :: 0 <= i < |n| && 0 <= c < w ==> n[i][c] != 0.0
    ensures |r| == if |n| > hp then |n| - hp else 0
    ensures forall i :: 0 <= i < |r| ==> |r[i]| == w
    ensures forall i, c :: 0 <= i < |r| && 0 <= c < w ==> r[i][c] == n[i + hp][c] / n[i][c] - 1.0
  {
    if |n| <= hp then []
    else
      seq(|n| - hp, i requires 0 <= i < |n| - hp =>
        seq(w, c requires 0 <= c < w => n[i + hp][c] / n[i][c] - 1.0))
  }

  /** `calcula_retorno_janelas_moveis`: the complete rows, normalised by the
      first of them, then `pct_change(hp)` with its first `hp` rows dropped.
      Without any complete row the normalisation fails on an empty
      selection. Normalisation cancels: each window value is the ratio of
      two complete rows `hp` apart, minus one. */
  function Rolling(rows: seq<Row>, w: nat, hp: nat): (r: Result<seq<seq<real>>, Error>)
    requires Rect(rows, w) && NonZeroRows(rows)
    ensures r.Err? <==> Count(rows, Complete) == 0
    ensures r.Err? ==> r.error == NoValue
    ensures r.Ok? ==> |r.value| == if Count(rows, Complete) > hp then Count(rows, Complete) - hp else 0
    ensures r.Ok? ==> forall i :: 0 <= i < |r.value| ==> |r.value[i]| == w
    ensures r.Ok? ==> forall i, c :: 0 <= i < |r.value| && 0 <= c < w ==>
      r.value[i][c] == Dense(rows)[i + hp][c].value / Dense(rows)[i][c].value - 1.0
  {
    var dense := Dense(rows);
    DenseShape(rows, w);
    if dense == [] then Err(NoValue)
    else
      WindowsCancel(dense, w, hp);
      Ok(Windows(NormaliseRows(dense, w), w, hp))
  }

  /** The normalisation cancels in every window. */
  lemma WindowsCancel(dense: seq<Row>, w: nat, hp: nat)
    requires dense != [] && Rect(dense, w) && NonZeroRows(dense)
    requires forall i, c :: 0 <= i < |dense| && 0 <= c < w ==> dense[i][c].Some?
    ensures var windows := Windows(NormaliseRows(dense, w), w, hp);
      forall i, c :: 0 <= i < |windows| && 0 <= c < w ==>
        windows[i][c] == dense[i + hp][c].value / dense[i][c].value - 1.0
  {
    var windows := Windows(NormaliseRows(dense, w), w, hp);
    forall i, c | 0 <= i < |windows| && 0 <= c < w
      ensures windows[i][c] == dense[i + hp][c].value / dense[i][c].value - 1.0
    {
      Cancel(dense[i + hp][c].value, dense[0][c].value, dense[i][c].value);
    }
  }

  /** A series that rises strictly and stays positive has only positive
      window returns. */
  lemma RisingWindowsPositive(rows: seq<Row>, w: nat, hp: nat)
    requires Rect(rows, w) && NonZeroRows(rows) && hp > 0
    requires forall i, j, c :: 0 <= i < j < |Dense(rows)| && 0 <= c < w ==>
      0.0 < Dense(rows)[i][c].value < Dense(rows)[j][c].value
    requires Rolling(rows, w, hp).Ok?
    ensures forall i, c :: 0 <= i < |Rolling(rows, w, hp).value| && 0 <= c < w ==>
      Rolling(rows, w, hp).value[i][c] > 0.0
  {
    var r: seq<seq<real>> := Rolling(rows, w, hp).value;
    var d: seq<Row> := Dense(rows);
    DenseShape(rows, w);
    forall i, c | 0 <= i < |r| && 0 <= c < w ensures r[i][c] > 0.0 {
      assert 0.0 < d[i][c].value < d[i + hp][c].value;
      DivAboveOne(d[i + hp][c].value, d[i][c].value);
    }
  }

  lemma DivAboveOne(a: real, c: real)
    requires 0.0 < c < a
    ensures a / c - 1.0 > 0.0
  {
  }

  // ---------------------------------------------------------------------
  // Daily and cumulative returns

  /** The returns part of `calcula_risco_retorno_fundos`: the frame normalised
      by each column's first present value, its `pct_change()` and
      `(1 + daily).cumprod() - 1`. */
  function RiskReturn(frame: seq<Column>): (r: Result<(seq<Column>, seq<Column>), Error>)
    requires forall c :: 0 <= c < |frame| ==> NonZero(frame[c])
    ensures r.Err? <==> exists c :: 0 <= c < |frame| && FirstIndex(frame[c]).None?
    ensures r.Ok? ==> |r.value.0| == |frame| && |r.value.1| == |frame|
    ensures r.Ok? ==> forall c :: 0 <= c < |frame| ==>
      |r.value.0[c]| == |frame[c]| && |r.value.1[c]| == |frame[c]|
    ensures r.Ok? ==>
      && (forall c :: 0 <= c < |frame| ==> StartsNonZero(frame[c]))
      && Normalise(frame).Ok?
      && forall c :: 0 <= c < |frame| ==>
           && NonZero(Normalise(frame).value[c])
           && r.value.0[c] == PctChange(Normalise(frame).value[c], 1)
           && r.value.1[c] == CumReturn(r.value.0[c])
  {
    forall c | 0 <= c < |frame| ensures StartsNonZero(frame[c]) {
      NonZeroStarts(frame[c]);
    }
    match Normalise(frame)
    case Err(e) => Err(e)
    case Ok(n) =>
      assert forall c :: 0 <= c < |n| ==> NonZero(n[c]) by {
        forall c | 0 <= c < |n| ensures NonZero(n[c]) {
          NormalisedNonZero(frame, c);
        }
      }
      var daily := seq(|n|, c requires 0 <= c < |n| => PctChange(n[c], 1));
      var cumulative := seq(|n|, c requires 0 <= c < |n| => CumReturn(daily[c]));
      Ok((daily, cumulative))
  }

  /** Normalising does not change the daily returns: they are
      `pct_change` of the raw quotas. */
  lemma DailyOfRaw(frame: seq<Column>, c: nat)
    requires forall c :: 0 <= c < |frame| ==> NonZero(frame[c])
    requires RiskReturn(frame).Ok? && c < |frame|
    ensures RiskReturn(frame).value.0[c] == PctChange(frame[c], 1)
  {
    NormaliseIsScale(frame, c);
    PctChangeOfScaled(frame[c], frame[c][FirstIndex(frame[c]).value].value, 1);
  }

  /** A daily return is present exactly when some quota is present up to the
      row before; then it is the forward-filled raw quota over the one a row
      earlier, minus one. */
  lemma DailyIsRawChange(frame: seq<Column>, c: nat, k: nat)
    requires forall c :: 0 <= c < |frame| ==> NonZero(frame[c])
    requires RiskReturn(frame).Ok? && c < |frame| && k < |frame[c]|
    ensures RiskReturn(frame).value.0[c][k].Some? <==> k >= 1 && FFill(frame[c])[k - 1].Some?
    ensures k >= 1 && FFill(frame[c])[k - 1].Some? ==>
      && FFill(frame[c])[k].Some?
      && RiskReturn(frame).value.0[c][k] == Some(RelativeChange(FFill(frame[c])[k].value, FFill(frame[c])[k - 1].value))
  {
    DailyOfRaw(frame, c);
    OneRowChange(frame[c], k);
  }

  lemma NormalisedNonZero(frame: seq<Column>, c: nat)
    requires forall c :: 0 <= c < |frame| ==> StartsNonZero(frame[c])
    requires forall c :: 0 <= c < |frame| ==> NonZero(frame[c])
    requires Normalise(frame).Ok? && c < |frame|
    ensures NonZero(Normalise(frame).value[c])
  {
    var n := Normalise(frame).value[c];
    forall k | 0 <= k < |n| && n[k].Some? ensures n[k].value != 0.0 {
      NormaliseCell(frame, c, k);
      DivNonZero(frame[c][k].value, frame[c][FirstIndex(frame[c]).value].value);
    }
  }

  /** On a present cell after the column's first present row, the cumulative
      return is the normalised cell minus one, that is the raw cell over the
      first raw value, minus one; on the first present row it is missing. */
  lemma CumulativeIsNormalisedMinusOne(frame: seq<Column>, c: nat, k: nat)
    requires forall c :: 0 <= c < |frame| ==> NonZero(frame[c])
    requires RiskReturn(frame).Ok? && c < |frame| && k < |frame[c]| && frame[c][k].Some?
    ensures k == FirstIndex(frame[c]).value ==> RiskReturn(frame).value.1[c][k].None?
    ensures k > FirstIndex(frame[c]).value ==>
      RiskReturn(frame).value.1[c][k] == Some(RelativeChange(frame[c][k].value, frame[c][FirstIndex(frame[c]).value].value))
  {
    forall c | 0 <= c < |frame| ensures StartsNonZero(frame[c]) {
      NonZeroStarts(frame[c]);
    }
    CumulativeOfNormalised(frame, c);
    NormaliseCell(frame, c, k);
    NormalisedCumulative(Normalise(frame).value[c], frame[c], k);
  }

  /** The cumulative returns of a frame are those of its normalised columns. */
  lemma CumulativeOfNormalised(frame: seq<Column>, c: nat)
    requires forall c :: 0 <= c < |frame| ==> NonZero(frame[c])
    requires forall c :: 0 <= c < |frame| ==> StartsNonZero(frame[c])
    requires RiskReturn(frame).Ok? && c < |frame|
    ensures Normalise(frame).Ok? && NonZero(Normalise(frame).value[c])
    ensures NormalisedFrom(Normalise(frame).value[c], frame[c])
    ensures RiskReturn(frame).value.1[c] == CumReturn(PctChange(Normalise(frame).value[c], 1))
  {
    NormalisedNonZero(frame, c);
  }

  /** On a column normalised by its first value, the cumulative return of a
      later present row is the raw cell over the raw first value, minus one. */
  lemma NormalisedCumulative(n: Column, col: Column, k: nat)
    requires NonZero(n) && NonZero(col) && NormalisedFrom(n, col)
    requires k < |col| && col[k].Some? && FirstIndex(col).Some?
    requires n[k] == Some(col[k].value / col[FirstIndex(col).value].value)
    ensures k == FirstIndex(col).value ==> CumReturn(PctChange(n, 1))[k].None?
    ensures k > FirstIndex(col).value ==>
      CumReturn(PctChange(n, 1))[k] == Some(RelativeChange(col[k].value, col[FirstIndex(col).value].value))
  {
    CumulativeTelescopes(n, k);
    assert LastBefore(n, k + 1) == Some(k);
    FFillAt(n, k);
    DivByOne(n[k].value);
  }

  lemma DivByOne(x: real)
    ensures x / 1.0 == x
  {
  }

  // ---------------------------------------------------------------------
  // supera_benchmark

  /** A named column of a frame. */
  datatype Series = Series(name: string, cells: Column)

  /** Every series has `n` cells (the shared dates) and no zero cell. */
  predicate Aligned(series: seq<Series>, n: nat) {
    forall s :: 0 <= s < |series| ==> |series[s].cells| == n && NonZero(series[s].cells)
  }

  lemma AlignedMembers(series: seq<Series>, sub: seq<Series>, n: nat)
    requires Aligned(series, n) && forall x :: x in sub ==> x in series
    ensures Aligned(sub, n)
  {
    forall s | 0 <= s < |sub| ensures |sub[s].cells| == n && NonZero(sub[s].cells) {
      assert sub[s] in series;
    }
  }

  /** `pd.concat([fund, bench], axis=1)` on the shared dates. */
  function PairRows(fund: Column, bench: Column): (rows: seq<Row>)
    requires |fund| == |bench|
    ensures |rows| == |fund| && Rect(rows, 2)
    ensures forall k :: 0 <= k < |rows| ==> rows[k] == [fund[k], bench[k]]
  {
    seq(|fund|, k requires 0 <= k < |fund| => [fund[k], bench[k]])
  }

  /** The rolling windows of one fund against one benchmark. */
  function PairWindows(fund: Column, bench: Column, hp: nat): Result<seq<seq<real>>, Error>
    requires |fund| == |bench| && NonZero(fund) && NonZero(bench)
  {
    var rows := PairRows(fund, bench);
    assert NonZeroRows(rows) by {
      forall k, c | 0 <= k < |rows| && 0 <= c < |rows[k]| && rows[k][c].Some?
        ensures rows[k][c].value != 0.0
      {
        assert rows[k] == [fund[k], bench[k]];
      }
    }
    Rolling(rows, 2, hp)
  }

  /** `len(eventos[eventos > 0])`: the windows where the fund's return is
      above the benchmark's. */
  function Wins(windows: seq<seq<real>>): (n: nat)
    ensures n <= |windows|
  {
    Count(windows, (v: seq<real>) => |v| == 2 && v[0] - v[1] > 0.0)
  }

  /** The share of won windows. */
  function Share(windows: seq<seq<real>>): real
    requires windows != []
  {
    Wins(windows) as real / |windows| as real
  }

  datatype Record = Record(bench: string, percent: real)
  datatype FundRow = FundRow(fund: string, records: seq<Record>)

  /** The windows of one fund against every benchmark, in order. */
  function AllWindows(fund: Column, benches: seq<Series>, hp: nat): (ws: seq<Result<seq<seq<real>>, Error>>)
    requires NonZero(fund) && Aligned(benches, |fund|)
    ensures |ws| == |benches|
  {
    seq(|benches|, s requires 0 <= s < |benches| => PairWindows(fund, benches[s].cells, hp))
  }

  function Names(benches: seq<Series>): (names: seq<string>)
    ensures |names| == |benches|
    ensures forall s :: 0 <= s < |benches| ==> names[s] == benches[s].name
  {
    seq(|benches|, s requires 0 <= s < |benches| => benches[s].name)
  }

  /** The inner loop of `supera_benchmark` over benchmarks given by their
      names and windows, from the left: an empty window series stops, fewer
      than `janela` windows skip the benchmark, and otherwise the share of
      won windows is recorded as a percentage when it reaches `limit`. A
      benchmark after the stop is never looked at, so its windows do not
      matter (`StopsAtEmpty`). */
  function RecordsOf(names: seq<string>, windows: seq<Result<seq<seq<real>>, Error>>, limit: real, janela: nat): Result<seq<Record>, Error>
    requires |names| == |windows|
    decreases |names|
  {
    if names == [] then Ok([])
    else Scan(windows[0], names[0], RecordsOf(names[1..], windows[1..], limit, janela), limit, janela)
  }

  /** One benchmark of the scan, given its windows and the outcome of the
      benchmarks after it. */
  function Scan(windows: Result<seq<seq<real>>, Error>, name: string, rest: Result<seq<Record>, Error>,
                limit: real, janela: nat): Result<seq<Record>, Error>
  {
    match windows
    case Err(e) => Err(e)
    case Ok(w) =>
      if |w| == 0 then Ok([])
      else if |w| < janela then rest
      else
        var here := if Share(w) >= limit then [Record(name, Share(w) * 100.0)] else [];
        match rest
        case Err(e) => Err(e)
        case Ok(later) => Ok(here + later)
  }

  /** The records of one fund against the benchmarks. */
  function FundRecords(fund: Column, benches: seq<Series>, hp: nat, limit: real, janela: nat): Result<seq<Record>, Error>
    requires NonZero(fund) && Aligned(benches, |fund|)
  {
    RecordsOf(Names(benches), AllWindows(fund, benches, hp), limit, janela)
  }

  /** What a record says about windows `w` of benchmark `name`: there are
      some, at least `janela` of them, the share of won windows reaches
      `limit`, and the percentage is 100 times that share. */
  predicate Qualifies(name: string, windows: Result<seq<seq<real>>, Error>, rec: Record, limit: real, janela: nat) {
    && rec.bench == name
    && windows.Ok?
    && |windows.value| > 0 && |windows.value| >= janela
    && Share(windows.value) >= limit
    && rec.percent == 100.0 * Share(windows.value)
  }

  /** Every record comes from one of the benchmarks and qualifies. */
  lemma {:induction false} RecordsQualify(names: seq<string>, windows: seq<Result<seq<seq<real>>, Error>>, limit: real, janela: nat)
    requires |names| == |windows|
    requires RecordsOf(names, windows, limit, janela).Ok?
    ensures forall rec :: rec in RecordsOf(names, windows, limit, janela).value ==>
      exists s :: 0 <= s < |names| && Qualifies(names[s], windows[s], rec, limit, janela)
  {
    if names != [] {
      var rest := RecordsOf(names[1..], windows[1..], limit, janela);
      if windows[0].Ok? && |windows[0].value| > 0 {
        RecordsQualify(names[1..], windows[1..], limit, janela);
        forall rec | rec in RecordsOf(names, windows, limit, janela).value
          ensures exists s :: 0 <= s < |names| && Qualifies(names[s], windows[s], rec, limit, janela)
        {
          if rec in rest.value {
            var s :| 0 <= s < |names[1..]| && Qualifies(names[1..][s], windows[1..][s], rec, limit, janela);
            assert names[1..][s] == names[s + 1] && windows[1..][s] == windows[s + 1];
          } else {
            assert Qualifies(names[0], windows[0], rec, limit, janela);
          }
        }
      }
    }
  }

  /** The same, for the records of a fund against its benchmarks. */
  lemma FundRecordsQualify(fund: Column, benches: seq<Series>, hp: nat, limit: real, janela: nat)
    requires NonZero(fund) && Aligned(benches, |fund|)
    requires FundRecords(fund, benches, hp, limit, janela).Ok?
    ensures forall rec :: rec in FundRecords(fund, benches, hp, limit, janela).value ==>
      exists s :: 0 <= s < |benches| && Qualifies(benches[s].name, PairWindows(fund, benches[s].cells, hp), rec, limit, janela)
  {
    var names := Names(benches);
    var ws := AllWindows(fund, benches, hp);
    RecordsQualify(names, ws, limit, janela);
    forall rec | rec in FundRecords(fund, benches, hp, limit, janela).value
      ensures exists s :: 0 <= s < |benches| && Qualifies(benches[s].name, PairWindows(fund, benches[s].cells, hp), rec, limit, janela)
    {
      var s :| 0 <= s < |names| && Qualifies(names[s], ws[s], rec, limit, janela);
      assert Qualifies(benches[s].name, PairWindows(fund, benches[s].cells, hp), rec, limit, janela);
    }
  }

  /** An empty window series ends the scan: the benchmarks after it are never
      looked at. */
  lemma {:induction false} StopsAtEmpty(names: seq<string>, windows: seq<Result<seq<seq<real>>, Error>>, s: nat, limit: real, janela: nat)
    requires |names| == |windows| && s < |names|
    requires windows[s] == Ok([])
    ensures RecordsOf(names, windows, limit, janela) == RecordsOf(names[..s + 1], windows[..s + 1], limit, janela)
    decreases s
  {
    if s > 0 {
      assert windows[1..][s - 1] == windows[s];
      StopsAtEmpty(names[1..], windows[1..], s - 1, limit, janela);
      assert names[..s + 1][1..] == names[1..][..s];
      assert windows[..s + 1][1..] == windows[1..][..s];
    }
  }

  /** The outer loop: one row per fund that has at least one record, in the
      order of the funds. */
  function Rows(funds: seq<Series>, benches: seq<Series>, n: nat, hp: nat, limit: real, janela: nat): Result<seq<FundRow>, Error>
    requires Aligned(funds, n) && Aligned(benches, n)
    decreases |funds|
  {
    if funds == [] then Ok([])
    else
      var tail := funds[1..];
      assert Aligned(tail, n) by {
        forall t | 0 <= t < |tail| ensures tail[t] == funds[t + 1] { }
      }
      match FundRecords(funds[0].cells, benches, hp, limit, janela)
      case Err(e) => Err(e)
      case Ok(recs) => After(RowOf(funds[0].name, recs), Rows(tail, benches, n, hp, limit, janela))
  }

  /** `pd.concat` of a fund's records: a row, unless it has none. */
  function RowOf(fund: string, recs: seq<Record>): (r: seq<FundRow>)
    ensures r == [] <==> recs == []
  {
    if recs == [] then [] else [FundRow(fund, recs)]
  }

  /** The benchmark columns of one row. */
  function RowNames(row: FundRow): set<string> {
    set rec | rec in row.records :: rec.bench
  }

  /** The columns of the concatenated table: every benchmark some row has. */
  function AllNames(rows: seq<FundRow>): (names: set<string>)
    ensures forall i :: 0 <= i < |rows| ==> RowNames(rows[i]) <= names
    ensures forall x :: x in names ==> exists i :: 0 <= i < |rows| && x in RowNames(rows[i])
  {
    if rows == [] then {}
    else
      var rest := AllNames(rows[1..]);
      assert forall i :: 1 <= i < |rows| ==> rows[i] == rows[1..][i - 1];
      RowNames(rows[0]) + rest
  }

  /** `df[df >= limit * 100].dropna()`: a row survives when it has a value in
      every column of the table and each of its values reaches the bar. */
  predicate Survives(row: FundRow, names: set<string>, limit: real) {
    && names <= RowNames(row)
    && forall rec :: rec in row.records ==> rec.percent >= limit * 100.0
  }

  function Qualifying(rows: seq<FundRow>, limit: real): (kept: seq<FundRow>)
    ensures forall row :: row in kept <==> row in rows && Survives(row, AllNames(rows), limit)
  {
    var names := AllNames(rows);
    Filter(rows, (row: FundRow) => Survives(row, names, limit))
  }

  /** Benchmarks whose name mentions "Retorno" are not compared against. */
  function Considered(benches: seq<Series>): (r: seq<Series>)
    ensures forall b :: b in r <==> b in benches && !Contains(b.name, "Retorno")
  {
    Filter(benches, (b: Series) => !Contains(b.name, "Retorno"))
  }

  /** `supera_benchmark`: the records of every fund against the considered
      benchmarks, then only the funds that beat every benchmark column. */
  function SuperaSpec(funds: seq<Series>, benches: seq<Series>, n: nat, hp: nat, limit: real, janela: nat): Result<seq<FundRow>, Error>
    requires Aligned(funds, n) && Aligned(benches, n)
  {
    var considered := Considered(benches);
    AlignedMembers(benches, considered, n);
    match Rows(funds, considered, n, hp, limit, janela)
    case Err(e) => Err(e)
    case Ok(rows) => Ok(Qualifying(rows, limit))
  }

  /** Every record reaches the bar on its own, so the value mask of the
      final filter drops nothing and only the missing columns do. */
  lemma {:induction false} RowsReachBar(funds: seq<Series>, benches: seq<Series>, n: nat, hp: nat, limit: real, janela: nat)
    requires Aligned(funds, n) && Aligned(benches, n)
    requires Rows(funds, benches, n, hp, limit, janela).Ok?
    ensures forall row :: row in Rows(funds, benches, n, hp, limit, janela).value ==>
      row.records != [] && forall rec :: rec in row.records ==> rec.percent >= limit * 100.0
  {
    if funds != [] {
      var tail := funds[1..];
      assert Aligned(tail, n) by {
        forall t | 0 <= t < |tail| ensures tail[t] == funds[t + 1] { }
      }
      RowsReachBar(tail, benches, n, hp, limit, janela);
      FundRecordsQualify(funds[0].cells, benches, hp, limit, janela);
      var recs := FundRecords(funds[0].cells, benches, hp, limit, janela).value;
      forall rec | rec in recs ensures rec.percent >= limit * 100.0 {
        var b :| 0 <= b < |benches| && Qualifies(benches[b].name, PairWindows(funds[0].cells, benches[b].cells, hp), rec, limit, janela);
      }
    }
  }

  /** The kept rows are exactly the funds with a record for every benchmark
      that appears in the table. */
  lemma SupersetKept(funds: seq<Series>, benches: seq<Series>, n: nat, hp: nat, limit: real, janela: nat)
    requires Aligned(funds, n) && Aligned(benches, n)
    requires Rows(funds, benches, n, hp, limit, janela).Ok?
    ensures var rows := Rows(funds, benches, n, hp, limit, janela).value;
      forall row :: row in Qualifying(rows, limit) <==> row in rows && AllNames(rows) <= RowNames(row)
  {
    RowsReachBar(funds, benches, n, hp, limit, janela);
  }

  /** The outcome of a scan, with records already collected in front. */
  function After<T>(acc: seq<T>, r: Result<seq<T>, Error>): Result<seq<T>, Error> {
    match r
    case Err(e) => Err(e)
    case Ok(x) => Ok(acc + x)
  }

  lemma AfterNothing<T>(r: Result<seq<T>, Error>)
    ensures After([], r) == r
  {
    if r.Ok? {
      assert [] + r.value == r.value;
    }
  }

  lemma AfterAfter<T>(acc: seq<T>, more: seq<T>, r: Result<seq<T>, Error>)
    ensures After(acc, After(more, r)) == After(acc + more, r)
  {
    if r.Ok? {
      assert acc + (more + r.value) == acc + more + r.value;
    }
  }

  /** One benchmark with non-empty windows moves its record, if any, into the
      collected ones. */
  lemma ScanMoves(acc: seq<Record>, w: seq<seq<real>>, name: string, rest: Result<seq<Record>, Error>,
                  limit: real, janela: nat)
    requires w != []
    ensures After(acc, Scan(Ok(w), name, rest, limit, janela))
         == After(acc + (if |w| >= janela && Share(w) >= limit then [Record(name, Share(w) * 100.0)] else []), rest)
  {
    var here := if |w| >= janela && Share(w) >= limit then [Record(name, Share(w) * 100.0)] else [];
    assert acc + [] == acc;
    if rest.Ok? {
      assert acc + (here + rest.value) == acc + here + rest.value;
    }
  }

  /** The body of the inner loop once the windows are known to be
      non-empty: skip when there are fewer than `janela`, otherwise record
      the share of won windows when it reaches `limit`. */
  method Collect(acc: seq<Record>, w: seq<seq<real>>, name: string, limit: real, janela: nat)
    returns (next: seq<Record>)
    requires w != []
    ensures next == acc + (if |w| >= janela && Share(w) >= limit then [Record(name, Share(w) * 100.0)] else [])
  {
    next := acc;
    if |w| < janela {
      assert acc + [] == acc;
      return;
    }
    var share := Wins(w) as real / |w| as real;
    if share >= limit {
      next := acc + [Record(name, share * 100.0)];
    } else {
      assert acc + [] == acc;
    }
  }

  /** The inner loop of `supera_benchmark` for one fund. */
  method ScanFund(fund: Column, benches: seq<Series>, hp: nat, limit: real, janela: nat)
    returns (r: Result<seq<Record>, Error>)
    requires NonZero(fund) && Aligned(benches, |fund|)
    ensures r == FundRecords(fund, benches, hp, limit, janela)
  {
    ghost var names := Names(benches);
    ghost var ws := AllWindows(fund, benches, hp);
    var acc: seq<Record> := [];
    var j := 0;
    assert names[j..] == names && ws[j..] == ws;
    AfterNothing(FundRecords(fund, benches, hp, limit, janela));
    while j < |benches|
      invariant 0 <= j <= |benches|
      invariant FundRecords(fund, benches, hp, limit, janela) == After(acc, RecordsOf(names[j..], ws[j..], limit, janela))
    {
      ghost var rest := RecordsOf(names[j + 1..], ws[j + 1..], limit, janela);
      assert names[j..][1..] == names[j + 1..] && ws[j..][1..] == ws[j + 1..];
      assert RecordsOf(names[j..], ws[j..], limit, janela) == Scan(ws[j], names[j], rest, limit, janela);
      var windows := PairWindows(fund, benches[j].cells, hp);
      assert windows == ws[j];
      if windows.Err? {
        return Err(windows.error);
      }
      var w := windows.value;
      if |w| == 0 {
        assert acc + [] == acc;
        break;
      }
      ScanMoves(acc, w, names[j], rest, limit, janela);
      acc := Collect(acc, w, benches[j].name, limit, janela);
      j := j + 1;
    }
    if j == |benches| {
      assert names[j..] == [] && acc + [] == acc;
    }
    return Ok(acc);
  }

  /** `supera_benchmark`, as the nested loops compute it. */
  method SuperaBenchmark(funds: seq<Series>, benches: seq<Series>, n: nat, hp: nat, limit: real, janela: nat)
    returns (r: Result<seq<FundRow>, Error>)
    requires Aligned(funds, n) && Aligned(benches, n)
    ensures r == SuperaSpec(funds, benches, n, hp, limit, janela)
  {
    var considered := Considered(benches);
    AlignedMembers(benches, considered, n);
    var rows: seq<FundRow> := [];
    var i := 0;
    assert funds[i..] == funds;
    AfterNothing(Rows(funds, considered, n, hp, limit, janela));
    while i < |funds|
      invariant 0 <= i <= |funds|
      invariant Aligned(funds[i..], n)
      invariant Rows(funds, considered, n, hp, limit, janela) == After(rows, Rows(funds[i..], considered, n, hp, limit, janela))
    {
      assert funds[i..][1..] == funds[i + 1..];
      assert funds[i..][0] == funds[i];
      var recs := ScanFund(funds[i].cells, considered, hp, limit, janela);
      if recs.Err? {
        return Err(recs.error);
      }
      AfterAfter(rows, RowOf(funds[i].name, recs.value), Rows(funds[i + 1..], considered, n, hp, limit, janela));
      if recs.value != [] {
        rows := rows + [FundRow(funds[i].name, recs.value)];
      } else {
        assert rows + [] == rows;
      }
      i := i + 1;
    }
    assert funds[i..] == [];
    assert rows + [] == rows;
    return Ok(Qualifying(rows, limit));
  }

  // ---------------------------------------------------------------------
  // Heatmap labels

  /** The lower-cased first space-separated token of a frequency name. */
  function Token(freq: string): string {
    Split(Lower(freq), " ")[0]
  }

  /** `_traduz_frequencia`: the Portuguese plural and adjective of the first
      keyword found in the token, tried in the order month, year, sem,
      quarter; the frequency itself when none is found. */
  function Translate(freq: string): (r: seq<string>)
    ensures r == [freq] <==> !Contains(Token(freq), "month") && !Contains(Token(freq), "year")
                             && !Contains(Token(freq), "sem") && !Contains(Token(freq), "quarter")
    ensures Contains(Token(freq), "month") ==> r == ["Meses", "Mensais"]
    ensures !Contains(Token(freq), "month") && Contains(Token(freq), "year") ==> r == ["Anos", "Anuais"]
    ensures (!Contains(Token(freq), "month") && !Contains(Token(freq), "year") && Contains(Token(freq), "sem"))
            ==> r == ["Semestres", "Semestrais"]
    ensures (&& !Contains(Token(freq), "month") && !Contains(Token(freq), "year") && !Contains(Token(freq), "sem")
             && Contains(Token(freq), "quarter"))
            ==> r == ["Trimestres", "Trimestrais"]
    ensures |r| == 2 && r != ["Meses", "Mensais"] ==> !Contains(Token(freq), "month")
  {
    var t := Token(freq);
    if Contains(t, "month") then ["Meses", "Mensais"]
    else if Contains(t, "year") then ["Anos", "Anuais"]
    else if Contains(t, "sem") then ["Semestres", "Semestrais"]
    else if Contains(t, "quarter") then ["Trimestres", "Trimestrais"]
    else [freq]
  }

  lemma LowerSpace(c: char)
    ensures LowerChar(c) == ' ' <==> c == ' '
  {
  }

  lemma {:induction false} LowerAppend(a: string, b: string)
    ensures Lower(a + b) == Lower(a) + Lower(b)
  {
    var l := Lower(a + b);
    assert forall k :: 0 <= k < |a| ==> (a + b)[k] == a[k];
    assert forall k :: |a| <= k < |a + b| ==> (a + b)[k] == b[k - |a|];
  }

  /** The first token of a frequency is its part before the first space,
      lower-cased. */
  lemma FirstToken(t: string, rest: string)
    requires forall k :: 0 <= k < |t| ==> t[k] != ' '
    ensures Token(t + " " + rest) == Lower(t) && Token(t) == Lower(t)
  {
    LowerAppend(t + " ", rest);
    LowerAppend(t, " ");
    var lt := Lower(t);
    forall k | 0 <= k < |lt| ensures lt[k] != ' ' {
      LowerSpace(t[k]);
    }
    assert Lower(" ") == " ";
    var s := Lower(t + " " + rest);
    assert s == lt + " " + Lower(rest);
    assert OccursAt(s, " ", |lt|) by {
      assert s[|lt|..|lt| + 1] == " ";
    }
    forall j | 0 <= j < |lt| ensures !OccursAt(s, " ", j) {
      assert s[j] == lt[j];
    }
    SplitFirst(s, " ");
    assert Token(t + " " + rest) == s[..|lt|] == lt;
    assert Token(t) == lt by {
      assert Find(lt, " ").None? by {
        forall j | 0 <= j < |lt| ensures !OccursAt(lt, " ", j) {
          assert lt[j] != ' ';
        }
      }
      SplitFirst(lt, " ");
    }
  }

  /** Only the first token counts: whatever follows the first space does not
      change the translation of a keyword token. */
  lemma FirstTokenDecides(t: string, rest: string)
    requires forall k :: 0 <= k < |t| ==> t[k] != ' '
    ensures Translate(t) != [t] ==> Translate(t + " " + rest) == Translate(t)
  {
    FirstToken(t, rest);
  }

  /** A year-end index is named `"YearEnd: month=12"` and is translated as
      years: a "month" after the first space is never looked at. */
  lemma YearEndIsYears(rest: string)
    ensures Translate("YearEnd:" + " " + rest) == ["Anos", "Anuais"]
  {
    var t := "YearEnd:";
    assert forall k :: 0 <= k < |t| ==> t[k] != ' ' by {
      forall k | 0 <= k < |t| ensures t[k] != ' ' {
        assert k == 0 || k == 1 || k == 2 || k == 3 || k == 4 || k == 5 || k == 6 || k == 7;
      }
    }
    FirstToken(t, rest);
    LowerYearEnd();
    YearEndKeywords();
  }

  lemma YearEndKeywords()
    ensures !Contains("yearend:", "month") && Contains("yearend:", "year")
  {
    NoMonthInYearEnd();
    ContainsIff("yearend:", "year");
    assert OccursAt("yearend:", "year", 0);
  }

  lemma LowerYearEnd()
    ensures Lower("YearEnd:") == "yearend:"
  {
    var l := Lower("YearEnd:");
    assert l[0] == LowerChar('Y') == 'y';
    assert l[4] == LowerChar('E') == 'e';
  }

  lemma NoMonthInYearEnd()
    ensures !Contains("yearend:", "month")
  {
    var s := "yearend:";
    ContainsIff(s, "month");
    forall i | 0 <= i && i + 5 <= |s| ensures !OccursAt(s, "month", i) {
      assert s[i..i + 5][0] == s[i] != 'm';
    }
  }

  /** `cycle(range(1, k + 1))` read `|months|` times, where `k` is the number
      of distinct months among all rows but the last; reading from an empty
      cycle raises. */
  function CycleLabels(months: seq<int>): (r: Result<seq<nat>, Error>)
    ensures r.Err? <==> |months| == 1
    ensures r.Err? ==> r.error == ExhaustedIterator
    ensures r.Ok? ==> |r.value| == |months|
    ensures r.Ok? ==> forall i :: 0 <= i < |months| ==> 1 <= r.value[i] <= |Dedup(months[..|months| - 1])|
  {
    if months == [] then Ok([])
    else
      var k := |Dedup(months[..|months| - 1])|;
      if k == 0 then
        assert months[..|months| - 1] == [];
        Err(ExhaustedIterator)
      else
        assert |months| > 1;
        Ok(seq(|months|, i requires 0 <= i < |months| => i % k + 1))
  }

  /** The labels count 1, 2, … up to the number of distinct months and then
      start again. */
  lemma CycleLabelsRepeat(months: seq<int>)
    requires |months| > 1
    ensures CycleLabels(months).Ok?
    ensures var k := |Dedup(months[..|months| - 1])|;
      && k >= 1
      && (forall i :: 0 <= i < |months| && i < k ==> CycleLabels(months).value[i] == i + 1)
      && (forall i :: k <= i < |months| ==> CycleLabels(months).value[i] == CycleLabels(months).value[i - k])
  {
    var k := |Dedup(months[..|months| - 1])|;
    assert months[0] in Dedup(months[..|months| - 1]);
    var r := CycleLabels(months).value;
    forall i | 0 <= i < |months| && i < k ensures r[i] == i + 1 {
      ModUnique(i, 0, i, k);
    }
    forall i | k <= i < |months| ensures r[i] == r[i - k] {
      ModShift(i, k);
    }
  }

  lemma MulBound(x: int, k: int)
    requires k > 0 && -k < x * k < k
    ensures x == 0
  {
  }

  lemma ModUnique(a: int, q: int, m: int, k: int)
    requires k > 0 && a == q * k + m && 0 <= m < k
    ensures a % k == m
  {
    var q', m' := a / k, a % k;
    assert (q - q') * k == m' - m;
    MulBound(q - q', k);
  }

  lemma ModShift(i: int, k: int)
    requires 0 < k <= i
    ensures i % k == (i - k) % k
  {
    var q, m := i / k, i % k;
    assert i - k == (q - 1) * k + m;
    ModUnique(i - k, q - 1, m, k);
  }

  // ---------------------------------------------------------------------
  // Column matching of `plotar_evolucao`

  /** The CNPJ part of a display key (`split(" // ")[0]`). */
  function CnpjPart(column: string): string {
    Split(column, KeySeparator)[0]
  }

  /** The name part of a display key (`split(" // ")[1]`), absent when the
      column holds no separator. */
  function NamePart(column: string): (r: Option<string>)
    ensures r.Some? <==> Contains(column, KeySeparator)
  {
    var parts := Split(column, KeySeparator);
    SplitFirst(column, KeySeparator);
    if |parts| >= 2 then Some(parts[1])
    else None
  }

  /** Every column has a name part. */
  predicate AllNamed(columns: seq<string>) {
    forall k :: 0 <= k < |columns| ==> NamePart(columns[k]).Some?
  }

  /** The columns whose CNPJ part is requested. */
  function CnpjMatches(columns: seq<string>, up: seq<string>): (r: seq<string>)
    ensures forall x :: x in r <==> x in columns && CnpjPart(x) in up
  {
    Filter(columns, (x: string) => CnpjPart(x) in up)
  }

  /** The first column without a name part. */
  function FirstUnnamed(columns: seq<string>): (k: nat)
    requires !AllNamed(columns)
    ensures k < |columns| && NamePart(columns[k]).None?
    ensures forall j :: 0 <= j < k ==> NamePart(columns[j]).Some?
  {
    if NamePart(columns[0]).None? then 0
    else
      assert !AllNamed(columns[1..]) by {
        var k :| 0 <= k < |columns| && NamePart(columns[k]).None?;
        assert columns[1..][k - 1] == columns[k];
      }
      var k := FirstUnnamed(columns[1..]);
      assert forall j :: 1 <= j < k + 1 ==> columns[j] == columns[1..][j - 1];
      k + 1
  }

  /** The columns whose name part is requested, or the first column without
      a name part. */
  function ExactMatches(columns: seq<string>, up: seq<string>): (r: Result<seq<string>, Error>)
    ensures r.Err? <==> !AllNamed(columns)
    ensures r.Err? ==> r.error == NoNamePart(columns[FirstUnnamed(columns)])
    ensures r.Ok? ==> forall x :: x in r.value <==> x in columns && NamePart(x).value in up
  {
    if columns == [] then Ok([])
    else
      var rest := ExactMatches(columns[1..], up);
      assert forall k :: 1 <= k < |columns| ==> columns[k] == columns[1..][k - 1];
      match NamePart(columns[0])
      case None => Err(NoNamePart(columns[0]))
      case Some(name) =>
        match rest
        case Err(e) =>
          assert FirstUnnamed(columns) == FirstUnnamed(columns[1..]) + 1;
          Err(e)
        case Ok(later) => Ok(if name in up then [columns[0]] + later else later)
  }

  /** `count` copies of `x`. */
  function Copies(x: string, count: nat): (r: seq<string>)
    ensures |r| == count && forall k :: 0 <= k < count ==> r[k] == x
  {
    seq(count, _ => x)
  }

  /** The requested strings contained in a name. */
  function Contained(name: string, up: seq<string>): (r: seq<string>)
    ensures forall f :: f in r <==> f in up && Contains(name, f)
  {
    Filter(up, (f: string) => Contains(name, f))
  }

  /** The fallback: every column once for each requested string its name
      part contains, in column order. */
  function SubstringMatches(columns: seq<string>, up: seq<string>): seq<string>
    requires AllNamed(columns)
  {
    if columns == [] then []
    else
      assert forall k :: 0 <= k < |columns[1..]| ==> columns[1..][k] == columns[k + 1];
      Copies(columns[0], |Contained(NamePart(columns[0]).value, up)|)
        + SubstringMatches(columns[1..], up)
  }

  /** A column is among the fallback matches iff its name part contains one
      of the requested strings. */
  lemma {:induction false} SubstringMatchesMembers(columns: seq<string>, up: seq<string>)
    requires AllNamed(columns)
    ensures forall x :: x in SubstringMatches(columns, up) <==>
      x in columns && exists f :: f in up && Contains(NamePart(x).value, f)
  {
    if columns != [] {
      var tail := columns[1..];
      assert forall k :: 0 <= k < |tail| ==> tail[k] == columns[k + 1];
      SubstringMatchesMembers(tail, up);
      var here := Copies(columns[0], |Contained(NamePart(columns[0]).value, up)|);
      forall x ensures x in SubstringMatches(columns, up) <==>
        x in columns && exists f :: f in up && Contains(NamePart(x).value, f)
      {
        assert x in columns <==> x == columns[0] || x in tail;
        if x == columns[0] {
          var c := Contained(NamePart(x).value, up);
          if exists f :: f in up && Contains(NamePart(x).value, f) {
            var f :| f in up && Contains(NamePart(x).value, f);
            assert f in c;
            assert here[0] == x;
          } else {
            FilterNone(up, (f: string) => Contains(NamePart(x).value, f));
          }
        }
      }
    }
  }

  /** The matcher: upper-cased requests; exact name matches, or the fallback
      when there are none; then the CNPJ matches. */
  function SelectSpec(columns: seq<string>, requested: seq<string>): Result<seq<string>, Error> {
    var up := Map(requested, Upper);
    var cnpj := CnpjMatches(columns, up);
    match ExactMatches(columns, up)
    case Err(e) => Err(e)
    case Ok(nome) =>
      if nome != [] then Ok(nome + cnpj)
      else Ok(SubstringMatches(columns, up) + cnpj)
  }

  /** What the matcher selects: the exact name matches when there are any
      (and then no substring-only match), otherwise the substring matches,
      followed in both cases by the CNPJ matches. */
  lemma SelectMeaning(columns: seq<string>, requested: seq<string>)
    requires SelectSpec(columns, requested).Ok?
    ensures var up := Map(requested, Upper);
      && AllNamed(columns)
      && var r := SelectSpec(columns, requested).value;
      && ((exists x :: x in columns && NamePart(x).value in up) ==>
           r == ExactMatches(columns, up).value + CnpjMatches(columns, up))
      && ((!exists x :: x in columns && NamePart(x).value in up) ==>
           r == SubstringMatches(columns, up) + CnpjMatches(columns, up))
  {
    var up := Map(requested, Upper);
    var nome := ExactMatches(columns, up).value;
    if exists x :: x in columns && NamePart(x).value in up {
      var x :| x in columns && NamePart(x).value in up;
      assert x in nome;
    } else {
      if nome != [] {
        assert nome[0] in nome;
      }
    }
  }

  /** One more requested string: the contained ones gain it when the name
      holds it. */
  lemma ContainedStep(name: string, up: seq<string>, j: nat)
    requires j < |up|
    ensures Contained(name, up[..j + 1])
         == Contained(name, up[..j]) + (if Contains(name, up[j]) then [up[j]] else [])
  {
    assert up[..j + 1] == up[..j] + [up[j]];
    FilterAppend(up[..j], [up[j]], (f: string) => Contains(name, f));
  }

  /** The fallback matches from column `i` on are the copies of column `i`
      followed by the matches from `i + 1` on. */
  lemma SubstringFrom(columns: seq<string>, up: seq<string>, i: nat)
    requires i < |columns|
    requires AllNamed(columns)
    ensures AllNamed(columns[i + 1..])
    ensures SubstringMatches(columns[i..], up)
         == Copies(columns[i], |Contained(NamePart(columns[i]).value, up)|) + SubstringMatches(columns[i + 1..], up)
  {
    assert columns[i..][1..] == columns[i + 1..];
    assert columns[i..][0] == columns[i];
  }

  /** The inner loop of the fallback for one column: the column once per
      requested string in its name part. */
  method CopiesFor(column: string, fd: string, up: seq<string>) returns (more: seq<string>)
    ensures more == Copies(column, |Contained(fd, up)|)
  {
    more := [];
    var j := 0;
    while j < |up|
      invariant 0 <= j <= |up|
      invariant more == Copies(column, |Contained(fd, up[..j])|)
    {
      ContainedStep(fd, up, j);
      if Contains(fd, up[j]) {
        more := more + [column];
      }
      j := j + 1;
    }
    assert up[..j] == up;
  }

  /** The fallback loop: for every column, and for every requested string in
      the name part of that column, append the column. */
  method SubstringLoop(columns: seq<string>, up: seq<string>) returns (nome: seq<string>)
    requires AllNamed(columns)
    ensures nome == SubstringMatches(columns, up)
  {
    nome := [];
    var i := 0;
    assert columns[i..] == columns;
    while i < |columns|
      invariant 0 <= i <= |columns|
      invariant AllNamed(columns[i..])
      invariant SubstringMatches(columns, up) == nome + SubstringMatches(columns[i..], up)
    {
      SubstringFrom(columns, up, i);
      var more := CopiesFor(columns[i], NamePart(columns[i]).value, up);
      assert nome + more + SubstringMatches(columns[i + 1..], up)
          == nome + (more + SubstringMatches(columns[i + 1..], up));
      nome := nome + more;
      i := i + 1;
    }
    assert columns[i..] == [];
    assert nome + [] == nome;
  }

  /** The matcher as the source computes it, with the fallback loop. */
  method SelectColumns(columns: seq<string>, requested: seq<string>) returns (r: Result<seq<string>, Error>)
    ensures r == SelectSpec(columns, requested)
  {
    var up := Map(requested, Upper);
    var cnpj := CnpjMatches(columns, up);
    var exact := ExactMatches(columns, up);
    if exact.Err? {
      return Err(exact.error);
    }
    var nome := exact.value;
    if nome == [] {
      nome := SubstringLoop(columns, up);
    }
    r := Ok(nome + cnpj);
  }
}
