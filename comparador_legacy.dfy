/** The return arithmetic of comparar_fundos_br/comparador.py, the pandas
    version of the comparison code: normalisation by the first row, the lagged
    returns of a fund and its benchmarks, the count of beaten benchmarks and
    the efficiency percentage, the normalised quotas and total return, the
    best and worst funds, and the outlier band. */
module ComparadorLegacy {
  import opened Wrappers
  import opened Seqs
  import opened Errors
  import opened Columns
  import C = Comparador

  /** Every column of the frame has `n` rows (the shared dates). */
  predicate Shaped(frame: seq<Column>, n: nat) {
    forall c :: 0 <= c < |frame| ==> |frame[c]| == n
  }

  predicate AllNonZero(frame: seq<Column>) {
    forall c :: 0 <= c < |frame| ==> NonZero(frame[c])
  }

  // ---------------------------------------------------------------------
  // `_get_valores_iniciais` and `get_cotas_normalizadas` on a frame

  /** `df[~df.isnull()].iloc[0]` on a frame: the mask keeps the frame's
      shape, so this is row 0, missing cells included; a frame without rows
      has no row 0. */
  function InitialRow(frame: seq<Column>, n: nat): (r: Result<seq<Option<real>>, Error>)
    requires Shaped(frame, n)
    ensures r.Err? <==> n == 0
    ensures r.Err? ==> r.error == NoValue
    ensures r.Ok? ==> |r.value| == |frame| && forall c :: 0 <= c < |frame| ==> r.value[c] == frame[c][0]
  {
    if n == 0 then Err(NoValue)
    else Ok(seq(|frame|, c requires 0 <= c < |frame| => frame[c][0]))
  }

  /** Where row 0 is present it is the column's first present value, as in
      the newer version; a column missing in row 0 has no initial value even
      when later rows are present. */
  lemma InitialRowVersusFirstValue(frame: seq<Column>, n: nat, c: nat)
    requires Shaped(frame, n) && n > 0 && c < |frame|
    ensures frame[c][0].Some? ==> FirstValue(frame[c]) == Ok(InitialRow(frame, n).value[c].value)
    ensures frame[c][0].None? ==> InitialRow(frame, n).value[c].None?
  {
    if frame[c][0].Some? {
      assert FirstIndex(frame[c]) == Some(0);
    }
  }

  function Blank(n: nat): (r: Column)
    ensures |r| == n && forall k :: 0 <= k < n ==> r[k].None?
  {
    seq(n, k => None)
  }

  /** `df / _get_valores_iniciais(df)`: a column present in row 0 becomes 1
      there and keeps its missing cells; a column missing in row 0 is
      missing everywhere. */
  function CotasNormalizadas(frame: seq<Column>, n: nat): (r: Result<seq<Column>, Error>)
    requires Shaped(frame, n) && AllNonZero(frame)
    ensures r.Err? <==> n == 0
    ensures r.Ok? ==> |r.value| == |frame| && Shaped(r.value, n)
    ensures r.Ok? ==> forall c :: 0 <= c < |frame| && frame[c][0].Some? ==>
      NormalisedFrom(r.value[c], frame[c]) && r.value[c][0] == Some(1.0)
    ensures r.Ok? ==> forall c, k :: 0 <= c < |frame| && 0 <= k < n && frame[c][0].None? ==> r.value[c][k].None?
  {
    var init :- InitialRow(frame, n);
    var r := seq(|frame|, c requires 0 <= c < |frame| =>
      if init[c].Some? then Scale(frame[c], init[c].value) else Blank(n));
    forall c | 0 <= c < |frame| && frame[c][0].Some?
      ensures NormalisedFrom(r[c], frame[c]) && r[c][0] == Some(1.0)
    {
      InitialRowVersusFirstValue(frame, n, c);
      ScaleByFirst(frame[c], init[c].value);
    }
    Ok(r)
  }

  /** A normalised cell is the raw cell over the raw cell of row 0. */
  lemma CotaCell(frame: seq<Column>, n: nat, c: nat, k: nat)
    requires Shaped(frame, n) && AllNonZero(frame)
    requires CotasNormalizadas(frame, n).Ok? && c < |frame| && k < n
    requires frame[c][0].Some? && frame[c][k].Some?
    ensures CotasNormalizadas(frame, n).value[c][k] == Some(frame[c][k].value / frame[c][0].value)
  {
  }

  // ---------------------------------------------------------------------
  // `calcula_retorno`

  lemma FFillScaled(col: Column, b: real, k: nat)
    requires b != 0.0 && k < |col|
    ensures FFill(Scale(col, b))[k].Some? <==> FFill(col)[k].Some?
    ensures FFill(col)[k].Some? ==> FFill(Scale(col, b))[k].value == FFill(col)[k].value / b
  {
    var s := Scale(col, b);
    var last := LastBefore(col, k + 1);
    assert LastBefore(s, k + 1) == last by {
      SameShapeBefore(s, col, k + 1);
    }
    FFillAt(s, k);
    FFillAt(col, k);
    if last.Some? {
      ScaleAt(col, b, last.value);
    }
  }

  lemma ScaleCancelsAt(col: Column, b: real, lag: nat, k: nat)
    requires b != 0.0 && NonZero(col) && k < |col|
    ensures NonZero(Scale(col, b))
    ensures PctChange(Scale(col, b), lag)[k] == PctChange(col, lag)[k]
  {
    ScaleNonZero(col, b);
    if k < lag || FFill(col)[k].None? || FFill(col)[k - lag].None? {
      ScaledMissing(col, b, lag, k);
    } else {
      ScaledRatio(col, b, lag, k);
    }
  }

  lemma ScaledMissing(col: Column, b: real, lag: nat, k: nat)
    requires b != 0.0 && NonZero(col) && NonZero(Scale(col, b)) && k < |col|
    requires k < lag || FFill(col)[k].None? || FFill(col)[k - lag].None?
    ensures PctChange(Scale(col, b), lag)[k].None? && PctChange(col, lag)[k].None?
  {
    if k >= lag {
      FFillScaled(col, b, k);
      FFillScaled(col, b, k - lag);
    }
    PctChangeMissing(Scale(col, b), lag, k);
    PctChangeMissing(col, lag, k);
  }

  lemma ScaledRatio(col: Column, b: real, lag: nat, k: nat)
    requires b != 0.0 && NonZero(col) && NonZero(Scale(col, b)) && lag <= k < |col|
    requires FFill(col)[k].Some? && FFill(col)[k - lag].Some?
    ensures PctChange(Scale(col, b), lag)[k] == PctChange(col, lag)[k]
  {
    FFillScaled(col, b, k);
    FFillScaled(col, b, k - lag);
    var fs, f := FFill(Scale(col, b)), FFill(col);
    var x, y := f[k].value, f[k - lag].value;
    assert Change(fs, lag, k) == Some(RelativeChange(x / b, y / b));
    assert Change(f, lag, k) == Some(RelativeChange(x, y));
    ScaledChange(x, y, b);
    assert PctChange(Scale(col, b), lag)[k] == Change(fs, lag, k);
    assert PctChange(col, lag)[k] == Change(f, lag, k);
  }

  /** Dividing both values by the same base does not change their relative
      change. */
  lemma ScaledChange(x: real, y: real, b: real)
    requires b != 0.0 && y != 0.0
    ensures y / b != 0.0
    ensures RelativeChange(x / b, y / b) == RelativeChange(x, y)
  {
    C.Cancel(x, b, y);
  }

  /** Normalising a column does not change its lagged returns. */
  lemma ScaleCancels(col: Column, b: real, lag: nat)
    requires b != 0.0 && NonZero(col)
    ensures NonZero(Scale(col, b))
    ensures PctChange(Scale(col, b), lag) == PctChange(col, lag)
  {
    ScaleNonZero(col, b);
    var p, q := PctChange(Scale(col, b), lag), PctChange(col, lag);
    forall k | 0 <= k < |col| ensures p[k] == q[k] {
      ScaleCancelsAt(col, b, lag, k);
    }
  }

  /** `pct_change(HP)` of every column. */
  function Returns(cols: seq<Column>, hp: nat): (r: seq<Column>)
    requires AllNonZero(cols)
    ensures |r| == |cols| && forall j :: 0 <= j < |cols| ==> r[j] == PctChange(cols[j], hp)
  {
    seq(|cols|, j requires 0 <= j < |cols| => PctChange(cols[j], hp))
  }

  lemma ConsNonZero(x: Column, rest: seq<Column>)
    requires NonZero(x) && AllNonZero(rest)
    ensures AllNonZero([x] + rest)
  {
    forall c | 0 <= c < |rest| + 1 ensures NonZero(([x] + rest)[c]) {
      if c > 0 {
        assert ([x] + rest)[c] == rest[c - 1];
      }
    }
  }

  lemma ReturnsSameHead(x: Column, y: Column, rest: seq<Column>, hp: nat)
    requires NonZero(x) && NonZero(y) && AllNonZero(rest) && PctChange(x, hp) == PctChange(y, hp)
    ensures AllNonZero([x] + rest) && AllNonZero([y] + rest)
    ensures Returns([x] + rest, hp) == Returns([y] + rest, hp)
  {
    ConsNonZero(x, rest);
    ConsNonZero(y, rest);
    var a, b := Returns([x] + rest, hp), Returns([y] + rest, hp);
    forall c | 0 <= c < |rest| + 1 ensures a[c] == b[c] {
      if c > 0 {
        assert ([x] + rest)[c] == rest[c - 1] == ([y] + rest)[c];
      }
    }
  }

  lemma FirstValueNonZero(col: Column)
    requires NonZero(col) && FirstValue(col).Ok?
    ensures FirstValue(col).value != 0.0
  {
  }

  /** `calcula_retorno` for one fund: the fund column normalised by its first
      present value (a single column is a series, whose mask drops the missing
      cells), put beside the benchmark columns, then `pct_change(HP)` with its
      forward fill. Normalisation cancels: the result is the lagged returns of
      the raw columns, and no row is dropped. */
  function CalculaRetorno(fund: Column, benches: seq<Column>, hp: nat): (r: Result<seq<Column>, Error>)
    requires NonZero(fund) && AllNonZero(benches)
    ensures r.Err? <==> forall k :: 0 <= k < |fund| ==> fund[k].None?
    ensures r.Err? ==> r.error == NoValue
    ensures r.Ok? ==> AllNonZero([fund] + benches) && r.value == Returns([fund] + benches, hp)
  {
    match FirstValue(fund)
    case Err(e) => Err(e)
    case Ok(base) =>
      FirstValueNonZero(fund);
      ScaleCancels(fund, base, hp);
      ReturnsSameHead(Scale(fund, base), fund, benches, hp);
      Ok(Returns([Scale(fund, base)] + benches, hp))
  }

  /** The rows of a lagged-return column `ret` computed from `col`: it keeps
      the rows, the first `hp` rows are missing, and at a row `k` with both
      cells present it is the cell over the cell `hp` rows above, minus one. */
  predicate ReturnRow(col: Column, ret: Column, hp: nat, k: nat)
    requires NonZero(col)
  {
    && |ret| == |col|
    && (k < hp && k < |col| ==> ret[k].None?)
    && (hp <= k < |col| && col[k].Some? && col[k - hp].Some? ==>
          ret[k] == Some(col[k].value / col[k - hp].value - 1.0))
  }

  /** Every column of `calcula_retorno`'s result has the rows of a lagged
      return. */
  lemma CalculaRetornoRows(fund: Column, benches: seq<Column>, hp: nat, c: nat, k: nat)
    requires NonZero(fund) && AllNonZero(benches)
    requires CalculaRetorno(fund, benches, hp).Ok? && c <= |benches|
    ensures NonZero(([fund] + benches)[c])
    ensures ReturnRow(([fund] + benches)[c], CalculaRetorno(fund, benches, hp).value[c], hp, k)
  {
    var col := ([fund] + benches)[c];
    assert NonZero(col) && CalculaRetorno(fund, benches, hp).value[c] == PctChange(col, hp) by {
      assert CalculaRetorno(fund, benches, hp).value == Returns([fund] + benches, hp);
    }
    ReturnRows(col, hp, k);
  }

  lemma ReturnRows(col: Column, hp: nat, k: nat)
    requires NonZero(col)
    ensures ReturnRow(col, PctChange(col, hp), hp, k)
  {
    if hp <= k < |col| && col[k].Some? && col[k - hp].Some? {
      PctChangeGapFree(col, hp, k);
    }
  }

  // ---------------------------------------------------------------------
  // `fundos_eficientes`

  function Indices(n: nat): (r: seq<nat>)
    ensures |r| == n && forall k :: 0 <= k < n ==> r[k] == k
  {
    seq(n, k => k)
  }

  /** `retorno[fundo] > retorno[benc]`: false when a cell is missing. */
  predicate Beat(f: Option<real>, b: Option<real>) {
    f.Some? && b.Some? && f.value > b.value
  }

  /** `np.where(retorno[fundo] > retorno[benc], 1, 0).sum()` over `n` rows. */
  function Wins(f: Column, b: Column, n: nat): (w: nat)
    ensures w <= n
  {
    Count(Indices(n), (k: nat) => k < |f| && k < |b| && Beat(f[k], b[k]))
  }

  /** Row `k` has no missing cell. */
  predicate CompleteRow(ret: seq<Column>, k: nat) {
    forall c :: 0 <= c < |ret| ==> k < |ret[c]| && ret[c][k].Some?
  }

  /** `retorno.dropna().shape[0]`; the added 0/1 columns have no missing
      cell, so these are the rows complete in the fund and every
      benchmark. */
  function CompleteRows(ret: seq<Column>, n: nat): (m: nat)
    ensures m <= n
  {
    Count(Indices(n), (k: nat) => CompleteRow(ret, k))
  }

  /** `100 * wins / complete`; with no complete row the division has no
      exact value. */
  function Efficiency(wins: nat, complete: nat): (e: Option<real>)
    ensures e.Some? <==> complete > 0
  {
    if complete == 0 then None else Some(Share(wins, complete))
  }

  /** `100 * wins / complete` for a positive count. */
  function Share(wins: nat, complete: nat): real
    requires complete > 0
  {
    100.0 * (wins as real / complete as real)
  }

  /** No more wins than complete rows make a percentage. */
  lemma EfficiencyBounded(wins: nat, complete: nat)
    requires wins <= complete && complete > 0
    ensures 0.0 <= Efficiency(wins, complete).value <= 100.0
  {
    var q := wins as real / complete as real;
    assert q * (complete as real) == wins as real;
  }

  /** One benchmark's block of a fund's row. */
  datatype Score = Score(bench: string, wins: nat, efficiency: Option<real>)

  /** A fund's row: its blocks, the last benchmark first. */
  datatype Efficient = Efficient(fund: string, scores: seq<Score>)

  function Cells(series: seq<C.Series>): (r: seq<Column>)
    ensures |r| == |series| && forall j :: 0 <= j < |series| ==> r[j] == series[j].cells
  {
    seq(|series|, j requires 0 <= j < |series| => series[j].cells)
  }

  lemma AlignedCells(series: seq<C.Series>, n: nat)
    requires C.Aligned(series, n)
    ensures AllNonZero(Cells(series)) && Shaped(Cells(series), n)
  {
  }

  function ScoreOf(ret: seq<Column>, names: seq<string>, n: nat, j: nat): Score
    requires |ret| == |names| + 1 && j < |names|
  {
    Score(names[j], Wins(ret[0], ret[j + 1], n), Efficiency(Wins(ret[0], ret[j + 1], n), CompleteRows(ret, n)))
  }

  /** The blocks of the first `j` benchmarks, in the order they are
      concatenated: each new block in front. */
  function Blocks(ret: seq<Column>, names: seq<string>, n: nat, j: nat): (r: seq<Score>)
    requires |ret| == |names| + 1 && j <= |names|
    ensures |r| == j
    ensures forall i :: 0 <= i < j ==> r[i] == ScoreOf(ret, names, n, j - 1 - i)
  {
    if j == 0 then [] else [ScoreOf(ret, names, n, j - 1)] + Blocks(ret, names, n, j - 1)
  }

  function Names(series: seq<C.Series>): (r: seq<string>)
    ensures |r| == |series| && forall j :: 0 <= j < |series| ==> r[j] == series[j].name
  {
    seq(|series|, j requires 0 <= j < |series| => series[j].name)
  }

  /** The fund has a quota on some date. */
  predicate HasQuota(fund: C.Series) {
    exists k :: 0 <= k < |fund.cells| && fund.cells[k].Some?
  }

  /** The lagged returns a fund's row is scored on: the fund's, then each
      benchmark's (what `calcula_retorno` gives once normalisation has
      cancelled). */
  function Retornos(fund: C.Series, benches: seq<C.Series>, n: nat, hp: nat): (r: seq<Column>)
    requires |fund.cells| == n && NonZero(fund.cells) && C.Aligned(benches, n)
    ensures |r| == |benches| + 1
  {
    AlignedCells(benches, n);
    ConsNonZero(fund.cells, Cells(benches));
    Returns([fund.cells] + Cells(benches), hp)
  }

  /** The blocks of one fund's row, failing when the fund has no quota. */
  function FundRow(fund: C.Series, benches: seq<C.Series>, n: nat, hp: nat): (r: Result<seq<Score>, Error>)
    requires |fund.cells| == n && NonZero(fund.cells) && C.Aligned(benches, n)
    ensures r.Ok? ==> |r.value| == |benches|
  {
    if HasQuota(fund) then Ok(Blocks(Retornos(fund, benches, n, hp), Names(benches), n, |benches|))
    else Err(NoValue)
  }

  /** The row of every fund, in order. */
  function RowsOf(funds: seq<C.Series>, benches: seq<C.Series>, n: nat, hp: nat): (r: seq<Result<seq<Score>, Error>>)
    requires C.Aligned(funds, n) && C.Aligned(benches, n)
    ensures |r| == |funds| && forall i :: 0 <= i < |funds| ==> r[i] == FundRow(funds[i], benches, n, hp)
  {
    seq(|funds|, i requires 0 <= i < |funds| => FundRow(funds[i], benches, n, hp))
  }

  /** The fund rows gathered below each other, kept only when there is a
      benchmark, failing at the first fund whose row fails. */
  function Gather(names: seq<string>, rows: seq<Result<seq<Score>, Error>>, keep: bool): Result<seq<Efficient>, Error>
    requires |names| == |rows|
  {
    if rows == [] then Ok([])
    else
      match Gather(names[..|names| - 1], rows[..|rows| - 1], keep)
      case Err(e) => Err(e)
      case Ok(acc) =>
        match rows[|rows| - 1]
        case Err(e) => Err(e)
        case Ok(scores) => Ok(acc + (if keep then [Efficient(names[|names| - 1], scores)] else []))
  }

  /** `fundos_eficientes`: the rows of the funds, in order, when there is a
      benchmark column. */
  function Eficientes(funds: seq<C.Series>, benches: seq<C.Series>, n: nat, hp: nat): Result<seq<Efficient>, Error>
    requires C.Aligned(funds, n) && C.Aligned(benches, n)
  {
    Gather(Names(funds), RowsOf(funds, benches, n, hp), benches != [])
  }

  lemma {:induction false} GatherFails(names: seq<string>, rows: seq<Result<seq<Score>, Error>>, keep: bool)
    requires |names| == |rows|
    ensures Gather(names, rows, keep).Ok? <==> forall i :: 0 <= i < |rows| ==> rows[i].Ok?
  {
    if rows != [] {
      var k := |rows| - 1;
      GatherFails(names[..k], rows[..k], keep);
      assert forall i :: 0 <= i < k ==> rows[..k][i] == rows[i];
    }
  }

  lemma {:induction false} GatherRows(names: seq<string>, rows: seq<Result<seq<Score>, Error>>, keep: bool)
    requires |names| == |rows| && Gather(names, rows, keep).Ok?
    ensures |Gather(names, rows, keep).value| == if keep then |rows| else 0
    ensures keep ==> forall i :: 0 <= i < |rows| ==>
      rows[i].Ok? && Gather(names, rows, keep).value[i] == Efficient(names[i], rows[i].value)
  {
    if rows != [] {
      var k := |rows| - 1;
      GatherRows(names[..k], rows[..k], keep);
      var acc := Gather(names[..k], rows[..k], keep).value;
      var r := Gather(names, rows, keep).value;
      if keep {
        forall i | 0 <= i < |rows| ensures rows[i].Ok? && r[i] == Efficient(names[i], rows[i].value) {
          if i < k {
            assert rows[..k][i] == rows[i] && names[..k][i] == names[i];
            assert r[i] == acc[i];
          }
        }
      }
    }
  }

  /** A failing row ends the gathering with its error, whatever follows. */
  lemma {:induction false} GatherStopAt(names: seq<string>, rows: seq<Result<seq<Score>, Error>>, keep: bool, i: nat)
    requires |names| == |rows| && i < |rows|
    requires Gather(names[..i], rows[..i], keep).Ok? && rows[i].Err?
    ensures Gather(names, rows, keep) == Err(rows[i].error)
    decreases |rows|
  {
    var k := |rows| - 1;
    if i == k {
      assert names[..i] == names[..k] && rows[..i] == rows[..k];
    } else {
      assert names[..k][..i] == names[..i] && rows[..k][..i] == rows[..i];
      GatherStopAt(names[..k], rows[..k], keep, i);
    }
  }

  lemma GatherStep(names: seq<string>, rows: seq<Result<seq<Score>, Error>>, keep: bool, i: nat, acc: seq<Efficient>)
    requires |names| == |rows| && i < |rows|
    requires Gather(names[..i], rows[..i], keep) == Ok(acc) && rows[i].Ok?
    ensures Gather(names[..i + 1], rows[..i + 1], keep) == Ok(acc + (if keep then [Efficient(names[i], rows[i].value)] else []))
  {
    assert names[..i + 1][..i] == names[..i] && rows[..i + 1][..i] == rows[..i];
  }

  /** `fundos_eficientes` fails exactly when some fund has no quota. */
  lemma EficientesFails(funds: seq<C.Series>, benches: seq<C.Series>, n: nat, hp: nat)
    requires C.Aligned(funds, n) && C.Aligned(benches, n)
    ensures Eficientes(funds, benches, n, hp).Ok? <==> forall i :: 0 <= i < |funds| ==> HasQuota(funds[i])
  {
    var rows := RowsOf(funds, benches, n, hp);
    GatherFails(Names(funds), rows, benches != []);
    assert forall i :: 0 <= i < |funds| ==> (rows[i].Ok? <==> HasQuota(funds[i]));
  }

  /** With a benchmark, `fundos_eficientes` has one row per fund, in the
      order of the funds, each holding that fund's blocks; without one it
      has no row. */
  lemma EficientesRows(funds: seq<C.Series>, benches: seq<C.Series>, n: nat, hp: nat)
    requires C.Aligned(funds, n) && C.Aligned(benches, n)
    requires Eficientes(funds, benches, n, hp).Ok?
    ensures |Eficientes(funds, benches, n, hp).value| == if benches == [] then 0 else |funds|
    ensures benches != [] ==> forall i :: 0 <= i < |funds| ==>
      && FundRow(funds[i], benches, n, hp).Ok?
      && Eficientes(funds, benches, n, hp).value[i] == Efficient(funds[i].name, FundRow(funds[i], benches, n, hp).value)
  {
    GatherRows(Names(funds), RowsOf(funds, benches, n, hp), benches != []);
  }

  /** A block of a fund's row: benchmark `|benches| - 1 - i` with the number
      of rows whose fund return is strictly above its return, and that count
      over the complete rows, as a percentage. */
  lemma BlockMeaning(fund: C.Series, benches: seq<C.Series>, n: nat, hp: nat, i: nat)
    requires |fund.cells| == n && NonZero(fund.cells) && C.Aligned(benches, n)
    requires FundRow(fund, benches, n, hp).Ok? && i < |benches|
    ensures
      var j := |benches| - 1 - i;
      var f := PctChange(fund.cells, hp);
      var b := PctChange(benches[j].cells, hp);
      var s := FundRow(fund, benches, n, hp).value[i];
      && |FundRow(fund, benches, n, hp).value| == |benches|
      && s.bench == benches[j].name
      && s.wins == Wins(f, b, n)
      && s.efficiency == Efficiency(s.wins, CompleteRows(Retornos(fund, benches, n, hp), n))
  {
    var ret := FundReturns(fund, benches, n, hp, i);
  }

  /** The lagged returns behind a fund's row: the fund's in front, then
      benchmark `j`'s at `j + 1`; block `i` of the row is benchmark
      `j = |benches| - 1 - i`'s score on them. */
  lemma FundReturns(fund: C.Series, benches: seq<C.Series>, n: nat, hp: nat, i: nat) returns (ret: seq<Column>)
    requires |fund.cells| == n && NonZero(fund.cells) && C.Aligned(benches, n)
    requires FundRow(fund, benches, n, hp).Ok? && i < |benches|
    ensures ret == Retornos(fund, benches, n, hp)
    ensures |ret| == |benches| + 1
    ensures ret[0] == PctChange(fund.cells, hp) && ret[|benches| - i] == PctChange(benches[|benches| - 1 - i].cells, hp)
    ensures FundRow(fund, benches, n, hp).value[i] == ScoreOf(ret, Names(benches), n, |benches| - 1 - i)
  {
    var j := |benches| - 1 - i;
    AlignedCells(benches, n);
    ConsNonZero(fund.cells, Cells(benches));
    var cols := [fund.cells] + Cells(benches);
    ret := Returns(cols, hp);
    assert ret[0] == PctChange(cols[0], hp) && ret[j + 1] == PctChange(cols[j + 1], hp);
    assert cols[0] == fund.cells && cols[j + 1] == benches[j].cells;
    assert FundRow(fund, benches, n, hp).value == Blocks(ret, Names(benches), n, |benches|);
  }

  /** The first `HP` rows never count as a win. */
  lemma WinsAfterLag(fund: C.Series, benches: seq<C.Series>, n: nat, hp: nat, i: nat)
    requires |fund.cells| == n && NonZero(fund.cells) && C.Aligned(benches, n)
    requires FundRow(fund, benches, n, hp).Ok? && i < |benches|
    ensures FundRow(fund, benches, n, hp).value[i].wins <= if hp <= n then n - hp else 0
  {
    var ret := FundReturns(fund, benches, n, hp, i);
    WinsLate(fund.cells, ret[|benches| - i], n, hp);
  }

  /** Lagged returns are missing on their first `hp` rows, so they win on
      none of them. */
  lemma WinsLate(col: Column, b: Column, n: nat, hp: nat)
    requires NonZero(col)
    ensures Wins(PctChange(col, hp), b, n) <= if hp <= n then n - hp else 0
  {
    var f := PctChange(col, hp);
    var p := (k: nat) => k < |f| && k < |b| && Beat(f[k], b[k]);
    var late := (k: nat) => hp <= k;
    CountImplies(Indices(n), p, late);
    LateIndices(n, hp);
  }

  lemma {:induction false} CountImplies<T(!new)>(s: seq<T>, p: T -> bool, q: T -> bool)
    requires forall x :: x in s && p(x) ==> q(x)
    ensures Count(s, p) <= Count(s, q)
  {
    if s != [] {
      CountImplies(s[1..], p, q);
    }
  }

  lemma LateIndices(n: nat, hp: nat)
    ensures Count(Indices(n), (k: nat) => hp <= k) == if hp <= n then n - hp else 0
  {
    LateFrom(n, hp, 0);
  }

  lemma {:induction false} LateFrom(n: nat, hp: nat, i: nat)
    requires i <= n
    ensures Count(Indices(n)[i..], (k: nat) => hp <= k) == if hp <= i then n - i else if hp <= n then n - hp else 0
    decreases n - i
  {
    if i < n {
      LateFrom(n, hp, i + 1);
      assert Indices(n)[i..][1..] == Indices(n)[i + 1..];
      assert Indices(n)[i..][0] == i;
    }
  }

  /** The inner loop of `fundos_eficientes`: for each benchmark its win
      count and efficiency, each new block put in front. */
  method ScoreBenchmarks(ret: seq<Column>, names: seq<string>, n: nat) returns (df2: seq<Score>)
    requires |ret| == |names| + 1
    ensures df2 == Blocks(ret, names, n, |names|)
  {
    df2 := [];
    var j := 0;
    while j < |names|
      invariant 0 <= j <= |names|
      invariant df2 == Blocks(ret, names, n, j)
    {
      var wins := Wins(ret[0], ret[j + 1], n);
      var df1 := Score(names[j], wins, Efficiency(wins, CompleteRows(ret, n)));
      df2 := [df1] + df2;
      j := j + 1;
    }
  }

  /** The gathering of the first `i` funds. */
  function Prefix(funds: seq<C.Series>, benches: seq<C.Series>, n: nat, hp: nat, i: nat): Result<seq<Efficient>, Error>
    requires C.Aligned(funds, n) && C.Aligned(benches, n) && i <= |funds|
  {
    Gather(Names(funds)[..i], RowsOf(funds, benches, n, hp)[..i], benches != [])
  }

  /** How the gathering of the first `i` funds goes on with fund `i`'s row,
      and that the gathering of all funds is `fundos_eficientes`. */
  lemma EficientesNext(funds: seq<C.Series>, benches: seq<C.Series>, n: nat, hp: nat, i: nat,
                       acc: seq<Efficient>, row: Result<seq<Score>, Error>)
    requires C.Aligned(funds, n) && C.Aligned(benches, n) && i <= |funds|
    requires Prefix(funds, benches, n, hp, i) == Ok(acc)
    requires i < |funds| ==> row == FundRow(funds[i], benches, n, hp)
    ensures i == |funds| ==> Eficientes(funds, benches, n, hp) == Ok(acc)
    ensures i < |funds| && row.Err? ==> Eficientes(funds, benches, n, hp) == Err(row.error)
    ensures i < |funds| && row.Ok? ==>
      Prefix(funds, benches, n, hp, i + 1) == Ok(acc + (if benches == [] then [] else [Efficient(funds[i].name, row.value)]))
  {
    var names := Names(funds);
    var rows := RowsOf(funds, benches, n, hp);
    if i == |funds| {
      assert names[..i] == names && rows[..i] == rows;
    } else {
      assert rows[i] == row;
      if row.Err? {
        GatherStopAt(names, rows, benches != [], i);
      } else {
        GatherStep(names, rows, benches != [], i, acc);
      }
    }
  }

  /** One pass of the outer loop of `fundos_eficientes`: the fund's lagged
      returns beside the benchmarks', then its blocks. */
  method ScoreFund(fundo: C.Series, benches: seq<C.Series>, n: nat, hp: nat)
    returns (row: Result<seq<Score>, Error>)
    requires |fundo.cells| == n && NonZero(fundo.cells) && C.Aligned(benches, n)
    ensures row == FundRow(fundo, benches, n, hp)
  {
    AlignedCells(benches, n);
    var retorno := CalculaRetorno(fundo.cells, Cells(benches), hp);
    if retorno.Err? {
      return Err(retorno.error);
    }
    assert retorno.value == Retornos(fundo, benches, n, hp);
    var df2 := ScoreBenchmarks(retorno.value, Names(benches), n);
    row := Ok(df2);
  }

  /** `fundos_eficientes`: for each fund its lagged returns, then for each
      benchmark its win count and efficiency, each new block put in front
      of the fund's row, and the fund's row appended below the others. */
  method FundosEficientes(funds: seq<C.Series>, benches: seq<C.Series>, n: nat, hp: nat)
    returns (r: Result<seq<Efficient>, Error>)
    requires C.Aligned(funds, n) && C.Aligned(benches, n)
    ensures r == Eficientes(funds, benches, n, hp)
  {
    var melhores: seq<Efficient> := [];
    var i := 0;
    while i < |funds|
      invariant 0 <= i <= |funds|
      invariant Prefix(funds, benches, n, hp, i) == Ok(melhores)
    {
      var fundo := funds[i];
      var row := ScoreFund(fundo, benches, n, hp);
      EficientesNext(funds, benches, n, hp, i, melhores, row);
      if row.Err? {
        return Err(row.error);
      }
      var df2 := row.value;
      melhores := melhores + (if benches == [] then [] else [Efficient(fundo.name, df2)]);
      i := i + 1;
    }
    EficientesNext(funds, benches, n, hp, i, melhores, Ok([]));
    r := Ok(melhores);
  }

  // ---------------------------------------------------------------------
  // The efficiency above 100 %

  /** The win count of `fundos_eficientes` is taken over every row while the
      efficiency divides by the complete rows only, so a benchmark that
      starts late makes another benchmark's efficiency exceed 100 %: a fund
      rising from 1 to 2 to 3, a flat benchmark A and a benchmark B missing
      on the first day give A two wins over one complete row. */
  lemma EfficiencyAboveHundred()
    ensures
      var fund := C.Series("F", [Some(1.0), Some(2.0), Some(3.0)]);
      var benches := [C.Series("A", [Some(1.0), Some(1.0), Some(1.0)]), C.Series("B", [None, Some(1.0), Some(1.0)])];
      C.Aligned(benches, 3) && NonZero(fund.cells)
      && FundRow(fund, benches, 3, 1) == Ok([Score("B", 1, Some(100.0)), Score("A", 2, Some(200.0))])
  {
    var f: Column := [Some(1.0), Some(2.0), Some(3.0)];
    var a: Column := [Some(1.0), Some(1.0), Some(1.0)];
    var b: Column := [None, Some(1.0), Some(1.0)];
    var benches := [C.Series("A", a), C.Series("B", b)];
    assert C.Aligned(benches, 3);
    AlignedCells(benches, 3);
    assert Cells(benches) == [a, b];
    assert Names(benches) == ["A", "B"];
    ExampleRetorno();
    assert Retornos(C.Series("F", f), benches, 3, 1) == CalculaRetorno(f, [a, b], 1).value;
    ExampleBlocks(Retornos(C.Series("F", f), benches, 3, 1));
  }

  lemma ExampleRetorno()
    ensures NonZero([Some(1.0), Some(2.0), Some(3.0)])
    ensures AllNonZero([[Some(1.0), Some(1.0), Some(1.0)], [None, Some(1.0), Some(1.0)]])
    ensures CalculaRetorno([Some(1.0), Some(2.0), Some(3.0)], [[Some(1.0), Some(1.0), Some(1.0)], [None, Some(1.0), Some(1.0)]], 1)
      == Ok([[None, Some(1.0), Some(0.5)], [None, Some(0.0), Some(0.0)], [None, None, Some(0.0)]])
  {
    var f: Column := [Some(1.0), Some(2.0), Some(3.0)];
    var a: Column := [Some(1.0), Some(1.0), Some(1.0)];
    var b: Column := [None, Some(1.0), Some(1.0)];
    ExampleReturns();
    assert AllNonZero([a, b]);
    assert f[0].Some?;
    var cols := [f] + [a, b];
    assert cols == [f, a, b];
    var ret := Returns(cols, 1);
    assert CalculaRetorno(f, [a, b], 1) == Ok(ret);
    assert ret == [PctChange(f, 1), PctChange(a, 1), PctChange(b, 1)];
  }

  lemma ExampleBlocks(ret: seq<Column>)
    requires ret == [[None, Some(1.0), Some(0.5)], [None, Some(0.0), Some(0.0)], [None, None, Some(0.0)]]
    ensures Blocks(ret, ["A", "B"], 3, 2) == [Score("B", 1, Some(100.0)), Score("A", 2, Some(200.0))]
  {
    ExampleCounts(ret);
    var blocks := Blocks(ret, ["A", "B"], 3, 2);
    assert blocks == [ScoreOf(ret, ["A", "B"], 3, 1), ScoreOf(ret, ["A", "B"], 3, 0)];
    assert Efficiency(2, 1) == Some(200.0);
    assert Efficiency(1, 1) == Some(100.0);
  }

  lemma ExampleReturns()
    ensures NonZero([Some(1.0), Some(2.0), Some(3.0)]) && NonZero([Some(1.0), Some(1.0), Some(1.0)])
    ensures NonZero([None, Some(1.0), Some(1.0)])
    ensures PctChange([Some(1.0), Some(2.0), Some(3.0)], 1) == [None, Some(1.0), Some(0.5)]
    ensures PctChange([Some(1.0), Some(1.0), Some(1.0)], 1) == [None, Some(0.0), Some(0.0)]
    ensures PctChange([None, Some(1.0), Some(1.0)], 1) == [None, None, Some(0.0)]
  {
    var f: Column := [Some(1.0), Some(2.0), Some(3.0)];
    var a: Column := [Some(1.0), Some(1.0), Some(1.0)];
    var b: Column := [None, Some(1.0), Some(1.0)];
    PctChangeGapFree(f, 1, 1);
    PctChangeGapFree(f, 1, 2);
    PctChangeGapFree(a, 1, 1);
    PctChangeGapFree(a, 1, 2);
    PctChangeGapFree(b, 1, 2);
    FFillLeading(b, 0);
  }

  /** A count over three rows, row by row. */
  lemma CountThree(p: nat -> bool)
    ensures Count(Indices(3), p) == (if p(0) then 1 else 0) + (if p(1) then 1 else 0) + (if p(2) then 1 else 0)
  {
    var s := Indices(3);
    assert s == [0, 1, 2];
    assert s[1..] == [1, 2];
    assert s[1..][1..] == [2];
    assert s[1..][1..][1..] == [];
  }

  lemma ExampleCounts(ret: seq<Column>)
    requires ret == [[None, Some(1.0), Some(0.5)], [None, Some(0.0), Some(0.0)], [None, None, Some(0.0)]]
    ensures Wins(ret[0], ret[1], 3) == 2 && Wins(ret[0], ret[2], 3) == 1 && CompleteRows(ret, 3) == 1
  {
    WinsOfThree(ret[0], ret[1]);
    WinsOfThree(ret[0], ret[2]);
    CompleteOfThree(ret);
    assert !CompleteRow(ret, 0) && !CompleteRow(ret, 1);
    assert CompleteRow(ret, 2);
  }

  /** Wins over three rows, row by row. */
  lemma WinsOfThree(f: Column, b: Column)
    requires |f| == 3 && |b| == 3
    ensures Wins(f, b, 3) ==
      (if Beat(f[0], b[0]) then 1 else 0) + (if Beat(f[1], b[1]) then 1 else 0) + (if Beat(f[2], b[2]) then 1 else 0)
  {
    CountThree((k: nat) => k < |f| && k < |b| && Beat(f[k], b[k]));
  }

  /** Complete rows among three, row by row. */
  lemma CompleteOfThree(ret: seq<Column>)
    ensures CompleteRows(ret, 3) ==
      (if CompleteRow(ret, 0) then 1 else 0) + (if CompleteRow(ret, 1) then 1 else 0) + (if CompleteRow(ret, 2) then 1 else 0)
  {
    CountThree((k: nat) => CompleteRow(ret, k));
  }

  /** The count the efficiency evidently means: the wins among the complete
      rows. */
  function CompleteWins(ret: seq<Column>, j: nat, n: nat): (w: nat)
    requires j + 1 < |ret|
    ensures w <= CompleteRows(ret, n)
  {
    CountImplies(Indices(n), (k: nat) => CompleteRow(ret, k) && Beat(ret[0][k], ret[j + 1][k]),
                             (k: nat) => CompleteRow(ret, k));
    Count(Indices(n), (k: nat) => CompleteRow(ret, k) && Beat(ret[0][k], ret[j + 1][k]))
  }

  /** Counted on the complete rows, the efficiency is a percentage. */
  lemma CompleteEfficiencyBounded(ret: seq<Column>, j: nat, n: nat)
    requires j + 1 < |ret|
    ensures Efficiency(CompleteWins(ret, j, n), CompleteRows(ret, n)).Some? <==> CompleteRows(ret, n) > 0
    ensures CompleteRows(ret, n) > 0 ==>
      0.0 <= Efficiency(CompleteWins(ret, j, n), CompleteRows(ret, n)).value <= 100.0
  {
    if CompleteRows(ret, n) > 0 {
      EfficiencyBounded(CompleteWins(ret, j, n), CompleteRows(ret, n));
    }
  }

  /** A block counted on the complete rows. */
  function CorrectedScore(ret: seq<Column>, names: seq<string>, n: nat, j: nat): (s: Score)
    requires |ret| == |names| + 1 && j < |names|
    ensures s.bench == names[j] && s.wins <= CompleteRows(ret, n)
    ensures s.efficiency.Some? <==> CompleteRows(ret, n) > 0
    ensures s.efficiency.Some? ==> 0.0 <= s.efficiency.value <= 100.0
  {
    CompleteEfficiencyBounded(ret, j, n);
    Score(names[j], CompleteWins(ret, j, n), Efficiency(CompleteWins(ret, j, n), CompleteRows(ret, n)))
  }

  /** A fund's row with every block counted on the complete rows: the same
      layout as `FundRow`, and every efficiency a percentage. */
  function FundRowCorrected(fund: C.Series, benches: seq<C.Series>, n: nat, hp: nat): (r: Result<seq<Score>, Error>)
    requires |fund.cells| == n && NonZero(fund.cells) && C.Aligned(benches, n)
    ensures r.Ok? <==> HasQuota(fund)
    ensures r.Ok? ==> |r.value| == |benches|
    ensures r.Ok? ==> forall i :: 0 <= i < |benches| ==>
      && r.value[i].bench == benches[|benches| - 1 - i].name
      && (r.value[i].efficiency.Some? ==> 0.0 <= r.value[i].efficiency.value <= 100.0)
  {
    if HasQuota(fund) then
      var ret := Retornos(fund, benches, n, hp);
      Ok(seq(|benches|, i requires 0 <= i < |benches| => CorrectedScore(ret, Names(benches), n, |benches| - 1 - i)))
    else Err(NoValue)
  }

  // ---------------------------------------------------------------------
  // `calcula_rentabilidade_fundos`

  function Percentage(x: real): real {
    100.0 * x
  }

  function Times100(x: Option<real>): Option<real> {
    if x.Some? then Some(Percentage(x.value)) else None
  }

  function Times100Column(col: Column): (r: Column)
    ensures |r| == |col| && forall k :: 0 <= k < |col| ==> r[k] == Times100(col[k])
  {
    seq(|col|, k requires 0 <= k < |col| => Times100(col[k]))
  }

  function Percent(cols: seq<Column>): (r: seq<Column>)
    ensures |r| == |cols| && forall c :: 0 <= c < |cols| ==> r[c] == Times100Column(cols[c])
  {
    seq(|cols|, c requires 0 <= c < |cols| => Times100Column(cols[c]))
  }

  /** The last row of `(1 + pct_change()).cumprod() - 1`, times 100, for
      every column. */
  function Totals(frame: seq<Column>, n: nat): (r: seq<Option<real>>)
    requires Shaped(frame, n) && AllNonZero(frame) && n > 0
    ensures |r| == |frame| && forall c :: 0 <= c < |frame| ==> r[c] == Times100(CumReturn(PctChange(frame[c], 1))[n - 1])
  {
    seq(|frame|, c requires 0 <= c < |frame| => Times100(CumReturn(PctChange(frame[c], 1))[n - 1]))
  }

  /** `calcula_rentabilidade_fundos` without annualisation: the normalised
      quotas and the total return of each fund, both times 100; a frame
      without rows has no initial row. */
  function Rentabilidade(frame: seq<Column>, n: nat): (r: Result<(seq<Column>, seq<Option<real>>), Error>)
    requires Shaped(frame, n) && AllNonZero(frame)
    ensures r.Err? <==> n == 0
    ensures r.Err? ==> r.error == NoValue
    ensures r.Ok? ==> |r.value.0| == |frame| && |r.value.1| == |frame| && Shaped(r.value.0, n)
  {
    match CotasNormalizadas(frame, n)
    case Err(e) => Err(e)
    case Ok(cotas) => Ok((Percent(cotas), Totals(frame, n)))
  }

  /** A normalised quota is the quota over the quota of the first row, times
      100; the missing cells stay missing, and a fund missing on the first
      row is missing everywhere. */
  lemma RentabilidadeQuota(frame: seq<Column>, n: nat, c: nat, k: nat)
    requires Shaped(frame, n) && AllNonZero(frame)
    requires Rentabilidade(frame, n).Ok? && c < |frame| && k < n
    ensures frame[c][0].Some? && frame[c][k].Some? ==>
      Rentabilidade(frame, n).value.0[c][k] == Some(Percentage(frame[c][k].value / frame[c][0].value))
    ensures frame[c][k].None? || frame[c][0].None? ==> Rentabilidade(frame, n).value.0[c][k].None?
  {
    var cotas := CotasNormalizadas(frame, n).value;
    assert Rentabilidade(frame, n).value.0[c][k] == Times100(cotas[c][k]);
    if frame[c][0].Some? && frame[c][k].Some? {
      CotaCell(frame, n, c, k);
    }
  }

  /** The total return of a fund is its last quota (carried forward over a
      final gap) over its first present quota, minus one, times 100; a fund
      whose only present quota is on the last row, or that has none, has
      no total. */
  lemma TotalReturn(frame: seq<Column>, n: nat, c: nat)
    requires Shaped(frame, n) && AllNonZero(frame)
    requires Rentabilidade(frame, n).Ok? && c < |frame|
    ensures FirstIndex(frame[c]).None? || FirstIndex(frame[c]).value == n - 1 ==> Rentabilidade(frame, n).value.1[c].None?
    ensures FirstIndex(frame[c]).Some? && FirstIndex(frame[c]).value < n - 1 ==>
      && FFill(frame[c])[n - 1].Some?
      && Rentabilidade(frame, n).value.1[c] ==
           Some(Percentage(RelativeChange(FFill(frame[c])[n - 1].value, frame[c][FirstIndex(frame[c]).value].value)))
  {
    TotalOf(frame, n, c);
    ColumnTotal(frame[c]);
  }

  lemma TotalOf(frame: seq<Column>, n: nat, c: nat)
    requires Shaped(frame, n) && AllNonZero(frame)
    requires Rentabilidade(frame, n).Ok? && c < |frame|
    ensures |frame[c]| == n > 0 && NonZero(frame[c])
    ensures Rentabilidade(frame, n).value.1[c] == Times100(CumReturn(PctChange(frame[c], 1))[n - 1])
  {
  }

  /** The last row of a column's cumulative return: missing when the
      column has no present cell before its last row, otherwise the carried
      last quota over the first present quota, minus one. */
  lemma ColumnTotal(col: Column)
    requires NonZero(col) && |col| > 0
    ensures var last := |col| - 1;
      FirstIndex(col).None? || FirstIndex(col).value == last ==> CumReturn(PctChange(col, 1))[last].None?
    ensures var last := |col| - 1;
      FirstIndex(col).Some? && FirstIndex(col).value < last ==>
        && FFill(col)[last].Some?
        && CumReturn(PctChange(col, 1))[last] == Some(RelativeChange(FFill(col)[last].value, col[FirstIndex(col).value].value))
  {
    if FirstIndex(col).Some? {
      CumulativeTelescopes(col, |col| - 1);
    } else {
      CumulativeEmpty(col, |col| - 1);
    }
  }

  /** For a gap-free column the total return is last over first, minus one,
      times 100. */
  lemma TotalReturnGapFree(frame: seq<Column>, n: nat, c: nat)
    requires Shaped(frame, n) && AllNonZero(frame)
    requires Rentabilidade(frame, n).Ok? && c < |frame| && n >= 2
    requires frame[c][0].Some? && frame[c][n - 1].Some?
    ensures Rentabilidade(frame, n).value.1[c] == Some(Percentage(RelativeChange(frame[c][n - 1].value, frame[c][0].value)))
  {
    assert FirstIndex(frame[c]) == Some(0);
    TotalReturn(frame, n, c);
  }

  /** A column with every present cell times 252, the trading days of a
      year. */
  function Times252(col: Column): (r: Column)
    ensures |r| == |col|
    ensures forall k :: 0 <= k < |col| ==> (r[k].None? <==> col[k].None?)
  {
    seq(|col|, k requires 0 <= k < |col| => if col[k].Some? then Some(252.0 * col[k].value) else None)
  }

  /** `(rentabilidade_fundos_diaria * 252).mean(axis=0)` for one fund, times
      100 as the function returns it; `None` is a fund without any daily
      return, the row `dropna()` removes. */
  function AnnualisedMean(daily: Column): (r: Option<real>)
    ensures r.None? <==> forall k :: 0 <= k < |daily| ==> daily[k].None?
  {
    Times100(Mean(Times252(daily)))
  }

  /** Daily returns within `[lo, hi]` give an annualised mean within
      `[25200 lo, 25200 hi]`. */
  lemma AnnualisedMeanBounds(daily: Column, lo: real, hi: real)
    requires forall k :: 0 <= k < |daily| && daily[k].Some? ==> lo <= daily[k].value <= hi
    ensures AnnualisedMean(daily).Some? ==> 25200.0 * lo <= AnnualisedMean(daily).value <= 25200.0 * hi
  {
    var scaled := Times252(daily);
    assert forall k :: 0 <= k < |scaled| && scaled[k].Some? ==> 252.0 * lo <= scaled[k].value <= 252.0 * hi;
    MeanBounds(scaled, 252.0 * lo, 252.0 * hi);
  }

  /** The annualised mean daily return of every fund of the frame. */
  function MediaAnualizada(frame: seq<Column>, n: nat): (r: seq<Option<real>>)
    requires Shaped(frame, n) && AllNonZero(frame)
    ensures |r| == |frame|
    ensures forall c :: 0 <= c < |frame| ==> r[c] == AnnualisedMean(PctChange(frame[c], 1))
  {
    seq(|frame|, c requires 0 <= c < |frame| => AnnualisedMean(PctChange(frame[c], 1)))
  }

  /** A fund is dropped from the annualised means exactly when it has no
      quota before the last row, so that no daily return exists. */
  lemma MediaAnualizadaDropped(frame: seq<Column>, n: nat, c: nat)
    requires Shaped(frame, n) && AllNonZero(frame) && c < |frame|
    ensures MediaAnualizada(frame, n)[c].None? <==>
      FirstIndex(frame[c]).None? || FirstIndex(frame[c]).value + 1 >= n
  {
    var col := frame[c];
    if FirstIndex(col).Some? && FirstIndex(col).value + 1 < n {
      SomeDailyReturn(col);
    } else {
      NoDailyReturn(col);
    }
  }

  /** A column with a quota before its last row has a daily return in the
      row after that quota. */
  lemma SomeDailyReturn(col: Column)
    requires NonZero(col)
    requires FirstIndex(col).Some? && FirstIndex(col).value + 1 < |col|
    ensures PctChange(col, 1)[FirstIndex(col).value + 1].Some?
  {
    var f := FirstIndex(col).value;
    FFillPresentFrom(col, f);
    OneRowChange(col, f + 1);
  }

  /** A column whose first quota is missing or in the last row has no daily
      return. */
  lemma NoDailyReturn(col: Column)
    requires NonZero(col)
    requires FirstIndex(col).None? || FirstIndex(col).value + 1 >= |col|
    ensures forall k :: 0 <= k < |col| ==> PctChange(col, 1)[k].None?
  {
    forall k | 0 <= k < |col| ensures PctChange(col, 1)[k].None? {
      if k >= 1 {
        FFillLeading(col, k - 1);
      }
      OneRowChange(col, k);
    }
  }

  /** The annualised mean of a fund lies within 25200 times any bounds on its
      daily returns. */
  lemma MediaAnualizadaBounds(frame: seq<Column>, n: nat, c: nat, lo: real, hi: real)
    requires Shaped(frame, n) && AllNonZero(frame) && c < |frame|
    requires forall k :: 0 <= k < n && PctChange(frame[c], 1)[k].Some? ==> lo <= PctChange(frame[c], 1)[k].value <= hi
    ensures MediaAnualizada(frame, n)[c].Some? ==> 25200.0 * lo <= MediaAnualizada(frame, n)[c].value <= 25200.0 * hi
  {
    AnnualisedMeanBounds(PctChange(frame[c], 1), lo, hi);
  }

  // ---------------------------------------------------------------------
  // `melhores_e_piores_fundos`

  function HasValue<T>(key: T -> Option<real>): T -> bool {
    x => key(x).Some?
  }

  function LacksValue<T>(key: T -> Option<real>): T -> bool {
    x => key(x).None?
  }

  function SameValue<T>(key: T -> Option<real>, o: Option<real>): T -> bool {
    x => key(x) == o
  }

  /** The sort key of a row: its value, negated for a descending order. */
  function Rank<T>(key: T -> Option<real>, desc: bool): T -> real {
    x => var v := if key(x).Some? then key(x).value else 0.0; if desc then -v else v
  }

  /** A row of key `a` may come before a row of key `b`: a missing value
      only before missing values, otherwise a value not below `b` for a
      descending order and not above it for an ascending one. */
  predicate Before(a: Option<real>, b: Option<real>, desc: bool) {
    b.Some? ==> a.Some? && (if desc then a.value >= b.value else a.value <= b.value)
  }

  /** Every value's rows in `r` are the first of that value's rows in
      `rows`, in their order. */
  ghost predicate KeepsFirst<T(!new)>(r: seq<T>, rows: seq<T>, key: T -> Option<real>) {
    forall o :: Filter(r, SameValue(key, o)) <= Filter(rows, SameValue(key, o))
  }

  /** The order `nlargest` (`desc`) and `nsmallest` give all the rows: the
      rows with a value, sorted by it, earlier rows first among equal values,
      then the rows without one in their order. */
  function Ranking<T(!new)>(rows: seq<T>, key: T -> Option<real>, desc: bool): (r: seq<T>)
    ensures |r| == |rows| && multiset(r) == multiset(rows)
    ensures forall i, j :: 0 <= i < j < |r| ==> Before(key(r[i]), key(r[j]), desc)
    ensures forall o :: Filter(r, SameValue(key, o)) == Filter(rows, SameValue(key, o))
  {
    RankingPermutes(rows, key, desc);
    RankingOrdered(rows, key, desc);
    forall o ensures Filter(Ranked(rows, key, desc), SameValue(key, o)) == Filter(rows, SameValue(key, o)) {
      RankingKeepsTies(rows, key, desc, o);
    }
    Ranked(rows, key, desc)
  }

  /** The ranking itself: the sorted rows with a value, then the others. */
  function Ranked<T(!new)>(rows: seq<T>, key: T -> Option<real>, desc: bool): seq<T> {
    SortBy(Filter(rows, HasValue(key)), Rank(key, desc)) + Filter(rows, LacksValue(key))
  }

  /** The ranking is a permutation of the rows. */
  lemma RankingPermutes<T(!new)>(rows: seq<T>, key: T -> Option<real>, desc: bool)
    ensures |Ranked(rows, key, desc)| == |rows| && multiset(Ranked(rows, key, desc)) == multiset(rows)
  {
    var present := Filter(rows, HasValue(key));
    var missing := Filter(rows, LacksValue(key));
    var sorted := SortBy(present, Rank(key, desc));
    FilterSplit(rows, HasValue(key), LacksValue(key));
    assert multiset(sorted + missing) == multiset(sorted) + multiset(missing);
  }

  /** The rows sorted out of the rows with a value all have one. */
  lemma SortedPresent<T(!new)>(rows: seq<T>, key: T -> Option<real>, desc: bool)
    ensures forall x :: x in SortBy(Filter(rows, HasValue(key)), Rank(key, desc)) ==> key(x).Some?
  {
    var present := Filter(rows, HasValue(key));
    var sorted := SortBy(present, Rank(key, desc));
    forall x | x in sorted ensures key(x).Some? {
      assert x in multiset(sorted);
      assert x in present;
      assert HasValue(key)(x);
    }
  }

  /** The ranking is ordered, the rows without a value last. */
  lemma RankingOrdered<T(!new)>(rows: seq<T>, key: T -> Option<real>, desc: bool)
    ensures var r := Ranked(rows, key, desc);
      forall i, j :: 0 <= i < j < |r| ==> Before(key(r[i]), key(r[j]), desc)
  {
    var sorted := SortBy(Filter(rows, HasValue(key)), Rank(key, desc));
    var missing := Filter(rows, LacksValue(key));
    SortedPresent(rows, key, desc);
    var r := sorted + missing;
    forall i, j | 0 <= i < j < |r| ensures Before(key(r[i]), key(r[j]), desc) {
      if j < |sorted| {
        assert r[i] == sorted[i] && r[j] == sorted[j];
        assert sorted[i] in sorted && sorted[j] in sorted;
        assert Rank(key, desc)(sorted[i]) <= Rank(key, desc)(sorted[j]);
      } else {
        assert r[j] == missing[j - |sorted|] && LacksValue(key)(missing[j - |sorted|]);
      }
    }
  }

  /** The rows of one value keep their input order in the ranking. */
  lemma RankingKeepsTies<T(!new)>(rows: seq<T>, key: T -> Option<real>, desc: bool, o: Option<real>)
    ensures Filter(Ranked(rows, key, desc), SameValue(key, o)) == Filter(rows, SameValue(key, o))
  {
    var present := Filter(rows, HasValue(key));
    var missing := Filter(rows, LacksValue(key));
    var rank := Rank(key, desc);
    var sorted := SortBy(present, rank);
    var same := SameValue(key, o);
    FilterAppend(sorted, missing, same);
    SortedPresent(rows, key, desc);
    if o.None? {
      FilterNone(sorted, same);
      FilterNarrows(rows, LacksValue(key), same);
      assert [] + Filter(missing, same) == Filter(missing, same);
    } else {
      SameRank(rows, key, desc, o.value);
      var r := if desc then -o.value else o.value;
      FilterNone(missing, same);
      FilterCongruent(sorted, same, KeyIs(rank, r));
      SortByStable(present, rank, r);
      FilterCongruent(present, same, KeyIs(rank, r));
      FilterNarrows(rows, HasValue(key), same);
      assert Filter(sorted, same) + [] == Filter(sorted, same);
    }
  }

  /** Among rows with a value, the rows of value `v` are those of its rank. */
  lemma SameRank<T(!new)>(rows: seq<T>, key: T -> Option<real>, desc: bool, v: real)
    ensures var present := Filter(rows, HasValue(key));
      var r := if desc then -v else v;
      && (forall x :: x in present ==> SameValue(key, Some(v))(x) == KeyIs(Rank(key, desc), r)(x))
      && (forall x :: x in SortBy(present, Rank(key, desc)) ==> SameValue(key, Some(v))(x) == KeyIs(Rank(key, desc), r)(x))
      && (forall x :: x in Filter(rows, LacksValue(key)) ==> !SameValue(key, Some(v))(x))
      && (forall x :: x in rows && SameValue(key, Some(v))(x) ==> HasValue(key)(x))
  {
    var present := Filter(rows, HasValue(key));
    var r := if desc then -v else v;
    SortedPresent(rows, key, desc);
    forall x | x in present ensures SameValue(key, Some(v))(x) == KeyIs(Rank(key, desc), r)(x) {
      RankOfValue(key, desc, v, x);
    }
    forall x | x in SortBy(present, Rank(key, desc))
      ensures SameValue(key, Some(v))(x) == KeyIs(Rank(key, desc), r)(x)
    {
      RankOfValue(key, desc, v, x);
    }
  }

  /** A row with a value has value `v` exactly when it has the rank of `v`. */
  lemma RankOfValue<T>(key: T -> Option<real>, desc: bool, v: real, x: T)
    requires key(x).Some?
    ensures SameValue(key, Some(v))(x) == KeyIs(Rank(key, desc), if desc then -v else v)(x)
  {
  }

  /** The first `num` rows of a ranking keep its order. */
  lemma TakeOrdered<T>(ranked: seq<T>, key: T -> Option<real>, desc: bool, num: nat)
    requires forall i, j :: 0 <= i < j < |ranked| ==> Before(key(ranked[i]), key(ranked[j]), desc)
    ensures var r := Take(ranked, num);
      forall i, j :: 0 <= i < j < |r| ==> Before(key(r[i]), key(r[j]), desc)
  {
  }

  /** No row left out of the first `num` rows of a ranking ranks before a
      row taken. */
  lemma TakeBest<T>(rows: seq<T>, ranked: seq<T>, key: T -> Option<real>, desc: bool, num: nat)
    requires multiset(ranked) == multiset(rows)
    requires forall i, j :: 0 <= i < j < |ranked| ==> Before(key(ranked[i]), key(ranked[j]), desc)
    ensures var r := Take(ranked, num);
      && multiset(r) <= multiset(rows)
      && forall x, y :: x in r && y in multiset(rows) - multiset(r) ==> Before(key(x), key(y), desc)
  {
    var r := Take(ranked, num);
    var m := |r|;
    SplitMultiset(ranked, m);
    forall x, y | x in r && y in multiset(rows) - multiset(r) ensures Before(key(x), key(y), desc) {
      var i :| 0 <= i < m && r[i] == x;
      assert y in ranked[m..];
      var j :| 0 <= j < |ranked| - m && ranked[m..][j] == y;
      assert ranked[i] == x && ranked[m + j] == y;
    }
  }

  /** The first `num` rows of a ranking that keeps ties in input order take
      the first rows of every value. */
  lemma TakeKeepsFirst<T(!new)>(rows: seq<T>, ranked: seq<T>, key: T -> Option<real>, num: nat)
    requires forall o :: Filter(ranked, SameValue(key, o)) == Filter(rows, SameValue(key, o))
    ensures KeepsFirst(Take(ranked, num), rows, key)
  {
    var r := Take(ranked, num);
    forall o ensures Filter(r, SameValue(key, o)) <= Filter(rows, SameValue(key, o)) {
      FilterPrefix(ranked, |r|, SameValue(key, o));
    }
  }

  /** `df.nlargest(num, df.columns[0])`: the first `num` rows of the ranking
      by descending value, with the rows without a value last. */
  function Largest<T(!new)>(rows: seq<T>, key: T -> Option<real>, num: nat): (r: seq<T>)
    ensures |r| == if num < |rows| then num else |rows|
    ensures multiset(r) <= multiset(rows)
    ensures forall i, j :: 0 <= i < j < |r| ==> Before(key(r[i]), key(r[j]), true)
    ensures forall x, y :: x in r && y in multiset(rows) - multiset(r) ==> Before(key(x), key(y), true)
    ensures KeepsFirst(r, rows, key)
  {
    var ranked := Ranking(rows, key, true);
    TakeOrdered(ranked, key, true, num);
    TakeBest(rows, ranked, key, true, num);
    TakeKeepsFirst(rows, ranked, key, num);
    Take(ranked, num)
  }

  /** `df.nsmallest(num, df.columns[0])`: the first `num` rows of the ranking
      by ascending value, with the rows without a value last. */
  function Smallest<T(!new)>(rows: seq<T>, key: T -> Option<real>, num: nat): (r: seq<T>)
    ensures |r| == if num < |rows| then num else |rows|
    ensures multiset(r) <= multiset(rows)
    ensures forall i, j :: 0 <= i < j < |r| ==> Before(key(r[i]), key(r[j]), false)
    ensures forall x, y :: x in r && y in multiset(rows) - multiset(r) ==> Before(key(x), key(y), false)
    ensures KeepsFirst(r, rows, key)
  {
    var ranked := Ranking(rows, key, false);
    TakeOrdered(ranked, key, false, num);
    TakeBest(rows, ranked, key, false, num);
    TakeKeepsFirst(rows, ranked, key, num);
    Take(ranked, num)
  }

  /** A sequence's elements are those of a prefix and of the rest. */
  lemma SplitMultiset<T>(s: seq<T>, m: nat)
    requires m <= |s|
    ensures multiset(s[..m]) <= multiset(s)
    ensures multiset(s) - multiset(s[..m]) == multiset(s[m..])
  {
    assert s == s[..m] + s[m..];
  }

  // ---------------------------------------------------------------------
  // `remove_outliers`

  /** `(x < upper) & (x > lower)`: false for a missing cell. */
  predicate InBand(x: Option<real>, lower: real, upper: real) {
    x.Some? && lower < x.value < upper
  }

  /** `remove_outliers` with the quantiles given: the rows strictly inside
      the band, in their order. */
  function RemoveOutliers<T(!new)>(rows: seq<T>, value: T -> Option<real>, lower: real, upper: real): (r: seq<T>)
    ensures |r| <= |rows|
    ensures forall x :: x in r <==> x in rows && InBand(value(x), lower, upper)
  {
    Filter(rows, x => InBand(value(x), lower, upper))
  }

  /** The band keeps the order of the rows it retains. */
  lemma RemoveOutliersKeepsOrder<T(!new)>(a: seq<T>, b: seq<T>, value: T -> Option<real>, lower: real, upper: real)
    ensures RemoveOutliers(a + b, value, lower, upper) == RemoveOutliers(a, value, lower, upper) + RemoveOutliers(b, value, lower, upper)
  {
    FilterAppend(a, b, x => InBand(value(x), lower, upper));
  }

  /** With the same bounds, a second pass removes nothing. */
  lemma RemoveOutliersIdempotent<T(!new)>(rows: seq<T>, value: T -> Option<real>, lower: real, upper: real)
    ensures RemoveOutliers(RemoveOutliers(rows, value, lower, upper), value, lower, upper) == RemoveOutliers(rows, value, lower, upper)
  {
    FilterIdempotent(rows, x => InBand(value(x), lower, upper));
  }
}
