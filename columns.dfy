/** Exact arithmetic on quota columns: a column is the sequence of its cells
    in date order, `None` for a missing (NaN) cell. Covers the first and last
    present value, normalisation by the first one, `pct_change` (with its
    default forward fill) and the running product `(1 + r).cumprod()`. */
module Columns {
  import opened Wrappers
  import opened Errors

  type Column = seq<Option<real>>

  /** Every present cell is non-zero (division by zero is not modelled). */
  predicate NonZero(col: Column) {
    forall k :: 0 <= k < |col| && col[k].Some? ==> col[k].value != 0.0
  }

  // ---------------------------------------------------------------------
  // First and last present cell

  /** The first row at or after `i` holding a present cell. */
  function FirstFrom(col: Column, i: nat): (r: Option<nat>)
    requires i <= |col|
    ensures r.Some? ==> i <= r.value < |col| && col[r.value].Some?
    ensures r.Some? ==> forall k :: i <= k < r.value ==> col[k].None?
    ensures r.None? <==> forall k :: i <= k < |col| ==> col[k].None?
    decreases |col| - i
  {
    if i == |col| then None
    else if col[i].Some? then Some(i)
    else FirstFrom(col, i + 1)
  }

  /** The last row before `n` holding a present cell. */
  function LastBefore(col: Column, n: nat): (r: Option<nat>)
    requires n <= |col|
    ensures r.Some? ==> r.value < n && col[r.value].Some?
    ensures r.Some? ==> forall k :: r.value < k < n ==> col[k].None?
    ensures r.None? <==> forall k :: 0 <= k < n ==> col[k].None?
  {
    if n == 0 then None
    else if col[n - 1].Some? then Some(n - 1)
    else LastBefore(col, n - 1)
  }

  /** The row of the first present cell. */
  function FirstIndex(col: Column): (r: Option<nat>)
    ensures r.Some? ==> r.value < |col| && col[r.value].Some?
    ensures r.Some? ==> forall k :: 0 <= k < r.value ==> col[k].None?
    ensures r.None? <==> forall k :: 0 <= k < |col| ==> col[k].None?
  {
    FirstFrom(col, 0)
  }

  /** The row of the last present cell. */
  function LastIndex(col: Column): (r: Option<nat>)
    ensures r.Some? ==> r.value < |col| && col[r.value].Some?
    ensures r.Some? ==> forall k :: r.value < k < |col| ==> col[k].None?
    ensures r.None? <==> forall k :: 0 <= k < |col| ==> col[k].None?
  {
    LastBefore(col, |col|)
  }

  /** The present cells read from the front and from the back meet: the
      first present row is never after the last one. */
  lemma FirstNotAfterLast(col: Column)
    requires FirstIndex(col).Some?
    ensures LastIndex(col).Some? && FirstIndex(col).value <= LastIndex(col).value
  {
  }

  /** `_get_valores_iniciais` on a column: its first present value, or the
      `IndexError` of an empty selection. */
  function FirstValue(col: Column): (r: Result<real, Error>)
    ensures r.Err? <==> forall k :: 0 <= k < |col| ==> col[k].None?
    ensures r.Err? ==> r.error == NoValue
    ensures r.Ok? ==> exists k :: (0 <= k < |col| && col[k] == Some(r.value)
      && forall j :: 0 <= j < k ==> col[j].None?)
  {
    match FirstIndex(col)
    case None => Err(NoValue)
    case Some(k) => Ok(col[k].value)
  }

  /** `_get_valores_finais` on a column: its last present value. */
  function LastValue(col: Column): (r: Result<real, Error>)
    ensures r.Err? <==> forall k :: 0 <= k < |col| ==> col[k].None?
    ensures r.Err? ==> r.error == NoValue
    ensures r.Ok? ==> exists k :: (0 <= k < |col| && col[k] == Some(r.value)
      && forall j :: k < j < |col| ==> col[j].None?)
  {
    match LastIndex(col)
    case None => Err(NoValue)
    case Some(k) => Ok(col[k].value)
  }

  /** The first present value of every column, failing on the first column
      that has none. */
  function InitialValues(frame: seq<Column>): (r: Result<seq<real>, Error>)
    ensures r.Err? <==> exists c :: 0 <= c < |frame| && FirstValue(frame[c]).Err?
    ensures r.Ok? ==> |r.value| == |frame|
    ensures r.Ok? ==> forall c :: 0 <= c < |frame| ==> FirstValue(frame[c]) == Ok(r.value[c])
  {
    if frame == [] then Ok([])
    else
      match FirstValue(frame[0])
      case Err(e) => Err(e)
      case Ok(v) =>
        match InitialValues(frame[1..])
        case Err(e) =>
          assert exists c :: 1 <= c < |frame| && FirstValue(frame[c]).Err? by {
            var c :| 0 <= c < |frame[1..]| && FirstValue(frame[1..][c]).Err?;
            assert frame[c + 1] == frame[1..][c];
          }
          Err(e)
        case Ok(vs) =>
          assert forall c :: 1 <= c < |frame| ==> frame[c] == frame[1..][c - 1];
          Ok([v] + vs)
  }

  /** The last present value of every column. */
  function FinalValues(frame: seq<Column>): (r: Result<seq<real>, Error>)
    ensures r.Err? <==> exists c :: 0 <= c < |frame| && LastValue(frame[c]).Err?
    ensures r.Ok? ==> |r.value| == |frame|
    ensures r.Ok? ==> forall c :: 0 <= c < |frame| ==> LastValue(frame[c]) == Ok(r.value[c])
  {
    if frame == [] then Ok([])
    else
      match LastValue(frame[0])
      case Err(e) => Err(e)
      case Ok(v) =>
        match FinalValues(frame[1..])
        case Err(e) =>
          assert exists c :: 1 <= c < |frame| && LastValue(frame[c]).Err? by {
            var c :| 0 <= c < |frame[1..]| && LastValue(frame[1..][c]).Err?;
            assert frame[c + 1] == frame[1..][c];
          }
          Err(e)
        case Ok(vs) =>
          assert forall c :: 1 <= c < |frame| ==> frame[c] == frame[1..][c - 1];
          Ok([v] + vs)
  }

  // ---------------------------------------------------------------------
  // Normalisation

  /** The column divided by one number; missing cells stay missing. */
  function Scale(col: Column, base: real): (r: Column)
    requires base != 0.0
    ensures |r| == |col|
    ensures forall k :: 0 <= k < |col| ==> (r[k].None? <==> col[k].None?)
  {
    seq(|col|, k requires 0 <= k < |col| => if col[k].Some? then Some(col[k].value / base) else None)
  }

  /** A present cell of a scaled column is the cell over the base. */
  lemma ScaleAt(col: Column, base: real, k: nat)
    requires base != 0.0 && k < |col| && col[k].Some?
    ensures Scale(col, base)[k] == Some(col[k].value / base)
  {
  }

  /** The first present value of the column is non-zero. */
  predicate StartsNonZero(col: Column) {
    FirstIndex(col).Some? ==> col[FirstIndex(col).value].value != 0.0
  }

  /** `n` is `col` normalised: missing in the same rows, and exactly 1 at
      the column's first present row. */
  predicate NormalisedFrom(n: Column, col: Column) {
    && |n| == |col|
    && (forall k :: 0 <= k < |col| ==> (n[k].None? <==> col[k].None?))
    && FirstIndex(n) == FirstIndex(col)
    && (FirstIndex(col).Some? ==> n[FirstIndex(col).value] == Some(1.0))
  }

  /** Dividing a column by its own first value normalises it. */
  lemma ScaleByFirst(col: Column, base: real)
    requires FirstValue(col) == Ok(base) && base != 0.0
    ensures NormalisedFrom(Scale(col, base), col)
  {
    var n := Scale(col, base);
    SameShapeSameFirst(n, col);
    var first := FirstIndex(col).value;
    assert base == col[first].value;
    assert n[first] == Some(col[first].value / base);
    DivSelf(base);
  }

  lemma DivSelf(x: real)
    requires x != 0.0
    ensures x / x == 1.0
  {
  }

  lemma NonZeroStarts(col: Column)
    requires NonZero(col)
    ensures StartsNonZero(col)
  {
  }

  /** `df / _get_valores_iniciais(df)`: every column divided by its own first
      present value. */
  function Normalise(frame: seq<Column>): (r: Result<seq<Column>, Error>)
    requires forall c :: 0 <= c < |frame| ==> StartsNonZero(frame[c])
    ensures r.Err? <==> exists c :: 0 <= c < |frame| && FirstIndex(frame[c]).None?
    ensures r.Ok? ==> |r.value| == |frame|
    ensures r.Ok? ==> forall c :: 0 <= c < |frame| ==> NormalisedFrom(r.value[c], frame[c])
    ensures r.Ok? ==> forall c :: 0 <= c < |frame| && NonZero(frame[c]) ==> NonZero(r.value[c])
  {
    match InitialValues(frame)
    case Err(e) => Err(e)
    case Ok(init) =>
      assert forall c :: 0 <= c < |frame| ==> init[c] != 0.0 by {
        forall c | 0 <= c < |frame| ensures init[c] != 0.0 {
          assert FirstValue(frame[c]) == Ok(init[c]);
          assert StartsNonZero(frame[c]);
        }
      }
      var r := seq(|frame|, c requires 0 <= c < |frame| => Scale(frame[c], init[c]));
      assert forall c :: 0 <= c < |frame| ==> NormalisedFrom(r[c], frame[c]) by {
        forall c | 0 <= c < |frame| ensures NormalisedFrom(r[c], frame[c]) {
          ScaleByFirst(frame[c], init[c]);
        }
      }
      assert forall c :: 0 <= c < |frame| && NonZero(frame[c]) ==> NonZero(r[c]) by {
        forall c | 0 <= c < |frame| && NonZero(frame[c]) ensures NonZero(r[c]) {
          ScaleNonZero(frame[c], init[c]);
        }
      }
      Ok(r)
  }

  /** Two columns missing in the same rows start on the same row. */
  lemma SameShapeSameFirst(a: Column, b: Column)
    requires |a| == |b|
    requires forall k :: 0 <= k < |a| ==> (a[k].None? <==> b[k].None?)
    ensures FirstIndex(a) == FirstIndex(b)
  {
    SameShapeFrom(a, b, 0);
  }

  lemma {:induction false} SameShapeFrom(a: Column, b: Column, i: nat)
    requires |a| == |b| && i <= |a|
    requires forall k :: 0 <= k < |a| ==> (a[k].None? <==> b[k].None?)
    ensures FirstFrom(a, i) == FirstFrom(b, i)
    decreases |a| - i
  {
    if i < |a| && a[i].None? {
      SameShapeFrom(a, b, i + 1);
    }
  }

  /** A normalised cell is the raw cell over the column's first value. */
  lemma NormaliseCell(frame: seq<Column>, c: nat, k: nat)
    requires forall c :: 0 <= c < |frame| ==> StartsNonZero(frame[c])
    requires Normalise(frame).Ok? && c < |frame| && k < |frame[c]| && frame[c][k].Some?
    ensures Normalise(frame).value[c][k] == Some(frame[c][k].value / frame[c][FirstIndex(frame[c]).value].value)
  {
  }

  /** A normalised column is the raw column over its first present value. */
  lemma NormaliseIsScale(frame: seq<Column>, c: nat)
    requires forall c :: 0 <= c < |frame| ==> StartsNonZero(frame[c])
    requires Normalise(frame).Ok? && c < |frame|
    ensures FirstIndex(frame[c]).Some? && frame[c][FirstIndex(frame[c]).value].value != 0.0
    ensures Normalise(frame).value[c] == Scale(frame[c], frame[c][FirstIndex(frame[c]).value].value)
  {
    var n := Normalise(frame).value[c];
    var base := frame[c][FirstIndex(frame[c]).value].value;
    forall k | 0 <= k < |n| ensures n[k] == Scale(frame[c], base)[k] {
      if frame[c][k].Some? {
        NormaliseCell(frame, c, k);
      }
    }
  }

  /** Forward filling commutes with scaling. */
  lemma FFillScale(col: Column, base: real)
    requires base != 0.0
    ensures FFill(Scale(col, base)) == Scale(FFill(col), base)
  {
    var s := Scale(col, base);
    forall k | 0 <= k < |col| ensures FFill(s)[k] == Scale(FFill(col), base)[k] {
      SameShapeBefore(s, col, k + 1);
      FFillAt(s, k);
      FFillAt(col, k);
    }
  }

  /** `pct_change` does not see a factor common to the whole column. */
  lemma PctChangeOfScaled(col: Column, base: real, lag: nat)
    requires NonZero(col) && base != 0.0
    ensures NonZero(Scale(col, base))
    ensures PctChange(Scale(col, base), lag) == PctChange(col, lag)
  {
    ScaleNonZero(col, base);
    FFillScale(col, base);
    var fs, f := FFill(Scale(col, base)), FFill(col);
    forall k | 0 <= k < |col| ensures Change(fs, lag, k) == Change(f, lag, k) {
      ChangeOfScaled(fs, f, base, lag, k);
    }
  }

  lemma ChangeOfScaled(fs: Column, f: Column, base: real, lag: nat, k: nat)
    requires NonZero(fs) && NonZero(f) && base != 0.0 && k < |f| && fs == Scale(f, base)
    ensures Change(fs, lag, k) == Change(f, lag, k)
  {
    if k >= lag && f[k].Some? && f[k - lag].Some? {
      RatioOfScaled(fs[k].value, fs[k - lag].value, f[k].value, f[k - lag].value, base);
    }
  }

  /** Scaling both sides of a ratio by the same number leaves it unchanged. */
  lemma RatioOfScaled(x: real, y: real, a: real, b: real, base: real)
    requires b != 0.0 && base != 0.0 && x == a / base && y == b / base
    ensures x / y == a / b
  {
    assert y * base == b;
    assert x * base == a;
  }

  /** The last normalised value is the last raw value over the first one. */
  lemma NormalisedFinal(frame: seq<Column>, c: nat)
    requires forall c :: 0 <= c < |frame| ==> StartsNonZero(frame[c])
    requires Normalise(frame).Ok? && c < |frame|
    ensures LastValue(frame[c]).Ok? && LastValue(Normalise(frame).value[c]).Ok?
    ensures LastValue(Normalise(frame).value[c]).value ==
      LastValue(frame[c]).value / FirstValue(frame[c]).value
  {
    var n := Normalise(frame).value[c];
    FirstNotAfterLast(frame[c]);
    SameShapeSameLast(n, frame[c]);
    var l := LastIndex(frame[c]).value;
    NormaliseCell(frame, c, l);
  }

  /** Two columns missing in the same rows end on the same row. */
  lemma SameShapeSameLast(a: Column, b: Column)
    requires |a| == |b|
    requires forall k :: 0 <= k < |a| ==> (a[k].None? <==> b[k].None?)
    ensures LastIndex(a) == LastIndex(b)
  {
    SameShapeBefore(a, b, |a|);
  }

  lemma {:induction false} SameShapeBefore(a: Column, b: Column, n: nat)
    requires |a| == |b| && n <= |a|
    requires forall k :: 0 <= k < |a| ==> (a[k].None? <==> b[k].None?)
    ensures LastBefore(a, n) == LastBefore(b, n)
  {
    if n > 0 && a[n - 1].None? {
      SameShapeBefore(a, b, n - 1);
    }
  }

  /** Dividing by a non-zero number keeps every present cell non-zero. */
  lemma ScaleNonZero(col: Column, base: real)
    requires base != 0.0 && NonZero(col)
    ensures NonZero(Scale(col, base))
  {
  }

  // ---------------------------------------------------------------------
  // pct_change

  /** `fillna(method="pad")`: a missing cell takes the last present value
      above it; the leading missing cells stay missing. */
  function FFill(col: Column): (r: Column)
    ensures |r| == |col|
    ensures forall k :: 0 <= k < |col| && col[k].Some? ==> r[k] == col[k]
    ensures NonZero(col) ==> NonZero(r)
  {
    seq(|col|, k requires 0 <= k < |col| => Filled(col, k))
  }

  /** One cell of the forward fill. */
  function Filled(col: Column, k: nat): Option<real>
    requires k < |col|
  {
    match LastBefore(col, k + 1)
    case None => None
    case Some(j) => col[j]
  }

  /** A filled cell is the last present cell up to it, if any. */
  lemma FFillAt(col: Column, k: nat)
    requires k < |col|
    ensures LastBefore(col, k + 1).None? ==> FFill(col)[k].None?
    ensures LastBefore(col, k + 1).Some? ==> FFill(col)[k] == col[LastBefore(col, k + 1).value]
  {
  }

  /** A filled cell is missing exactly when every cell up to it is. */
  lemma FFillLeading(col: Column, k: nat)
    requires k < |col|
    ensures FFill(col)[k].None? <==> forall j :: 0 <= j <= k ==> col[j].None?
  {
  }

  /** A filled missing cell repeats the cell above it. */
  lemma FFillRepeats(col: Column, k: nat)
    requires 0 < k < |col| && col[k].None?
    ensures FFill(col)[k] == FFill(col)[k - 1]
  {
    FFillAt(col, k);
    FFillAt(col, k - 1);
    assert LastBefore(col, k + 1) == LastBefore(col, k);
  }

  /** From the first present row on, the filled column has no gap. */
  lemma FFillPresentFrom(col: Column, k: nat)
    requires FirstIndex(col).Some? && FirstIndex(col).value <= k < |col|
    ensures FFill(col)[k].Some?
  {
    FFillLeading(col, k);
  }

  /** Before the first present row, the filled column is still missing. */
  lemma FFillMissingBefore(col: Column, k: nat)
    requires FirstIndex(col).Some? && k < FirstIndex(col).value
    ensures FFill(col)[k].None?
  {
    FFillLeading(col, k);
  }

  /** `pct_change(lag)`: on the forward-filled column, a cell over the cell
      `lag` rows above, minus one; the first `lag` rows and the rows without
      both cells are missing. */
  function PctChange(col: Column, lag: nat): (r: Column)
    requires NonZero(col)
    ensures |r| == |col|
    ensures forall k :: 0 <= k < |col| && k < lag ==> r[k].None?
  {
    var f := FFill(col);
    seq(|col|, k requires 0 <= k < |col| => Change(f, lag, k))
  }

  /** One cell of `pct_change(lag)` on the filled column `f`. */
  function Change(f: Column, lag: nat, k: nat): Option<real>
    requires k < |f| && NonZero(f)
  {
    if k >= lag && f[k].Some? && f[k - lag].Some? then Some(RelativeChange(f[k].value, f[k - lag].value)) else None
  }

  /** The change from `prev` to `cur`, as a fraction of `prev`. */
  function RelativeChange(cur: real, prev: real): real
    requires prev != 0.0
  {
    cur / prev - 1.0
  }

  /** Where both filled cells are present, the change is their ratio minus
      one. */
  lemma PctChangeAt(col: Column, lag: nat, k: nat)
    requires NonZero(col) && lag <= k < |col|
    requires FFill(col)[k].Some? && FFill(col)[k - lag].Some?
    ensures PctChange(col, lag)[k] == Some(FFill(col)[k].value / FFill(col)[k - lag].value - 1.0)
  {
    var f := FFill(col);
    assert PctChange(col, lag)[k] == Change(f, lag, k);
  }

  /** Within the first `lag` rows, or where a filled cell is missing, the
      change is missing. */
  lemma PctChangeMissing(col: Column, lag: nat, k: nat)
    requires NonZero(col) && k < |col|
    requires k < lag || FFill(col)[k].None? || FFill(col)[k - lag].None?
    ensures PctChange(col, lag)[k].None?
  {
    var f := FFill(col);
    assert PctChange(col, lag)[k] == Change(f, lag, k);
  }

  /** The one-row change is present exactly when some cell is present up to
      the row before; then it compares the filled cell with the filled cell
      a row earlier. */
  lemma OneRowChange(col: Column, k: nat)
    requires NonZero(col) && k < |col|
    ensures PctChange(col, 1)[k].Some? <==> k >= 1 && FFill(col)[k - 1].Some?
    ensures k >= 1 && FFill(col)[k - 1].Some? ==>
      && FFill(col)[k].Some?
      && PctChange(col, 1)[k] == Some(RelativeChange(FFill(col)[k].value, FFill(col)[k - 1].value))
  {
    if k >= 1 && FFill(col)[k - 1].Some? {
      OneRowPresent(col, k);
    } else {
      PctChangeMissing(col, 1, k);
    }
  }

  /** Once the row before is filled, the row is filled and its change is
      the relative change of the two. */
  lemma OneRowPresent(col: Column, k: nat)
    requires NonZero(col) && 1 <= k < |col| && FFill(col)[k - 1].Some?
    ensures FFill(col)[k].Some?
    ensures PctChange(col, 1)[k] == Some(RelativeChange(FFill(col)[k].value, FFill(col)[k - 1].value))
  {
    FFillLeading(col, k - 1);
    var j :| 0 <= j <= k - 1 && col[j].Some?;
    FFillLeading(col, k);
    var f := FFill(col);
    assert PctChange(col, 1)[k] == Change(f, 1, k);
  }

  /** Without gaps the change is the plain ratio of the two cells. */
  lemma PctChangeGapFree(col: Column, lag: nat, k: nat)
    requires NonZero(col) && lag <= k < |col| && col[k].Some? && col[k - lag].Some?
    ensures PctChange(col, lag)[k] == Some(col[k].value / col[k - lag].value - 1.0)  {
    var f := FFill(col);
    assert PctChange(col, lag)[k] == Change(f, lag, k);
  }

  // ---------------------------------------------------------------------
  // Running product

  /** The product of `1 + x` over the present cells of `s`, NaN skipped as
      `cumprod` does. */
  function Growth(s: Column): real {
    if s == [] then 1.0 else Growth(s[..|s| - 1]) * Factor(s[|s| - 1])
  }

  /** One factor of `(1 + r).cumprod()`; a missing cell contributes 1. */
  function Factor(x: Option<real>): real {
    if x.Some? then 1.0 + x.value else 1.0
  }

  /** `(1 + r).cumprod() - 1`: a present cell holds the growth up to its row,
      minus one; a missing cell stays missing. */
  function CumReturn(daily: Column): (r: Column)
    ensures |r| == |daily|
    ensures forall k :: 0 <= k < |daily| ==> (r[k].None? <==> daily[k].None?)
  {
    seq(|daily|, k requires 0 <= k < |daily| =>
      if daily[k].Some? then Some(Growth(daily[..k + 1]) - 1.0) else None)
  }

  /** The product up to row `k` is the product above it times row `k`. */
  lemma GrowthStep(d: Column, k: nat)
    requires k < |d|
    ensures Growth(d[..k + 1]) == Growth(d[..k]) * Factor(d[k])
  {
    var p := d[..k + 1];
    assert p[..k] == d[..k];
  }

  /** Missing cells do not change the product. */
  lemma {:induction false} GrowthOfMissing(s: Column)
    requires forall k :: 0 <= k < |s| ==> s[k].None?
    ensures Growth(s) == 1.0
  {
    if s != [] {
      GrowthOfMissing(s[..|s| - 1]);
    }
  }

  /** One ratio step of the telescoping product. */
  lemma RatioStep(g: real, prev: real, cur: real, base: real)
    requires prev != 0.0 && base != 0.0 && g == prev / base
    ensures g * (1.0 + RelativeChange(cur, prev)) == cur / base
  {
    calc {
      g * (1.0 + RelativeChange(cur, prev));
      == (prev / base) * (cur / prev);
      == (prev * cur) / (base * prev);
      == cur / base;
    }
  }

  /** From row `first` on every cell is present and non-zero. */
  predicate PresentFrom(f: Column, first: nat) {
    forall j :: first <= j < |f| ==> f[j].Some? && f[j].value != 0.0
  }

  /** Up to row `first` every cell is missing. */
  predicate MissingUpTo(d: Column, first: nat) {
    forall j :: 0 <= j <= first && j < |d| ==> d[j].None?
  }

  /** After row `first` every cell of `d` is the ratio of two consecutive
      cells of `f`, minus one. */
  predicate RatiosAfter(d: Column, f: Column, first: nat)
    requires |d| == |f| && PresentFrom(f, first)
  {
    forall j {:trigger d[j]} :: first < j < |d| ==> d[j] == Some(Ratio(f, j))
  }

  /** A cell over the cell above it, minus one. */
  function Ratio(f: Column, j: nat): real
    requires 0 < j < |f| && f[j].Some? && f[j - 1].Some? && f[j - 1].value != 0.0
  {
    RelativeChange(f[j].value, f[j - 1].value)
  }

  /** The telescoping product on its own: when every factor after row
      `first` is the ratio of two consecutive cells of `f`, the product up to
      row `k` is `f[k]` over `f[first]`. */
  lemma {:induction false} Telescope(d: Column, f: Column, first: nat, k: nat)
    requires |d| == |f| && first <= k < |d|
    requires PresentFrom(f, first) && MissingUpTo(d, first) && RatiosAfter(d, f, first)
    ensures Growth(d[..k + 1]) == f[k].value / f[first].value
  {
    if k == first {
      GrowthOfMissing(d[..k + 1]);
      DivSelf(f[first].value);
    } else {
      Telescope(d, f, first, k - 1);
      var g := Growth(d[..k]);
      assert g == f[k - 1].value / f[first].value;
      GrowthStep(d, k);
      assert Factor(d[k]) == 1.0 + RelativeChange(f[k].value, f[k - 1].value);
      RatioStep(g, f[k - 1].value, f[k].value, f[first].value);
    }
  }

  /** From the first present row on, the filled cells are present and
      non-zero. */
  lemma FilledFrom(col: Column, first: nat)
    requires NonZero(col) && FirstIndex(col) == Some(first)
    ensures PresentFrom(FFill(col), first)
  {
    forall j | first <= j < |col| ensures FFill(col)[j].Some? {
      FFillPresentFrom(col, j);
    }
  }

  /** Up to the first present row the daily changes are missing. */
  lemma DailyMissing(col: Column, first: nat)
    requires NonZero(col) && FirstIndex(col) == Some(first)
    ensures MissingUpTo(PctChange(col, 1), first)
  {
    var d := PctChange(col, 1);
    forall j | 0 <= j <= first && j < |d| ensures d[j].None? {
      if j > 0 {
        FFillMissingBefore(col, j - 1);
      }
    }
  }

  /** After the first present row every daily change is the ratio of two
      consecutive filled cells, minus one. */
  lemma DailyRatios(col: Column, first: nat)
    requires NonZero(col) && FirstIndex(col) == Some(first)
    requires PresentFrom(FFill(col), first)
    ensures RatiosAfter(PctChange(col, 1), FFill(col), first)
  {
    var d := PctChange(col, 1);
    var f := FFill(col);
    forall j {:trigger d[j]} | first < j < |d| ensures d[j] == Some(Ratio(f, j)) {
      DailyRatioAt(col, first, j);
    }
  }

  lemma DailyRatioAt(col: Column, first: nat, j: nat)
    requires NonZero(col) && FirstIndex(col) == Some(first) && first < j < |col|
    ensures FFill(col)[j].Some? && FFill(col)[j - 1].Some?
    ensures PctChange(col, 1)[j] == Some(Ratio(FFill(col), j))
  {
    FFillPresentFrom(col, j);
    FFillPresentFrom(col, j - 1);
    var f := FFill(col);
    assert Change(f, 1, j) == Some(Ratio(f, j));
    assert PctChange(col, 1)[j] == Change(f, 1, j);
  }

  /** The daily changes telescope: their running product up to row `k` is
      the filled cell of row `k` over the first present cell. */
  lemma GrowthTelescopes(col: Column, k: nat)
    requires NonZero(col)
    requires FirstIndex(col).Some? && FirstIndex(col).value <= k < |col|
    ensures FFill(col)[k].Some?
    ensures Growth(PctChange(col, 1)[..k + 1]) == FFill(col)[k].value / col[FirstIndex(col).value].value
  {
    var first := FirstIndex(col).value;
    FilledFrom(col, first);
    DailyMissing(col, first);
    DailyRatios(col, first);
    Telescope(PctChange(col, 1), FFill(col), first, k);
  }

  /** The cumulative return of the daily changes, read on a later row, is the
      filled cell over the first present one, minus one; on the first present
      row it is missing. */
  lemma CumulativeTelescopes(col: Column, k: nat)
    requires NonZero(col)
    requires FirstIndex(col).Some? && FirstIndex(col).value <= k < |col|
    ensures FFill(col)[k].Some?
    ensures k == FirstIndex(col).value ==> CumReturn(PctChange(col, 1))[k].None?
    ensures k > FirstIndex(col).value ==>
      CumReturn(PctChange(col, 1))[k] == Some(RelativeChange(FFill(col)[k].value, col[FirstIndex(col).value].value))
  {
    FFillPresentFrom(col, k);
    if k > FirstIndex(col).value {
      CumulativeLater(col, k);
    } else {
      DailyMissing(col, k);
    }
  }

  lemma CumulativeLater(col: Column, k: nat)
    requires NonZero(col)
    requires FirstIndex(col).Some? && FirstIndex(col).value < k < |col|
    ensures FFill(col)[k].Some?
    ensures CumReturn(PctChange(col, 1))[k] == Some(RelativeChange(FFill(col)[k].value, col[FirstIndex(col).value].value))
  {
    GrowthTelescopes(col, k);
    DailyRatioAt(col, FirstIndex(col).value, k);
    CumReturnAt(PctChange(col, 1), k);
  }

  /** A column without any present cell has no cumulative return. */
  lemma CumulativeEmpty(col: Column, k: nat)
    requires NonZero(col) && k < |col| && FirstIndex(col).None?
    ensures CumReturn(PctChange(col, 1))[k].None?
  {
    assert LastBefore(col, k + 1).None?;
    FFillAt(col, k);
    PctChangeMissing(col, 1, k);
  }

  /** A present change holds the growth up to its row, minus one. */
  lemma CumReturnAt(daily: Column, k: nat)
    requires k < |daily| && daily[k].Some?
    ensures CumReturn(daily)[k] == Some(Growth(daily[..k + 1]) - 1.0)
  {
  }

  // ---------------------------------------------------------------------
  // Mean of the present cells

  /** The sum of the present cells: `sum` skips NaN. */
  function PresentSum(col: Column): real {
    if col == [] then 0.0
    else PresentSum(col[..|col| - 1]) + (if col[|col| - 1].Some? then col[|col| - 1].value else 0.0)
  }

  /** The number of present cells. */
  function PresentCount(col: Column): (m: nat)
    ensures m <= |col|
  {
    if col == [] then 0
    else PresentCount(col[..|col| - 1]) + (if col[|col| - 1].Some? then 1 else 0)
  }

  /** No cell is counted exactly when every cell is missing. */
  lemma {:induction false} NoneCounted(col: Column)
    ensures PresentCount(col) == 0 <==> forall k :: 0 <= k < |col| ==> col[k].None?
  {
    if col != [] {
      var init := col[..|col| - 1];
      assert forall k :: 0 <= k < |init| ==> init[k] == col[k];
      NoneCounted(init);
    }
  }

  /** `mean()` with NaN skipped: the sum of the present cells over their
      number, missing when no cell is present. */
  function Mean(col: Column): (r: Option<real>)
    ensures r.None? <==> forall k :: 0 <= k < |col| ==> col[k].None?
  {
    NoneCounted(col);
    if PresentCount(col) == 0 then None else Some(PresentSum(col) / PresentCount(col) as real)
  }

  /** A lower bound on the present cells bounds their sum from below. */
  lemma {:induction false} PresentSumAbove(col: Column, lo: real)
    requires forall k :: 0 <= k < |col| && col[k].Some? ==> lo <= col[k].value
    ensures lo * PresentCount(col) as real <= PresentSum(col)
  {
    if col != [] {
      var init := col[..|col| - 1];
      assert forall k :: 0 <= k < |init| ==> init[k] == col[k];
      PresentSumAbove(init, lo);
      var m := PresentCount(init) as real;
      if col[|col| - 1].Some? {
        assert lo * (m + 1.0) == lo * m + lo;
      }
    }
  }

  /** An upper bound on the present cells bounds their sum from above. */
  lemma {:induction false} PresentSumBelow(col: Column, hi: real)
    requires forall k :: 0 <= k < |col| && col[k].Some? ==> col[k].value <= hi
    ensures PresentSum(col) <= hi * PresentCount(col) as real
  {
    if col != [] {
      var init := col[..|col| - 1];
      assert forall k :: 0 <= k < |init| ==> init[k] == col[k];
      PresentSumBelow(init, hi);
      var m := PresentCount(init) as real;
      if col[|col| - 1].Some? {
        assert hi * (m + 1.0) == hi * m + hi;
      }
    }
  }

  /** The mean lies within any bounds on the present cells. */
  lemma MeanBounds(col: Column, lo: real, hi: real)
    requires forall k :: 0 <= k < |col| && col[k].Some? ==> lo <= col[k].value <= hi
    ensures Mean(col).Some? ==> lo <= Mean(col).value <= hi
  {
    if PresentCount(col) > 0 {
      PresentSumAbove(col, lo);
      PresentSumBelow(col, hi);
      DivBounds(PresentSum(col), PresentCount(col) as real, lo, hi);
    }
  }

  lemma DivBounds(s: real, m: real, lo: real, hi: real)
    requires m > 0.0 && lo * m <= s <= hi * m
    ensures lo <= s / m <= hi
  {
    assert (s / m) * m == s;
  }
}
