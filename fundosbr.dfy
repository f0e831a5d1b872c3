/** The registry and daily-report logic of src/comparar_fundos_br/fundosbr.py:
    the class allow-list and registry filter, the response check and text
    parse of the downloaded archives, the naming of the daily files, the
    column and row filters of the daily report, the join of report and
    registry, and the choice of (year, month) pairs to download. */
module FundosBr {
  import opened Wrappers
  import opened Seqs
  import opened Text
  import opened Errors
  import opened Tables
  import opened Cnpj

  // ---------------------------------------------------------------------
  // Registry

  /** `get_classes()`. */
  function Classes(): (r: seq<string>)
    ensures |r| == 6 && NoDuplicates(r)
    ensures "Ações" in r && "Renda Fixa" in r
  {
    ["Renda Fixa", "Ações", "Multimercado", "Cambial", "Curto Prazo", "Referenciado"]
  }

  /** A registry row after the joins of `get_cadastro_fundos`; a missing
      class is `None`. */
  datatype RegistryRow = RegistryRow(cnpj: string, name: string, situacao: string, fundType: string, classe: Option<string>)

  const FundTypes: seq<string> := ["FIDC", "FI", "FIF"]

  /** Operating funds of the accepted types. */
  predicate Operating(row: RegistryRow) {
    row.situacao == "Em Funcionamento Normal" && row.fundType in FundTypes
  }

  /** A row passes the class filter when its class is listed, null or empty. */
  predicate ClassPasses(row: RegistryRow, classes: seq<string>) {
    row.classe.None? || row.classe.value in classes || row.classe.value == ""
  }

  /** The filter and class check of `get_cadastro_fundos`. */
  function FilterRegistry(rows: seq<RegistryRow>, classe: Names): (r: Result<seq<RegistryRow>, Error>)
    ensures r.Err? <==> Truthy(classe) && exists x :: x in AsList(classe) && x !in Classes()
    ensures r.Err? ==> r.error == ClassNotFound(Missing(AsList(classe), Classes()))
    ensures r.Ok? ==> |r.value| <= |rows|
    ensures r.Ok? ==> forall x :: x in r.value <==>
      x in rows && Operating(x) && (!Truthy(classe) || ClassPasses(x, AsList(classe)))
  {
    var operating := Filter(rows, Operating);
    match ValidateNames(classe, Classes())
    case Err(e) => Err(e)
    case Ok(None) => Ok(operating)
    case Ok(Some(classes)) => Ok(Filter(operating, x => ClassPasses(x, classes)))
  }

  /** Whatever classes were asked for, an operating fund without a class is
      kept. */
  lemma NullClassKept(rows: seq<RegistryRow>, classe: Names, row: RegistryRow)
    requires row in rows && Operating(row) && row.classe.None?
    requires FilterRegistry(rows, classe).Ok?
    ensures row in FilterRegistry(rows, classe).value
  {
  }

  // ---------------------------------------------------------------------
  // Archives

  /** The status check of `_ler_zip_files`. */
  function CheckResponse(status: int): (r: Result<(), Error>)
    ensures r.Ok? <==> status == 200
    ensures status == 407 ==> r == Err(ProxyRequired)
    ensures status != 200 && status != 407 ==> r == Err(DownloadFailed)
  {
    if status != 200 && status != 407 then Err(DownloadFailed)
    else if status == 407 then Err(ProxyRequired)
    else Ok(())
  }

  /** `_ler_zip_files` on a response status and the lines of the archived
      file. */
  function ReadArchive(status: int, lines: seq<string>): (r: Result<Table, Error>)
    ensures r.Ok? <==> status == 200 && ParseTable(lines).Ok?
    ensures r.Ok? ==> r == ParseTable(lines)
    ensures status == 200 ==> r == ParseTable(lines)
    ensures status == 200 && lines == [] ==> r == Err(EmptyFile)
    ensures status != 200 ==> r == CheckResponse(status).PropagateFailure()
  {
    var _ :- CheckResponse(status);
    ParseTable(lines)
  }

  // ---------------------------------------------------------------------
  // Daily file names

  const DailyBase: string := "http://dados.cvm.gov.br/dados/FI/DOC/INF_DIARIO/DADOS/"

  /** `inf_diario_fi_{ano:02d}` followed by `{mes:02d}` for a monthly file. */
  function DailyStem(ano: int, mes: int, monthly: bool): (r: string)
    ensures StartsWith(r, "inf_diario_fi_")
  {
    "inf_diario_fi_" + Format02(ano) + (if monthly then Format02(mes) else "")
  }

  /** The CSV inside the archive: monthly after 2004, yearly before. */
  function DailyCsvName(ano: int, mes: int): (r: string)
    ensures r == DailyStem(ano, mes, ano > 2004) + ".csv"
  {
    DailyStem(ano, mes, ano > 2004) + ".csv"
  }

  /** The archive: monthly from 2021, a yearly historical archive before. */
  function DailyUrl(ano: int, mes: int): (r: string)
    ensures StartsWith(r, DailyBase)
    ensures ano >= 2021 ==> r == DailyBase + DailyStem(ano, mes, true) + ".zip"
    ensures ano < 2021 ==> r == DailyBase + "HIST/" + DailyStem(ano, mes, false) + ".zip"
  {
    if ano >= 2021 then DailyBase + DailyStem(ano, mes, true) + ".zip"
    else DailyBase + "HIST/" + DailyStem(ano, mes, false) + ".zip"
  }

  /** The year and month can be read back from a monthly file name. */
  lemma DailyCsvNameReadBack(ano: nat, mes: nat)
    requires 2004 < ano < 10000 && mes < 100
    ensures |DailyCsvName(ano, mes)| == 24
    ensures AllDigits(DailyCsvName(ano, mes)[14..18]) && DecimalValue(DailyCsvName(ano, mes)[14..18]) == ano
    ensures AllDigits(DailyCsvName(ano, mes)[18..20]) && DecimalValue(DailyCsvName(ano, mes)[18..20]) == mes
  {
    var name := DailyCsvName(ano, mes);
    Format02Value(ano);
    Format02Value(mes);
    assert |Format02(ano)| == 4 by {
      assert NatToString(ano / 10) == NatToString(ano / 100) + [DigitChar(ano / 10 % 10)];
    }
    assert name[14..18] == Format02(ano);
    assert name[18..20] == Format02(mes);
  }

  /** From 2021 the archive and the CSV inside it share their name. */
  lemma MonthlyArchiveMatchesCsv(ano: int, mes: int)
    requires ano >= 2021
    ensures DailyUrl(ano, mes) == DailyBase + DailyStem(ano, mes, true) + ".zip"
    ensures DailyCsvName(ano, mes) == DailyStem(ano, mes, true) + ".csv"
  {
  }

  // ---------------------------------------------------------------------
  // Columns of the daily table

  const FiTypes: seq<string> := ["FI", "FIF", "CLASSES - FIF"]

  predicate FundTypeKept(row: seq<string>, c: nat) {
    c < |row| && row[c] in FiTypes
  }

  /** When a column name contains `TP_FUNDO` and the year is at least 2004,
      the first such column is renamed `TP_FUNDO` and only rows of the listed
      types stay. */
  function SelectFundType(t: Table, ano: int): (r: Table)
    ensures |r.header| == |t.header| && |r.rows| <= |t.rows|
    ensures forall x :: x in r.rows ==> x in t.rows
    ensures (ano < 2004 || FirstContaining(t.header, "TP_FUNDO").None?) ==> r == t
    ensures ano >= 2004 && FirstContaining(t.header, "TP_FUNDO").Some? ==>
      var c := FirstContaining(t.header, "TP_FUNDO").value;
      && r.header == t.header[c := "TP_FUNDO"]
      && forall x :: x in r.rows <==> x in t.rows && FundTypeKept(x, c)
  {
    match FirstContaining(t.header, "TP_FUNDO")
    case Some(c) =>
      if ano >= 2004 then Table(t.header[c := "TP_FUNDO"], Filter(t.rows, x => FundTypeKept(x, c)))
      else t
    case None => t
  }

  /** The first column whose name contains `CNPJ_FUNDO` is renamed; without
      one the lookup fails. */
  function RenameCnpjColumn(t: Table): (r: Result<Table, Error>)
    ensures r.Err? <==> forall k :: 0 <= k < |t.header| ==> !Contains(t.header[k], "CNPJ_FUNDO")
    ensures r.Err? ==> r.error == ColumnNotFound("CNPJ_FUNDO")
    ensures r.Ok? ==> "CNPJ_FUNDO" in r.value.header && r.value.rows == t.rows && |r.value.header| == |t.header|
    ensures r.Ok? ==>
      && FirstContaining(t.header, "CNPJ_FUNDO").Some?
      && r.value.header == t.header[FirstContaining(t.header, "CNPJ_FUNDO").value := "CNPJ_FUNDO"]
  {
    match FirstContaining(t.header, "CNPJ_FUNDO")
    case None => Err(ColumnNotFound("CNPJ_FUNDO"))
    case Some(c) =>
      assert t.header[c := "CNPJ_FUNDO"][c] == "CNPJ_FUNDO";
      Ok(Table(t.header[c := "CNPJ_FUNDO"], t.rows))
  }

  /** The text stage of `_ler_dados_diarios`: response check, parse, fund
      type rows and the CNPJ column. Every row is a parsed line of the file;
      from 2004 on, when a column names the fund type, exactly the rows of
      the listed fund types are kept. */
  function DailyTable(ano: int, status: int, lines: seq<string>): (r: Result<Table, Error>)
    ensures r.Ok? ==> status == 200 && lines != [] && ParseTable(lines).Ok?
    ensures r.Ok? ==> "CNPJ_FUNDO" in r.value.header && |r.value.rows| <= |lines| - 1
    ensures r.Ok? ==> forall x :: x in r.value.rows ==> x in ParseTable(lines).value.rows
    ensures status != 200 ==> r == CheckResponse(status).PropagateFailure()
    ensures status == 200 && ParseTable(lines).Err? ==> r == ParseTable(lines)
    ensures status == 200 && ParseTable(lines).Ok? ==>
      var s := SelectFundType(ParseTable(lines).value, ano);
      && (r.Err? <==> forall k :: 0 <= k < |s.header| ==> !Contains(s.header[k], "CNPJ_FUNDO"))
      && (r.Err? ==> r.error == ColumnNotFound("CNPJ_FUNDO"))
      && (r.Ok? ==> r.value.rows == s.rows)
      && (r.Ok? ==>
            && FirstContaining(s.header, "CNPJ_FUNDO").Some?
            && r.value.header == s.header[FirstContaining(s.header, "CNPJ_FUNDO").value := "CNPJ_FUNDO"])
    ensures r.Ok? ==>
      var t := ParseTable(lines).value;
      forall x :: x in r.value.rows <==>
        x in t.rows && (ano >= 2004 && FirstContaining(t.header, "TP_FUNDO").Some? ==>
                          FundTypeKept(x, FirstContaining(t.header, "TP_FUNDO").value))
  {
    match ReadArchive(status, lines)
    case Err(e) => Err(e)
    case Ok(raw) => RenameCnpjColumn(SelectFundType(raw, ano))
  }

  // ---------------------------------------------------------------------
  // Rows of the daily report

  /** One row of the projected daily report; casts that fail are `None`. */
  datatype DailyRow = DailyRow(
    date: int, cnpj: string, holders: Option<int>, equity: Option<real>,
    quota: Option<real>, total: Option<real>, inflow: Option<real>, outflow: Option<real>)

  function DateKey(row: DailyRow): real { row.date as real }

  /** Python truthiness of an optional integer threshold. */
  predicate TruthyInt(t: Option<int>) { t.Some? && t.value != 0 }

  /** The threshold filters: a null value never passes a threshold. */
  predicate MeetsThresholds(row: DailyRow, minHolders: Option<int>, minEquity: Option<int>) {
    && (TruthyInt(minHolders) ==> row.holders.Some? && row.holders.value >= minHolders.value)
    && (TruthyInt(minEquity) ==> row.equity.Some? && row.equity.value >= minEquity.value as real)
  }

  /** The CNPJ filter: requested identifiers are canonicalised first. */
  predicate CnpjRequested(row: DailyRow, cnpj: Names) {
    Truthy(cnpj) ==> row.cnpj in Map(AsList(cnpj), PontuaCnpj)
  }

  predicate DailyKept(row: DailyRow, minHolders: Option<int>, minEquity: Option<int>, cnpj: Names) {
    MeetsThresholds(row, minHolders, minEquity) && CnpjRequested(row, cnpj)
  }

  /** The row stage of `_ler_dados_diarios`: thresholds, CNPJ filter,
      `unique()` and `sort('DT_COMPTC')`. */
  function SelectDaily(rows: seq<DailyRow>, minHolders: Option<int>, minEquity: Option<int>, cnpj: Names): (r: seq<DailyRow>)
    ensures SortedBy(r, DateKey)
    ensures NoDuplicates(r)
    ensures |r| <= |rows|
    ensures forall x :: x in r <==> x in rows && DailyKept(x, minHolders, minEquity, cnpj)
  {
    var kept := Filter(rows, x => DailyKept(x, minHolders, minEquity, cnpj));
    var unique := Dedup(kept);
    var sorted := SortBy(unique, DateKey);
    NoDuplicatesPermutation(unique, sorted);
    PermutationMembership(unique, sorted);
    sorted
  }

  /** A fund can be requested by its canonical identifier or by its bare 14
      digits; both select the same rows. */
  lemma CnpjSpellings(rows: seq<DailyRow>, minHolders: Option<int>, minEquity: Option<int>, c: string)
    requires IsCanonical(c)
    ensures SelectDaily(rows, minHolders, minEquity, One(c))
         == SelectDaily(rows, minHolders, minEquity, One(RemoveSeparators(c)))
  {
    BareSpelling(c);
    var d := RemoveSeparators(c);
    assert |d| == 14 by {
      CanonicalDigits(c);
    }
    assert Map(AsList(One(c)), PontuaCnpj) == [c];
    assert Map(AsList(One(d)), PontuaCnpj) == [c];
    assert Truthy(One(c)) && Truthy(One(d));
    forall x | x in rows ensures CnpjRequested(x, One(c)) == CnpjRequested(x, One(d)) {
    }
    FilterCongruent(rows, x => DailyKept(x, minHolders, minEquity, One(c)),
                          x => DailyKept(x, minHolders, minEquity, One(d)));
  }

  // ---------------------------------------------------------------------
  // `mesclar_bases`

  /** A joined row: the report row, the registry row and `CNPJ - Nome`. */
  datatype MergedRow = MergedRow(daily: DailyRow, registry: RegistryRow, key: string)

  function Merge(d: DailyRow, g: RegistryRow): MergedRow {
    MergedRow(d, g, DisplayKey(d.cnpj, g.name))
  }

  function MergedDate(m: MergedRow): real { m.daily.date as real }

  /** The registry rows matching one report row, joined to it. */
  function MatchesOf(d: DailyRow, registry: seq<RegistryRow>): (r: seq<MergedRow>)
    ensures forall m :: m in r <==> exists g :: g in registry && g.cnpj == d.cnpj && m == Merge(d, g)
  {
    if registry == [] then []
    else (if registry[0].cnpj == d.cnpj then [Merge(d, registry[0])] else []) + MatchesOf(d, registry[1..])
  }

  /** The inner join on `CNPJ_FUNDO`, report rows outer. */
  function InnerJoin(daily: seq<DailyRow>, registry: seq<RegistryRow>): (r: seq<MergedRow>)
    ensures forall m :: m in r <==>
      exists d, g :: d in daily && g in registry && d.cnpj == g.cnpj && m == Merge(d, g)
  {
    if daily == [] then []
    else
      var rest := InnerJoin(daily[1..], registry);
      assert forall d :: d in daily <==> d == daily[0] || d in daily[1..];
      MatchesOf(daily[0], registry) + rest
  }

  /** `mesclar_bases`: every joined row pairs a report row and a registry
      row with the same CNPJ, carries the key `CNPJ // name`, and every such
      pair is present; the result is ordered by date. */
  function MesclarBases(daily: seq<DailyRow>, registry: seq<RegistryRow>): (r: seq<MergedRow>)
    ensures SortedBy(r, MergedDate)
    ensures multiset(r) == multiset(InnerJoin(daily, registry))
    ensures forall m :: m in r ==>
      m.daily in daily && m.registry in registry && m.daily.cnpj == m.registry.cnpj
      && m.key == DisplayKey(m.daily.cnpj, m.registry.name)
    ensures forall d, g :: d in daily && g in registry && d.cnpj == g.cnpj ==> Merge(d, g) in r
  {
    var joined := InnerJoin(daily, registry);
    var sorted := SortBy(joined, MergedDate);
    PermutationMembership(joined, sorted);
    sorted
  }

  /** The key of a joined row splits back into the CNPJ and the name when
      the CNPJ is canonical. */
  lemma MergedKeySplits(m: MergedRow)
    requires m.key == DisplayKey(m.daily.cnpj, m.registry.name)
    requires IsCanonical(m.daily.cnpj) && !Contains(m.registry.name, KeySeparator)
    ensures Split(m.key, KeySeparator) == [m.daily.cnpj, m.registry.name]
  {
    CanonicalHasNoSpace(m.daily.cnpj);
    KeySplit(m.daily.cnpj, m.registry.name);
  }

  // ---------------------------------------------------------------------
  // `fundosbr`: which months are downloaded

  /** A (year, month) pair is downloaded when it is not in the future. */
  predicate ShouldFetch(ano: int, mes: int, nowYear: int, nowMonth: int) {
    (ano == nowYear && mes <= nowMonth) || ano < nowYear
  }

  /** The pairs of one year, in the order of `meses`. */
  function YearPlan(ano: int, meses: seq<int>, nowYear: int, nowMonth: int): seq<(int, int)> {
    if meses == [] then []
    else
      YearPlan(ano, meses[..|meses| - 1], nowYear, nowMonth)
      + (if ShouldFetch(ano, meses[|meses| - 1], nowYear, nowMonth) then [(ano, meses[|meses| - 1])] else [])
  }

  /** The pairs downloaded, years outer and months inner. */
  function Plan(anos: seq<int>, meses: seq<int>, nowYear: int, nowMonth: int): seq<(int, int)> {
    if anos == [] then []
    else Plan(anos[..|anos| - 1], meses, nowYear, nowMonth) + YearPlan(anos[|anos| - 1], meses, nowYear, nowMonth)
  }

  lemma {:induction false} YearPlanMembership(ano: int, meses: seq<int>, nowYear: int, nowMonth: int, p: (int, int))
    ensures p in YearPlan(ano, meses, nowYear, nowMonth) <==>
      p.0 == ano && p.1 in meses && ShouldFetch(ano, p.1, nowYear, nowMonth)
  {
    if meses != [] {
      var init := meses[..|meses| - 1];
      YearPlanMembership(ano, init, nowYear, nowMonth, p);
      assert meses == init + [meses[|meses| - 1]];
    }
  }

  /** Exactly the requested pairs that are not in the future are downloaded. */
  lemma {:induction false} PlanMembership(anos: seq<int>, meses: seq<int>, nowYear: int, nowMonth: int, p: (int, int))
    ensures p in Plan(anos, meses, nowYear, nowMonth) <==>
      p.0 in anos && p.1 in meses && ShouldFetch(p.0, p.1, nowYear, nowMonth)
  {
    if anos != [] {
      var init := anos[..|anos| - 1];
      PlanMembership(init, meses, nowYear, nowMonth, p);
      YearPlanMembership(anos[|anos| - 1], meses, nowYear, nowMonth, p);
      assert anos == init + [anos[|anos| - 1]];
    }
  }

  /** Years are visited in the order given. */
  lemma {:induction false} PlanConcat(a: seq<int>, b: seq<int>, meses: seq<int>, nowYear: int, nowMonth: int)
    ensures Plan(a + b, meses, nowYear, nowMonth) == Plan(a, meses, nowYear, nowMonth) + Plan(b, meses, nowYear, nowMonth)
    decreases |b|
  {
    if b == [] {
      assert a + b == a;
    } else {
      var init := b[..|b| - 1];
      PlanConcat(a, init, meses, nowYear, nowMonth);
      assert (a + b)[..|a + b| - 1] == a + init;
      assert (a + b)[|a + b| - 1] == b[|b| - 1];
    }
  }

  lemma {:induction false} YearPlanConcat(ano: int, a: seq<int>, b: seq<int>, nowYear: int, nowMonth: int)
    ensures YearPlan(ano, a + b, nowYear, nowMonth) == YearPlan(ano, a, nowYear, nowMonth) + YearPlan(ano, b, nowYear, nowMonth)
    decreases |b|
  {
    if b == [] {
      assert a + b == a;
    } else {
      var init := b[..|b| - 1];
      YearPlanConcat(ano, a, init, nowYear, nowMonth);
      assert (a + b)[..|a + b| - 1] == a + init;
      assert (a + b)[|a + b| - 1] == b[|b| - 1];
    }
  }

  /** One more month of the inner loop. */
  lemma YearPlanStep(ano: int, meses: seq<int>, j: nat, nowYear: int, nowMonth: int)
    requires j < |meses|
    ensures YearPlan(ano, meses[..j + 1], nowYear, nowMonth)
         == YearPlan(ano, meses[..j], nowYear, nowMonth)
            + (if ShouldFetch(ano, meses[j], nowYear, nowMonth) then [(ano, meses[j])] else [])
  {
    assert meses[..j + 1][..j] == meses[..j];
  }

  /** One more year of the outer loop. */
  lemma PlanStep(anos: seq<int>, meses: seq<int>, i: nat, nowYear: int, nowMonth: int)
    requires i < |anos|
    ensures Plan(anos[..i + 1], meses, nowYear, nowMonth)
         == Plan(anos[..i], meses, nowYear, nowMonth) + YearPlan(anos[i], meses, nowYear, nowMonth)
  {
    assert anos[..i + 1][..i] == anos[..i];
  }

  lemma PlanAroundYear(anos: seq<int>, meses: seq<int>, nowYear: int, nowMonth: int, i: nat)
    requires i < |anos|
    ensures Plan(anos, meses, nowYear, nowMonth)
         == Plan(anos[..i], meses, nowYear, nowMonth) + YearPlan(anos[i], meses, nowYear, nowMonth)
            + Plan(anos[i + 1..], meses, nowYear, nowMonth)
  {
    var front, back := anos[..i + 1], anos[i + 1..];
    assert anos == front + back;
    PlanConcat(front, back, meses, nowYear, nowMonth);
    PlanStep(anos, meses, i, nowYear, nowMonth);
  }

  lemma YearPlanAround(ano: int, meses: seq<int>, nowYear: int, nowMonth: int, k: nat)
    requires k <= |meses|
    ensures YearPlan(ano, meses, nowYear, nowMonth)
         == YearPlan(ano, meses[..k], nowYear, nowMonth) + YearPlan(ano, meses[k..], nowYear, nowMonth)
  {
    var front, back := meses[..k], meses[k..];
    assert meses == front + back;
    YearPlanConcat(ano, front, back, nowYear, nowMonth);
  }

  /** A failed download ends `fundosbr` with its error. */
  lemma ErrorEndsFundosbr(anos: seq<int>, meses: seq<int>, nowYear: int, nowMonth: int, read: Reader<DailyRow>, i: nat)
    requires i < |anos|
    requires Collect(Plan(anos[..i], meses, nowYear, nowMonth) + YearPlan(anos[i], meses, nowYear, nowMonth), read).Err?
    ensures FundosbrResult(anos, meses, nowYear, nowMonth, read)
         == Collect(Plan(anos[..i], meses, nowYear, nowMonth) + YearPlan(anos[i], meses, nowYear, nowMonth), read)
  {
    var done := Plan(anos[..i], meses, nowYear, nowMonth) + YearPlan(anos[i], meses, nowYear, nowMonth);
    PlanAroundYear(anos, meses, nowYear, nowMonth, i);
    CollectKeepsError(done, Plan(anos[i + 1..], meses, nowYear, nowMonth), read);
    assert done != [];
  }

  /** Once every year is downloaded, `fundosbr` sorts the rows, or fails
      when nothing was requested. */
  lemma FundosbrDone(anos: seq<int>, meses: seq<int>, nowYear: int, nowMonth: int, read: Reader<DailyRow>,
                     historico: seq<DailyRow>, fetched: bool)
    requires Collect(Plan(anos, meses, nowYear, nowMonth), read) == Ok(historico)
    requires fetched <==> Plan(anos, meses, nowYear, nowMonth) != []
    ensures !fetched ==> FundosbrResult(anos, meses, nowYear, nowMonth, read) == Err(ColumnNotFound("DT_COMPTC"))
    ensures fetched ==> FundosbrResult(anos, meses, nowYear, nowMonth, read) == Ok(SortBy(historico, DateKey))
  {
  }

  /** In a past year every requested month is downloaded, in order. */
  lemma {:induction false} PastYearPlan(ano: int, meses: seq<int>, nowYear: int, nowMonth: int)
    requires ano < nowYear
    ensures YearPlan(ano, meses, nowYear, nowMonth) == Map(meses, m => (ano, m))
  {
    if meses != [] {
      var init := meses[..|meses| - 1];
      PastYearPlan(ano, init, nowYear, nowMonth);
      assert Map(meses, m => (ano, m)) == Map(init, m => (ano, m)) + [(ano, meses[|meses| - 1])];
    }
  }

  /** A download of one month, an error, or its rows. */
  type Reader<T> = (int, int) -> Result<seq<T>, Error>

  /** The concatenation of the downloads of a plan, or the first error. */
  function Collect<T>(plan: seq<(int, int)>, read: Reader<T>): Result<seq<T>, Error> {
    if plan == [] then Ok([])
    else
      match Collect(plan[..|plan| - 1], read)
      case Err(e) => Err(e)
      case Ok(acc) =>
        match read(plan[|plan| - 1].0, plan[|plan| - 1].1)
        case Err(e) => Err(e)
        case Ok(rows) => Ok(acc + rows)
  }

  /** Once a download failed, later pairs change nothing. */
  lemma {:induction false} CollectKeepsError<T>(plan: seq<(int, int)>, more: seq<(int, int)>, read: Reader<T>)
    requires Collect(plan, read).Err?
    ensures Collect(plan + more, read) == Collect(plan, read)
    decreases |more|
  {
    if more != [] {
      var init := more[..|more| - 1];
      CollectKeepsError(plan, init, read);
      var whole := plan + more;
      assert whole[..|whole| - 1] == plan + init;
      assert Collect(whole[..|whole| - 1], read).Err?;
    } else {
      assert plan + more == plan;
    }
  }

  /** One more download. */
  lemma CollectStep<T>(plan: seq<(int, int)>, p: (int, int), read: Reader<T>)
    requires Collect(plan, read).Ok?
    ensures read(p.0, p.1).Ok? ==> Collect(plan + [p], read) == Ok(Collect(plan, read).value + read(p.0, p.1).value)
    ensures read(p.0, p.1).Err? ==> Collect(plan + [p], read) == Err(read(p.0, p.1).error)
  {
    assert (plan + [p])[..|plan|] == plan;
  }

  /** The downloads all succeed exactly when every one of them does. */
  lemma {:induction false} CollectOk<T>(plan: seq<(int, int)>, read: Reader<T>)
    ensures Collect(plan, read).Ok? <==> forall k :: 0 <= k < |plan| ==> read(plan[k].0, plan[k].1).Ok?
  {
    if plan != [] {
      var init := plan[..|plan| - 1];
      CollectOk(init, read);
      assert forall k :: 0 <= k < |init| ==> init[k] == plan[k];
    }
  }

  /** The result of `fundosbr`: nothing downloaded leaves a frame without a
      `DT_COMPTC` column to sort by. */
  function FundosbrResult(anos: seq<int>, meses: seq<int>, nowYear: int, nowMonth: int, read: Reader<DailyRow>): Result<seq<DailyRow>, Error> {
    var plan := Plan(anos, meses, nowYear, nowMonth);
    if plan == [] then Err(ColumnNotFound("DT_COMPTC"))
    else
      match Collect(plan, read)
      case Err(e) => Err(e)
      case Ok(rows) => Ok(SortBy(rows, DateKey))
  }

  /** The inner loop of `fundosbr`: the months of one year, appended to
      the rows downloaded so far. */
  method FetchYear<T>(ano: int, meses: seq<int>, nowYear: int, nowMonth: int, read: Reader<T>,
                      ghost before: seq<(int, int)>, historico: seq<T>)
    returns (r: Result<seq<T>, Error>, fetched: bool)
    requires Collect(before, read) == Ok(historico)
    ensures r == Collect(before + YearPlan(ano, meses, nowYear, nowMonth), read)
    ensures fetched <==> YearPlan(ano, meses, nowYear, nowMonth) != []
  {
    var acc := historico;
    ghost var done := before;
    fetched := false;
    var j := 0;
    while j < |meses|
      invariant 0 <= j <= |meses|
      invariant done == before + YearPlan(ano, meses[..j], nowYear, nowMonth)
      invariant Collect(done, read) == Ok(acc)
      invariant fetched <==> YearPlan(ano, meses[..j], nowYear, nowMonth) != []
    {
      var mes := meses[j];
      YearPlanStep(ano, meses, j, nowYear, nowMonth);
      if ShouldFetch(ano, mes, nowYear, nowMonth) {
        var rows := read(ano, mes);
        CollectStep(done, (ano, mes), read);
        done := done + [(ano, mes)];
        if rows.Err? {
          FetchYearError(ano, meses, nowYear, nowMonth, read, before, j, done);
          return Err(rows.error), true;
        }
        acc := acc + rows.value;
        fetched := true;
      }
      j := j + 1;
    }
    assert meses[..j] == meses;
    r := Ok(acc);
  }

  /** A failed download ends the inner loop with its error. */
  lemma FetchYearError<T>(ano: int, meses: seq<int>, nowYear: int, nowMonth: int, read: Reader<T>,
                          before: seq<(int, int)>, j: nat, done: seq<(int, int)>)
    requires j < |meses|
    requires done == before + YearPlan(ano, meses[..j + 1], nowYear, nowMonth)
    requires Collect(done, read).Err?
    ensures Collect(before + YearPlan(ano, meses, nowYear, nowMonth), read) == Collect(done, read)
  {
    YearPlanAround(ano, meses, nowYear, nowMonth, j + 1);
    CollectKeepsError(done, YearPlan(ano, meses[j + 1..], nowYear, nowMonth), read);
    assert done + YearPlan(ano, meses[j + 1..], nowYear, nowMonth) == before + YearPlan(ano, meses, nowYear, nowMonth);
  }

  /** `fundosbr`: the loop over years and months, concatenating each
      download, then the sort by date. */
  method Fundosbr(anos: seq<int>, meses: seq<int>, nowYear: int, nowMonth: int, read: Reader<DailyRow>)
    returns (r: Result<seq<DailyRow>, Error>)
    ensures r == FundosbrResult(anos, meses, nowYear, nowMonth, read)
    ensures r.Ok? ==> SortedBy(r.value, DateKey)
  {
    var historico: seq<DailyRow> := [];
    var fetched := false;
    var i := 0;
    while i < |anos|
      invariant 0 <= i <= |anos|
      invariant Collect(Plan(anos[..i], meses, nowYear, nowMonth), read) == Ok(historico)
      invariant fetched <==> Plan(anos[..i], meses, nowYear, nowMonth) != []
    {
      PlanStep(anos, meses, i, nowYear, nowMonth);
      var year, some := FetchYear(anos[i], meses, nowYear, nowMonth, read, Plan(anos[..i], meses, nowYear, nowMonth), historico);
      if year.Err? {
        ErrorEndsFundosbr(anos, meses, nowYear, nowMonth, read, i);
        return Err(year.error);
      }
      historico := year.value;
      fetched := fetched || some;
      i := i + 1;
    }
    assert anos[..i] == anos;
    FundosbrDone(anos, meses, nowYear, nowMonth, read, historico, fetched);
    if !fetched {
      return Err(ColumnNotFound("DT_COMPTC"));
    }
    r := Ok(SortBy(historico, DateKey));
  }

  // ---------------------------------------------------------------------
  // `get_fip` and `get_fidc`

  const FidcBase: string := "http://dados.cvm.gov.br/dados/FIDC/DOC/INF_MENSAL/DADOS/"
  const FipBase: string := "http://dados.cvm.gov.br/dados/FIP/DOC/INF_TRIMESTRAL/DADOS/"

  function FidcUrl(ano: int, mes: int): string {
    FidcBase + "inf_mensal_fidc_" + Format02(ano) + Format02(mes) + ".zip"
  }

  function FidcCsvName(ano: int, mes: int): string {
    "inf_mensal_fidc_tab_X_2_" + Format02(ano) + Format02(mes) + ".csv"
  }

  function FipUrl(ano: int): string {
    FipBase + "inf_trimestral_fip_" + Format02(ano) + ".csv"
  }

  /** What `requests.get` gives: a response with its status, or the
      exception it raised, an `AttributeError` or another one. */
  datatype Request = Raised(attributeError: bool) | Answered(status: int)

  /** The lines of a member of an archive, or `None` when the body is no ZIP
      archive holding it. */
  type Members = (string, string) -> Option<seq<string>>

  /** The request and status handling of `get_fip` and `get_fidc`: through a
      proxy an `AttributeError` becomes the proxy message and any other
      exception propagates, as every exception does without a proxy; a 404
      means there is no data, and every other status, 407 included, goes on
      to the body. */
  function CheckRequest(proxy: bool, req: Request): (r: Result<(), Error>)
    ensures r.Ok? <==> req.Answered? && req.status != 404
    ensures req == Answered(404) ==> r == Err(NoDataForDate)
    ensures req.Raised? ==> (r == Err(ProxyIncorrect) <==> proxy && req.attributeError)
    ensures req.Raised? && !(proxy && req.attributeError) ==> r == Err(TransportFailure)
  {
    match req
    case Raised(attributeError) => Err(if proxy && attributeError then ProxyIncorrect else TransportFailure)
    case Answered(status) => if status == 404 then Err(NoDataForDate) else Ok(())
  }

  /** `get_fidc`: table X_2 of the month's archive, once the request passes. */
  function GetFidc(ano: int, mes: int, proxy: bool, get: string -> Request, member: Members): (r: Result<Table, Error>)
    ensures CheckRequest(proxy, get(FidcUrl(ano, mes))).Err? ==>
      r == CheckRequest(proxy, get(FidcUrl(ano, mes))).PropagateFailure()
    ensures r.Ok? <==>
      && CheckRequest(proxy, get(FidcUrl(ano, mes))).Ok?
      && member(FidcUrl(ano, mes), FidcCsvName(ano, mes)).Some?
      && ParseTable(member(FidcUrl(ano, mes), FidcCsvName(ano, mes)).value).Ok?
    ensures r.Ok? ==> r == ParseTable(member(FidcUrl(ano, mes), FidcCsvName(ano, mes)).value)
    ensures CheckRequest(proxy, get(FidcUrl(ano, mes))).Ok? ==>
      r == match member(FidcUrl(ano, mes), FidcCsvName(ano, mes))
           case None => Err(UnreadableArchive)
           case Some(lines) => ParseTable(lines)
  {
    var _ :- CheckRequest(proxy, get(FidcUrl(ano, mes)));
    match member(FidcUrl(ano, mes), FidcCsvName(ano, mes))
    case None => Err(UnreadableArchive)
    case Some(lines) => ParseTable(lines)
  }

  /** `get_fip`: the body of the year's file split into lines and parsed,
      once the request passes; the parse fails only on the width of the
      rows. */
  function GetFip(ano: int, proxy: bool, get: string -> Request, body: string -> string): (r: Result<Table, Error>)
    ensures r.Ok? <==> CheckRequest(proxy, get(FipUrl(ano))).Ok? && ParseTable(Split(body(FipUrl(ano)), "\n")).Ok?
    ensures CheckRequest(proxy, get(FipUrl(ano))).Err? ==> r == CheckRequest(proxy, get(FipUrl(ano))).PropagateFailure()
    ensures CheckRequest(proxy, get(FipUrl(ano))).Ok? ==> r == ParseTable(Split(body(FipUrl(ano)), "\n"))
    ensures r.Err? && CheckRequest(proxy, get(FipUrl(ano))).Ok? ==> r.error.ShapeMismatch?
    ensures r.Ok? ==>
      var lines := Split(body(FipUrl(ano)), "\n");
      r.value.header == ParseLine(lines[0]) && |r.value.rows| == |lines| - 1
    ensures r.Ok? ==> r == ParseTable(Split(body(FipUrl(ano)), "\n"))
  {
    var _ :- CheckRequest(proxy, get(FipUrl(ano)));
    SplitTextHasHeader(body(FipUrl(ano)));
    ParseTable(Split(body(FipUrl(ano)), "\n"))
  }
}
