/** The registry, daily-report and download logic of
    comparar_fundos_br/get_brfunds.py, the pandas version of the package:
    the twenty-class allow-list and registry filter, the merge of report and
    registry projected to six columns, the monthly archive with its yearly
    fallback, the fund type and threshold filters, the (year, month) loop and
    the status checks of the FIDC and FIP downloads. */
module GetBrFunds {
  import opened Wrappers
  import opened Seqs
  import opened Text
  import opened Errors
  import opened Tables
  import F = FundosBr

  // ---------------------------------------------------------------------
  // Registry

  /** `get_classes()`: the twenty registry classes. */
  function Classes(): (r: seq<string>)
    ensures |r| == 20
    ensures "Fundo de Ações" in r && "Fundo de Renda Fixa" in r && "" !in r
  {
    [ "Fundo de Renda Fixa", "Fundo de Ações", "Fundo Multimercado", "Fundo Cambial",
      "FMP-FGTS", "FIDC", "FIDC-NP", "FIC FIDC", "FICFIDC-NP", "FIDCFIAGRO",
      "FII", "FII-FIAGRO", "FIP", "FIP EE", "FIP Multi", "FIC FIP", "FIP CS",
      "FIP IE", "FIP-FIAGRO", "FUNCINE" ]
  }

  /** Reading `cad_fi.csv`: its rows, or an exception of the HTTP or CSV
      library. */
  datatype RegistryRead = Rows(rows: seq<F.RegistryRow>) | ReadFailed

  /** `df["SIT"] == "EM FUNCIONAMENTO NORMAL"`. */
  predicate Operating(row: F.RegistryRow) {
    row.situacao == "EM FUNCIONAMENTO NORMAL"
  }

  /** `df["CLASSE"].isin(classe)`: a null class is in no list. */
  predicate ClassIn(row: F.RegistryRow, classes: seq<string>) {
    row.classe.Some? && row.classe.value in classes
  }

  /** `get_fundsregistration`: the read error depends on whether a proxy was
      given; then operating funds, the class check and the class filter. */
  function GetFundsRegistration(classe: Names, proxy: bool, read: RegistryRead): (r: Result<seq<F.RegistryRow>, Error>)
    ensures read.ReadFailed? ==> r == Err(if proxy then RegistryProxyRejected else RegistryNeedsProxy)
    ensures read.Rows? ==> (r.Err? <==> Truthy(classe) && exists x :: x in AsList(classe) && x !in Classes())
    ensures read.Rows? && r.Err? ==> r.error == ClassNotFound(Missing(AsList(classe), Classes()))
    ensures r.Ok? ==> read.Rows? && |r.value| <= |read.rows|
    ensures r.Ok? ==> forall x :: x in r.value <==>
      x in read.rows && Operating(x) && (!Truthy(classe) || ClassIn(x, AsList(classe)))
  {
    match read
    case ReadFailed => Err(if proxy then RegistryProxyRejected else RegistryNeedsProxy)
    case Rows(rows) =>
      var operating := Filter(rows, Operating);
      match ValidateNames(classe, Classes())
      case Err(e) => Err(e)
      case Ok(None) => Ok(operating)
      case Ok(Some(classes)) => Ok(Filter(operating, x => ClassIn(x, classes)))
  }

  /** Unlike the polars version, a fund without a class never passes a class
      filter, and every fund kept by one has a class of the allow-list. */
  lemma ClassFilterNeedsKnownClass(classe: Names, proxy: bool, read: RegistryRead, row: F.RegistryRow)
    requires Truthy(classe) && GetFundsRegistration(classe, proxy, read).Ok?
    ensures row.classe.None? ==> row !in GetFundsRegistration(classe, proxy, read).value
    ensures row in GetFundsRegistration(classe, proxy, read).value ==>
      row.classe.Some? && row.classe.value in Classes() && row.classe.value != ""
  {
    var v := ValidateNames(classe, Classes());
    assert v.Ok? && v.value.Some?;
  }

  // ---------------------------------------------------------------------
  // `_mesclar_bases`

  /** A row of the merged report, with the columns `CNPJ - Nome`,
      `DT_COMPTC`, `CLASSE`, `VL_QUOTA`, `NR_COTST` and `VL_PATRIM_LIQ`. */
  datatype ReportRow = ReportRow(
    key: string, date: int, classe: Option<string>,
    quota: Option<real>, holders: Option<int>, equity: Option<real>)

  /** The merged row of a report row and a registry row. */
  function Joined(d: F.DailyRow, g: F.RegistryRow): ReportRow {
    ReportRow(DisplayKey(d.cnpj, g.name), d.date, g.classe, d.quota, d.holders, d.equity)
  }

  function Project(m: F.MergedRow): ReportRow {
    ReportRow(m.key, m.daily.date, m.registry.classe, m.daily.quota, m.daily.holders, m.daily.equity)
  }

  /** `_mesclar_bases`: the inner merge on `CNPJ_FUNDO`, one row per
      matching pair, projected to the six report columns. */
  function MesclarBases(cadastro: seq<F.RegistryRow>, informe: seq<F.DailyRow>): (r: seq<ReportRow>)
    ensures |r| == |F.InnerJoin(informe, cadastro)|
    ensures forall x :: x in r <==>
      exists d, g :: d in informe && g in cadastro && d.cnpj == g.cnpj && x == Joined(d, g)
  {
    var joined := F.InnerJoin(informe, cadastro);
    forall x ensures x in Map(joined, Project) <==>
      exists d, g :: d in informe && g in cadastro && d.cnpj == g.cnpj && x == Joined(d, g)
    {
      MapMembership(joined, Project, x);
      if x in Map(joined, Project) {
        var m :| m in joined && x == Project(m);
        var d, g :| d in informe && g in cadastro && d.cnpj == g.cnpj && m == F.Merge(d, g);
        assert x == Joined(d, g);
      }
      if exists d, g :: d in informe && g in cadastro && d.cnpj == g.cnpj && x == Joined(d, g) {
        var d, g :| d in informe && g in cadastro && d.cnpj == g.cnpj && x == Joined(d, g);
        assert F.Merge(d, g) in joined;
        assert Project(F.Merge(d, g)) == x;
      }
    }
    Map(joined, Project)
  }

  lemma {:induction false} InnerJoinAppend(a: seq<F.DailyRow>, b: seq<F.DailyRow>, cadastro: seq<F.RegistryRow>)
    ensures F.InnerJoin(a + b, cadastro) == F.InnerJoin(a, cadastro) + F.InnerJoin(b, cadastro)
  {
    if a == [] {
      assert a + b == b;
    } else {
      assert (a + b)[1..] == a[1..] + b;
      InnerJoinAppend(a[1..], b, cadastro);
    }
  }

  /** The merge keeps the order of the report rows. */
  lemma MesclarKeepsReportOrder(cadastro: seq<F.RegistryRow>, a: seq<F.DailyRow>, b: seq<F.DailyRow>)
    ensures MesclarBases(cadastro, a + b) == MesclarBases(cadastro, a) + MesclarBases(cadastro, b)
  {
    InnerJoinAppend(a, b, cadastro);
    MapAppend(F.InnerJoin(a, cadastro), F.InnerJoin(b, cadastro), Project);
  }

  // ---------------------------------------------------------------------
  // The daily archive

  /** A response, or an exception of the HTTP library. */
  datatype Reply = Raised | Answered(status: int)

  function MonthlyUrl(ano: int, mes: int): string {
    F.DailyBase + F.DailyStem(ano, mes, true) + ".zip"
  }

  function YearlyUrl(ano: int): string {
    F.DailyBase + "HIST/" + F.DailyStem(ano, 0, false) + ".zip"
  }

  /** The CSV read from either archive: always the monthly name. */
  function CsvName(ano: int, mes: int): string {
    F.DailyStem(ano, mes, true) + ".csv"
  }

  lemma UrlsDiffer(ano: int, mes: int)
    ensures MonthlyUrl(ano, mes) != YearlyUrl(ano)
  {
    var n := |F.DailyBase|;
    assert MonthlyUrl(ano, mes)[n] == 'i';
    assert YearlyUrl(ano)[n] == 'H';
  }

  predicate Failed(reply: Reply) { reply.Answered? && reply.status != 200 }

  /** The archive whose body is read: the monthly one when it answers 200;
      otherwise the yearly one, unless its answer is 407 (the proxy error)
      or another failure, whose body is no archive. */
  function ChooseArchive(ano: int, mes: int, get: string -> Reply): (r: Result<string, Error>)
    ensures r == Ok(MonthlyUrl(ano, mes)) <==> get(MonthlyUrl(ano, mes)) == Answered(200)
    ensures r == Ok(YearlyUrl(ano)) <==> Failed(get(MonthlyUrl(ano, mes))) && get(YearlyUrl(ano)) == Answered(200)
    ensures r == Err(ProxyRequired) <==> Failed(get(MonthlyUrl(ano, mes))) && get(YearlyUrl(ano)) == Answered(407)
    ensures r == Err(TransportFailure) <==>
      get(MonthlyUrl(ano, mes)).Raised? || (Failed(get(MonthlyUrl(ano, mes))) && get(YearlyUrl(ano)).Raised?)
    ensures r == Err(UnreadableArchive) <==>
      Failed(get(MonthlyUrl(ano, mes))) && Failed(get(YearlyUrl(ano))) && get(YearlyUrl(ano)).status != 407
    ensures r.Ok? || r == Err(ProxyRequired) || r == Err(TransportFailure) || r == Err(UnreadableArchive)
  {
    UrlsDiffer(ano, mes);
    match get(MonthlyUrl(ano, mes))
    case Raised => Err(TransportFailure)
    case Answered(first) =>
      if first == 200 then Ok(MonthlyUrl(ano, mes))
      else match get(YearlyUrl(ano))
        case Raised => Err(TransportFailure)
        case Answered(second) =>
          if second == 407 then Err(ProxyRequired)
          else if second == 200 then Ok(YearlyUrl(ano))
          else Err(UnreadableArchive)
  }

  /** A 407 of the monthly archive alone is no error: the yearly archive is
      tried and read when it answers. */
  lemma MonthlyProxyErrorFallsBack(ano: int, mes: int, get: string -> Reply)
    requires get(MonthlyUrl(ano, mes)) == Answered(407) && get(YearlyUrl(ano)) == Answered(200)
    ensures ChooseArchive(ano, mes, get) == Ok(YearlyUrl(ano))
  {
  }

  /** `df[df["TP_FUNDO"] == "FI"]` when the column exists. */
  function SelectFi(t: Table): (r: Table)
    ensures r.header == t.header && |r.rows| <= |t.rows|
    ensures "TP_FUNDO" !in t.header ==> r == t
    ensures "TP_FUNDO" in t.header ==> forall x :: x in r.rows <==>
      x in t.rows && Cell(x, ColumnIndex(t.header, "TP_FUNDO").value) == Some("FI")
  {
    match ColumnIndex(t.header, "TP_FUNDO")
    case None => t
    case Some(c) => Table(t.header, Filter(t.rows, x => Cell(x, c) == Some("FI")))
  }

  /** The lines of a member of an archive. */
  type Members = F.Members

  /** The text stage of `_ler_dados_diarios`: the archive, the monthly CSV in
      it, the parse and the fund type rows. */
  function DailyArchive(ano: int, mes: int, get: string -> Reply, member: Members): (r: Result<Table, Error>)
    ensures ChooseArchive(ano, mes, get).Err? ==> r == ChooseArchive(ano, mes, get).PropagateFailure()
    ensures r.Ok? <==>
      && ChooseArchive(ano, mes, get).Ok?
      && member(ChooseArchive(ano, mes, get).value, CsvName(ano, mes)).Some?
      && ParseTable(member(ChooseArchive(ano, mes, get).value, CsvName(ano, mes)).value).Ok?
    ensures r.Ok? ==>
      var lines := member(ChooseArchive(ano, mes, get).value, CsvName(ano, mes)).value;
      && r.value.header == ParseLine(lines[0])
      && forall x :: x in r.value.rows ==> x in ParseTable(lines).value.rows
    ensures r.Ok? ==>
      r.value == SelectFi(ParseTable(member(ChooseArchive(ano, mes, get).value, CsvName(ano, mes)).value).value)
    ensures ChooseArchive(ano, mes, get).Ok? ==>
      match member(ChooseArchive(ano, mes, get).value, CsvName(ano, mes))
      case None => r == Err(UnreadableArchive)
      case Some(lines) => ParseTable(lines).Err? ==> r == ParseTable(lines).PropagateFailure()
  {
    var url :- ChooseArchive(ano, mes, get);
    match member(url, CsvName(ano, mes))
    case None => Err(UnreadableArchive)
    case Some(lines) =>
      var t :- ParseTable(lines);
      Ok(SelectFi(t))
  }

  /** Only the monthly CSV name is looked up, in whichever archive is read. */
  lemma OnlyMonthlyCsvRead(ano: int, mes: int, get: string -> Reply, m1: Members, m2: Members)
    requires m1(MonthlyUrl(ano, mes), CsvName(ano, mes)) == m2(MonthlyUrl(ano, mes), CsvName(ano, mes))
    requires m1(YearlyUrl(ano), CsvName(ano, mes)) == m2(YearlyUrl(ano), CsvName(ano, mes))
    ensures DailyArchive(ano, mes, get, m1) == DailyArchive(ano, mes, get, m2)
  {
    var url := ChooseArchive(ano, mes, get);
    assert url.Ok? ==> url.value == MonthlyUrl(ano, mes) || url.value == YearlyUrl(ano);
  }

  // ---------------------------------------------------------------------
  // The row stage of `_ler_dados_diarios`

  /** The thresholds (a null value fails a truthy one), then the merge with
      the registry. */
  function LerDadosDiarios(cadastro: seq<F.RegistryRow>, informe: seq<F.DailyRow>,
                           minHolders: Option<int>, minEquity: Option<int>): (r: seq<ReportRow>)
    ensures forall x :: x in r <==>
      exists d, g :: d in informe && F.MeetsThresholds(d, minHolders, minEquity)
                  && g in cadastro && d.cnpj == g.cnpj && x == Joined(d, g)
  {
    MesclarBases(cadastro, Filter(informe, d => F.MeetsThresholds(d, minHolders, minEquity)))
  }

  // ---------------------------------------------------------------------
  // `get_brfunds`

  /** The download of one month: the merged rows, or the error of its
      archive. */
  function MonthReader(download: F.Reader<F.DailyRow>, cadastro: seq<F.RegistryRow>,
                       minHolders: Option<int>, minEquity: Option<int>): F.Reader<ReportRow> {
    (ano: int, mes: int) =>
      match download(ano, mes)
      case Err(e) => Err(e)
      case Ok(rows) => Ok(LerDadosDiarios(cadastro, rows, minHolders, minEquity))
  }

  function ReportDate(x: ReportRow): real { x.date as real }

  /** The result of `get_brfunds`: the registry first, then the downloads of
      the months that are not in the future, then `sort_index()`. Nothing
      downloaded is an empty report. */
  function GetBrFundsResult(anos: seq<int>, meses: seq<int>, classe: Names, proxy: bool, registry: RegistryRead,
                            nowYear: int, nowMonth: int, download: F.Reader<F.DailyRow>,
                            minHolders: Option<int>, minEquity: Option<int>): Result<seq<ReportRow>, Error> {
    match GetFundsRegistration(classe, proxy, registry)
    case Err(e) => Err(e)
    case Ok(cadastro) =>
      match F.Collect(F.Plan(anos, meses, nowYear, nowMonth), MonthReader(download, cadastro, minHolders, minEquity))
      case Err(e) => Err(e)
      case Ok(rows) => Ok(SortBy(rows, ReportDate))
  }

  /** The rows collected from a plan are those of its downloads. */
  lemma {:induction false} CollectMembership<T>(plan: seq<(int, int)>, read: F.Reader<T>, x: T)
    requires F.Collect(plan, read).Ok?
    ensures x in F.Collect(plan, read).value <==>
      exists k :: 0 <= k < |plan| && read(plan[k].0, plan[k].1).Ok? && x in read(plan[k].0, plan[k].1).value
  {
    if plan != [] {
      var init := plan[..|plan| - 1];
      CollectMembership(init, read, x);
      assert forall k :: 0 <= k < |init| ==> init[k] == plan[k];
    }
  }

  /** Every planned month reads exactly when every month not in the
      future downloads. */
  lemma PlanDownloadsOk(anos: seq<int>, meses: seq<int>, nowYear: int, nowMonth: int,
                        download: F.Reader<F.DailyRow>, cadastro: seq<F.RegistryRow>,
                        minHolders: Option<int>, minEquity: Option<int>)
    ensures F.Collect(F.Plan(anos, meses, nowYear, nowMonth), MonthReader(download, cadastro, minHolders, minEquity)).Ok?
        <==> (forall a, m :: a in anos && m in meses && F.ShouldFetch(a, m, nowYear, nowMonth) ==> download(a, m).Ok?)
  {
    var plan := F.Plan(anos, meses, nowYear, nowMonth);
    var read := MonthReader(download, cadastro, minHolders, minEquity);
    F.CollectOk(plan, read);
    if forall k :: 0 <= k < |plan| ==> read(plan[k].0, plan[k].1).Ok? {
      forall a, m | a in anos && m in meses && F.ShouldFetch(a, m, nowYear, nowMonth) ensures download(a, m).Ok? {
        F.PlanMembership(anos, meses, nowYear, nowMonth, (a, m));
        var k :| 0 <= k < |plan| && plan[k] == (a, m);
        assert read(a, m).Ok?;
      }
    }
    if forall a, m :: a in anos && m in meses && F.ShouldFetch(a, m, nowYear, nowMonth) ==> download(a, m).Ok? {
      forall k | 0 <= k < |plan| ensures read(plan[k].0, plan[k].1).Ok? {
        F.PlanMembership(anos, meses, nowYear, nowMonth, plan[k]);
        assert download(plan[k].0, plan[k].1).Ok?;
      }
    }
  }

  /** `get_brfunds` succeeds exactly when the registry is read and checked
      and every month not in the future downloads. */
  lemma GetBrFundsOk(anos: seq<int>, meses: seq<int>, classe: Names, proxy: bool, registry: RegistryRead,
                     nowYear: int, nowMonth: int, download: F.Reader<F.DailyRow>,
                     minHolders: Option<int>, minEquity: Option<int>)
    ensures GetBrFundsResult(anos, meses, classe, proxy, registry, nowYear, nowMonth, download, minHolders, minEquity).Ok? <==>
      && GetFundsRegistration(classe, proxy, registry).Ok?
      && forall a, m :: a in anos && m in meses && F.ShouldFetch(a, m, nowYear, nowMonth) ==> download(a, m).Ok?
  {
    var reg := GetFundsRegistration(classe, proxy, registry);
    if reg.Ok? {
      var plan := F.Plan(anos, meses, nowYear, nowMonth);
      var read := MonthReader(download, reg.value, minHolders, minEquity);
      assert GetBrFundsResult(anos, meses, classe, proxy, registry, nowYear, nowMonth, download, minHolders, minEquity).Ok?
         <==> F.Collect(plan, read).Ok?;
      PlanDownloadsOk(anos, meses, nowYear, nowMonth, download, reg.value, minHolders, minEquity);
    }
  }

  /** The rows collected over the plan are the merged rows of the months
      not in the future. */
  lemma PlanRows(anos: seq<int>, meses: seq<int>, nowYear: int, nowMonth: int,
                 download: F.Reader<F.DailyRow>, cadastro: seq<F.RegistryRow>,
                 minHolders: Option<int>, minEquity: Option<int>, x: ReportRow)
    requires F.Collect(F.Plan(anos, meses, nowYear, nowMonth), MonthReader(download, cadastro, minHolders, minEquity)).Ok?
    ensures x in F.Collect(F.Plan(anos, meses, nowYear, nowMonth), MonthReader(download, cadastro, minHolders, minEquity)).value
        <==> exists a, m :: a in anos && m in meses && F.ShouldFetch(a, m, nowYear, nowMonth) && download(a, m).Ok?
                         && x in LerDadosDiarios(cadastro, download(a, m).value, minHolders, minEquity)
  {
    var plan := F.Plan(anos, meses, nowYear, nowMonth);
    var read := MonthReader(download, cadastro, minHolders, minEquity);
    CollectMembership(plan, read, x);
    if exists k :: 0 <= k < |plan| && read(plan[k].0, plan[k].1).Ok? && x in read(plan[k].0, plan[k].1).value {
      var k :| 0 <= k < |plan| && read(plan[k].0, plan[k].1).Ok? && x in read(plan[k].0, plan[k].1).value;
      PlannedMonthRows(anos, meses, nowYear, nowMonth, download, cadastro, minHolders, minEquity, x, k);
    }
    if exists a, m :: a in anos && m in meses && F.ShouldFetch(a, m, nowYear, nowMonth) && download(a, m).Ok?
                      && x in LerDadosDiarios(cadastro, download(a, m).value, minHolders, minEquity) {
      var a, m :| a in anos && m in meses && F.ShouldFetch(a, m, nowYear, nowMonth) && download(a, m).Ok?
                  && x in LerDadosDiarios(cadastro, download(a, m).value, minHolders, minEquity);
      MonthRowsPlanned(anos, meses, nowYear, nowMonth, download, cadastro, minHolders, minEquity, x, a, m);
    }
  }

  lemma MonthRowsPlanned(anos: seq<int>, meses: seq<int>, nowYear: int, nowMonth: int,
                         download: F.Reader<F.DailyRow>, cadastro: seq<F.RegistryRow>,
                         minHolders: Option<int>, minEquity: Option<int>, x: ReportRow, a: int, m: int)
    requires a in anos && m in meses && F.ShouldFetch(a, m, nowYear, nowMonth) && download(a, m).Ok?
    requires x in LerDadosDiarios(cadastro, download(a, m).value, minHolders, minEquity)
    ensures var plan := F.Plan(anos, meses, nowYear, nowMonth);
      var read := MonthReader(download, cadastro, minHolders, minEquity);
      exists k :: 0 <= k < |plan| && read(plan[k].0, plan[k].1).Ok? && x in read(plan[k].0, plan[k].1).value
  {
    var plan := F.Plan(anos, meses, nowYear, nowMonth);
    var read := MonthReader(download, cadastro, minHolders, minEquity);
    F.PlanMembership(anos, meses, nowYear, nowMonth, (a, m));
    var k :| 0 <= k < |plan| && plan[k] == (a, m);
    assert read(plan[k].0, plan[k].1).Ok? && x in read(plan[k].0, plan[k].1).value;
  }

  lemma PlannedMonthRows(anos: seq<int>, meses: seq<int>, nowYear: int, nowMonth: int,
                         download: F.Reader<F.DailyRow>, cadastro: seq<F.RegistryRow>,
                         minHolders: Option<int>, minEquity: Option<int>, x: ReportRow, k: nat)
    requires var plan := F.Plan(anos, meses, nowYear, nowMonth);
      var read := MonthReader(download, cadastro, minHolders, minEquity);
      k < |plan| && read(plan[k].0, plan[k].1).Ok? && x in read(plan[k].0, plan[k].1).value
    ensures exists a, m :: a in anos && m in meses && F.ShouldFetch(a, m, nowYear, nowMonth) && download(a, m).Ok?
                         && x in LerDadosDiarios(cadastro, download(a, m).value, minHolders, minEquity)
  {
    var plan := F.Plan(anos, meses, nowYear, nowMonth);
    F.PlanMembership(anos, meses, nowYear, nowMonth, plan[k]);
    var a, m := plan[k].0, plan[k].1;
    assert download(a, m).Ok? && x in LerDadosDiarios(cadastro, download(a, m).value, minHolders, minEquity);
  }

  /** The rows of a successful `get_brfunds` are sorted by date and are the
      merged rows of the requested months that are not in the future. */
  lemma GetBrFundsRows(anos: seq<int>, meses: seq<int>, classe: Names, proxy: bool, registry: RegistryRead,
                       nowYear: int, nowMonth: int, download: F.Reader<F.DailyRow>,
                       minHolders: Option<int>, minEquity: Option<int>, cadastro: seq<F.RegistryRow>, x: ReportRow)
    requires GetFundsRegistration(classe, proxy, registry) == Ok(cadastro)
    requires GetBrFundsResult(anos, meses, classe, proxy, registry, nowYear, nowMonth, download, minHolders, minEquity).Ok?
    ensures
      var r := GetBrFundsResult(anos, meses, classe, proxy, registry, nowYear, nowMonth, download, minHolders, minEquity).value;
      && SortedBy(r, ReportDate)
      && (x in r <==> exists a, m :: a in anos && m in meses && F.ShouldFetch(a, m, nowYear, nowMonth) && download(a, m).Ok?
                                    && x in LerDadosDiarios(cadastro, download(a, m).value, minHolders, minEquity))
  {
    var c := F.Collect(F.Plan(anos, meses, nowYear, nowMonth), MonthReader(download, cadastro, minHolders, minEquity));
    PlanRows(anos, meses, nowYear, nowMonth, download, cadastro, minHolders, minEquity, x);
    PermutationMembership(c.value, SortBy(c.value, ReportDate));
  }

  /** A download error at year `i` is the error of the whole loop. */
  lemma YearErrorEnds<T>(anos: seq<int>, meses: seq<int>, nowYear: int, nowMonth: int, read: F.Reader<T>, i: nat)
    requires i < |anos|
    requires F.Collect(F.Plan(anos[..i], meses, nowYear, nowMonth) + F.YearPlan(anos[i], meses, nowYear, nowMonth), read).Err?
    ensures F.Collect(F.Plan(anos, meses, nowYear, nowMonth), read)
         == F.Collect(F.Plan(anos[..i], meses, nowYear, nowMonth) + F.YearPlan(anos[i], meses, nowYear, nowMonth), read)
  {
    F.PlanAroundYear(anos, meses, nowYear, nowMonth, i);
    F.CollectKeepsError(F.Plan(anos[..i], meses, nowYear, nowMonth) + F.YearPlan(anos[i], meses, nowYear, nowMonth),
                        F.Plan(anos[i + 1..], meses, nowYear, nowMonth), read);
  }

  /** With the registry read, the result is the sorted collection of the
      plan, or its error. */
  lemma ResultOfCollect(anos: seq<int>, meses: seq<int>, classe: Names, proxy: bool, registry: RegistryRead,
                        nowYear: int, nowMonth: int, download: F.Reader<F.DailyRow>,
                        minHolders: Option<int>, minEquity: Option<int>, cadastro: seq<F.RegistryRow>)
    requires GetFundsRegistration(classe, proxy, registry) == Ok(cadastro)
    ensures var c := F.Collect(F.Plan(anos, meses, nowYear, nowMonth), MonthReader(download, cadastro, minHolders, minEquity));
      GetBrFundsResult(anos, meses, classe, proxy, registry, nowYear, nowMonth, download, minHolders, minEquity)
        == if c.Ok? then Ok(SortBy(c.value, ReportDate)) else Err(c.error)
  {
  }

  /** `get_brfunds`: the registry, the loop over years and months
      concatenating each month's merged rows, then the sort by date. */
  method GetBrFunds(anos: seq<int>, meses: seq<int>, classe: Names, proxy: bool, registry: RegistryRead,
                    nowYear: int, nowMonth: int, download: F.Reader<F.DailyRow>,
                    minHolders: Option<int>, minEquity: Option<int>)
    returns (r: Result<seq<ReportRow>, Error>)
    ensures r == GetBrFundsResult(anos, meses, classe, proxy, registry, nowYear, nowMonth, download, minHolders, minEquity)
  {
    var cadastro := GetFundsRegistration(classe, proxy, registry);
    if cadastro.Err? {
      return Err(cadastro.error);
    }
    var read := MonthReader(download, cadastro.value, minHolders, minEquity);
    var historico: seq<ReportRow> := [];
    var i := 0;
    while i < |anos|
      invariant 0 <= i <= |anos|
      invariant F.Collect(F.Plan(anos[..i], meses, nowYear, nowMonth), read) == Ok(historico)
    {
      F.PlanStep(anos, meses, i, nowYear, nowMonth);
      var year, some := F.FetchYear(anos[i], meses, nowYear, nowMonth, read, F.Plan(anos[..i], meses, nowYear, nowMonth), historico);
      if year.Err? {
        YearErrorEnds(anos, meses, nowYear, nowMonth, read, i);
        ResultOfCollect(anos, meses, classe, proxy, registry, nowYear, nowMonth, download, minHolders, minEquity, cadastro.value);
        return Err(year.error);
      }
      historico := year.value;
      i := i + 1;
    }
    assert anos[..i] == anos;
    ResultOfCollect(anos, meses, classe, proxy, registry, nowYear, nowMonth, download, minHolders, minEquity, cadastro.value);
    r := Ok(SortBy(historico, ReportDate));
  }

  // ---------------------------------------------------------------------
  // `get_fidc` and `get_fip`

  /** The status checks of `get_fidc` and `get_fip`: 404 before 407; any
      other answer goes on to the body, and an exception of the request
      propagates. */
  function CheckReply(reply: Reply): (r: Result<(), Error>)
    ensures r.Ok? <==> reply.Answered? && reply.status != 404 && reply.status != 407
    ensures reply == Answered(404) ==> r == Err(NoDataForDate)
    ensures reply == Answered(407) ==> r == Err(ProxyRequired)
    ensures reply.Raised? ==> r == Err(TransportFailure)
  {
    match reply
    case Raised => Err(TransportFailure)
    case Answered(status) =>
      if status == 404 then Err(NoDataForDate)
      else if status == 407 then Err(ProxyRequired)
      else Ok(())
  }

  /** `get_fidc`: the check of the monthly archive's answer, then table
      X_2 of the month in it. */
  function GetFidc(ano: int, mes: int, get: string -> Reply, member: Members): (r: Result<Table, Error>)
    ensures CheckReply(get(F.FidcUrl(ano, mes))).Err? ==> r == CheckReply(get(F.FidcUrl(ano, mes))).PropagateFailure()
    ensures r.Ok? <==>
      && CheckReply(get(F.FidcUrl(ano, mes))).Ok?
      && member(F.FidcUrl(ano, mes), F.FidcCsvName(ano, mes)).Some?
      && ParseTable(member(F.FidcUrl(ano, mes), F.FidcCsvName(ano, mes)).value).Ok?
    ensures r.Ok? ==> r == ParseTable(member(F.FidcUrl(ano, mes), F.FidcCsvName(ano, mes)).value)
    ensures CheckReply(get(F.FidcUrl(ano, mes))).Ok? ==>
      r == match member(F.FidcUrl(ano, mes), F.FidcCsvName(ano, mes))
           case None => Err(UnreadableArchive)
           case Some(lines) => ParseTable(lines)
  {
    var _ :- CheckReply(get(F.FidcUrl(ano, mes)));
    match member(F.FidcUrl(ano, mes), F.FidcCsvName(ano, mes))
    case None => Err(UnreadableArchive)
    case Some(lines) => ParseTable(lines)
  }

  /** `get_fip`: the check of the yearly file's answer, then its text split
      into lines and parsed, which fails only on the width of the rows. */
  function GetFip(ano: int, get: string -> Reply, body: string -> string): (r: Result<Table, Error>)
    ensures r.Ok? <==> CheckReply(get(F.FipUrl(ano))).Ok? && ParseTable(Split(body(F.FipUrl(ano)), "\n")).Ok?
    ensures CheckReply(get(F.FipUrl(ano))).Err? ==> r == CheckReply(get(F.FipUrl(ano))).PropagateFailure()
    ensures CheckReply(get(F.FipUrl(ano))).Ok? ==> r == ParseTable(Split(body(F.FipUrl(ano)), "\n"))
    ensures r.Err? && CheckReply(get(F.FipUrl(ano))).Ok? ==> r.error.ShapeMismatch?
    ensures r.Ok? ==>
      var lines := Split(body(F.FipUrl(ano)), "\n");
      r.value.header == ParseLine(lines[0]) && |r.value.rows| == |lines| - 1
    ensures r.Ok? ==> r == ParseTable(Split(body(F.FipUrl(ano)), "\n"))
  {
    var _ :- CheckReply(get(F.FipUrl(ano)));
    SplitTextHasHeader(body(F.FipUrl(ano)));
    ParseTable(Split(body(F.FipUrl(ano)), "\n"))
  }
}
