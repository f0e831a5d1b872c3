/** The parts of comparebrfunds/getfunds.py, the first version of the
    package, that differ from the pandas version: both definitions of
    `filtrar_fundos` (the second one rebinds the name and is the one in
    effect), the single-month `get_brfunds` and the status handling of
    `get_fidc` and `get_fip`. The class list and the registry filter are
    the same code as in the pandas version and are modelled there. */
module GetFunds {
  import opened Wrappers
  import opened Seqs
  import opened Text
  import opened Errors
  import opened Tables
  import opened Cnpj
  import F = FundosBr
  import G = GetBrFunds

  // ---------------------------------------------------------------------
  // `filtrar_fundos`

  /** A row of the filtered report, with the columns `CNPJ - Nome`,
      `DT_COMPTC`, `VL_QUOTA`, `NR_COTST` and `VL_PATRIM_LIQ`; a key the
      index alignment leaves without a name is missing. */
  datatype FilteredRow = FilteredRow(
    key: Option<string>, date: int, quota: Option<real>, holders: Option<int>, equity: Option<real>)

  /** The five columns of a report row under a key. */
  function Columns5(key: Option<string>, d: F.DailyRow): FilteredRow {
    FilteredRow(key, d.date, d.quota, d.holders, d.equity)
  }

  /** The row of the inner merge of a report row and a registry row. */
  function Merged5(d: F.DailyRow, g: F.RegistryRow): FilteredRow {
    Columns5(Some(DisplayKey(d.cnpj, g.name)), d)
  }

  function FromMerge(m: F.MergedRow): FilteredRow {
    Columns5(Some(m.key), m.daily)
  }

  /** `filtrar_fundos`, the definition in effect: the inner merge on
      `CNPJ_FUNDO` (report rows outer), the key CNPJ + " // " + registry
      name, and the five columns. */
  function FiltrarFundos(cadastro: seq<F.RegistryRow>, informe: seq<F.DailyRow>): (r: seq<FilteredRow>)
    ensures |r| == |F.InnerJoin(informe, cadastro)|
    ensures forall x :: x in r <==>
      exists d, g :: d in informe && g in cadastro && d.cnpj == g.cnpj && x == Merged5(d, g)
  {
    var joined := F.InnerJoin(informe, cadastro);
    forall x ensures x in Map(joined, FromMerge) <==>
      exists d, g :: d in informe && g in cadastro && d.cnpj == g.cnpj && x == Merged5(d, g)
    {
      MapMembership(joined, FromMerge, x);
      if x in Map(joined, FromMerge) {
        var m :| m in joined && x == FromMerge(m);
        var d, g :| d in informe && g in cadastro && d.cnpj == g.cnpj && m == F.Merge(d, g);
        assert x == Merged5(d, g);
      }
      if exists d, g :: d in informe && g in cadastro && d.cnpj == g.cnpj && x == Merged5(d, g) {
        var d, g :| d in informe && g in cadastro && d.cnpj == g.cnpj && x == Merged5(d, g);
        assert F.Merge(d, g) in joined;
        assert FromMerge(F.Merge(d, g)) == x;
      }
    }
    Map(joined, FromMerge)
  }

  /** The merge keeps the order of the report rows. */
  lemma FiltrarFundosKeepsReportOrder(cadastro: seq<F.RegistryRow>, a: seq<F.DailyRow>, b: seq<F.DailyRow>)
    ensures FiltrarFundos(cadastro, a + b) == FiltrarFundos(cadastro, a) + FiltrarFundos(cadastro, b)
  {
    G.InnerJoinAppend(a, b, cadastro);
    MapAppend(F.InnerJoin(a, cadastro), F.InnerJoin(b, cadastro), FromMerge);
  }

  /** Every key of the merge is present and names a registry row with the
      row's own CNPJ; with a canonical CNPJ and a name without the separator,
      splitting the key at " // " gives the two back. */
  lemma FiltrarFundosKeys(cadastro: seq<F.RegistryRow>, informe: seq<F.DailyRow>, x: FilteredRow)
    requires x in FiltrarFundos(cadastro, informe)
    ensures x.key.Some?
    ensures exists d, g :: d in informe && g in cadastro && d.cnpj == g.cnpj && x.key.value == DisplayKey(d.cnpj, g.name)
    ensures forall d, g :: d in informe && g in cadastro && d.cnpj == g.cnpj && x == Merged5(d, g)
              && IsCanonical(d.cnpj) && !Contains(g.name, KeySeparator)
              ==> Split(x.key.value, KeySeparator) == [d.cnpj, g.name]
  {
    forall d, g | d in informe && g in cadastro && d.cnpj == g.cnpj && x == Merged5(d, g)
                  && IsCanonical(d.cnpj) && !Contains(g.name, KeySeparator)
      ensures Split(x.key.value, KeySeparator) == [d.cnpj, g.name]
    {
      F.MergedKeySplits(F.Merge(d, g));
    }
  }

  // ---------------------------------------------------------------------
  // The first, shadowed `filtrar_fundos`

  /** A row with its index label; the frames keep the labels of the files
      they were read from through every filter. */
  datatype Labelled<T> = Labelled(at: nat, row: T)

  /** The registry row carrying an index label, the first when several do. */
  function AtLabel(cadastro: seq<Labelled<F.RegistryRow>>, at: nat): (r: Option<F.RegistryRow>)
    ensures r.None? <==> forall y :: y in cadastro ==> y.at != at
    ensures r.Some? ==> Labelled(at, r.value) in cadastro
  {
    if cadastro == [] then None
    else if cadastro[0].at == at then Some(cadastro[0].row)
    else AtLabel(cadastro[1..], at)
  }

  /** `dados["CNPJ_FUNDO"] + " " + cadastro["DENOM_SOCIAL"]`: the two
      columns are aligned on the index label, so a report row's CNPJ is put
      beside the name of the registry row that has the same label; without
      one the key is missing. */
  function LabelKey(cadastro: seq<Labelled<F.RegistryRow>>, x: Labelled<F.DailyRow>): (k: Option<string>)
    ensures k.Some? <==> exists y :: y in cadastro && y.at == x.at
    ensures k.Some? ==> k.value == x.row.cnpj + " " + AtLabel(cadastro, x.at).value.name
  {
    match AtLabel(cadastro, x.at)
    case None => None
    case Some(g) => Some(x.row.cnpj + " " + g.name)
  }

  function InformeCnpjs(informe: seq<Labelled<F.DailyRow>>): set<string> {
    set x | x in informe :: x.row.cnpj
  }

  function CadastroCnpjs(cadastro: seq<Labelled<F.RegistryRow>>): set<string> {
    set y | y in cadastro :: y.row.cnpj
  }

  /** The report rows whose CNPJ is in both key sets. */
  function Common(cadastro: seq<Labelled<F.RegistryRow>>, informe: seq<Labelled<F.DailyRow>>): (rows: seq<Labelled<F.DailyRow>>)
    ensures |rows| <= |informe|
    ensures forall x :: x in rows <==> x in informe && x.row.cnpj in CadastroCnpjs(cadastro)
  {
    var common := InformeCnpjs(informe) * CadastroCnpjs(cadastro);
    var rows := Filter(informe, (x: Labelled<F.DailyRow>) => x.row.cnpj in common);
    forall x | x in informe ensures x.row.cnpj in InformeCnpjs(informe) {
    }
    rows
  }

  /** The first `filtrar_fundos`: a semi-join (a report row is kept when
      its CNPJ is in both key sets, once, in report order) with the
      label-aligned key and the five columns. */
  function FiltrarFundosFirst(cadastro: seq<Labelled<F.RegistryRow>>, informe: seq<Labelled<F.DailyRow>>): (r: seq<FilteredRow>)
    ensures |r| == |Common(cadastro, informe)| && |r| <= |informe|
    ensures forall i :: 0 <= i < |r| ==>
      r[i] == Columns5(LabelKey(cadastro, Common(cadastro, informe)[i]), Common(cadastro, informe)[i].row)
  {
    Map(Common(cadastro, informe), x => Columns5(LabelKey(cadastro, x), x.row))
  }

  /** A report row is kept exactly when some registry row has its CNPJ. */
  lemma SemiJoinKeeps(cadastro: seq<Labelled<F.RegistryRow>>, informe: seq<Labelled<F.DailyRow>>, x: Labelled<F.DailyRow>)
    ensures x in Common(cadastro, informe) <==> x in informe && exists y :: y in cadastro && y.row.cnpj == x.row.cnpj
  {
    if x in informe && exists y :: y in cadastro && y.row.cnpj == x.row.cnpj {
      var y :| y in cadastro && y.row.cnpj == x.row.cnpj;
      assert x.row.cnpj in CadastroCnpjs(cadastro);
    }
  }

  /** The semi-join keeps the order of the report rows and never repeats one
      (unlike the merge, a CNPJ registered twice does not double a row). */
  lemma SemiJoinKeepsReportOrder(cadastro: seq<Labelled<F.RegistryRow>>, a: seq<Labelled<F.DailyRow>>, b: seq<Labelled<F.DailyRow>>)
    ensures Common(cadastro, a + b) == Filter(a + b, (x: Labelled<F.DailyRow>) => x.row.cnpj in CadastroCnpjs(cadastro))
    ensures Common(cadastro, a + b) == Common(cadastro, a) + Common(cadastro, b)
  {
    var keep := (x: Labelled<F.DailyRow>) => x.row.cnpj in CadastroCnpjs(cadastro);
    CommonIsFilter(cadastro, a + b);
    CommonIsFilter(cadastro, a);
    CommonIsFilter(cadastro, b);
    FilterAppend(a, b, keep);
  }

  lemma CommonIsFilter(cadastro: seq<Labelled<F.RegistryRow>>, informe: seq<Labelled<F.DailyRow>>)
    ensures Common(cadastro, informe) == Filter(informe, (x: Labelled<F.DailyRow>) => x.row.cnpj in CadastroCnpjs(cadastro))
  {
    var common := InformeCnpjs(informe) * CadastroCnpjs(cadastro);
    forall x | x in informe ensures x.row.cnpj in InformeCnpjs(informe) {
    }
    FilterCongruent(informe, (x: Labelled<F.DailyRow>) => x.row.cnpj in common, (x: Labelled<F.DailyRow>) => x.row.cnpj in CadastroCnpjs(cadastro));
  }

  /** The label alignment pairs a CNPJ with an unrelated name: a report row
      of fund X labelled 0, and a registry whose row 0 is fund Y ("B") and
      row 1 fund X ("A"), give the key "X B"; the merge gives "X // A". */
  lemma FirstKeyMismatch()
    ensures
      var d := F.DailyRow(0, "X", Some(1), Some(1.0), Some(1.0), None, None, None);
      var gy := F.RegistryRow("Y", "B", "EM FUNCIONAMENTO NORMAL", "FI", None);
      var gx := F.RegistryRow("X", "A", "EM FUNCIONAMENTO NORMAL", "FI", None);
      && FiltrarFundosFirst([Labelled(0, gy), Labelled(1, gx)], [Labelled(0, d)]) == [Columns5(Some("X B"), d)]
      && FiltrarFundos([gy, gx], [d]) == [Columns5(Some("X // A"), d)]
  {
    var d := F.DailyRow(0, "X", Some(1), Some(1.0), Some(1.0), None, None, None);
    var gy := F.RegistryRow("Y", "B", "EM FUNCIONAMENTO NORMAL", "FI", None);
    var gx := F.RegistryRow("X", "A", "EM FUNCIONAMENTO NORMAL", "FI", None);
    ExampleFirst(d, gy, gx);
    ExampleMerge(d, gy, gx);
  }

  lemma ExampleFirst(d: F.DailyRow, gy: F.RegistryRow, gx: F.RegistryRow)
    requires d.cnpj == "X" && gy.cnpj == "Y" && gy.name == "B" && gx.cnpj == "X"
    ensures FiltrarFundosFirst([Labelled(0, gy), Labelled(1, gx)], [Labelled(0, d)]) == [Columns5(Some("X B"), d)]
  {
    var cadastro := [Labelled(0, gy), Labelled(1, gx)];
    var informe := [Labelled(0, d)];
    SemiJoinKeeps(cadastro, informe, Labelled(0, d));
    CommonIsFilter(cadastro, informe);
    assert Common(cadastro, informe) == informe;
    assert AtLabel(cadastro, 0) == Some(gy);
    assert "X" + " " + "B" == "X B";
    var first := FiltrarFundosFirst(cadastro, informe);
    assert |first| == 1 && first[0] == Columns5(Some("X B"), d);
  }

  lemma ExampleMerge(d: F.DailyRow, gy: F.RegistryRow, gx: F.RegistryRow)
    requires d.cnpj == "X" && gy.cnpj == "Y" && gx.cnpj == "X" && gx.name == "A"
    ensures FiltrarFundos([gy, gx], [d]) == [Columns5(Some("X // A"), d)]
  {
    ExampleMatches(d, gy, gx);
    assert F.InnerJoin([d], [gy, gx]) == [F.Merge(d, gx)] by {
      assert [d][1..] == [];
    }
    assert DisplayKey("X", "A") == "X // A";
    var merged := FiltrarFundos([gy, gx], [d]);
    assert |merged| == 1 && merged[0] == FromMerge(F.Merge(d, gx));
  }

  lemma ExampleMatches(d: F.DailyRow, gy: F.RegistryRow, gx: F.RegistryRow)
    requires d.cnpj == "X" && gy.cnpj == "Y" && gx.cnpj == "X"
    ensures F.MatchesOf(d, [gy, gx]) == [F.Merge(d, gx)]
  {
    assert gy.cnpj != d.cnpj by {
      assert gy.cnpj[0] != d.cnpj[0];
    }
    assert [gy, gx][1..] == [gx];
    assert [gx][1..] == [];
    assert F.MatchesOf(d, [gx]) == [F.Merge(d, gx)] + F.MatchesOf(d, []);
  }

  // ---------------------------------------------------------------------
  // `get_brfunds` (one month)

  /** The threshold step as written: a falsy threshold is skipped; a truthy
      one looks its column up and compares its text cells with a number,
      which raises a `TypeError` on the first row. On a table without rows
      the comparison passes, and the one-element list it leaves fails the
      next access by column name with a `TypeError` as well. */
  function ThresholdAsWritten(t: Table, column: string, threshold: Option<int>): (r: Result<(), Error>)
    ensures r.Ok? <==> !F.TruthyInt(threshold)
    ensures r.Err? ==> r.error == (if column in t.header then ThresholdTypeError else ColumnNotFound(column))
  {
    if !F.TruthyInt(threshold) then Ok(())
    else if ColumnIndex(t.header, column).None? then Err(ColumnNotFound(column))
    else Err(ThresholdTypeError)
  }

  /** The loop converting `VL_PATRIM_LIQ`, `NR_COTST` and `VL_QUOTA`, in
      that order: the first absent column is the error. */
  function NumericColumns(t: Table): (r: Result<(), Error>)
    ensures r.Ok? <==> "VL_PATRIM_LIQ" in t.header && "NR_COTST" in t.header && "VL_QUOTA" in t.header
    ensures "VL_PATRIM_LIQ" !in t.header ==> r == Err(ColumnNotFound("VL_PATRIM_LIQ"))
    ensures "VL_PATRIM_LIQ" in t.header && "NR_COTST" !in t.header ==> r == Err(ColumnNotFound("NR_COTST"))
  {
    if ColumnIndex(t.header, "VL_PATRIM_LIQ").None? then Err(ColumnNotFound("VL_PATRIM_LIQ"))
    else if ColumnIndex(t.header, "NR_COTST").None? then Err(ColumnNotFound("NR_COTST"))
    else if ColumnIndex(t.header, "VL_QUOTA").None? then Err(ColumnNotFound("VL_QUOTA"))
    else Ok(())
  }

  /** `get_brfunds` of this version as written: the archive choice, the
      monthly CSV and the fund type rows of the pandas version, then the
      thresholds before the numeric conversion. A truthy threshold never
      filters: the call fails. */
  function GetBrFundsMonth(ano: int, mes: int, minHolders: Option<int>, minEquity: Option<int>,
                           get: string -> G.Reply, member: G.Members): (r: Result<Table, Error>)
    ensures G.DailyArchive(ano, mes, get, member).Err? ==> r == G.DailyArchive(ano, mes, get, member).PropagateFailure()
    ensures F.TruthyInt(minHolders) || F.TruthyInt(minEquity) ==> r.Err?
    ensures r.Ok? <==>
      && G.DailyArchive(ano, mes, get, member).Ok?
      && !F.TruthyInt(minHolders) && !F.TruthyInt(minEquity)
      && NumericColumns(G.DailyArchive(ano, mes, get, member).value).Ok?
    ensures r.Ok? ==> r.value == G.DailyArchive(ano, mes, get, member).value
  {
    var t :- G.DailyArchive(ano, mes, get, member);
    var _ :- ThresholdAsWritten(t, "NR_COTST", minHolders);
    var _ :- ThresholdAsWritten(t, "VL_PATRIM_LIQ", minEquity);
    var _ :- NumericColumns(t);
    Ok(t)
  }

  /** The same download with the masks applied after the numeric
      conversion, as the pandas version does; `convert` stands for
      `pd.to_numeric` on the three columns. */
  function GetBrFundsMonthCorrected(ano: int, mes: int, minHolders: Option<int>, minEquity: Option<int>,
                                    get: string -> G.Reply, member: G.Members,
                                    convert: Table -> seq<F.DailyRow>): (r: Result<seq<F.DailyRow>, Error>)
    ensures r.Ok? <==>
      G.DailyArchive(ano, mes, get, member).Ok? && NumericColumns(G.DailyArchive(ano, mes, get, member).value).Ok?
    ensures r.Ok? ==> forall x :: x in r.value <==>
      x in convert(G.DailyArchive(ano, mes, get, member).value) && F.MeetsThresholds(x, minHolders, minEquity)
  {
    var t :- G.DailyArchive(ano, mes, get, member);
    var _ :- NumericColumns(t);
    Ok(Filter(convert(t), x => F.MeetsThresholds(x, minHolders, minEquity)))
  }

  /** Without thresholds both read the same rows; with one, every download
      the corrected version reads fails as written. */
  lemma ThresholdNeverFilters(ano: int, mes: int, minHolders: Option<int>, minEquity: Option<int>,
                              get: string -> G.Reply, member: G.Members, convert: Table -> seq<F.DailyRow>)
    ensures !F.TruthyInt(minHolders) && !F.TruthyInt(minEquity) ==>
      && (GetBrFundsMonth(ano, mes, minHolders, minEquity, get, member).Ok?
          <==> GetBrFundsMonthCorrected(ano, mes, minHolders, minEquity, get, member, convert).Ok?)
      && (GetBrFundsMonth(ano, mes, minHolders, minEquity, get, member).Ok? ==>
            GetBrFundsMonthCorrected(ano, mes, minHolders, minEquity, get, member, convert).value
            == convert(GetBrFundsMonth(ano, mes, minHolders, minEquity, get, member).value))
    ensures F.TruthyInt(minHolders) || F.TruthyInt(minEquity) ==>
      GetBrFundsMonth(ano, mes, minHolders, minEquity, get, member).Err?
  {
    if !F.TruthyInt(minHolders) && !F.TruthyInt(minEquity) && GetBrFundsMonth(ano, mes, minHolders, minEquity, get, member).Ok? {
      var t := G.DailyArchive(ano, mes, get, member).value;
      FilterAll(convert(t), x => F.MeetsThresholds(x, minHolders, minEquity));
    }
  }

  /** A mask every row passes keeps the sequence. */
  lemma {:induction false} FilterAll<T(!new)>(s: seq<T>, p: T -> bool)
    requires forall x :: x in s ==> p(x)
    ensures Filter(s, p) == s
  {
    if s != [] {
      assert s[0] in s;
      FilterAll(s[1..], p);
    }
  }

  // ---------------------------------------------------------------------
  // `get_fidc` and `get_fip`

  /** The status checks of this version: a request that raises under a
      proxy becomes the proxy error, and without one propagates; a 404 is
      no data; any other answer, 407 included, goes on to the body. */
  function CheckReply(proxy: bool, reply: G.Reply): (r: Result<(), Error>)
    ensures r.Ok? <==> reply.Answered? && reply.status != 404
    ensures reply.Raised? ==> r == Err(if proxy then ProxyRequired else TransportFailure)
    ensures reply == G.Answered(404) ==> r == Err(NoDataForDate)
  {
    match reply
    case Raised => Err(if proxy then ProxyRequired else TransportFailure)
    case Answered(status) => if status == 404 then Err(NoDataForDate) else Ok(())
  }

  /** Against the pandas version: the same on every answer but 407, which
      only the pandas version rejects, and on an exception without a
      proxy. */
  lemma CheckReplyVersusPandas(proxy: bool, reply: G.Reply)
    ensures reply.Answered? && reply.status != 407 ==> CheckReply(proxy, reply) == G.CheckReply(reply)
    ensures reply == G.Answered(407) ==> CheckReply(proxy, reply).Ok? && G.CheckReply(reply) == Err(ProxyRequired)
    ensures reply.Raised? ==> (CheckReply(proxy, reply) == G.CheckReply(reply) <==> !proxy)
  {
  }

  /** A request's result as the first version sees it, which does not tell
      one exception from another. */
  function AsReply(req: F.Request): G.Reply {
    match req
    case Raised(_) => G.Raised
    case Answered(status) => G.Answered(status)
  }

  /** The src `get_fip`/`get_fidc` agree with the first version on every
      response; on an exception they agree exactly when no proxy is given,
      since through a proxy they turn only an `AttributeError` into a
      message, and a message of their own. */
  lemma CheckRequestVersusFirst(proxy: bool, req: F.Request)
    ensures req.Answered? ==> F.CheckRequest(proxy, req) == CheckReply(proxy, AsReply(req))
    ensures req.Raised? ==> (F.CheckRequest(proxy, req) == CheckReply(proxy, AsReply(req)) <==> !proxy)
  {
  }

  /** `get_fidc`: the check of the monthly archive's answer, then table
      X_2 of the month in it; a 407 answer carries no archive. */
  function GetFidc(ano: int, mes: int, proxy: bool, get: string -> G.Reply, member: G.Members): (r: Result<Table, Error>)
    ensures CheckReply(proxy, get(F.FidcUrl(ano, mes))).Err? ==>
      r == CheckReply(proxy, get(F.FidcUrl(ano, mes))).PropagateFailure()
    ensures r.Ok? <==>
      && CheckReply(proxy, get(F.FidcUrl(ano, mes))).Ok?
      && member(F.FidcUrl(ano, mes), F.FidcCsvName(ano, mes)).Some?
      && ParseTable(member(F.FidcUrl(ano, mes), F.FidcCsvName(ano, mes)).value).Ok?
    ensures r.Ok? ==> r == ParseTable(member(F.FidcUrl(ano, mes), F.FidcCsvName(ano, mes)).value)
    ensures CheckReply(proxy, get(F.FidcUrl(ano, mes))).Ok? ==>
      r == match member(F.FidcUrl(ano, mes), F.FidcCsvName(ano, mes))
           case None => Err(UnreadableArchive)
           case Some(lines) => ParseTable(lines)
  {
    var _ :- CheckReply(proxy, get(F.FidcUrl(ano, mes)));
    match member(F.FidcUrl(ano, mes), F.FidcCsvName(ano, mes))
    case None => Err(UnreadableArchive)
    case Some(lines) => ParseTable(lines)
  }

  /** `get_fip`: the check of the yearly file's answer, then its text split
      into lines and parsed, which fails only on the width of the rows. */
  function GetFip(ano: int, proxy: bool, get: string -> G.Reply, body: string -> string): (r: Result<Table, Error>)
    ensures r.Ok? <==> CheckReply(proxy, get(F.FipUrl(ano))).Ok? && ParseTable(Split(body(F.FipUrl(ano)), "\n")).Ok?
    ensures CheckReply(proxy, get(F.FipUrl(ano))).Err? ==> r == CheckReply(proxy, get(F.FipUrl(ano))).PropagateFailure()
    ensures CheckReply(proxy, get(F.FipUrl(ano))).Ok? ==> r == ParseTable(Split(body(F.FipUrl(ano)), "\n"))
    ensures r.Err? && CheckReply(proxy, get(F.FipUrl(ano))).Ok? ==> r.error.ShapeMismatch?
    ensures r.Ok? ==>
      var lines := Split(body(F.FipUrl(ano)), "\n");
      r.value.header == ParseLine(lines[0]) && |r.value.rows| == |lines| - 1
    ensures r.Ok? ==> r == ParseTable(Split(body(F.FipUrl(ano)), "\n"))
  {
    var _ :- CheckReply(proxy, get(F.FipUrl(ano)));
    SplitTextHasHeader(body(F.FipUrl(ano)));
    ParseTable(Split(body(F.FipUrl(ano)), "\n"))
  }

  /** A proxy that makes the request raise gives the 407 message in both
      downloads, whatever the archive holds. */
  lemma ProxyFailureMessage(ano: int, mes: int, get: string -> G.Reply, member: G.Members, body: string -> string)
    requires get(F.FidcUrl(ano, mes)).Raised? && get(F.FipUrl(ano)).Raised?
    ensures GetFidc(ano, mes, true, get, member) == Err(ProxyRequired)
    ensures GetFip(ano, true, get, body) == Err(ProxyRequired)
    ensures Message(ProxyRequired) == "Necessário informar proxy correta. Response [407]"
  {
  }
}
