# comparar_fundos_br in Dafny

A model of the core of `comparar_fundos_br`, a Python package that downloads
the open data of the Brazilian securities commission (CVM) about investment
funds and compares the funds with market benchmarks. The package ships three
generations of the same code:

- `src/comparar_fundos_br/` is the current one, written with polars. `fundosbr.py`
  reads the fund registry and the daily reports (`inf_diario_fi_AAAAMM`), puts
  the CNPJ (the fund's tax identifier) into its canonical `00.000.000/0000-00`
  spelling, merges report and registry, and downloads the FIDC and FIP
  reports. `comparador.py` normalises quotas, computes rolling-window,
  daily and cumulative returns, counts how often a fund beats each
  benchmark, and matches column names for the plots. `benchmarks.py` fetches
  the central bank's benchmark series (CDI, IMA-B, IMA-B 5, IMA-B 5+) and
  appends the Brazilian market suffix to stock tickers.
- `comparar_fundos_br/` is the earlier pandas version of the same three modules.
- `comparebrfunds/getfunds.py` is the first version. Its `get_classes` and
  `get_fundsregistration` are the code of comparar_fundos_br/get_brfunds.py
  (comparebrfunds/getfunds.py:65-116 against comparar_fundos_br/get_brfunds.py:24-75,
  which differ only in a progress message). They are modelled once, by
  `GetBrFunds.Classes` and `GetBrFunds.GetFundsRegistration`.

Each Python module is one Dafny module:

| Dafny module (file) | Python file |
|---|---|
| `Cnpj` (cnpj.dfy), `FundosBr` (fundosbr.dfy) | src/comparar_fundos_br/fundosbr.py |
| `Columns` (columns.dfy), `Comparador` (comparador.dfy) | src/comparar_fundos_br/comparador.py |
| `Benchmarks` (benchmarks.dfy) | src/comparar_fundos_br/benchmarks.py |
| `GetBrFunds` (get_brfunds.dfy) | comparar_fundos_br/get_brfunds.py |
| `ComparadorLegacy` (comparador_legacy.dfy) | comparar_fundos_br/comparador.py |
| `BenchmarksLegacy` (benchmarks_legacy.dfy) | comparar_fundos_br/benchmarks.py |
| `GetFunds` (getfunds.dfy) | comparebrfunds/getfunds.py |
| `Wrappers`, `Seqs`, `Text`, `Tables`, `Errors` | the list, string and data-frame operations the code uses, and its exceptions |

How the data is represented:

- A data frame is a sequence of rows, or a sequence of columns of
  `Option<real>` where `None` is NaN.
- A column label is a string. Dates are integers (day numbers).
- A file read from an archive is its sequence of lines.
- An HTTP request is a function from URL to answer (a status, or an exception).
  The clock (`datetime.now()`) is a pair of parameters.
- Every `raise` is an `Err` of the `Errors.Error` datatype. The messages of
  the `ValueError`s are given by `Errors.Message`.
- The `Option` arguments the Python code checks for truthiness (`if classe:`,
  `if num_minimo_cotistas:`) are read the same way. For example, 0 as a
  threshold means no filter.
- Sorting (`sort`, `sort_index`, `nlargest`) is a stable insertion sort.
  The model proves it sorted and a permutation of its input. pandas'
  `sort_index` (quicksort by default) and polars' `sort` do not promise
  the order of equal keys, so the stable order is one of the orders they may
  give; `nlargest`/`nsmallest` do keep the first of equal rows, and the model
  proves that too.

Imperative code is modelled imperatively. Each loop that accumulates rows or
columns is a `method` with a `while` loop, proved equal to a specification
function:

- `fundosbr` and `get_brfunds`: the year/month loops;
- `supera_benchmark` and `fundos_eficientes`: the fund/benchmark loops;
- the column matcher of `plotar_evolucao`;
- `get_stocks`: its ticker loop.

The properties are then proved about those functions.

## Model

| member | source | states |
|---|---|---|
| Cnpj.ZFill | src/comparar_fundos_br/fundosbr.py:28-29 | `zfill` pads to the width and never shortens |
| Cnpj.RemoveSeparators | src/comparar_fundos_br/fundosbr.py:30 | the result holds no `-`, `.` or `/` and is no longer than the input |
| Cnpj.PontuaCnpj | src/comparar_fundos_br/fundosbr.py:26-32 | deleting the separators from the result gives back the padded, separator-free input; exactly four characters are added |
| Cnpj.PunctuateRoundTrip | src/comparar_fundos_br/fundosbr.py:31-32 | the five slices joined with `.`, `.`, `/`, `-` lose nothing: removing the separators is the inverse |
| Cnpj.FourteenCharacters | src/comparar_fundos_br/fundosbr.py:31-32 | a 14-character bare CNPJ is spelled `dd.ddd.ddd/dddd-dd`: 18 characters |
| Cnpj.PaddingRule | src/comparar_fundos_br/fundosbr.py:28-30 | only inputs shorter than 14 are padded, and then to exactly 14 |
| Cnpj.ShortDigitString | src/comparar_fundos_br/fundosbr.py:28-32 | a string of 11 to 14 digits gets leading zeros to 14 and comes out canonical |
| Cnpj.ElevenDigits | src/comparar_fundos_br/fundosbr.py:28-29 | an 11-digit string is read as if it had three leading zeros |
| Cnpj.DigitsCanonical | src/comparar_fundos_br/fundosbr.py:31-32 | 14 digits give the canonical spelling |
| Cnpj.CanonicalFixedPoint | src/comparar_fundos_br/fundosbr.py:26-32 | a canonical CNPJ is left unchanged |
| Cnpj.BareSpelling | src/comparar_fundos_br/fundosbr.py:26-32 | the bare and the punctuated spelling of a CNPJ give the same result |
| Cnpj.IdempotentIff | src/comparar_fundos_br/fundosbr.py:26-32 | applying it twice equals once exactly when the padded input has at least 10 characters besides separators |
| Cnpj.NotIdempotentOnSeparators | src/comparar_fundos_br/fundosbr.py:28-32 | a 14-character input of separators only is an input on which it is not idempotent |
| Cnpj.CanonicalHasNoSpace | src/comparar_fundos_br/fundosbr.py:32 | a canonical CNPJ has no space, so the display key splits at its first ` // ` |
| Text.Upper | src/comparar_fundos_br/comparador.py:158 | every character is mapped to its upper case, the length kept |
| Text.UpperIdempotent | src/comparar_fundos_br/benchmarks.py:61 | upper-casing twice is upper-casing once |
| Text.Strip | src/comparar_fundos_br/fundosbr.py:49 | the result is a slice of the input with only the six ASCII whitespace characters (space, tab, line feed, carriage return, vertical tab, form feed) cut at each end, and it starts and ends with none of them |
| Text.Split | src/comparar_fundos_br/fundosbr.py:49 | at least one piece, and no piece holds the separator |
| Text.Format02 | src/comparar_fundos_br/fundosbr.py:127 | `{:02d}`: at least two digits, exactly two below 100, a sign for negative numbers |
| Text.Format02Value | src/comparar_fundos_br/fundosbr.py:127 | the digits written are the number's decimal value |
| FundosBr.Classes | src/comparar_fundos_br/fundosbr.py:22-24 | six distinct classes, among them `Ações` and `Renda Fixa` |
| FundosBr.FilterRegistry | src/comparar_fundos_br/fundosbr.py:87-100 | error exactly when a requested class is unknown, listing the unknown ones in request order; otherwise a row is kept exactly when it is operating, of an accepted fund type, and of a requested class or without one |
| FundosBr.Operating | src/comparar_fundos_br/fundosbr.py:87-88 | the registry rule: situation `Em Funcionamento Normal` and fund type FIDC, FI or FIF; `FundosBr.FilterRegistry` states what it keeps |
| FundosBr.ClassPasses | src/comparar_fundos_br/fundosbr.py:99-100 | the class rule: a requested class, an empty class or none; `FundosBr.FilterRegistry` and `FundosBr.NullClassKept` state what it keeps |
| FundosBr.NullClassKept | src/comparar_fundos_br/fundosbr.py:99-100 | an operating fund without a class passes every class filter |
| Tables.AsList | src/comparar_fundos_br/fundosbr.py:94-95 | a single name becomes a one-element list, a list stays as it is |
| Tables.Missing | src/comparar_fundos_br/fundosbr.py:96 | exactly the requested names that are not allowed |
| Tables.MissingInRequestOrder | src/comparar_fundos_br/fundosbr.py:96 | the unknown names keep the order of the request |
| Tables.ValidateNames | src/comparar_fundos_br/fundosbr.py:93-98 | no filter for a falsy request; a single name becomes a list; error exactly when a name is not allowed |
| Errors.SingleClassMessage | src/comparar_fundos_br/fundosbr.py:96-98 | one unknown class gives the message `Classe não encontrada ['name']` |
| Errors.Message | src/comparar_fundos_br/fundosbr.py:43-216 | the text of each `ValueError`: the download, proxy, 404 and class messages of src/comparar_fundos_br/fundosbr.py, `Benchmark não encontrado.` and `Dados não disponíveis` of src/comparar_fundos_br/benchmarks.py:71-83, and the registry messages of comparar_fundos_br/get_brfunds.py:60-65 |
| Errors.ExpectedMessages | tests/test_brinfofunds.py:46 | the message the test module expects for the class `Fundo ABC` |
| Tables.Truthy | src/comparar_fundos_br/fundosbr.py:93 | the truthiness of `classe` or `cnpj`: a non-empty text or a non-empty list |
| FundosBr.CheckResponse | src/comparar_fundos_br/fundosbr.py:42-45 | success exactly on 200; 407 is the proxy error; any other status is the download error |
| FundosBr.ReadArchive | src/comparar_fundos_br/fundosbr.py:41-51 | a table exactly when the status is 200 and the lines parse; then, and on every 200, the result is the parse of the lines, an empty file being the empty-file error; any other status gives the error of `FundosBr.CheckResponse` |
| Tables.ParseTable | src/comparar_fundos_br/fundosbr.py:201 | `pd.DataFrame(lines[1:], columns=lines[0])`: an empty file is an error; otherwise a table exactly when there is no data row or the widest data row is exactly as wide as the header, else the width error naming the header width and the widest row; a table has the first line split at `;` as header and each further line as one row |
| Tables.ParseLine | src/comparar_fundos_br/fundosbr.py:49 | the stripped line is the fields joined by `;`, and no field holds `;` |
| Tables.SplitTextHasHeader | src/comparar_fundos_br/fundosbr.py:198-201 | a text split into lines always has a header line, so its parse can fail only with the width error |
| Tables.TrailingNewlineAlone | src/comparar_fundos_br/fundosbr.py:198-201 | a header followed by the empty last line of a trailing newline is a one-cell row: the width error unless the header has exactly one column |
| Tables.MaxWidth | src/comparar_fundos_br/fundosbr.py:201 | the width pandas infers for the rows: no row is wider, and some row has it when there are rows |
| Tables.WidestRow | src/comparar_fundos_br/fundosbr.py:201 | the rows are all at most `w` wide and one is exactly `w` wide exactly when `w` is the inferred width |
| Tables.ParsedWidths | src/comparar_fundos_br/fundosbr.py:201 | the same for the data lines of a file, split at `;` |
| Tables.Cell | src/comparar_fundos_br/fundosbr.py:49-50 | a cell exists exactly when its column index is inside the row |
| Tables.FirstContaining | src/comparar_fundos_br/fundosbr.py:132-137 | the first column whose name contains the key; none exactly when no column does |
| Tables.ColumnIndex | src/comparar_fundos_br/fundosbr.py:145-148 | the first column with the name; none exactly when the name is absent |
| FundosBr.DailyCsvName | src/comparar_fundos_br/fundosbr.py:127 | monthly name after 2004, yearly name otherwise |
| FundosBr.DailyStem | src/comparar_fundos_br/fundosbr.py:127-129 | every file and archive name starts with `inf_diario_fi_` |
| FundosBr.DailyUrl | src/comparar_fundos_br/fundosbr.py:128-129 | the monthly archive from 2021 on, the yearly `HIST/` archive before |
| FundosBr.DailyCsvNameReadBack | src/comparar_fundos_br/fundosbr.py:127 | the year and month can be read back from the file name |
| FundosBr.MonthlyArchiveMatchesCsv | src/comparar_fundos_br/fundosbr.py:127-129 | from 2021 on, archive and file name share the monthly stem |
| FundosBr.SelectFundType | src/comparar_fundos_br/fundosbr.py:132-135 | from 2004 on, the first column containing `TP_FUNDO` is renamed and only FI, FIF and `CLASSES - FIF` rows are kept; otherwise nothing changes |
| FundosBr.RenameCnpjColumn | src/comparar_fundos_br/fundosbr.py:136-137 | error exactly when no column contains `CNPJ_FUNDO`; otherwise exactly the first such column is renamed `CNPJ_FUNDO`, every other header and all rows are kept |
| FundosBr.DailyTable | src/comparar_fundos_br/fundosbr.py:123-137 | a table only from a 200 answer whose lines parse; a bad status or a failed parse is that error; otherwise, after the fund-type selection, the `CNPJ_FUNDO` error exactly when no column contains `CNPJ_FUNDO`, and else the selected rows under a header whose first such column is renamed `CNPJ_FUNDO`; a row of the file is in the result exactly when it passes the fund-type rule (from 2004, when a `TP_FUNDO` column exists) |
| FundosBr.SelectDaily | src/comparar_fundos_br/fundosbr.py:145-154 | sorted by date, without duplicates, and holding exactly the rows that meet both thresholds and the CNPJ filter |
| FundosBr.TruthyInt | src/comparar_fundos_br/fundosbr.py:145-148 | the truthiness of an optional threshold: present and not zero |
| FundosBr.MeetsThresholds | src/comparar_fundos_br/fundosbr.py:145-148 | each truthy threshold needs a present value at least as large; `FundosBr.SelectDaily` states what it keeps |
| FundosBr.CnpjRequested | src/comparar_fundos_br/fundosbr.py:149-152 | with a truthy CNPJ argument, the row's CNPJ is one of the requested ones punctuated; `FundosBr.CnpjSpellings` states its meaning |
| FundosBr.CnpjSpellings | src/comparar_fundos_br/fundosbr.py:149-152 | a CNPJ asked for bare or punctuated selects the same rows |
| FundosBr.MatchesOf | src/comparar_fundos_br/fundosbr.py:116 | the registry rows with the report row's CNPJ, joined to it |
| FundosBr.InnerJoin | src/comparar_fundos_br/fundosbr.py:116 | exactly the joined pairs with equal CNPJ |
| FundosBr.MesclarBases | src/comparar_fundos_br/fundosbr.py:106-121 | sorted by date, a permutation of the inner join, every pair present, each key `CNPJ // name` |
| FundosBr.MergedKeySplits | src/comparar_fundos_br/fundosbr.py:117 | splitting a key at ` // ` gives back CNPJ and name |
| Tables.DisplayKey | src/comparar_fundos_br/fundosbr.py:117 | the key starts with the CNPJ and is four characters longer than CNPJ and name together |
| Tables.KeySplit | src/comparar_fundos_br/comparador.py:159-160 | a CNPJ without spaces and a name without ` // ` split back out of their key |
| FundosBr.PlanMembership | src/comparar_fundos_br/fundosbr.py:171-178 | a (year, month) is downloaded exactly when both are requested and it is not in the future |
| FundosBr.ShouldFetch | src/comparar_fundos_br/fundosbr.py:173-176 | a month of the current year up to the current month, or any month of an earlier year |
| FundosBr.YearPlan | src/comparar_fundos_br/fundosbr.py:172-177 | the months of one year that are read, in request order; `FundosBr.YearPlanMembership` states its members |
| FundosBr.Plan | src/comparar_fundos_br/fundosbr.py:171-177 | the (year, month) pairs read, years outer and months inner; `FundosBr.PlanMembership` and `FundosBr.PlanConcat` state its meaning |
| FundosBr.YearPlanMembership | src/comparar_fundos_br/fundosbr.py:172-178 | the same for the months of one year |
| FundosBr.PastYearPlan | src/comparar_fundos_br/fundosbr.py:176-178 | every requested month of a past year is downloaded, in request order |
| FundosBr.PlanConcat | src/comparar_fundos_br/fundosbr.py:171 | the plan of concatenated year lists is the concatenation of their plans |
| FundosBr.YearPlanConcat | src/comparar_fundos_br/fundosbr.py:172 | the plan of one year over concatenated month lists is the concatenation of their plans |
| FundosBr.CollectOk | src/comparar_fundos_br/fundosbr.py:171-178 | the loop succeeds exactly when every planned download does |
| FundosBr.CollectKeepsError | src/comparar_fundos_br/fundosbr.py:174-177 | after a failed download later pairs change nothing |
| FundosBr.CollectStep | src/comparar_fundos_br/fundosbr.py:175 | one step appends the month's rows, or ends with its error |
| FundosBr.Collect | src/comparar_fundos_br/fundosbr.py:171-178 | the rows of the planned months appended in plan order, or the first error; `FundosBr.CollectOk`, `FundosBr.CollectKeepsError` and `FundosBr.CollectStep` state its meaning |
| FundosBr.ErrorEndsFundosbr | src/comparar_fundos_br/fundosbr.py:171-178 | the first download error is the result |
| FundosBr.FundosbrDone | src/comparar_fundos_br/fundosbr.py:179-183 | nothing downloaded is the missing `DT_COMPTC` error; otherwise the rows sorted by date |
| FundosBr.FundosbrResult | src/comparar_fundos_br/fundosbr.py:171-183 | the collection of the plan sorted by date, with an empty plan the missing `DT_COMPTC` error; `FundosBr.Fundosbr` is the loop proved equal to it |
| FundosBr.FetchYear | src/comparar_fundos_br/fundosbr.py:172-178 | the inner loop continues the collection by the year's plan |
| FundosBr.FetchYearError | src/comparar_fundos_br/fundosbr.py:174-177 | an error within a year is the error of the whole year's collection |
| FundosBr.Fundosbr | src/comparar_fundos_br/fundosbr.py:156-183 | equals the collection of the plan, sorted by date |
| FundosBr.CheckRequest | src/comparar_fundos_br/fundosbr.py:188-197 | through a proxy only an `AttributeError` becomes the message `Necessário informar proxy correta.`; every other exception propagates; 404 is the no-data error; every other status, 407 included, goes on |
| FundosBr.GetFidc | src/comparar_fundos_br/fundosbr.py:203-224 | a table exactly when the request check passes, the archive holds table X_2 of the month and its lines parse; after the check the result is the unreadable-archive error without that member, and otherwise the parse of its lines |
| FundosBr.FidcUrl | src/comparar_fundos_br/fundosbr.py:207 | the CVM monthly FIDC archive URL for the year and the two-digit month |
| FundosBr.FidcCsvName | src/comparar_fundos_br/fundosbr.py:217 | the member `inf_mensal_fidc_tab_X_2_` of the year and two-digit month |
| FundosBr.FipUrl | src/comparar_fundos_br/fundosbr.py:187 | the CVM quarterly FIP CSV URL for the year |
| FundosBr.GetFip | src/comparar_fundos_br/fundosbr.py:185-201 | a table exactly when the request check passes and the body, split into lines, parses; a failed check is its error; after the check the result is that parse, which can fail only with the width error |
| Columns.FirstValue | src/comparar_fundos_br/comparador.py:23-27 | the first present value of a column; error exactly when none is present |
| Columns.FirstIndex | src/comparar_fundos_br/comparador.py:25 | the index of the first present cell, every cell before it missing; none exactly when the column is empty |
| Columns.LastIndex | src/comparar_fundos_br/comparador.py:31 | the index of the last present cell, every cell after it missing; none exactly when the column is empty |
| Columns.LastValue | src/comparar_fundos_br/comparador.py:29-33 | the last present value; error exactly when none is present |
| Columns.InitialValues | src/comparar_fundos_br/comparador.py:25 | one first value per column; fails exactly when a column does |
| Columns.FinalValues | src/comparar_fundos_br/comparador.py:31 | one last value per column; fails exactly when a column does |
| Columns.Normalise | src/comparar_fundos_br/comparador.py:35-38 | every column divided by its first present value, missing cells kept; error exactly when a column is empty |
| Columns.NormaliseIsScale | src/comparar_fundos_br/comparador.py:35-38 | each normalised column is its column scaled by the first present quota, which is not zero |
| Columns.FFillScale | src/comparar_fundos_br/comparador.py:50 | forward filling commutes with scaling |
| Columns.PctChangeOfScaled | src/comparar_fundos_br/comparador.py:50 | `pct_change` of a column scaled by a non-zero number is `pct_change` of the column |
| Columns.ChangeOfScaled | src/comparar_fundos_br/comparador.py:50 | the same for one cell |
| Columns.RatioOfScaled | src/comparar_fundos_br/comparador.py:50 | a ratio of two values scaled alike is the ratio of the values |
| Columns.NormaliseCell | src/comparar_fundos_br/comparador.py:37 | each present cell is the quota over the column's first quota |
| Columns.NormalisedFinal | src/comparar_fundos_br/comparador.py:72-73 | the last normalised value is the last quota over the first |
| Columns.FFill | src/comparar_fundos_br/comparador.py:50 | present cells unchanged (the forward fill of `pct_change`) |
| Columns.FFillAt | src/comparar_fundos_br/comparador.py:50 | a cell holds the last present value at or before it, missing before the first |
| Columns.FFillLeading | src/comparar_fundos_br/comparador.py:50 | a filled cell is missing exactly when no earlier cell is present |
| Columns.FFillRepeats | src/comparar_fundos_br/comparador.py:50 | a missing cell repeats the filled cell before it |
| Columns.FFillPresentFrom | src/comparar_fundos_br/comparador.py:50 | from the first present cell on, every filled cell is present |
| Columns.FFillMissingBefore | src/comparar_fundos_br/comparador.py:50 | before the first present cell, every filled cell is missing |
| Columns.PctChange | src/comparar_fundos_br/comparador.py:50 | the first `lag` rows are missing |
| Columns.PctChangeAt | src/comparar_fundos_br/comparador.py:50 | a cell is the filled value over the filled value `lag` rows before, minus one |
| Columns.PctChangeMissing | src/comparar_fundos_br/comparador.py:50 | missing when either filled value is |
| Columns.PctChangeGapFree | src/comparar_fundos_br/comparador.py:68 | on a column without gaps, the plain ratio minus one |
| Columns.OneRowChange | src/comparar_fundos_br/comparador.py:68 | a daily change is present exactly when it is not the first row and the filled value of the row before is present, and then it is the relative change of the two filled values |
| Columns.CumReturn | src/comparar_fundos_br/comparador.py:69 | `(1 + r).cumprod() - 1` keeps the missing cells missing |
| Columns.Growth | src/comparar_fundos_br/comparador.py:69 | the running product of `1 + r` over a column, a missing cell contributing 1; `Columns.CumReturnAt` and `Columns.Telescope` state its meaning |
| Columns.CumReturnAt | src/comparar_fundos_br/comparador.py:69 | a present cell is the running product of `1 + r` minus one |
| Columns.Telescope | src/comparar_fundos_br/comparador.py:68-69 | the product of daily ratios is the last quota over the first |
| Columns.GrowthTelescopes | src/comparar_fundos_br/comparador.py:68-69 | the running product up to a row is the filled quota there over the first quota |
| Columns.CumulativeTelescopes | src/comparar_fundos_br/comparador.py:68-69 | the cumulative return after the first quota is the filled quota over the first quota, minus one |
| Columns.CumulativeLater | src/comparar_fundos_br/comparador.py:68-69 | at a row after the first quota, the cumulative return is the filled quota there over the first quota, minus one |
| Columns.CumulativeEmpty | src/comparar_fundos_br/comparador.py:68-69 | a column without quotas has no cumulative return |
| Columns.Mean | comparar_fundos_br/comparador.py:80 | `mean()` skips missing cells: no value exactly when every cell is missing, else the sum over the number of present cells |
| Columns.NoneCounted | comparar_fundos_br/comparador.py:80 | no cell is counted exactly when every cell is missing |
| Columns.PresentSumAbove | comparar_fundos_br/comparador.py:80 | present cells at least `lo` sum to at least `lo` times their number |
| Columns.PresentSumBelow | comparar_fundos_br/comparador.py:80 | present cells at most `hi` sum to at most `hi` times their number |
| Columns.MeanBounds | comparar_fundos_br/comparador.py:80 | the mean of present cells between `lo` and `hi` lies between them |
| Comparador.Rolling | src/comparar_fundos_br/comparador.py:40-51 | rows with a gap dropped; error when no row is complete; otherwise every window is the quota `HP` rows later over the quota now, minus one, for fund and benchmark alike |
| Comparador.Dense | src/comparar_fundos_br/comparador.py:48 | `dropna()`: as many rows as are complete, each complete and taken from the frame |
| Comparador.NormaliseRows | src/comparar_fundos_br/comparador.py:49 | each cell over the first row's cell in its column, never zero |
| Comparador.Windows | src/comparar_fundos_br/comparador.py:50-51 | `pct_change(HP).dropna()`: `HP` fewer rows, each the value `HP` rows later over the value now, minus one |
| Comparador.WindowsCancel | src/comparar_fundos_br/comparador.py:49-50 | the normalisation cancels: the windows are those of the raw quotas |
| Comparador.RisingWindowsPositive | src/comparar_fundos_br/comparador.py:49-51 | strictly rising positive quotas give positive window returns |
| Comparador.RiskReturn | src/comparar_fundos_br/comparador.py:66-69 | daily and cumulative returns with the frame's shape; error exactly when a column is empty; every daily column is `pct_change` of the normalised quotas and every cumulative column is `(1 + r).cumprod() - 1` of that daily column; `Comparador.DailyIsRawChange` states each daily cell |
| Comparador.DailyOfRaw | src/comparar_fundos_br/comparador.py:66-68 | the normalisation cancels: each daily column is `pct_change` of the raw quotas |
| Comparador.DailyIsRawChange | src/comparar_fundos_br/comparador.py:66-68 | a daily cell is present exactly when it is not the first row and the filled quota of the row before is present, and then it is the filled quota over the filled quota of the row before, minus one |
| Comparador.CumulativeIsNormalisedMinusOne | src/comparar_fundos_br/comparador.py:66-69 | after the first quota, the cumulative return is the quota over the first quota minus one |
| Comparador.CumulativeOfNormalised | src/comparar_fundos_br/comparador.py:67-69 | the cumulative return is computed from the normalised quotas |
| Comparador.Considered | src/comparar_fundos_br/comparador.py:315 | the benchmarks whose name does not contain `Retorno` |
| Comparador.Names | src/comparar_fundos_br/comparador.py:315 | the name of every benchmark, in order |
| Comparador.PairRows | src/comparar_fundos_br/comparador.py:318 | the fund and a benchmark side by side, row by row |
| Comparador.Wins | src/comparar_fundos_br/comparador.py:323 | the number of windows in which the fund beat the benchmark, never more than the windows |
| Comparador.Share | src/comparar_fundos_br/comparador.py:324 | wins over windows; `Comparador.RecordsQualify` states where it is used |
| Comparador.Collect | src/comparar_fundos_br/comparador.py:322-327 | a benchmark is recorded, with its share times 100, exactly when there are at least `janela` windows and the share reaches `limit` |
| Comparador.RecordsQualify | src/comparar_fundos_br/comparador.py:318-327 | every record a fund gets comes from a benchmark it qualifies for |
| Comparador.Scan | src/comparar_fundos_br/comparador.py:318-327 | one benchmark: an empty window stops the benchmark loop (`break`), a short one is skipped (`continue`), otherwise a record when the share reaches `limit` |
| Comparador.RecordsOf | src/comparar_fundos_br/comparador.py:318-327 | the benchmark loop of one fund, through `Comparador.Scan`; `Comparador.RecordsQualify` and `Comparador.StopsAtEmpty` state its meaning |
| Comparador.FundRecords | src/comparar_fundos_br/comparador.py:317-327 | the records of one fund over the windows of every benchmark; `Comparador.FundRecordsQualify` states its meaning |
| Comparador.Qualifies | src/comparar_fundos_br/comparador.py:321-326 | a record for a benchmark whose window is non-empty, long enough and beaten at least `limit` of the time, with the share in percent |
| Comparador.FundRecordsQualify | src/comparar_fundos_br/comparador.py:316-327 | the same, stated for the fund and the benchmark series |
| Comparador.StopsAtEmpty | src/comparar_fundos_br/comparador.py:321 | an empty window series stops the scan: later benchmarks add nothing |
| Comparador.ScanFund | src/comparar_fundos_br/comparador.py:317-327 | the benchmark loop of one fund equals its specification |
| Comparador.RowOf | src/comparar_fundos_br/comparador.py:328 | a fund gets a row exactly when it has a record |
| Comparador.AllNames | src/comparar_fundos_br/comparador.py:328-329 | the columns of the result are the benchmarks some row has |
| Comparador.Qualifying | src/comparar_fundos_br/comparador.py:329 | a row is kept exactly when it survives `dropna` on the `limit` mask |
| Comparador.Survives | src/comparar_fundos_br/comparador.py:329 | a row has a value in every column and each value reaches `limit * 100` |
| Comparador.Rows | src/comparar_fundos_br/comparador.py:316-328 | the rows of every fund, in order, or the first error; `Comparador.RowsReachBar` states its meaning |
| Comparador.SuperaSpec | src/comparar_fundos_br/comparador.py:310-329 | the rows over the benchmarks without `Retorno` in their name, then the `limit` filter; `Comparador.SuperaBenchmark` is the loop proved equal to it |
| Comparador.RowsReachBar | src/comparar_fundos_br/comparador.py:325-328 | every row has records and every record reaches `limit` × 100 |
| Comparador.SupersetKept | src/comparar_fundos_br/comparador.py:329 | a row is kept exactly when it has every benchmark column of the table |
| Comparador.SuperaBenchmark | src/comparar_fundos_br/comparador.py:310-329 | the fund loop equals its specification |
| Comparador.Translate | src/comparar_fundos_br/comparador.py:366-377 | the first token, lower-cased, is checked for `month`, `year`, `sem`, `quarter` in that order and the first match gives its Portuguese pair; with none of them the frequency comes back alone |
| Comparador.Token | src/comparar_fundos_br/comparador.py:367 | the lower-cased frequency up to its first space, the text `Comparador.Translate` tests |
| Comparador.FirstTokenDecides | src/comparar_fundos_br/comparador.py:367-374 | only the first space-separated token matters |
| Comparador.YearEndIsYears | src/comparar_fundos_br/comparador.py:369-370 | a year-end frequency is translated as years |
| Comparador.CycleLabels | src/comparar_fundos_br/comparador.py:401-402 | one label per row, between 1 and the number of distinct months before the last; one row exhausts the empty cycle |
| Comparador.CycleLabelsRepeat | src/comparar_fundos_br/comparador.py:401-402 | the labels count 1, 2, … and repeat with that period |
| Comparador.NamePart | src/comparar_fundos_br/comparador.py:160 | present exactly when the column holds ` // ` |
| Comparador.CnpjMatches | src/comparar_fundos_br/comparador.py:159 | the columns whose CNPJ part is requested |
| Comparador.CnpjPart | src/comparar_fundos_br/comparador.py:159 | the text before the first ` // ` of a column name |
| Comparador.FirstUnnamed | src/comparar_fundos_br/comparador.py:160 | the first column without ` // `, every column before it having one: the column whose `[1]` raises |
| Comparador.ExactMatches | src/comparar_fundos_br/comparador.py:160 | the columns whose name part is requested; error, naming the first, on a column without a name part |
| Comparador.SubstringMatchesMembers | src/comparar_fundos_br/comparador.py:161-166 | the columns whose name part contains a requested name |
| Comparador.Copies | src/comparar_fundos_br/comparador.py:164-166 | a column repeated once per requested name it contains, as the inner `append` loop does |
| Comparador.SubstringMatches | src/comparar_fundos_br/comparador.py:161-166 | the nested loop of the substring fallback; `Comparador.SubstringMatchesMembers` and `Comparador.CopiesFor` state its meaning |
| Comparador.Contained | src/comparar_fundos_br/comparador.py:163-165 | exactly the upper-cased names that contain the name part |
| Comparador.SelectMeaning | src/comparar_fundos_br/comparador.py:158-167 | exact name matches if there are any, else substring matches, then the CNPJ matches |
| Comparador.SelectSpec | src/comparar_fundos_br/comparador.py:158-167 | the exact name matches, or the substring matches when there are none, then the CNPJ matches; `Comparador.SelectMeaning` states its meaning and `Comparador.SelectColumns` is the loop proved equal to it |
| Comparador.CopiesFor | src/comparar_fundos_br/comparador.py:164-166 | a column is appended once per requested name it contains |
| Comparador.SubstringLoop | src/comparar_fundos_br/comparador.py:162-166 | the fallback loop equals its specification |
| Comparador.SelectColumns | src/comparar_fundos_br/comparador.py:154-167 | the matcher equals its specification |
| Benchmarks.Dispatch | src/comparar_fundos_br/benchmarks.py:61-71 | case-insensitive; error exactly on an unknown name; CDI reads the Selic, IBOV the stock index |
| Benchmarks.ImaBSeries | src/comparar_fundos_br/benchmarks.py:65-67 | IMA-B, IMA-B 5 and IMA-B 5+ are series 12466, 12467 and 12468, each exactly for its name |
| Benchmarks.DispatchIgnoresCase | src/comparar_fundos_br/benchmarks.py:61-68 | upper-casing the name first changes nothing |
| Benchmarks.SelicRejected | tests/test_brinfofunds.py:76-78 | `selic` is unknown with the message `Benchmark não encontrado.` |
| Benchmarks.SeriesUrl | src/comparar_fundos_br/benchmarks.py:73-75 | the central bank's series URL in JSON format |
| Benchmarks.Window | src/comparar_fundos_br/benchmarks.py:84-86 | never more points than given |
| Benchmarks.WindowMembers | src/comparar_fundos_br/benchmarks.py:86 | exactly the points dated within the bounds, divided by 100 |
| Benchmarks.WindowKeepsOrder | src/comparar_fundos_br/benchmarks.py:85-86 | increasing dates stay increasing |
| Benchmarks.Accumulate | src/comparar_fundos_br/benchmarks.py:88-90 | first value 1, then the running product of `1 + r` up to each row; an empty window is the `iloc[0]` error |
| Benchmarks.Growth | src/comparar_fundos_br/benchmarks.py:88 | the running product of `1 + r` over the first `n` rates, 1 for none; `Benchmarks.AccumulateSteps` and `Benchmarks.GrowthMonotone` state its meaning |
| Benchmarks.AccumulateSteps | src/comparar_fundos_br/benchmarks.py:88-90 | each accumulated value is the previous times `1 + r` |
| Benchmarks.GrowthMonotone | src/comparar_fundos_br/benchmarks.py:88 | non-negative rates give an accumulated index that is at least 1 and never falls |
| Benchmarks.SeriesFrames | src/comparar_fundos_br/benchmarks.py:84-91 | both frames are named by the benchmark, the daily one is the window, the accumulated one has its length |
| Benchmarks.SeriesFramesAccumulate | src/comparar_fundos_br/benchmarks.py:88-90 | the accumulated frame has the daily frame's dates and its running product |
| Benchmarks.GetBenchmark | src/comparar_fundos_br/benchmarks.py:55-91 | unknown names fail before any data is read; CDI gives the frames of the Selic points; an IMA-B name gives the frames of its central-bank series, or `Dados não disponíveis` when that series cannot be read; the frames carry the upper-cased name; IBOV is delegated |
| Benchmarks.UnknownNeedsNoData | src/comparar_fundos_br/benchmarks.py:71 | an unknown name fails before any download |
| Benchmarks.CdiReadsSelic | src/comparar_fundos_br/benchmarks.py:61-64 | CDI reads the Selic series, window and column `CDI` |
| Benchmarks.ImaBReadsSeries | src/comparar_fundos_br/benchmarks.py:65-83 | IMA-B reads series 12466: unreadable gives `Dados não disponíveis`, a non-empty window gives the daily frame `IMA-B` of that window |
| Benchmarks.Suffix | src/comparar_fundos_br/benchmarks.py:104 | the result ends in `.SA`, starts with the ticker, and equals it exactly when it already ended so |
| Benchmarks.SuffixIdempotent | src/comparar_fundos_br/benchmarks.py:111 | adding the suffix twice is adding it once |
| Benchmarks.StockBlocks | src/comparar_fundos_br/benchmarks.py:101-115 | one block for one ticker; for a list, the suffixed tickers in reverse order, as `concat([df, df1])` builds them |
| Benchmarks.ReverseStep | src/comparar_fundos_br/benchmarks.py:109 | `concat([df, df1])` puts the new block first: reversing an extended list puts its last element first |
| Benchmarks.StockBlocksSuffixed | src/comparar_fundos_br/benchmarks.py:103-109 | every block is suffixed and every ticker has its block |
| BenchmarksLegacy.LegacyDispatch | comparar_fundos_br/benchmarks.py:47-54 | CDI is series 12, never the Selic; error exactly on an unknown name |
| BenchmarksLegacy.DispatchesAgree | comparar_fundos_br/benchmarks.py:47-54 | the two versions reject the same names and agree on every name but CDI |
| BenchmarksLegacy.LegacyGetBenchmark | comparar_fundos_br/benchmarks.py:41-70 | unknown names fail; CDI gives the frames of series 12; an IMA-B name gives the frames of its central-bank series; an unreadable series is the unreadable-JSON error; IBOV is delegated |
| BenchmarksLegacy.AlwaysNamedCdi | comparar_fundos_br/benchmarks.py:66-68 | both frames are named `CDI` whatever the benchmark |
| BenchmarksLegacy.CdiReadsSeries12 | comparar_fundos_br/benchmarks.py:47-69 | CDI reads the window of series 12 |
| GetBrFunds.Classes | comparar_fundos_br/get_brfunds.py:24-46 | twenty classes, among them `Fundo de Ações` and `Fundo de Renda Fixa` |
| GetBrFunds.GetFundsRegistration | comparar_fundos_br/get_brfunds.py:49-75 | the read error depends on the proxy; error exactly on an unknown class; otherwise exactly the operating funds of a requested class |
| GetBrFunds.Operating | comparar_fundos_br/get_brfunds.py:66 | the registry rule: situation `EM FUNCIONAMENTO NORMAL`; `GetBrFunds.GetFundsRegistration` states what it keeps |
| GetBrFunds.ClassIn | comparar_fundos_br/get_brfunds.py:73 | the class rule of `isin`: a class present and requested, so a row without class is dropped |
| GetBrFunds.ClassFilterNeedsKnownClass | comparar_fundos_br/get_brfunds.py:66-73 | a fund without a class never passes a class filter |
| GetBrFunds.MesclarBases | comparar_fundos_br/get_brfunds.py:77-82 | one row per matching pair, exactly the joined pairs, projected to six columns |
| GetBrFunds.Project | comparar_fundos_br/get_brfunds.py:80-81 | the six report columns of a merged row, under the merged `CNPJ // name` key |
| GetBrFunds.InnerJoinAppend | comparar_fundos_br/get_brfunds.py:78-80 | the join of concatenated reports is the concatenation of their joins |
| GetBrFunds.MesclarKeepsReportOrder | comparar_fundos_br/get_brfunds.py:77-82 | the merge keeps the order of the report rows |
| GetBrFunds.UrlsDiffer | comparar_fundos_br/get_brfunds.py:93-97 | the monthly and the yearly archive differ |
| GetBrFunds.ChooseArchive | comparar_fundos_br/get_brfunds.py:92-99 | the monthly archive on 200; else the yearly one on 200; 407 of the second is the proxy error, other failures an unreadable archive |
| GetBrFunds.MonthlyUrl | comparar_fundos_br/get_brfunds.py:93 | the monthly archive URL; `GetBrFunds.UrlsDiffer` shows it is not the yearly one |
| GetBrFunds.YearlyUrl | comparar_fundos_br/get_brfunds.py:96 | the yearly archive URL under `HIST/` |
| GetBrFunds.CsvName | comparar_fundos_br/get_brfunds.py:92 | the monthly CSV name, read from either archive |
| GetBrFunds.MonthlyProxyErrorFallsBack | comparar_fundos_br/get_brfunds.py:95-99 | a 407 of the monthly archive alone falls back to the yearly one |
| GetBrFunds.SelectFi | comparar_fundos_br/get_brfunds.py:105-106 | exactly the FI rows when the column exists, otherwise the table unchanged |
| GetBrFunds.DailyArchive | comparar_fundos_br/get_brfunds.py:91-106 | a table exactly when an archive is chosen, holds the monthly CSV and its lines parse; the table is then the FI selection of that parse; without the member it is the unreadable-archive error, and a failed parse is the parse's error |
| GetBrFunds.OnlyMonthlyCsvRead | comparar_fundos_br/get_brfunds.py:92-101 | only the monthly CSV name is looked up, in whichever archive is read |
| GetBrFunds.LerDadosDiarios | comparar_fundos_br/get_brfunds.py:107-116 | exactly the merged rows of report rows that meet the thresholds |
| GetBrFunds.PlanDownloadsOk | comparar_fundos_br/get_brfunds.py:136-143 | the loop succeeds exactly when every month not in the future downloads |
| GetBrFunds.CollectMembership | comparar_fundos_br/get_brfunds.py:136-143 | a row is collected exactly when some planned month downloads and holds it |
| GetBrFunds.GetBrFundsOk | comparar_fundos_br/get_brfunds.py:120-146 | succeeds exactly when the registry is read and checked and every month downloads |
| GetBrFunds.PlanRows | comparar_fundos_br/get_brfunds.py:136-143 | the collected rows are the merged rows of the months not in the future |
| GetBrFunds.MonthReader | comparar_fundos_br/get_brfunds.py:91-117 | one month: the download, then the thresholds and the merge with the registry |
| GetBrFunds.GetBrFundsResult | comparar_fundos_br/get_brfunds.py:133-146 | the registry, then the collection of the plan through `GetBrFunds.MonthReader`, sorted by date; `GetBrFunds.GetBrFundsOk` and `GetBrFunds.GetBrFundsRows` state its meaning |
| GetBrFunds.GetBrFundsRows | comparar_fundos_br/get_brfunds.py:136-146 | the result is sorted by date and holds exactly those rows |
| GetBrFunds.YearErrorEnds | comparar_fundos_br/get_brfunds.py:136-143 | a download error ends the loop |
| GetBrFunds.ResultOfCollect | comparar_fundos_br/get_brfunds.py:136-146 | the result is the collection sorted by date, or its error |
| GetBrFunds.GetBrFunds | comparar_fundos_br/get_brfunds.py:120-146 | the loop equals its specification |
| GetBrFunds.CheckReply | comparar_fundos_br/get_brfunds.py:157-160 | 404 is the no-data error, 407 the proxy error, an exception propagates; any other answer goes on |
| GetBrFunds.GetFidc | comparar_fundos_br/get_brfunds.py:148-168 | a table exactly when the status check passes, the archive holds table X_2 of the month and its lines parse; after the check the result is the unreadable-archive error without that member, and otherwise the parse of its lines |
| GetBrFunds.GetFip | comparar_fundos_br/get_brfunds.py:171-186 | a table exactly when the status check passes and the body, split into lines, parses; a failed check is its error; after the check the result is that parse, which can fail only with the width error |
| ComparadorLegacy.InitialRow | comparar_fundos_br/comparador.py:23-24 | the first row, gaps included; an empty frame is the `iloc[0]` error |
| ComparadorLegacy.InitialRowVersusFirstValue | comparar_fundos_br/comparador.py:23-24 | agrees with the newer first present value only where the first row is present |
| ComparadorLegacy.CotasNormalizadas | comparar_fundos_br/comparador.py:26-29 | columns starting with a quota start at 1 and are scaled by it; columns starting with a gap become all-missing |
| ComparadorLegacy.CotaCell | comparar_fundos_br/comparador.py:28 | each present cell is the quota over the first row's quota |
| ComparadorLegacy.ScaleCancels | comparar_fundos_br/comparador.py:43-45 | `pct_change` ignores the normalisation |
| ComparadorLegacy.Returns | comparar_fundos_br/comparador.py:45 | one `pct_change(HP)` column per input column |
| ComparadorLegacy.CalculaRetorno | comparar_fundos_br/comparador.py:42-46 | the returns of the fund's raw quotas and the benchmarks; error exactly when the fund has no quota |
| ComparadorLegacy.CalculaRetornoRows | comparar_fundos_br/comparador.py:45 | each column's returns are `pct_change(HP)` of its quotas |
| ComparadorLegacy.ExampleRetorno | comparar_fundos_br/comparador.py:42-46 | the returns of fund 1, 2, 3 and benchmarks A = 1, 1, 1 and B = missing, 1, 1 at `HP` = 1 |
| ComparadorLegacy.Efficiency | comparar_fundos_br/comparador.py:57 | a value exactly when some row is complete, and then 100 times wins over complete rows |
| ComparadorLegacy.Share | comparar_fundos_br/comparador.py:57 | 100 times wins over complete rows; `ComparadorLegacy.EfficiencyBounded` bounds it |
| ComparadorLegacy.EfficiencyBounded | comparar_fundos_br/comparador.py:57 | between 0 and 100 when the wins do not exceed the complete rows |
| ComparadorLegacy.Wins | comparar_fundos_br/comparador.py:54-55 | the number of rows on which the fund beat the benchmark, never more than the rows |
| ComparadorLegacy.Beat | comparar_fundos_br/comparador.py:54 | a row is a win when both returns are present and the fund's is larger |
| ComparadorLegacy.CompleteRows | comparar_fundos_br/comparador.py:57 | the number of rows complete in every column, never more than the rows |
| ComparadorLegacy.Blocks | comparar_fundos_br/comparador.py:53-58 | one score per benchmark, the last benchmark first, as `concat([df1, df2])` builds them |
| ComparadorLegacy.ScoreBenchmarks | comparar_fundos_br/comparador.py:53-58 | the benchmark loop equals its specification |
| ComparadorLegacy.BlockMeaning | comparar_fundos_br/comparador.py:54-57 | a score names its benchmark, counts the rows the fund beat it, and divides by the complete rows |
| ComparadorLegacy.WinsAfterLag | comparar_fundos_br/comparador.py:54-56 | no win within the first `HP` rows |
| ComparadorLegacy.FundRow | comparar_fundos_br/comparador.py:51-58 | one score per benchmark |
| ComparadorLegacy.HasQuota | comparar_fundos_br/comparador.py:24 | a fund with some present quota, without which `iloc[0]` fails |
| ComparadorLegacy.Retornos | comparar_fundos_br/comparador.py:42-46 | one return column for the fund and one per benchmark |
| ComparadorLegacy.RowsOf | comparar_fundos_br/comparador.py:50-51 | the row of every fund, in order, each computed alone |
| ComparadorLegacy.ScoreFund | comparar_fundos_br/comparador.py:51-58 | one fund's iteration equals its specification |
| ComparadorLegacy.EficientesFails | comparar_fundos_br/comparador.py:48-60 | succeeds exactly when every fund has a quota |
| ComparadorLegacy.EficientesRows | comparar_fundos_br/comparador.py:48-60 | one row per fund, in order, when there are benchmarks; none without |
| ComparadorLegacy.Gather | comparar_fundos_br/comparador.py:50-59 | the fund loop as a recursion: the first failing fund ends it, each fund adds its row when there are benchmarks; `ComparadorLegacy.GatherFails` and `ComparadorLegacy.GatherRows` state its meaning |
| ComparadorLegacy.Eficientes | comparar_fundos_br/comparador.py:48-60 | the rows of every fund; `ComparadorLegacy.EficientesFails` and `ComparadorLegacy.EficientesRows` state its meaning |
| ComparadorLegacy.FundosEficientes | comparar_fundos_br/comparador.py:48-60 | the fund loop equals its specification |
| ComparadorLegacy.EfficiencyAboveHundred | comparar_fundos_br/comparador.py:54-57 | a concrete input whose efficiency is 200% |
| ComparadorLegacy.ExampleCounts | comparar_fundos_br/comparador.py:54-57 | on that input the fund beats A twice and B once, over a single complete row |
| ComparadorLegacy.ExampleBlocks | comparar_fundos_br/comparador.py:53-58 | on that input the scores are 100% against B and 200% against A |
| ComparadorLegacy.CompleteEfficiencyBounded | comparar_fundos_br/comparador.py:54-57 | counting wins only on complete rows bounds the efficiency by 100 |
| ComparadorLegacy.CompleteWins | comparar_fundos_br/comparador.py:54-57 | wins counted on complete rows never exceed the complete rows |
| ComparadorLegacy.CorrectedScore | comparar_fundos_br/comparador.py:54-57 | a corrected score is defined exactly when some row is complete, and then lies between 0 and 100 |
| ComparadorLegacy.FundRowCorrected | comparar_fundos_br/comparador.py:51-58 | the corrected row: one score per benchmark, last first, every efficiency between 0 and 100 |
| ComparadorLegacy.Rentabilidade | comparar_fundos_br/comparador.py:62-100 | normalised quotas and totals of the frame's shape; an empty frame is an error |
| ComparadorLegacy.RentabilidadeQuota | comparar_fundos_br/comparador.py:72-96 | each cell is 100 × quota over the first row's quota, missing where either is |
| ComparadorLegacy.Times100Column | comparar_fundos_br/comparador.py:94-99 | every cell times 100, missing cells kept |
| ComparadorLegacy.Percent | comparar_fundos_br/comparador.py:94-99 | every column times 100 |
| ComparadorLegacy.Totals | comparar_fundos_br/comparador.py:76-99 | per column, 100 × the last cumulative return |
| ComparadorLegacy.ColumnTotal | comparar_fundos_br/comparador.py:74-78 | the last cumulative return is missing when the column's first quota is at the end or absent, and otherwise the last filled quota over the first, minus one |
| ComparadorLegacy.TotalReturn | comparar_fundos_br/comparador.py:74-99 | the total is 100 × (last filled quota over the first quota, minus one), missing when the column has at most one quota at the end |
| ComparadorLegacy.TotalReturnGapFree | comparar_fundos_br/comparador.py:76-78 | with first and last quotas present, the total is 100 × (last over first minus one) |
| ComparadorLegacy.Times252 | comparar_fundos_br/comparador.py:80 | every cell times 252, missing cells kept |
| ComparadorLegacy.AnnualisedMean | comparar_fundos_br/comparador.py:80 | 100 × the mean of 252 × the daily returns; no value exactly when every daily return is missing |
| ComparadorLegacy.AnnualisedMeanBounds | comparar_fundos_br/comparador.py:80 | daily returns between `lo` and `hi` give an annualised mean between 25200 `lo` and 25200 `hi` |
| ComparadorLegacy.MediaAnualizada | comparar_fundos_br/comparador.py:74-96 | one annualised mean per column, of `pct_change` of the raw quotas |
| ComparadorLegacy.MediaAnualizadaDropped | comparar_fundos_br/comparador.py:74-80 | a column has no mean, so `dropna` drops it, exactly when it has no quota or its first quota is in the last row |
| ComparadorLegacy.MediaAnualizadaBounds | comparar_fundos_br/comparador.py:74-96 | daily returns between `lo` and `hi` bound each column's mean by 25200 `lo` and 25200 `hi` |
| ComparadorLegacy.Largest | comparar_fundos_br/comparador.py:105 | `nlargest`: `min(num, rows)` rows drawn from the input, ordered largest first with missing values last, no row left out ranked before a row taken, and of rows with the same value the first ones in input order |
| ComparadorLegacy.Smallest | comparar_fundos_br/comparador.py:105 | `nsmallest`: `min(num, rows)` rows drawn from the input, ordered smallest first with missing values last, no row left out ranked before a row taken, and of rows with the same value the first ones in input order |
| ComparadorLegacy.Ranking | comparar_fundos_br/comparador.py:105 | the rows with a value sorted by it, then the rows without one in input order: a permutation, ordered, and keeping the input order of equal values |
| ComparadorLegacy.RankingKeepsTies | comparar_fundos_br/comparador.py:105 | the rows with any one value, or without value, keep their input order |
| ComparadorLegacy.TakeBest | comparar_fundos_br/comparador.py:105 | no row outside the first `num` of an ordered ranking ranks before one inside |
| ComparadorLegacy.TakeKeepsFirst | comparar_fundos_br/comparador.py:105 | the first `num` of the ranking hold, for every value, the first rows of that value |
| Seqs.SortByStable | src/comparar_fundos_br/fundosbr.py:183 | the stable sort keeps the input order of the elements with any one key |
| Seqs.InsertStable | src/comparar_fundos_br/fundosbr.py:183 | inserting into a sorted sequence puts the new element after the elements of its key, whose order it keeps |
| Seqs.FilterSplit | comparar_fundos_br/comparador.py:105 | splitting a sequence by a predicate and its negation loses and adds nothing |
| ComparadorLegacy.RemoveOutliers | comparar_fundos_br/comparador.py:107-112 | exactly the rows strictly between the bounds; a missing value is dropped |
| ComparadorLegacy.InBand | comparar_fundos_br/comparador.py:111 | a present value strictly between the bounds |
| ComparadorLegacy.RemoveOutliersKeepsOrder | comparar_fundos_br/comparador.py:111 | the filter keeps the order of the rows |
| ComparadorLegacy.RemoveOutliersIdempotent | comparar_fundos_br/comparador.py:111 | a second filter with the same bounds changes nothing |
| GetFunds.GetBrFundsMonth | comparebrfunds/getfunds.py:25-63 | the archive choice and fund type rows of the pandas version; any truthy threshold makes the call fail; otherwise the table, when the three numeric columns exist |
| GetFunds.ThresholdAsWritten | comparebrfunds/getfunds.py:56-59 | a truthy threshold fails: a missing column, or the `TypeError` of comparing text cells with a number, which on a table without rows is the failed list access instead |
| GetFunds.NumericColumns | comparebrfunds/getfunds.py:60-61 | error on the first of `VL_PATRIM_LIQ`, `NR_COTST`, `VL_QUOTA` that is absent |
| GetFunds.GetBrFundsMonthCorrected | comparebrfunds/getfunds.py:54-61 | with the masks applied after the conversion: exactly the rows meeting both thresholds |
| GetFunds.ThresholdNeverFilters | comparebrfunds/getfunds.py:56-61 | without thresholds both versions read the same rows; with one the code as written always fails |
| GetFunds.FiltrarFundos | comparebrfunds/getfunds.py:139-144 | one row per matching pair, exactly the joined pairs, keyed `CNPJ // name` |
| GetFunds.FiltrarFundosKeepsReportOrder | comparebrfunds/getfunds.py:141 | the merge keeps the order of the report rows |
| GetFunds.FiltrarFundosKeys | comparebrfunds/getfunds.py:142 | every key is present, names a registry row of the same CNPJ, and splits back into CNPJ and name |
| GetFunds.LabelKey | comparebrfunds/getfunds.py:125 | the report row's CNPJ beside the name at the same index label; missing without one |
| GetFunds.AtLabel | comparebrfunds/getfunds.py:125 | the registry row at an index label; none exactly when no row has that label |
| GetFunds.Common | comparebrfunds/getfunds.py:123-124 | the report rows whose CNPJ is registered |
| GetFunds.FiltrarFundosFirst | comparebrfunds/getfunds.py:121-127 | one row per kept report row, keyed by label alignment |
| GetFunds.SemiJoinKeeps | comparebrfunds/getfunds.py:123-124 | a report row is kept exactly when some registry row has its CNPJ |
| GetFunds.SemiJoinKeepsReportOrder | comparebrfunds/getfunds.py:124 | the semi-join is a filter: report order kept, no row doubled |
| GetFunds.CommonIsFilter | comparebrfunds/getfunds.py:123-124 | the semi-join is the report filtered by the registered CNPJs |
| GetFunds.FirstKeyMismatch | comparebrfunds/getfunds.py:121-144 | a concrete input where the first definition pairs a CNPJ with another fund's name and the merge does not |
| GetFunds.ExampleFirst | comparebrfunds/getfunds.py:121-127 | on that input the first definition gives the key `X B` |
| GetFunds.ExampleMerge | comparebrfunds/getfunds.py:139-144 | on that input the later definition gives the key `X // A` |
| GetFunds.ExampleMatches | comparebrfunds/getfunds.py:141 | on that input the merge pairs the report row with the registry row of its CNPJ only |
| GetFunds.CheckReply | comparebrfunds/getfunds.py:186-194 | an exception under a proxy is the proxy error, without one it propagates; 404 is no data; any other answer, 407 included, goes on |
| GetFunds.CheckReplyVersusPandas | comparebrfunds/getfunds.py:186-194 | it agrees with the pandas version except on 407 and on an exception under a proxy |
| GetFunds.CheckRequestVersusFirst | comparebrfunds/getfunds.py:186-194 | the src version agrees with this one on every response, and on an exception exactly when no proxy is given |
| GetFunds.GetFidc | comparebrfunds/getfunds.py:181-202 | a table exactly when the status check passes, the archive holds table X_2 of the month and its lines parse; after the check the result is the unreadable-archive error without that member, and otherwise the parse of its lines |
| GetFunds.GetFip | comparebrfunds/getfunds.py:205-221 | a table exactly when the status check passes and the body, split into lines, parses; a failed check is its error; after the check the result is that parse, which can fail only with the width error |
| GetFunds.ProxyFailureMessage | comparebrfunds/getfunds.py:186-213 | a failing request under a proxy gives the 407 message in both downloads; the test module expects it at tests/test_brinfofunds.py:62-63 |

## Left out

- HTTP, ZIP archives, Latin-1 decoding, `read_csv`/`read_json` and column type casts are not modelled. The request is a function from URL to answer and an archive member is a function to its lines. CSV cells are parsed as text; the typed rows of the daily report are an input.
- `to_numeric` and the polars `cast(strict=False)` are out: a cell that does not parse is not modelled.
- `yfinance` downloads (`get_ibovespa`, the data rows of `get_stocks`) are out, and so is the Treasury client behind `get_selic`. The Selic and central-bank series are inputs, and IBOV is a `Delegated` outcome.
- Timing prints, `tqdm`, plotting other than the column matcher, and the pandas/polars `output_format` switch are out.
- The downloads and the polars joins that build the registry (src/comparar_fundos_br/fundosbr.py:60-86) are out, and so is the matching download of `get_fundsregistration`. `FundosBr.FilterRegistry` and `GetBrFunds.GetFundsRegistration` start from the joined rows.
- The annualised period return (`** (252 / T)`, comparar_fundos_br/comparador.py:84 and src/comparar_fundos_br/comparador.py:73) and the volatility (`std() * sqrt(252)`, comparar_fundos_br/comparador.py:89 and src/comparar_fundos_br/comparador.py:79) are out: they need real powers and square roots. The annualised mean of comparar_fundos_br/comparador.py:80 is modelled by `ComparadorLegacy.MediaAnualizada`. So are the per-year grouping (`groupby(Grouper(freq="Y"))`) and the final `sort_values` of `calcula_risco_retorno_fundos` and of line 329 of `supera_benchmark`.
- `qto_supera_benchmark` (src/comparar_fundos_br/comparador.py:331-361) is out: it averages over floating-point means.
- `_calcula_rentabilidade_periodo` is out: it resamples on the calendar. `_retorno_heatmap` is modelled only for its cycling labels and the frequency translation.
- The quantiles of `remove_outliers` are not computed: `ComparadorLegacy.RemoveOutliers` takes the two bounds as inputs. The version in src/comparar_fundos_br/comparador.py:91-100 is not modelled. It indexes the frame with a frame-shaped mask, which blanks cells rather than dropping rows, and it takes one pair of quantiles per column.
- comparebrfunds/benchmarks.py is not part of this model.
- `get_benchmarks` of comparar_fundos_br/comparador.py:31-40 only renames the column of `get_selic`/`get_benchmark` and is not modelled separately.
- Division by zero is not modelled: `NonZero` requires present quotas to be non-zero. pandas would give `inf`.
- ComparadorLegacy.Efficiency: with no complete row the efficiency is no value, where pandas divides by zero and gives `inf` when there are wins and `NaN` when there are none.
- Columns.PctChange: the lag is a natural number; the negative periods `pct_change` also accepts, which compare with later rows, are not modelled. The same holds for `HP` in `Comparador.SuperaBenchmark` and `ComparadorLegacy.FundosEficientes`.
- Index labels are assumed distinct, except in the label-aligned key of the first `filtrar_fundos`.
- Upper and lower case are mapped for ASCII and Latin-1 letters only.
- `repr` of a class name does not escape quotes.
- Dates are integers: `to_datetime` and the comparison of date strings are not modelled.
- Floating-point rounding is not modelled: values are reals.
- Text.Strip: removes the six ASCII whitespace characters. The `str.strip` of the three `get_fip` versions (src/comparar_fundos_br/fundosbr.py:198, comparar_fundos_br/get_brfunds.py:183, comparebrfunds/getfunds.py:218) runs on decoded text and also removes Unicode whitespace such as `\xa0` and `\x1c`–`\x1f`; that difference is not modelled.
- FundosBr.ReadArchive: the polars constructor of src/comparar_fundos_br/fundosbr.py:50 has its own shape rules, which are not modelled: it reads the data column-wise when there are as many data rows as columns, and handles ragged rows differently. The model applies the pandas rule of `Tables.ParseTable` (the widest row must match the header) to it too.
- ComparadorLegacy.Largest: when `num` is at least the number of rows, pandas' `nlargest`/`nsmallest` fall back to `sort_values`, whose default quicksort does not promise the order of equal values. The model keeps the first in input order there too, which is one of the orders pandas may give. The same holds for `ComparadorLegacy.Smallest`.
- Idempotence of `pontua_cnpj` for every input is not proved, because it does not hold. The code is idempotent only when the padded input keeps at least ten characters besides separators. `Cnpj.IdempotentIff` proves that condition and `Cnpj.NotIdempotentOnSeparators` gives an input outside it. The model follows the code.
- `fundosbr` converts `anos` twice instead of `meses` (src/comparar_fundos_br/fundosbr.py:169). The model takes both as sequences, on which the slip has no effect.
- The single-value forms of `anos`/`meses` (`int` instead of a list) are modelled as one-element sequences.

## Findings

| source | as written | input that shows it | evidently intended | confidence | as-written member | corrected member |
|---|---|---|---|---|---|---|
| comparar_fundos_br/comparador.py:54-57 | the wins counted over every row are divided by the number of rows complete in every column (`retorno.dropna().shape[0]`) | fund quotas 1, 2, 3; benchmarks A = 1, 1, 1 and B = missing, 1, 1; `HP` = 1: the efficiency against A is 200% | the share of complete rows on which the fund beat the benchmark, at most 100% | not executed | ComparadorLegacy.EfficiencyAboveHundred | ComparadorLegacy.FundRowCorrected |
| comparebrfunds/getfunds.py:121-127 | the first `filtrar_fundos` names the key by index alignment, so a CNPJ is paired with the registry name at the same label | a report row of fund X at label 0; registry rows Y ("B") at label 0 and X ("A") at label 1: the key is "X B" | the name of the registry row with the same CNPJ, as the later definition at lines 139-144 gives ("X // A") | not executed | GetFunds.FirstKeyMismatch | GetFunds.FiltrarFundos |
| comparebrfunds/getfunds.py:56-59 | `fundos = [mask]` replaces the frame by a one-element list, and the mask compares text cells before the numeric conversion | `get_brfunds(2022, 7, num_minimo_cotistas=10)` on any archive that reads | keep the rows that meet the thresholds after the numeric conversion, as comparar_fundos_br/get_brfunds.py:107-112 does | not executed | GetFunds.GetBrFundsMonth | GetFunds.GetBrFundsMonthCorrected |
