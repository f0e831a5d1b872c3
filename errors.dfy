/** The exceptions the download and table code raises, and the texts of the
    `ValueError`s among them. */
module Errors {
  import opened Seqs
  import opened Text

  datatype Error =
    /** `ValueError(f"Classe não encontrada {check_classes}")`. */
    | ClassNotFound(missing: seq<string>)
    /** A response that is neither 200 nor 407 in `_ler_zip_files`. */
    | DownloadFailed
    /** A 407 response, or (comparebrfunds) a request that raised under a proxy. */
    | ProxyRequired
    /** `ValueError("Necessário informar proxy correta.")`: an
        `AttributeError` of a request through a proxy (src `get_fip`,
        `get_fidc`). */
    | ProxyIncorrect
    /** A 404 response of `get_fidc`/`get_fip`. */
    | NoDataForDate
    /** A benchmark name outside the dispatch table. */
    | BenchmarkNotFound
    /** Reading the registry through a proxy failed. */
    | RegistryProxyRejected
    /** Reading the registry without a proxy failed. */
    | RegistryNeedsProxy
    /** `lines[0]` of an empty file (an `IndexError`). */
    | EmptyFile
    /** The data-frame constructor's own `ValueError` when the header names
        `columns` columns and the widest data row has `width` fields. */
    | ShapeMismatch(columns: nat, width: nat)
    /** A column looked up by name or by substring is absent (an
        `IndexError` or a missing-column error of the data-frame library). */
    | ColumnNotFound(column: string)
    /** The body of a failed response is not a ZIP archive. */
    | UnreadableArchive
    /** The exception of the HTTP library, propagated unchanged. */
    | TransportFailure
    /** `next()` on an exhausted iterator (a `StopIteration`). */
    | ExhaustedIterator
    /** `iloc[0]` or `[0]` of an empty selection (an `IndexError`), as when a
        column has no present value. */
    | NoValue
    /** `split(" // ")[1]` of a column name without the separator (an
        `IndexError`). */
    | NoNamePart(column: string)
    /** `ValueError('Dados não disponíveis')`: a central-bank response that
        is not a JSON table. */
    | DataUnavailable
    /** The data-frame library's own error on a response that is not a JSON
        table, propagated unchanged. */
    | UnreadableJson
    /** The `TypeError` of a threshold applied to a text column: comparing
        a text cell with a number raises it, and on a table without rows the
        one-element list the comparison leaves cannot be indexed by column
        name. */
    | ThresholdTypeError

  predicate IsValueError(e: Error) {
    || e.ClassNotFound? || e.DownloadFailed? || e.ProxyRequired? || e.ProxyIncorrect? || e.NoDataForDate?
    || e.BenchmarkNotFound? || e.RegistryProxyRejected? || e.RegistryNeedsProxy?
    || e.DataUnavailable?
  }

  /** Python's `repr` of a string, without the escaping of quotes and
      control characters. */
  function Repr(s: string): string {
    "'" + s + "'"
  }

  /** Python's `repr` of a list of strings. */
  function ListRepr(items: seq<string>): (r: string)
    ensures |r| >= 2 && r[0] == '[' && r[|r| - 1] == ']'
  {
    "[" + Join(Map(items, Repr), ", ") + "]"
  }

  /** The text of a `ValueError`. */
  function Message(e: Error): string
    requires IsValueError(e)
  {
    match e
    case ClassNotFound(missing) => "Classe não encontrada " + ListRepr(missing)
    case DownloadFailed => "Não foi possível baixar os dados solicitados"
    case ProxyRequired => "Necessário informar proxy correta. Response [407]"
    case ProxyIncorrect => "Necessário informar proxy correta."
    case NoDataForDate => "Não há dados para esta data. Response [404]"
    case BenchmarkNotFound => "Benchmark não encontrado."
    case RegistryProxyRejected => "Verifique se a proxy está correta. ParserError: Error tokenizing data"
    case RegistryNeedsProxy => "Informar proxy. HTTPError: authenticationrequired"
    case DataUnavailable => "Dados não disponíveis"
  }

  /** A single unknown class is reported as `['name']`. */
  lemma SingleClassMessage(name: string)
    ensures Message(ClassNotFound([name])) == "Classe não encontrada ['" + name + "']"
  {
    assert Map([name], Repr) == [Repr(name)];
  }

  /** The message the test module expects for a single unknown class. */
  lemma ExpectedMessages()
    ensures Message(ClassNotFound(["Fundo ABC"])) == "Classe não encontrada ['Fundo ABC']"
  {
    SingleClassMessage("Fundo ABC");
  }
}
