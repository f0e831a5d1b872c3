/** Table logic shared by the registry and daily-report code: the optional
    "one name or a list of names" arguments, validation against an
    allow-list, the `;`-separated text table, column lookup and the display
    key `CNPJ // name`. */
module Tables {
  import opened Wrappers
  import opened Seqs
  import opened Text
  import opened Errors

  // ---------------------------------------------------------------------
  // Arguments that are a name, a list of names or absent

  datatype Names = NoNames | One(name: string) | Many(names: seq<string>)

  /** Python truthiness of the argument (`None`, `""` and `[]` are false). */
  predicate Truthy(n: Names) {
    match n
    case NoNames => false
    case One(s) => s != ""
    case Many(ns) => ns != []
  }

  /** `if not isinstance(x, list): x = [x]`. */
  function AsList(n: Names): (r: seq<string>)
    ensures n.One? ==> r == [n.name]
    ensures n.Many? ==> r == n.names
    ensures Truthy(n) ==> |r| >= 1
  {
    match n
    case NoNames => []
    case One(s) => [s]
    case Many(ns) => ns
  }

  /** `[x for x in requested if x not in allowed]`. */
  function Missing(requested: seq<string>, allowed: seq<string>): (r: seq<string>)
    ensures forall x :: x in r <==> x in requested && x !in allowed
    ensures |r| <= |requested|
  {
    Filter(requested, x => x !in allowed)
  }

  /** The missing names keep the order of the request. */
  lemma MissingInRequestOrder(a: seq<string>, b: seq<string>, allowed: seq<string>)
    ensures Missing(a + b, allowed) == Missing(a, allowed) + Missing(b, allowed)
  {
    FilterAppend(a, b, x => x !in allowed);
  }

  /** The class check: nothing to do for a false argument; an error naming
      every requested name outside the allow-list; otherwise the requested
      list (a scalar wrapped into a list). */
  function ValidateNames(requested: Names, allowed: seq<string>): (r: Result<Option<seq<string>>, Error>)
    ensures !Truthy(requested) ==> r == Ok(None)
    ensures Truthy(requested) ==> (r.Err? <==> exists x :: x in AsList(requested) && x !in allowed)
    ensures r.Err? ==> r.error == ClassNotFound(Missing(AsList(requested), allowed))
    ensures r.Ok? && r.value.Some? ==>
      Truthy(requested) && r.value.value == AsList(requested) && forall x :: x in r.value.value ==> x in allowed
  {
    if !Truthy(requested) then Ok(None)
    else
      var missing := Missing(AsList(requested), allowed);
      if missing != [] then
        assert missing[0] in missing;
        Err(ClassNotFound(missing))
      else Ok(Some(AsList(requested)))
  }

  // ---------------------------------------------------------------------
  // The `;`-separated text table

  datatype Table = Table(header: seq<string>, rows: seq<seq<string>>)

  /** `line.strip().split(";")`. */
  function ParseLine(line: string): (fields: seq<string>)
    ensures |fields| == CountChar(Strip(line), ';') + 1
    ensures Join(fields, ";") == Strip(line)
    ensures forall k :: 0 <= k < |fields| ==> !Contains(fields[k], ";")
  {
    SplitCharLength(Strip(line), ';');
    JoinSplit(Strip(line), ";");
    Split(Strip(line), ";")
  }

  /** The number of fields of the widest row, 0 without rows. */
  function MaxWidth(rows: seq<seq<string>>): (w: nat)
    ensures forall i :: 0 <= i < |rows| ==> |rows[i]| <= w
    ensures rows != [] ==> exists i :: 0 <= i < |rows| && |rows[i]| == w
    ensures rows == [] ==> w == 0
  {
    if rows == [] then 0
    else
      var w := MaxWidth(rows[1..]);
      assert forall i :: 1 <= i < |rows| ==> rows[i] == rows[1..][i - 1];
      if |rows[0]| > w then |rows[0]| else w
  }

  /** The widest row of a non-empty list has `w` fields exactly when no row
      is wider and some row is that wide. */
  lemma WidestRow(rows: seq<seq<string>>, w: nat)
    requires rows != []
    ensures MaxWidth(rows) == w <==>
      (forall i :: 0 <= i < |rows| ==> |rows[i]| <= w) && exists i :: 0 <= i < |rows| && |rows[i]| == w
  {
  }

  /** The widths of the parsed rows are those of the parsed later lines. */
  lemma ParsedWidths(lines: seq<string>, w: nat)
    requires |lines| > 1
    ensures MaxWidth(Map(lines[1..], ParseLine)) == w <==>
      && (forall i :: 1 <= i < |lines| ==> |ParseLine(lines[i])| <= w)
      && (exists i :: 1 <= i < |lines| && |ParseLine(lines[i])| == w)
  {
    var rows := Map(lines[1..], ParseLine);
    assert forall i :: 1 <= i < |lines| ==> rows[i - 1] == ParseLine(lines[i]);
    WidestRow(rows, w);
    ShiftedBound(rows, lines, w);
    ShiftedReach(rows, lines, w);
  }

  /** Row `i - 1` is line `i`: the rows are bounded exactly when the lines are. */
  lemma ShiftedBound(rows: seq<seq<string>>, lines: seq<string>, w: nat)
    requires |rows| + 1 == |lines|
    requires forall i :: 1 <= i < |lines| ==> rows[i - 1] == ParseLine(lines[i])
    ensures (forall i :: 0 <= i < |rows| ==> |rows[i]| <= w) <==>
      forall i :: 1 <= i < |lines| ==> |ParseLine(lines[i])| <= w
  {
    if forall i :: 0 <= i < |rows| ==> |rows[i]| <= w {
      forall i | 1 <= i < |lines| ensures |ParseLine(lines[i])| <= w {
        assert rows[i - 1] == ParseLine(lines[i]);
      }
    }
    if forall i :: 1 <= i < |lines| ==> |ParseLine(lines[i])| <= w {
      forall i | 0 <= i < |rows| ensures |rows[i]| <= w {
        assert rows[i] == ParseLine(lines[i + 1]);
      }
    }
  }

  /** Row `i - 1` is line `i`: some row is `w` wide exactly when some line is. */
  lemma ShiftedReach(rows: seq<seq<string>>, lines: seq<string>, w: nat)
    requires |rows| + 1 == |lines|
    requires forall i :: 1 <= i < |lines| ==> rows[i - 1] == ParseLine(lines[i])
    ensures (exists i :: 0 <= i < |rows| && |rows[i]| == w) <==>
      exists i :: 1 <= i < |lines| && |ParseLine(lines[i])| == w
  {
    if exists i :: 0 <= i < |rows| && |rows[i]| == w {
      var i :| 0 <= i < |rows| && |rows[i]| == w;
      assert rows[i] == ParseLine(lines[i + 1]);
    }
    if exists i :: 1 <= i < |lines| && |ParseLine(lines[i])| == w {
      var i :| 1 <= i < |lines| && |ParseLine(lines[i])| == w;
      assert rows[i - 1] == ParseLine(lines[i]);
    }
  }

  /** `pd.DataFrame(lines[1:], columns=lines[0])`: the header is the first
      parsed line and every later line is one row. An empty file fails on
      `lines[0]`. A row narrower than the header is padded with missing
      cells, but the constructor refuses a header whose width is not that of
      the widest row. */
  function ParseTable(lines: seq<string>): (r: Result<Table, Error>)
    ensures lines == [] ==> r == Err(EmptyFile)
    ensures lines != [] ==> (r.Ok? <==>
      || |lines| == 1
      || (&& (forall i :: 1 <= i < |lines| ==> |ParseLine(lines[i])| <= |ParseLine(lines[0])|)
          && (exists i :: 1 <= i < |lines| && |ParseLine(lines[i])| == |ParseLine(lines[0])|)))
    ensures r.Err? && lines != [] ==>
      r.error == ShapeMismatch(|ParseLine(lines[0])|, MaxWidth(Map(lines[1..], ParseLine)))
    ensures r.Ok? ==> r.value.header == ParseLine(lines[0])
    ensures r.Ok? ==> |r.value.rows| == |lines| - 1
    ensures r.Ok? ==> forall i :: 0 <= i < |r.value.rows| ==> r.value.rows[i] == ParseLine(lines[i + 1])
  {
    if lines == [] then Err(EmptyFile)
    else if |lines| == 1 then Ok(Table(ParseLine(lines[0]), []))
    else
      var header := ParseLine(lines[0]);
      var rows := Map(lines[1..], ParseLine);
      ParsedWidths(lines, |header|);
      if MaxWidth(rows) != |header| then Err(ShapeMismatch(|header|, MaxWidth(rows)))
      else Ok(Table(header, rows))
  }

  /** `text.split("\n")` is never empty, so its parse can only fail on the
      width of the rows. */
  lemma SplitTextHasHeader(text: string)
    ensures ParseTable(Split(text, "\n")).Err? ==> ParseTable(Split(text, "\n")).error.ShapeMismatch?
  {
  }

  /** A file ending in a newline whose only other line is the header: the
      empty last line is a one-field row, so unless the header has a single
      column the constructor fails. */
  lemma TrailingNewlineAlone(header: string)
    requires |ParseLine(header)| != 1
    ensures ParseTable([header, ""]) == Err(ShapeMismatch(|ParseLine(header)|, 1))
  {
    EmptyLineOneField();
    var rows := Map([header, ""][1..], ParseLine);
    assert rows == [ParseLine("")];
    assert MaxWidth(rows) == 1;
  }

  /** An empty line is one empty field. */
  lemma EmptyLineOneField()
    ensures |ParseLine("")| == 1
  {
    assert Strip("") == "";
  }

  /** The cell of a row in column `c`, absent when the row is short. */
  function Cell(row: seq<string>, c: nat): (r: Option<string>)
    ensures r.Some? <==> c < |row|
    ensures r.Some? ==> r.value == row[c]
  {
    if c < |row| then Some(row[c]) else None
  }

  /** The first column whose name contains `key` (`[x for x in columns if key
      in x][0]`). */
  function FirstContaining(header: seq<string>, key: string): (r: Option<nat>)
    ensures r.Some? ==> r.value < |header| && Contains(header[r.value], key)
    ensures r.Some? ==> forall k :: 0 <= k < r.value ==> !Contains(header[k], key)
    ensures r.None? ==> forall k :: 0 <= k < |header| ==> !Contains(header[k], key)
  {
    if header == [] then None
    else if Contains(header[0], key) then Some(0)
    else match FirstContaining(header[1..], key)
      case None => None
      case Some(k) => Some(k + 1)
  }

  /** The column named exactly `name` (`name in df.columns`). */
  function ColumnIndex(header: seq<string>, name: string): (r: Option<nat>)
    ensures r.Some? ==> r.value < |header| && header[r.value] == name
    ensures r.Some? ==> forall k :: 0 <= k < r.value ==> header[k] != name
    ensures r.None? <==> name !in header
  {
    if header == [] then None
    else if header[0] == name then Some(0)
    else match ColumnIndex(header[1..], name)
      case None => None
      case Some(k) => Some(k + 1)
  }

  // ---------------------------------------------------------------------
  // The display key "CNPJ // name"

  const KeySeparator: string := " // "

  function DisplayKey(cnpj: string, name: string): (k: string)
    ensures |k| == |cnpj| + 4 + |name|
    ensures StartsWith(k, cnpj)
  {
    cnpj + KeySeparator + name
  }

  lemma FirstCharMismatch(s: string, sub: string, j: nat)
    requires j < |s| && |sub| > 0 && s[j] != sub[0]
    ensures !OccursAt(s, sub, j)
  {
    assert j + |sub| <= |s| ==> s[j..j + |sub|][0] == s[j];
  }

  /** The first separator of a key sits right after a space-free CNPJ. */
  lemma KeyFind(cnpj: string, name: string)
    requires forall k :: 0 <= k < |cnpj| ==> cnpj[k] != ' '
    ensures Find(DisplayKey(cnpj, name), KeySeparator) == Some(|cnpj|)
  {
    var key := DisplayKey(cnpj, name);
    assert OccursAt(key, KeySeparator, |cnpj|) by {
      assert key[|cnpj|..|cnpj| + 4] == KeySeparator;
    }
    forall j | 0 <= j < |cnpj| ensures !OccursAt(key, KeySeparator, j) {
      assert key[j] == cnpj[j];
      FirstCharMismatch(key, KeySeparator, j);
    }
    var f := Find(key, KeySeparator);
    assert f.Some?;
    assert f.value <= |cnpj|;
    assert f.value >= |cnpj|;
  }

  /** `key.split(" // ")` recovers the CNPJ and the name when the CNPJ has no
      space (as every canonical one) and the name holds no separator. */
  lemma KeySplit(cnpj: string, name: string)
    requires forall k :: 0 <= k < |cnpj| ==> cnpj[k] != ' '
    requires !Contains(name, KeySeparator)
    ensures Split(DisplayKey(cnpj, name), KeySeparator) == [cnpj, name]
  {
    var key := DisplayKey(cnpj, name);
    KeyFind(cnpj, name);
    assert key[|cnpj| + 4..] == name;
    assert key[..|cnpj|] == cnpj;
    ContainsIff(name, KeySeparator);
    assert Find(name, KeySeparator).None?;
  }
}
