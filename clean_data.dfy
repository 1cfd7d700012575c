/**
 * `clean_data`: the `categories` column, holding strings such as
 * `related-1;request-0`, is split on `;` into one label column per token,
 * named after the first row's tokens and holding the integer found in every
 * row's tokens; the column itself is dropped from the caller's frame, the
 * label columns are joined after the remaining columns, and duplicate rows are
 * removed keeping the first.
 */
module CleanData {
  import opened Results
  import opened Strings
  import opened Tables

  const CategoriesColumn: string := "categories"
  const TokenSeparator: char := ';'
  const NameSeparator: char := '-'

  datatype CleanError =
    | NoCategoriesColumn        // `df['categories']` raises KeyError
    | RepeatedCategoriesColumn  // `df['categories']` selects a frame, which has no `.str`
    | NoRows                    // `iloc[0]` on an empty table raises IndexError
    | NotText                   // a missing categories cell: `astype(int)` fails on NaN
    | Ragged                    // token counts differ: the None padding fails `astype(int)`
    | BadValue                  // a token with no second field, or one that is not an int64
    | ColumnsOverlap            // a label name equals a remaining column: `join` raises

  // ---------------------------------------------------------------------------
  // Tokens and labels

  function Tokens(s: string): seq<string>
  {
    Split(s, TokenSeparator)
  }

  /** `token.split('-')[0]` */
  function LabelName(token: string): string
  {
    Split(token, NameSeparator)[0]
  }

  /** `int(token.split('-')[1])` as an int64; a missing field is an error. */
  function LabelValue(token: string): Option<int>
  {
    var fields := Split(token, NameSeparator);
    if |fields| < 2 then None else ParseInt(fields[1])
  }

  /** A label name is the token's text before its first `-`. */
  lemma LabelNameBeforeFirstDash(token: string)
    ensures var name := LabelName(token);
      && name <= token && NameSeparator !in name
      && (name == token <==> NameSeparator !in token)
      && (name != token ==> token[|name|] == NameSeparator)
  {
    FirstPieceBeforeSeparator(token, NameSeparator);
  }

  /**
   * A label value is the integer written between the token's first and second
   * `-`; a token without `-` has no value.
   */
  lemma LabelValueBetweenDashes(token: string)
    ensures NameSeparator !in token ==> LabelValue(token) == None
    ensures NameSeparator in token ==>
      var fields := Split(token, NameSeparator);
      var head := LabelName(token) + [NameSeparator] + fields[1];
      && head <= token && NameSeparator !in fields[1]
      && (|head| == |token| || token[|head|] == NameSeparator)
      && LabelValue(token) == ParseInt(fields[1])
  {
    CountCharZero(token, NameSeparator);
    if NameSeparator in token {
      SecondPieceBetweenSeparators(token, NameSeparator);
    }
  }

  /** The values of one row's tokens, or None if any token has none. */
  function RowValues(tokens: seq<string>): (r: Option<seq<int>>)
    ensures r.Some? <==> forall j :: 0 <= j < |tokens| ==> LabelValue(tokens[j]).Some?
    ensures r.Some? ==> |r.value| == |tokens|
    ensures r.Some? ==> forall j :: 0 <= j < |tokens| ==> r.value[j] == LabelValue(tokens[j]).value
  {
    if tokens == [] then Some([])
    else
      match (LabelValue(tokens[0]), RowValues(tokens[1..]))
      case (Some(v), Some(vs)) => Some([v] + vs)
      case _ => None
  }

  predicate AllText(cells: seq<Cell>)
  {
    forall i :: 0 <= i < |cells| ==> cells[i].Text?
  }

  /** The values of every row, or None if any token of any row has none. */
  function AllValues(cells: seq<Cell>): (r: Option<seq<seq<int>>>)
    requires AllText(cells)
    ensures r.Some? <==> forall i :: 0 <= i < |cells| ==> RowValues(Tokens(cells[i].s)).Some?
    ensures r.Some? ==> |r.value| == |cells|
    ensures r.Some? ==> forall i :: 0 <= i < |cells| ==> RowValues(Tokens(cells[i].s)) == Some(r.value[i])
  {
    if cells == [] then Some([])
    else
      match (RowValues(Tokens(cells[0].s)), AllValues(cells[1..]))
      case (Some(v), Some(vs)) => Some([v] + vs)
      case _ => None
  }

  /**
   * What `clean_data`'s split of the categories column needs to succeed: at least one
   * row, a string in every row, as many `;`-tokens in every row as in the
   * first, and an int64 in the second `-`-field of every token.
   */
  ghost predicate Parsable(cells: seq<Cell>)
  {
    && |cells| > 0
    && AllText(cells)
    && (forall i :: 0 <= i < |cells| ==> |Tokens(cells[i].s)| == |Tokens(cells[0].s)|)
    && (forall i, j :: 0 <= i < |cells| && 0 <= j < |Tokens(cells[i].s)| ==> LabelValue(Tokens(cells[i].s)[j]).Some?)
  }

  /** The label columns: their names and, per row, their values. */
  datatype Labels = Labels(names: seq<string>, values: seq<seq<int>>)

  /**
   * `clean_data`'s split of the categories column, on its cells: names from the first
   * row's tokens, values from every row's tokens.
   */
  function SplitCategories(cells: seq<Cell>): (r: Result<Labels, CleanError>)
    ensures r.Success? <==> Parsable(cells)
    ensures r.Success? ==>
      var first := Tokens(cells[0].s);
      && |r.value.names| == |first|
      && (forall j :: 0 <= j < |first| ==> r.value.names[j] == LabelName(first[j]))
      && |r.value.values| == |cells|
      && (forall i :: 0 <= i < |cells| ==> |r.value.values[i]| == |first|)
      && (forall i, j :: 0 <= i < |cells| && 0 <= j < |first| ==>
            r.value.values[i][j] == LabelValue(Tokens(cells[i].s)[j]).value)
  {
    if |cells| == 0 then Failure(NoRows)
    else if !AllText(cells) then Failure(NotText)
    else
      var first := Tokens(cells[0].s);
      if exists i :: 0 <= i < |cells| && |Tokens(cells[i].s)| != |first| then Failure(Ragged)
      else
        match AllValues(cells)
        case None => Failure(BadValue)
        case Some(values) => Success(Labels(seq(|first|, j requires 0 <= j < |first| => LabelName(first[j])), values))
  }

  // ---------------------------------------------------------------------------
  // The three stages of clean_data

  /** The cells of column `k`. */
  function Column(t: Table, k: nat): seq<Cell>
    requires WellFormed(t) && k < |t.columns|
  {
    seq(|t.rows|, i requires 0 <= i < |t.rows| => t.rows[i][k])
  }

  /** `clean_data` selects the categories column and splits it into labels. */
  function ParseLabels(t: Table): (r: Result<Labels, CleanError>)
    requires WellFormed(t)
    ensures Count(t.columns, CategoriesColumn) != 1 ==> r.Failure?
    ensures r.Success? ==>
      && CategoriesColumn in t.columns
      && |r.value.values| == |t.rows|
      && forall i :: 0 <= i < |t.rows| ==> |r.value.values[i]| == |r.value.names|
  {
    var n := Count(t.columns, CategoriesColumn);
    if n == 0 then Failure(NoCategoriesColumn)
    else if n > 1 then Failure(RepeatedCategoriesColumn)
    else
      CountPositive(t.columns, CategoriesColumn);
      SplitCategories(Column(t, IndexOf(t.columns, CategoriesColumn)))
  }

  function NumCells(values: seq<int>): Row
  {
    seq(|values|, j requires 0 <= j < |values| => Num(values[j]))
  }

  /**
   * `df.join(categories)` in `clean_data`: the label columns after the table's own,
   * row by row; a label named like one of the table's columns is an error.
   */
  function JoinLabels(t: Table, labels: Labels): (r: Result<Table, CleanError>)
    requires WellFormed(t)
    requires |labels.values| == |t.rows|
    requires forall i :: 0 <= i < |t.rows| ==> |labels.values[i]| == |labels.names|
    ensures r.Failure? <==> exists name :: name in labels.names && name in t.columns
    ensures r.Failure? ==> r.error == ColumnsOverlap
    ensures r.Success? ==>
      && WellFormed(r.value)
      && r.value.columns == t.columns + labels.names
      && |r.value.rows| == |t.rows|
      && forall i :: 0 <= i < |t.rows| ==>
           && r.value.rows[i][..|t.columns|] == t.rows[i]
           && r.value.rows[i][|t.columns|..] == NumCells(labels.values[i])
  {
    if exists name :: name in labels.names && name in t.columns then Failure(ColumnsOverlap)
    else
      Success(Table(t.columns + labels.names,
                    seq(|t.rows|, i requires 0 <= i < |t.rows| => t.rows[i] + NumCells(labels.values[i]))))
  }

  /**
   * `clean_data` on a table value: parse the labels, drop the categories
   * column, join the labels, drop duplicate rows keeping the first.
   */
  function Clean(t: Table): (r: Result<Table, CleanError>)
    requires WellFormed(t)
    ensures r.Success? ==> WellFormed(r.value) && NoDuplicates(r.value.rows)
  {
    match ParseLabels(t)
    case Failure(e) => Failure(e)
    case Success(labels) =>
      match JoinLabels(DropColumn(t, CategoriesColumn), labels)
      case Failure(e) => Failure(e)
      case Success(joined) => Success(Table(joined.columns, Dedup(joined.rows)))
  }

  // ---------------------------------------------------------------------------
  // What clean_data produces

  /** Row `i` after cleaning, before duplicates are removed: its other cells, then its label values. */
  ghost function CleanedRow(t: Table, k: nat, i: nat): Row
    requires WellFormed(t) && k < |t.columns| && i < |t.rows| && Parsable(Column(t, k))
  {
    var tokens := Tokens(Column(t, k)[i].s);
    RemoveAt(t.rows[i], k) + seq(|tokens|, j requires 0 <= j < |tokens| => Num(LabelValue(tokens[j]).value))
  }

  /** The names of the label columns: the first row's tokens up to their first `-`. */
  ghost function FirstRowNames(t: Table, k: nat): seq<string>
    requires WellFormed(t) && k < |t.columns| && Parsable(Column(t, k))
  {
    var first := Tokens(Column(t, k)[0].s);
    seq(|first|, j requires 0 <= j < |first| => LabelName(first[j]))
  }

  /**
   * Cleaning succeeds exactly when there is one categories column, its cells
   * parse, and no label name repeats one of the other columns.
   */
  lemma CleanSucceeds(t: Table)
    requires WellFormed(t)
    ensures Clean(t).Success? <==>
      && Count(t.columns, CategoriesColumn) == 1
      && CategoriesColumn in t.columns
      && var k := IndexOf(t.columns, CategoriesColumn);
         && Parsable(Column(t, k))
         && forall j :: 0 <= j < |FirstRowNames(t, k)| ==> FirstRowNames(t, k)[j] !in RemoveAt(t.columns, k)
  {
    if ParseLabels(t).Success? {
      var k := IndexOf(t.columns, CategoriesColumn);
      ParseLabelsResult(t);
      DropSingleColumn(t, CategoriesColumn);
      var names := ParseLabels(t).value.names;
      assert DropColumn(t, CategoriesColumn).columns == RemoveAt(t.columns, k);
      assert (exists name :: name in names && name in RemoveAt(t.columns, k))
         <==> !(forall j :: 0 <= j < |names| ==> names[j] !in RemoveAt(t.columns, k));
    }
  }

  /** A successful parse reads names from the first row and values from every row. */
  lemma ParseLabelsResult(t: Table)
    requires WellFormed(t) && ParseLabels(t).Success?
    ensures Count(t.columns, CategoriesColumn) == 1 && CategoriesColumn in t.columns
    ensures var k := IndexOf(t.columns, CategoriesColumn);
      && Parsable(Column(t, k))
      && ParseLabels(t).value.names == FirstRowNames(t, k)
      && forall i :: 0 <= i < |t.rows| ==>
           NumCells(ParseLabels(t).value.values[i]) == CleanedRow(t, k, i)[|t.columns| - 1..]
  {
  }

  /**
   * The cleaned table: the columns other than `categories`, in order, then one
   * column per token of the first row; its rows are the cleaned input rows,
   * row by row, with later duplicates removed.
   */
  lemma CleanResult(t: Table)
    requires WellFormed(t) && Clean(t).Success?
    ensures Count(t.columns, CategoriesColumn) == 1 && CategoriesColumn in t.columns
    ensures Parsable(Column(t, IndexOf(t.columns, CategoriesColumn)))
    ensures var k := IndexOf(t.columns, CategoriesColumn);
      var r := Clean(t).value;
      && r.columns == RemoveAt(t.columns, k) + FirstRowNames(t, k)
      && |FirstRowNames(t, k)| == |Tokens(t.rows[0][k].s)| == 1 + CountChar(t.rows[0][k].s, TokenSeparator)
      && r.rows == Dedup(seq(|t.rows|, i requires 0 <= i < |t.rows| => CleanedRow(t, k, i)))
  {
    var k := IndexOf(t.columns, CategoriesColumn);
    DropSingleColumn(t, CategoriesColumn);
    ParseLabelsResult(t);
    var labels := ParseLabels(t).value;
    var dropped := DropColumn(t, CategoriesColumn);
    var joined := JoinLabels(dropped, labels).value;
    forall i | 0 <= i < |t.rows| ensures joined.rows[i] == CleanedRow(t, k, i) {
      var c := CleanedRow(t, k, i);
      assert c == c[..|t.columns| - 1] + c[|t.columns| - 1..];
    }
    assert joined.rows == seq(|t.rows|, i requires 0 <= i < |t.rows| => CleanedRow(t, k, i));
  }

  /**
   * The cleaned table has a `categories` column exactly when a token of the
   * first row is named `categories`.
   */
  lemma CleanDropsCategories(t: Table)
    requires WellFormed(t) && Clean(t).Success?
    ensures CategoriesColumn in t.columns && Parsable(Column(t, IndexOf(t.columns, CategoriesColumn)))
    ensures CategoriesColumn in Clean(t).value.columns
        <==> CategoriesColumn in FirstRowNames(t, IndexOf(t.columns, CategoriesColumn))
  {
    CleanResult(t);
    var k := IndexOf(t.columns, CategoriesColumn);
    DropSingleColumn(t, CategoriesColumn);
  }

  /** Dropping duplicates from a cleaned table again changes nothing. */
  lemma CleanDedupIdempotent(t: Table)
    requires WellFormed(t) && Clean(t).Success?
    ensures Dedup(Clean(t).value.rows) == Clean(t).value.rows
  {
    DedupOfDistinct(Clean(t).value.rows);
  }

  // ---------------------------------------------------------------------------
  // clean_data on a frame that the caller still holds

  /**
   * `clean_data(df)`: the categories column is dropped from the caller's frame
   * in place once the labels have been parsed, and a new frame is built by
   * the join and deduplicated in place. A failure in
   * parsing leaves `df` untouched; a failing join leaves it without its
   * categories column.
   */
  method CleanFrame(df: Frame) returns (r: Result<Frame, CleanError>)
    requires df.Valid()
    modifies df
    ensures df.Valid()
    ensures r.Success? <==> Clean(old(df.View())).Success?
    ensures r.Success? ==> fresh(r.value) && r.value.Valid() && r.value.View() == Clean(old(df.View())).value
    ensures r.Failure? ==> r.error == Clean(old(df.View())).error
    ensures df.View() == if ParseLabels(old(df.View())).Success?
                         then DropColumn(old(df.View()), CategoriesColumn)
                         else old(df.View())
  {
    var parsed := ParseLabels(df.View());
    if parsed.Failure? {
      return Failure(parsed.error);
    }
    var labels := parsed.value;
    df.Drop(CategoriesColumn);
    var joined := JoinLabels(df.View(), labels);
    if joined.Failure? {
      return Failure(joined.error);
    }
    var result := new Frame(joined.value);
    result.DropDuplicates();
    return Success(result);
  }
}
