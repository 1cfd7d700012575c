/**
 * The two-message example run through `load_data` and `clean_data`: two
 * messages and their category strings are merged on `id` and cleaned into
 * one integer column per category.
 */
module Scenarios {
  import opened Results
  import opened Strings
  import opened Tables
  import opened LoadData
  import opened CleanData

  lemma SplitPair(a: string, b: string, sep: char)
    requires sep !in a && sep !in b
    ensures Split(a + [sep] + b, sep) == [a, b]
  {
    SplitHead(a, b, sep);
    SplitNoSeparator(b, sep);
  }

  lemma ExampleTokens(first: char, second: char)
    requires first == '0' || first == '1'
    requires second == '0' || second == '1'
    ensures Tokens(CategoryString(first, second)) == ["related-" + [first], "request-" + [second]]
  {
    var a, b := "related-" + [first], "request-" + [second];
    assert forall i :: 0 <= i < |a| ==> a[i] != TokenSeparator;
    assert forall i :: 0 <= i < |b| ==> b[i] != TokenSeparator;
    SplitPair(a, b, TokenSeparator);
    assert a + [TokenSeparator] + b == "related-" + [first] + ";request-" + [second];
  }

  lemma ExampleLabel(name: string, digit: char)
    requires name == "related" || name == "request"
    requires digit == '0' || digit == '1'
    ensures LabelName(name + "-" + [digit]) == name
    ensures LabelValue(name + "-" + [digit]) == Some(Bit(digit))
  {
    assert forall i :: 0 <= i < |name| ==> name[i] != NameSeparator;
    SplitPair(name, [digit], NameSeparator);
    assert name + [NameSeparator] + [digit] == name + "-" + [digit];
    var d := [digit];
    assert TrimStart(d) == d && TrimEnd(d) == d;
    assert d[0] == digit && IsDigit(d[0]);
    assert IsDigitRun(d);
    assert d[..0] == [];
    assert DigitsValue(d) == digit as int - '0' as int;
  }

  /** A category string of the example: `related-<a>;request-<b>`. */
  function CategoryString(a: char, b: char): string
  {
    "related-" + [a] + ";request-" + [b]
  }

  function Bit(c: char): int
  {
    c as int - '0' as int
  }

  /** Two rows keyed 1 and 2 in their first cell. */
  function PairRows(x: Cell, y: Cell): seq<Row>
  {
    [[Num(1), x], [Num(2), y]]
  }

  lemma PairRowsKeyCount(x: Cell, y: Cell)
    ensures Keyed(PairRows(x, y), 0)
    ensures KeyCount(PairRows(x, y), 0, Num(1)) == 1 && KeyCount(PairRows(x, y), 0, Num(2)) == 1
  {
    var rows := PairRows(x, y);
    assert KeyCount(rows[1..][1..], 0, Num(1)) == 0;
    assert KeyCount(rows[1..], 0, Num(1)) == 0;
    assert KeyCount(rows[1..][1..], 0, Num(2)) == 0;
    assert KeyCount(rows[1..], 0, Num(2)) == 1;
  }

  /** Each categories row meets the message with its id. */
  lemma PairLeftRows(c1: string, c2: string, m1: string, m2: string)
    ensures LeftRows(PairRows(Text(c1), Text(c2)), PairRows(Text(m1), Text(m2)), 0, 0, 2, 2)
         == [[Num(1), Text(c1), Text(m1)], [Num(2), Text(c2), Text(m2)]]
  {
    var L, R := PairRows(Text(c1), Text(c2)), PairRows(Text(m1), Text(m2));
    PairRowsKeyCount(Text(m1), Text(m2));
    assert RemoveAt(R[0], 0) == [Text(m1)];
    assert RemoveAt(R[1], 0) == [Text(m2)];
    assert Pairs(L[0], R[1..], 0, 0, 2) == [];
    assert Pairs(L[0], R, 0, 0, 2) == [L[0] + [Text(m1)]];
    assert Pairs(L[1], R[1..][1..], 0, 0, 2) == [];
    assert Pairs(L[1], R[1..], 0, 0, 2) == [L[1] + [Text(m2)]];
    assert Pairs(L[1], R, 0, 0, 2) == [L[1] + [Text(m2)]];
    assert Block(L[0], R, 0, 0, 2) == [L[0] + [Text(m1)]];
    assert Block(L[1], R, 0, 0, 2) == [L[1] + [Text(m2)]];
    assert LeftRows(L[1..][1..], R, 0, 0, 2, 2) == [];
    assert LeftRows(L[1..], R, 0, 0, 2, 2) == [L[1] + [Text(m2)]];
    assert LeftRows(L, R, 0, 0, 2, 2) == [L[0] + [Text(m1)], L[1] + [Text(m2)]];
    assert L[0] + [Text(m1)] == [Num(1), Text(c1), Text(m1)];
    assert L[1] + [Text(m2)] == [Num(2), Text(c2), Text(m2)];
  }

  /** No message is left without its categories row. */
  lemma PairRightRows(c1: string, c2: string, m1: string, m2: string)
    ensures RightRows(PairRows(Text(c1), Text(c2)), PairRows(Text(m1), Text(m2)), 0, 0, 2, 2) == []
  {
    var L, R := PairRows(Text(c1), Text(c2)), PairRows(Text(m1), Text(m2));
    PairRowsKeyCount(Text(c1), Text(c2));
    assert RightRows(L, R[1..][1..], 0, 0, 2, 2) == [];
    assert RightRows(L, R[1..], 0, 0, 2, 2) == [];
  }

  /** The two tables share only `id`, so they merge into id, categories, message. */
  lemma PairMergeColumns(c: Table, m: Table)
    requires c.columns == ["id", "categories"] && m.columns == ["id", "message"]
    requires WellFormed(c) && WellFormed(m)
    ensures NoDuplicates(c.columns) && NoDuplicates(m.columns)
    ensures Merge(c, m).Success? && Merge(c, m).value.columns == ["id", "categories", "message"]
    ensures Merge(c, m).value.rows == LeftRows(c.rows, m.rows, 0, 0, 2, 2) + RightRows(c.rows, m.rows, 0, 0, 2, 2)
  {
    assert IndexOf(c.columns, Key) == 0 && IndexOf(m.columns, Key) == 0;
    assert "categories" !in m.columns;
    assert forall x :: x in c.columns && x in m.columns ==> x == Key;
    MergeColumnLayout(c, m);
  }

  /** Two categories rows with ids 1 and 2 merged with two messages with the same ids. */
  lemma TwoMessagesMerge(c1: string, c2: string, m1: string, m2: string)
    ensures Merge(Table(["id", "categories"], [[Num(1), Text(c1)], [Num(2), Text(c2)]]),
                  Table(["id", "message"], [[Num(1), Text(m1)], [Num(2), Text(m2)]]))
         == Success(Table(["id", "categories", "message"],
                          [[Num(1), Text(c1), Text(m1)], [Num(2), Text(c2), Text(m2)]]))
  {
    var c := Table(["id", "categories"], PairRows(Text(c1), Text(c2)));
    var m := Table(["id", "message"], PairRows(Text(m1), Text(m2)));
    PairMergeColumns(c, m);
    PairLeftRows(c1, c2, m1, m2);
    PairRightRows(c1, c2, m1, m2);
    var rows := [[Num(1), Text(c1), Text(m1)], [Num(2), Text(c2), Text(m2)]];
    assert Merge(c, m).value.rows == rows;
    assert Merge(c, m).value == Table(["id", "categories", "message"], rows);
  }

  /**
   * The category string `related-a;request-b` has two tokens, named related
   * and request, holding the digits `a` and `b`.
   */
  lemma ExampleRow(a: char, b: char)
    requires a in "01" && b in "01"
    ensures var tokens := Tokens(CategoryString(a, b));
      && |tokens| == 2
      && LabelName(tokens[0]) == "related" && LabelName(tokens[1]) == "request"
      && forall j :: 0 <= j < 2 ==> LabelValue(tokens[j]) == Some([Bit(a), Bit(b)][j])
  {
    ExampleTokens(a, b);
    ExampleLabel("related", a);
    ExampleLabel("request", b);
    assert "related-" + [a] == "related" + "-" + [a];
    assert "request-" + [b] == "request" + "-" + [b];
  }

  /** Two rows of categories: names from the first, a value per token per row. */
  lemma TwoRowsSplit(c1: string, v1: seq<int>, c2: string, v2: seq<int>)
    requires |Tokens(c1)| == 2 && |Tokens(c2)| == 2 && |v1| == 2 && |v2| == 2
    requires LabelName(Tokens(c1)[0]) == "related" && LabelName(Tokens(c1)[1]) == "request"
    requires forall j :: 0 <= j < 2 ==> LabelValue(Tokens(c1)[j]) == Some(v1[j]) && LabelValue(Tokens(c2)[j]) == Some(v2[j])
    ensures SplitCategories([Text(c1), Text(c2)]) == Success(Labels(["related", "request"], [v1, v2]))
  {
    var cells := [Text(c1), Text(c2)];
    assert cells[0].s == c1 && cells[1].s == c2;
    TwoRowsParsable(c1, c2);
    var r := SplitCategories(cells).value;
    assert r.names == ["related", "request"];
    assert r.values[0] == v1;
    assert r.values[1] == v2;
    assert |r.values| == 2;
    assert r.values == [v1, v2];
    assert r == Labels(["related", "request"], [v1, v2]);
  }

  /** Two rows whose two tokens each carry a value parse. */
  lemma TwoRowsParsable(c1: string, c2: string)
    requires |Tokens(c1)| == 2 && |Tokens(c2)| == 2
    requires forall j :: 0 <= j < 2 ==> LabelValue(Tokens(c1)[j]).Some? && LabelValue(Tokens(c2)[j]).Some?
    ensures Parsable([Text(c1), Text(c2)])
  {
  }

  /** The merged table of two messages, `categories` between `id` and `message`. */
  function MergedPair(c1: string, c2: string, m1: string, m2: string): Table
  {
    Table(["id", "categories", "message"], [[Num(1), Text(c1), Text(m1)], [Num(2), Text(c2), Text(m2)]])
  }

  lemma TwoMessagesParse(c1: string, c2: string, m1: string, m2: string)
    ensures WellFormed(MergedPair(c1, c2, m1, m2))
    ensures ParseLabels(MergedPair(c1, c2, m1, m2)) == SplitCategories([Text(c1), Text(c2)])
  {
    var t := MergedPair(c1, c2, m1, m2);
    assert Count(t.columns, CategoriesColumn) == 1;
    assert IndexOf(t.columns, CategoriesColumn) == 1;
    assert Column(t, 1) == [Text(c1), Text(c2)];
  }

  lemma TwoMessagesDrop(c1: string, c2: string, m1: string, m2: string)
    ensures WellFormed(MergedPair(c1, c2, m1, m2))
    ensures DropColumn(MergedPair(c1, c2, m1, m2), CategoriesColumn)
         == Table(["id", "message"], [[Num(1), Text(m1)], [Num(2), Text(m2)]])
  {
    var t := MergedPair(c1, c2, m1, m2);
    assert Count(t.columns, CategoriesColumn) == 1;
    assert IndexOf(t.columns, CategoriesColumn) == 1;
    DropSingleColumn(t, CategoriesColumn);
    var dropped := DropColumn(t, CategoriesColumn);
    assert RemoveAt(t.rows[0], 1) == [Num(1), Text(m1)];
    assert RemoveAt(t.rows[1], 1) == [Num(2), Text(m2)];
    assert |dropped.rows| == 2;
  }

  /** The id and message columns of two messages joined with their related and request values. */
  lemma TwoMessagesJoin(v1: seq<int>, v2: seq<int>, m1: string, m2: string)
    requires |v1| == 2 && |v2| == 2
    ensures JoinLabels(Table(["id", "message"], [[Num(1), Text(m1)], [Num(2), Text(m2)]]),
                       Labels(["related", "request"], [v1, v2]))
         == Success(Table(["id", "message", "related", "request"],
                          [[Num(1), Text(m1), Num(v1[0]), Num(v1[1])],
                           [Num(2), Text(m2), Num(v2[0]), Num(v2[1])]]))
  {
    var dropped := Table(["id", "message"], [[Num(1), Text(m1)], [Num(2), Text(m2)]]);
    var labels := Labels(["related", "request"], [v1, v2]);
    assert "related" !in dropped.columns && "request" !in dropped.columns;
    assert NumCells(v1) == [Num(v1[0]), Num(v1[1])];
    assert NumCells(v2) == [Num(v2[0]), Num(v2[1])];
    var joined := JoinLabels(dropped, labels).value;
    assert joined.columns == ["id", "message", "related", "request"];
    assert joined.rows[0] == [Num(1), Text(m1), Num(v1[0]), Num(v1[1])];
    assert joined.rows[1] == [Num(2), Text(m2), Num(v2[0]), Num(v2[1])];
    assert joined.rows == [[Num(1), Text(m1), Num(v1[0]), Num(v1[1])], [Num(2), Text(m2), Num(v2[0]), Num(v2[1])]];
  }

  /** Cleaning is its three stages in turn, when each succeeds. */
  lemma CleanStages(t: Table, labels: Labels, joined: Table)
    requires WellFormed(t)
    requires ParseLabels(t) == Success(labels)
    requires JoinLabels(DropColumn(t, CategoriesColumn), labels) == Success(joined)
    ensures Clean(t) == Success(Table(joined.columns, Dedup(joined.rows)))
  {
  }

  /**
   * Cleaning a merged table of two messages: `categories` is replaced by the
   * columns related and request, after `id` and `message`, each row holding
   * its own values.
   */
  lemma TwoMessagesClean(c1: string, v1: seq<int>, c2: string, v2: seq<int>, m1: string, m2: string)
    requires |v1| == 2 && |v2| == 2
    requires SplitCategories([Text(c1), Text(c2)]) == Success(Labels(["related", "request"], [v1, v2]))
    ensures WellFormed(MergedPair(c1, c2, m1, m2))
    ensures Clean(MergedPair(c1, c2, m1, m2))
         == Success(Table(["id", "message", "related", "request"],
                          [[Num(1), Text(m1), Num(v1[0]), Num(v1[1])],
                           [Num(2), Text(m2), Num(v2[0]), Num(v2[1])]]))
  {
    var expected := Table(["id", "message", "related", "request"],
                          [[Num(1), Text(m1), Num(v1[0]), Num(v1[1])],
                           [Num(2), Text(m2), Num(v2[0]), Num(v2[1])]]);
    TwoMessagesParse(c1, c2, m1, m2);
    TwoMessagesDrop(c1, c2, m1, m2);
    TwoMessagesJoin(v1, v2, m1, m2);
    CleanStages(MergedPair(c1, c2, m1, m2), Labels(["related", "request"], [v1, v2]), expected);
    DedupOfDistinct(expected.rows);
  }

  /**
   * Messages "help" (id 1) and "food" (id 2) with categories
   * `related-1;request-0` and `related-0;request-1`: merged, then cleaned to
   * related = 1, request = 0 for id 1 and related = 0, request = 1 for id 2.
   */
  lemma DisasterMessagesExample()
    ensures var categories := Table(["id", "categories"],
                                    [[Num(1), Text(CategoryString('1', '0'))],
                                     [Num(2), Text(CategoryString('0', '1'))]]);
      var messages := Table(["id", "message"], [[Num(1), Text("help")], [Num(2), Text("food")]]);
      && Merge(categories, messages).Success?
      && Clean(Merge(categories, messages).value)
         == Success(Table(["id", "message", "related", "request"],
                          [[Num(1), Text("help"), Num(1), Num(0)],
                           [Num(2), Text("food"), Num(0), Num(1)]]))
  {
    ExampleRow('1', '0');
    ExampleRow('0', '1');
    TwoMessagesMerge(CategoryString('1', '0'), CategoryString('0', '1'), "help", "food");
    TwoRowsSplit(CategoryString('1', '0'), [1, 0], CategoryString('0', '1'), [0, 1]);
    TwoMessagesClean(CategoryString('1', '0'), [1, 0], CategoryString('0', '1'), [0, 1], "help", "food");
  }
}
