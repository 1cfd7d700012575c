/**
 * The tabular values the pipeline passes around: a table is a list of column
 * names and a list of rows, each row one cell per column. A cell is missing
 * (pandas' NaN after an outer merge), a string or an integer.
 */
module Tables {

  datatype Cell = Missing | Text(s: string) | Num(n: int)

  type Row = seq<Cell>

  datatype Table = Table(columns: seq<string>, rows: seq<Row>)

  /** Every row has one cell per column. */
  predicate WellFormed(t: Table)
  {
    forall i :: 0 <= i < |t.rows| ==> |t.rows[i]| == |t.columns|
  }

  predicate NoDuplicates<T(==)>(s: seq<T>)
  {
    forall i, j :: 0 <= i < j < |s| ==> s[i] != s[j]
  }

  function Count<T(==)>(s: seq<T>, x: T): nat
  {
    if s == [] then 0 else (if s[0] == x then 1 else 0) + Count(s[1..], x)
  }

  lemma {:induction false} CountPositive<T>(s: seq<T>, x: T)
    ensures Count(s, x) > 0 <==> x in s
  {
    if s != [] {
      CountPositive(s[1..], x);
      assert s == [s[0]] + s[1..];
    }
  }

  /** The position of the first occurrence of `x`. */
  function IndexOf<T(==)>(s: seq<T>, x: T): (k: nat)
    requires x in s
    ensures k < |s| && s[k] == x && x !in s[..k]
  {
    if s[0] == x then 0
    else
      assert x in s[1..] by { assert s == [s[0]] + s[1..]; }
      var k := 1 + IndexOf(s[1..], x);
      assert s[..k] == [s[0]] + s[1..][..k - 1];
      k
  }

  /** The first-occurrence position is the only one with nothing equal before it. */
  lemma IndexOfUnique<T>(s: seq<T>, x: T, k: nat)
    requires k < |s| && s[k] == x && x !in s[..k]
    ensures IndexOf(s, x) == k
  {
  }

  /** A first occurrence inside a prefix is the first occurrence in the whole. */
  lemma IndexOfPrefix<T>(s: seq<T>, n: nat, x: T)
    requires n <= |s| && x in s[..n]
    ensures IndexOf(s, x) == IndexOf(s[..n], x)
  {
  }

  function RemoveAt<T>(s: seq<T>, k: nat): seq<T>
    requires k < |s|
  {
    s[..k] + s[k + 1..]
  }

  // ---------------------------------------------------------------------------
  // drop_duplicates(): keep the first occurrence of every row

  /** `s` with every element after its first occurrence removed. */
  function Dedup<T(==)>(s: seq<T>): (r: seq<T>)
    ensures forall i :: 0 <= i < |s| ==> s[i] in r
    ensures forall i :: 0 <= i < |r| ==> r[i] in s
    ensures NoDuplicates(r)
  {
    if s == [] then []
    else
      var d := Dedup(s[..|s| - 1]);
      assert s == s[..|s| - 1] + [s[|s| - 1]];
      if s[|s| - 1] in d then d else d + [s[|s| - 1]]
  }

  /** The survivors keep the relative order of their first occurrences in `s`. */
  lemma {:induction false} DedupKeepsFirstOccurrenceOrder<T>(s: seq<T>, p: nat, q: nat)
    requires p < q < |Dedup(s)|
    ensures IndexOf(s, Dedup(s)[p]) < IndexOf(s, Dedup(s)[q])
  {
    var n := |s|;
    var init := s[..n - 1];
    var d := Dedup(init);
    var last := s[n - 1];
    assert s == init + [last];
    var x, y := Dedup(s)[p], Dedup(s)[q];
    assert x in init by { assert x in Dedup(s); if last !in d { assert p < |d|; assert x in d; } }
    IndexOfPrefix(s, n - 1, x);
    if last in d || q < |d| {
      assert Dedup(s)[..|d|] == d;
      assert y in d;
      IndexOfPrefix(s, n - 1, y);
      DedupKeepsFirstOccurrenceOrder(init, p, q);
    } else {
      assert y == last && last !in init;
      IndexOfUnique(s, last, n - 1);
    }
  }

  /** A sequence without duplicates is left as it is. */
  lemma {:induction false} DedupOfDistinct<T>(s: seq<T>)
    requires NoDuplicates(s)
    ensures Dedup(s) == s
  {
    if s != [] {
      var init := s[..|s| - 1];
      assert NoDuplicates(init);
      DedupOfDistinct(init);
      assert s[|s| - 1] !in init;
    }
  }

  /** Dedup leaves exactly the duplicate-free sequences unchanged. */
  lemma DedupFixedPoint<T>(s: seq<T>)
    ensures Dedup(s) == s <==> NoDuplicates(s)
  {
  }

  /** Removing duplicates a second time changes nothing. */
  lemma DedupIdempotent<T>(s: seq<T>)
    ensures Dedup(Dedup(s)) == Dedup(s)
  {
  }

  /** The keep-first scan behind `drop_duplicates`. */
  method DedupRows<T(==)>(s: seq<T>) returns (out: seq<T>)
    ensures out == Dedup(s)
  {
    out := [];
    var seen: set<T> := {};
    for i := 0 to |s|
      invariant out == Dedup(s[..i])
      invariant seen == set x | x in out
    {
      assert s[..i + 1][..i] == s[..i];
      if s[i] !in seen {
        out := out + [s[i]];
        seen := seen + {s[i]};
      }
    }
    assert s[..|s|] == s;
  }

  // ---------------------------------------------------------------------------
  // drop(name, axis=1)

  /** The cells of `s` whose column is not called `name`. */
  function Without<T>(s: seq<T>, columns: seq<string>, name: string): seq<T>
    requires |s| == |columns|
  {
    if s == [] then []
    else (if columns[0] == name then [] else [s[0]]) + Without(s[1..], columns[1..], name)
  }

  lemma {:induction false} WithoutLength<T>(s: seq<T>, columns: seq<string>, name: string)
    requires |s| == |columns|
    ensures |Without(s, columns, name)| == |columns| - Count(columns, name)
  {
    if s != [] {
      WithoutLength(s[1..], columns[1..], name);
    }
  }

  lemma {:induction false} WithoutAbsent<T>(s: seq<T>, columns: seq<string>, name: string)
    requires |s| == |columns| && name !in columns
    ensures Without(s, columns, name) == s
  {
    if s != [] {
      WithoutAbsent(s[1..], columns[1..], name);
      assert [s[0]] + s[1..] == s;
    }
  }

  /** Dropping a column name that occurs once removes exactly its position. */
  lemma {:induction false} WithoutSingle<T>(s: seq<T>, columns: seq<string>, name: string)
    requires |s| == |columns| && Count(columns, name) == 1
    ensures name in columns
    ensures Without(s, columns, name) == RemoveAt(s, IndexOf(columns, name))
  {
    CountPositive(columns, name);
    if columns[0] == name {
      CountPositive(columns[1..], name);
      WithoutAbsent(s[1..], columns[1..], name);
    } else {
      WithoutSingle(s[1..], columns[1..], name);
      var k := IndexOf(columns[1..], name);
      assert IndexOf(columns, name) == k + 1;
      assert [s[0]] + (s[1..][..k] + s[1..][k + 1..]) == s[..k + 1] + s[k + 2..];
    }
  }

  /** `df.drop(name, axis=1)`: every column called `name` goes. */
  function DropColumn(t: Table, name: string): (r: Table)
    requires WellFormed(t)
    ensures WellFormed(r)
    ensures |r.columns| == |t.columns| - Count(t.columns, name) && |r.rows| == |t.rows|
    ensures name !in r.columns
  {
    var columns := Without(t.columns, t.columns, name);
    var rows := seq(|t.rows|, i requires 0 <= i < |t.rows| => Without(t.rows[i], t.columns, name));
    WithoutLength(t.columns, t.columns, name);
    forall i | 0 <= i < |t.rows| ensures |rows[i]| == |columns| {
      WithoutLength(t.rows[i], t.columns, name);
    }
    WithoutRemovesName(t.columns, name);
    Table(columns, rows)
  }

  lemma {:induction false} WithoutRemovesName(columns: seq<string>, name: string)
    ensures name !in Without(columns, columns, name)
  {
    if columns != [] {
      WithoutRemovesName(columns[1..], name);
    }
  }

  /** When the column occurs once, dropping it removes that position from every row. */
  lemma DropSingleColumn(t: Table, name: string)
    requires WellFormed(t) && Count(t.columns, name) == 1
    ensures name in t.columns
    ensures var k := IndexOf(t.columns, name);
      && DropColumn(t, name).columns == RemoveAt(t.columns, k)
      && forall i :: 0 <= i < |t.rows| ==> DropColumn(t, name).rows[i] == RemoveAt(t.rows[i], k)
  {
    WithoutSingle(t.columns, t.columns, name);
    forall i | 0 <= i < |t.rows|
      ensures DropColumn(t, name).rows[i] == RemoveAt(t.rows[i], IndexOf(t.columns, name))
    {
      WithoutSingle(t.rows[i], t.columns, name);
    }
  }

  // ---------------------------------------------------------------------------
  // A data frame that is updated in place

  class Frame {
    var columns: seq<string>
    var rows: seq<Row>

    ghost predicate Valid()
      reads this
    {
      WellFormed(View())
    }

    function View(): Table
      reads this
    {
      Table(columns, rows)
    }

    constructor (t: Table)
      requires WellFormed(t)
      ensures Valid() && View() == t
    {
      columns := t.columns;
      rows := t.rows;
    }

    /** `drop(name, axis=1, inplace=True)` */
    method Drop(name: string)
      requires Valid()
      modifies this
      ensures Valid()
      ensures View() == DropColumn(old(View()), name)
    {
      var t := DropColumn(View(), name);
      columns, rows := t.columns, t.rows;
    }

    /** `drop_duplicates(inplace=True)`: the first of each group of equal rows stays. */
    method DropDuplicates()
      requires Valid()
      modifies this
      ensures Valid()
      ensures columns == old(columns) && rows == Dedup(old(rows))
    {
      rows := DedupRows(rows);
    }
  }
}
