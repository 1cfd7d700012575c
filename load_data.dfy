/**
 * `load_data`: the two CSV inputs, once read into tables, are combined by a
 * full outer merge on `id`, the categories table on the left. Reading the
 * files is not modelled; the merge is.
 */
module LoadData {
  import opened Results
  import opened Tables

  /** The join key. */
  const Key: string := "id"
  /** pandas' default suffixes for a non-key column present on both sides. */
  const LeftSuffix: string := "_x"
  const RightSuffix: string := "_y"

  datatype MergeError =
    | KeyMissing       // one side has no `id` column
    | SuffixCollision  // a suffixed name repeats a name on its own side

  /** Every row has a cell at position `k`. */
  predicate Keyed(rows: seq<Row>, k: nat)
  {
    forall j :: 0 <= j < |rows| ==> k < |rows[j]|
  }

  /** Every row has exactly `width` cells. */
  predicate Uniform(rows: seq<Row>, width: nat)
  {
    forall j :: 0 <= j < |rows| ==> |rows[j]| == width
  }

  /** How many rows hold `v` at position `k`. */
  function KeyCount(rows: seq<Row>, k: nat, v: Cell): nat
    requires Keyed(rows, k)
  {
    if rows == [] then 0 else (if rows[0][k] == v then 1 else 0) + KeyCount(rows[1..], k, v)
  }

  function Missings(n: nat): Row
  {
    seq(n, _ => Missing)
  }

  // ---------------------------------------------------------------------------
  // Columns

  /** Names present on the other side get the suffix. */
  function Rename(columns: seq<string>, other: seq<string>, suffix: string): seq<string>
  {
    seq(|columns|, i requires 0 <= i < |columns| => if columns[i] in other then columns[i] + suffix else columns[i])
  }

  /** The left columns, then the right columns without the right `id`. */
  function MergedColumns(left: seq<string>, right: seq<string>, rk: nat): seq<string>
    requires rk < |right|
  {
    var rest := RemoveAt(right, rk);
    Rename(left, rest, LeftSuffix) + Rename(rest, left, RightSuffix)
  }

  // ---------------------------------------------------------------------------
  // Rows

  /** `l` joined with every right row carrying its key, in right-table order. */
  function Pairs(l: Row, right: seq<Row>, lk: nat, rk: nat, rw: nat): (r: seq<Row>)
    requires lk < |l| && rk < rw && Uniform(right, rw)
    ensures |r| == KeyCount(right, rk, l[lk])
    ensures Uniform(r, |l| + rw - 1)
    ensures forall i :: 0 <= i < |r| ==> r[i][..|l|] == l
  {
    if right == [] then []
    else
      (if right[0][rk] == l[lk] then [l + RemoveAt(right[0], rk)] else [])
      + Pairs(l, right[1..], lk, rk, rw)
  }

  /** The rows a left row contributes: its pairs, or itself padded with missing cells. */
  function Block(l: Row, right: seq<Row>, lk: nat, rk: nat, rw: nat): (r: seq<Row>)
    requires lk < |l| && rk < rw && Uniform(right, rw)
    ensures Uniform(r, |l| + rw - 1)
    ensures forall i :: 0 <= i < |r| ==> r[i][..|l|] == l
  {
    if KeyCount(right, rk, l[lk]) > 0 then Pairs(l, right, lk, rk, rw) else [l + Missings(rw - 1)]
  }

  function LeftRows(left: seq<Row>, right: seq<Row>, lk: nat, rk: nat, lw: nat, rw: nat): (r: seq<Row>)
    requires lk < lw && Uniform(left, lw) && rk < rw && Uniform(right, rw)
    ensures Uniform(r, lw + rw - 1)
  {
    if left == [] then []
    else Block(left[0], right, lk, rk, rw) + LeftRows(left[1..], right, lk, rk, lw, rw)
  }

  /** A right row without a partner: missing left cells except the coalesced key. */
  function RightOnly(r: Row, lk: nat, rk: nat, lw: nat): Row
    requires lk < lw && rk < |r|
  {
    Missings(lw)[lk := r[rk]] + RemoveAt(r, rk)
  }

  function RightRows(left: seq<Row>, right: seq<Row>, lk: nat, rk: nat, lw: nat, rw: nat): (r: seq<Row>)
    requires lk < lw && Uniform(left, lw) && rk < rw && Uniform(right, rw)
    ensures Uniform(r, lw + rw - 1)
  {
    if right == [] then []
    else
      (if KeyCount(left, lk, right[0][rk]) == 0 then [RightOnly(right[0], lk, rk, lw)] else [])
      + RightRows(left, right[1..], lk, rk, lw, rw)
  }

  /**
   * `pd.merge(categories, messages, on='id', how='outer')`. The rows are
   * produced left row by left row, then the unmatched right rows; pandas
   * sorts an outer merge by key, which this model does not.
   */
  function Merge(categories: Table, messages: Table): (r: Result<Table, MergeError>)
    requires WellFormed(categories) && WellFormed(messages)
    requires NoDuplicates(categories.columns) && NoDuplicates(messages.columns)
    ensures Key !in categories.columns || Key !in messages.columns ==> r == Failure(KeyMissing)
    ensures r.Success? ==> WellFormed(r.value)
    ensures r.Success? ==> |r.value.columns| == |categories.columns| + |messages.columns| - 1
  {
    if Key !in categories.columns || Key !in messages.columns then Failure(KeyMissing)
    else
      var lk := IndexOf(categories.columns, Key);
      var rk := IndexOf(messages.columns, Key);
      var lw, rw := |categories.columns|, |messages.columns|;
      var rest := RemoveAt(messages.columns, rk);
      if !NoDuplicates(Rename(categories.columns, rest, LeftSuffix))
         || !NoDuplicates(Rename(rest, categories.columns, RightSuffix))
      then Failure(SuffixCollision)
      else
        var rows := LeftRows(categories.rows, messages.rows, lk, rk, lw, rw)
                    + RightRows(categories.rows, messages.rows, lk, rk, lw, rw);
        Success(Table(MergedColumns(categories.columns, messages.columns, rk), rows))
  }

  /**
   * The merge fails for exactly two reasons: a side without `id`, or a
   * suffixed name that repeats a name on its own side.
   */
  lemma MergeFailure(categories: Table, messages: Table)
    requires WellFormed(categories) && WellFormed(messages)
    requires NoDuplicates(categories.columns) && NoDuplicates(messages.columns)
    ensures Merge(categories, messages) == Failure(KeyMissing)
        <==> Key !in categories.columns || Key !in messages.columns
    ensures Key in categories.columns && Key in messages.columns ==>
      var rest := RemoveAt(messages.columns, IndexOf(messages.columns, Key));
      var collides := !NoDuplicates(Rename(categories.columns, rest, LeftSuffix))
                      || !NoDuplicates(Rename(rest, categories.columns, RightSuffix));
      Merge(categories, messages) == Failure(SuffixCollision) <==> collides
    ensures Merge(categories, messages).Failure? ==>
      Merge(categories, messages) == Failure(KeyMissing) || Merge(categories, messages) == Failure(SuffixCollision)
  {
  }

  /**
   * The model's row order: the first merged row extends the first categories
   * row (pandas would put the smallest key first instead).
   */
  lemma MergeFirstRow(categories: Table, messages: Table)
    requires WellFormed(categories) && WellFormed(messages)
    requires NoDuplicates(categories.columns) && NoDuplicates(messages.columns)
    requires Merge(categories, messages).Success? && |categories.rows| > 0
    ensures var rows := Merge(categories, messages).value.rows;
      |rows| > 0 && |rows[0]| >= |categories.columns| && rows[0][..|categories.columns|] == categories.rows[0]
  {
  }

  // ---------------------------------------------------------------------------
  // Row counts per key

  lemma {:induction false} KeyCountAppend(a: seq<Row>, b: seq<Row>, k: nat, v: Cell)
    requires Keyed(a, k) && Keyed(b, k)
    ensures Keyed(a + b, k)
    ensures KeyCount(a + b, k, v) == KeyCount(a, k, v) + KeyCount(b, k, v)
  {
    if a != [] {
      assert (a + b)[0] == a[0] && (a + b)[1..] == a[1..] + b;
      KeyCountAppend(a[1..], b, k, v);
    } else {
      assert a + b == b;
    }
  }

  lemma {:induction false} KeyCountConstant(rows: seq<Row>, k: nat, c: Cell, v: Cell)
    requires Keyed(rows, k) && forall j :: 0 <= j < |rows| ==> rows[j][k] == c
    ensures KeyCount(rows, k, v) == if c == v then |rows| else 0
  {
    if rows != [] {
      KeyCountConstant(rows[1..], k, c, v);
    }
  }

  lemma {:induction false} KeyCountPositive(rows: seq<Row>, k: nat, v: Cell)
    requires Keyed(rows, k)
    ensures KeyCount(rows, k, v) > 0 <==> exists j :: 0 <= j < |rows| && rows[j][k] == v
  {
    if rows != [] {
      KeyCountPositive(rows[1..], k, v);
      if exists j :: 0 <= j < |rows| && rows[j][k] == v {
        var j :| 0 <= j < |rows| && rows[j][k] == v;
        if j > 0 {
          assert rows[1..][j - 1] == rows[j];
        }
      }
    }
  }

  /** Every row a left row contributes carries that row's key. */
  lemma BlockKeys(l: Row, right: seq<Row>, lk: nat, rk: nat, rw: nat)
    requires lk < |l| && rk < rw && Uniform(right, rw)
    ensures var b := Block(l, right, lk, rk, rw);
      Keyed(b, lk) && forall i :: 0 <= i < |b| ==> b[i][lk] == l[lk]
  {
  }

  /** Each left row with key `v` yields one row per right row with key `v`, or one padded row. */
  lemma {:induction false} LeftRowsKeyCount(left: seq<Row>, right: seq<Row>, lk: nat, rk: nat, lw: nat, rw: nat, v: Cell)
    requires lk < lw && Uniform(left, lw) && rk < rw && Uniform(right, rw)
    ensures Keyed(left, lk) && Keyed(LeftRows(left, right, lk, rk, lw, rw), lk)
    ensures var cr := KeyCount(right, rk, v);
      KeyCount(LeftRows(left, right, lk, rk, lw, rw), lk, v) == KeyCount(left, lk, v) * (if cr == 0 then 1 else cr)
  {
    var cr := KeyCount(right, rk, v);
    var m := if cr == 0 then 1 else cr;
    if left != [] {
      var l := left[0];
      var b := Block(l, right, lk, rk, rw);
      var tail := LeftRows(left[1..], right, lk, rk, lw, rw);
      LeftRowsKeyCount(left[1..], right, lk, rk, lw, rw, v);
      BlockKeys(l, right, lk, rk, rw);
      KeyCountConstant(b, lk, l[lk], v);
      KeyCountAppend(b, tail, lk, v);
      var a := if l[lk] == v then 1 else 0;
      var c := KeyCount(left[1..], lk, v);
      assert KeyCount(b, lk, v) == a * m;
      calc {
        KeyCount(LeftRows(left, right, lk, rk, lw, rw), lk, v);
        a * m + c * m;
        (a + c) * m;
        KeyCount(left, lk, v) * m;
      }
    }
  }

  /** A right row yields a row of its own exactly when no left row has its key. */
  lemma {:induction false} RightRowsKeyCount(left: seq<Row>, right: seq<Row>, lk: nat, rk: nat, lw: nat, rw: nat, v: Cell)
    requires lk < lw && Uniform(left, lw) && rk < rw && Uniform(right, rw)
    ensures Keyed(left, lk) && Keyed(right, rk) && Keyed(RightRows(left, right, lk, rk, lw, rw), lk)
    ensures KeyCount(RightRows(left, right, lk, rk, lw, rw), lk, v)
         == if KeyCount(left, lk, v) == 0 then KeyCount(right, rk, v) else 0
  {
    if right != [] {
      var r := right[0];
      var head := if KeyCount(left, lk, r[rk]) == 0 then [RightOnly(r, lk, rk, lw)] else [];
      var tail := RightRows(left, right[1..], lk, rk, lw, rw);
      RightRowsKeyCount(left, right[1..], lk, rk, lw, rw, v);
      forall i | 0 <= i < |head| ensures lk < |head[i]| && head[i][lk] == r[rk] {
        assert head[i][lk] == Missings(lw)[lk := r[rk]][lk];
      }
      KeyCountConstant(head, lk, r[rk], v);
      KeyCountAppend(head, tail, lk, v);
      if r[rk] == v {
        assert KeyCount(head, lk, v) == (if KeyCount(left, lk, v) == 0 then 1 else 0);
      }
    }
  }

  /**
   * Outer-join cardinality: an `id` on both sides gives (count on the left) ×
   * (count on the right) rows; an `id` on one side only keeps all its rows; no
   * other `id` appears.
   */
  lemma MergeKeyCount(categories: Table, messages: Table, v: Cell)
    requires WellFormed(categories) && WellFormed(messages)
    requires NoDuplicates(categories.columns) && NoDuplicates(messages.columns)
    requires Merge(categories, messages).Success?
    ensures Key in categories.columns && Key in messages.columns
    ensures var lk, rk := IndexOf(categories.columns, Key), IndexOf(messages.columns, Key);
      var t := Merge(categories, messages).value;
      && Keyed(categories.rows, lk) && Keyed(messages.rows, rk) && Keyed(t.rows, lk)
      && var cl, cr := KeyCount(categories.rows, lk, v), KeyCount(messages.rows, rk, v);
         KeyCount(t.rows, lk, v) == if cl == 0 || cr == 0 then cl + cr else cl * cr
  {
    var lk, rk := IndexOf(categories.columns, Key), IndexOf(messages.columns, Key);
    var lw, rw := |categories.columns|, |messages.columns|;
    var L, R := categories.rows, messages.rows;
    LeftRowsKeyCount(L, R, lk, rk, lw, rw, v);
    RightRowsKeyCount(L, R, lk, rk, lw, rw, v);
    KeyCountAppend(LeftRows(L, R, lk, rk, lw, rw), RightRows(L, R, lk, rk, lw, rw), lk, v);
  }

  /** Every `id` of either input appears in the merged table, and no other does. */
  lemma MergeKeepsEveryId(categories: Table, messages: Table, v: Cell)
    requires WellFormed(categories) && WellFormed(messages)
    requires NoDuplicates(categories.columns) && NoDuplicates(messages.columns)
    requires Merge(categories, messages).Success?
    ensures Key in categories.columns && Key in messages.columns
    ensures var lk, rk := IndexOf(categories.columns, Key), IndexOf(messages.columns, Key);
      var t := Merge(categories, messages).value;
      && Keyed(categories.rows, lk) && Keyed(messages.rows, rk) && Keyed(t.rows, lk)
      && ((exists i :: 0 <= i < |t.rows| && t.rows[i][lk] == v) <==>
          (exists i :: 0 <= i < |categories.rows| && categories.rows[i][lk] == v)
          || (exists j :: 0 <= j < |messages.rows| && messages.rows[j][rk] == v))
  {
    var lk, rk := IndexOf(categories.columns, Key), IndexOf(messages.columns, Key);
    var t := Merge(categories, messages).value;
    MergeKeyCount(categories, messages, v);
    KeyCountPositive(t.rows, lk, v);
    KeyCountPositive(categories.rows, lk, v);
    KeyCountPositive(messages.rows, rk, v);
    var cl, cr := KeyCount(categories.rows, lk, v), KeyCount(messages.rows, rk, v);
    OuterCountPositive(cl, cr);
  }

  /** An outer-merge count is positive exactly when either side's count is. */
  lemma OuterCountPositive(cl: nat, cr: nat)
    ensures (if cl == 0 || cr == 0 then cl + cr else cl * cr) > 0 <==> cl > 0 || cr > 0
  {
    if cl > 0 && cr > 0 {
      assert cl * cr >= cr;
    }
  }

  // ---------------------------------------------------------------------------
  // Which rows the merge produces

  /**
   * A row a left row `l` accounts for: `l` joined with a right row carrying
   * its key (the right `id` dropped), or, when no right row carries it, `l`
   * followed by missing cells.
   */
  ghost predicate FromLeftRow(x: Row, l: Row, right: seq<Row>, lk: nat, rk: nat, rw: nat)
    requires lk < |l| && rk < rw && Uniform(right, rw)
  {
    || (exists j :: 0 <= j < |right| && right[j][rk] == l[lk] && x == l + RemoveAt(right[j], rk))
    || (KeyCount(right, rk, l[lk]) == 0 && x == l + Missings(rw - 1))
  }

  /** A right row whose key no left row carries, padded on the left with missing cells. */
  ghost predicate FromRightRow(x: Row, r: Row, left: seq<Row>, lk: nat, rk: nat, lw: nat)
    requires lk < lw && Uniform(left, lw) && rk < |r|
  {
    KeyCount(left, lk, r[rk]) == 0 && x == RightOnly(r, lk, rk, lw)
  }

  lemma {:induction false} PairsMembers(l: Row, right: seq<Row>, lk: nat, rk: nat, rw: nat, x: Row)
    requires lk < |l| && rk < rw && Uniform(right, rw)
    ensures x in Pairs(l, right, lk, rk, rw)
        <==> exists j :: 0 <= j < |right| && right[j][rk] == l[lk] && x == l + RemoveAt(right[j], rk)
  {
    if right != [] {
      var tail := right[1..];
      PairsMembers(l, tail, lk, rk, rw, x);
      var head := if right[0][rk] == l[lk] then [l + RemoveAt(right[0], rk)] else [];
      assert Pairs(l, right, lk, rk, rw) == head + Pairs(l, tail, lk, rk, rw);
      assert x in Pairs(l, right, lk, rk, rw) <==> x in head || x in Pairs(l, tail, lk, rk, rw);
      assert forall j :: 0 < j < |right| ==> right[j] == tail[j - 1];
    }
  }

  lemma BlockMembers(l: Row, right: seq<Row>, lk: nat, rk: nat, rw: nat, x: Row)
    requires lk < |l| && rk < rw && Uniform(right, rw)
    ensures x in Block(l, right, lk, rk, rw) <==> FromLeftRow(x, l, right, lk, rk, rw)
  {
    PairsMembers(l, right, lk, rk, rw, x);
    KeyCountPositive(right, rk, l[lk]);
  }

  lemma {:induction false} LeftRowsMembers(left: seq<Row>, right: seq<Row>, lk: nat, rk: nat, lw: nat, rw: nat, x: Row)
    requires lk < lw && Uniform(left, lw) && rk < rw && Uniform(right, rw)
    ensures x in LeftRows(left, right, lk, rk, lw, rw)
        <==> exists i :: 0 <= i < |left| && FromLeftRow(x, left[i], right, lk, rk, rw)
  {
    if left != [] {
      var tail := left[1..];
      LeftRowsMembers(tail, right, lk, rk, lw, rw, x);
      BlockMembers(left[0], right, lk, rk, rw, x);
      if x in LeftRows(tail, right, lk, rk, lw, rw) {
        var i :| 0 <= i < |tail| && FromLeftRow(x, tail[i], right, lk, rk, rw);
        assert left[i + 1] == tail[i];
      }
      if exists i :: 0 <= i < |left| && FromLeftRow(x, left[i], right, lk, rk, rw) {
        var i :| 0 <= i < |left| && FromLeftRow(x, left[i], right, lk, rk, rw);
        if i > 0 {
          assert tail[i - 1] == left[i];
        }
      }
    }
  }

  lemma {:induction false} RightRowsMembers(left: seq<Row>, right: seq<Row>, lk: nat, rk: nat, lw: nat, rw: nat, x: Row)
    requires lk < lw && Uniform(left, lw) && rk < rw && Uniform(right, rw)
    ensures x in RightRows(left, right, lk, rk, lw, rw)
        <==> exists j :: 0 <= j < |right| && FromRightRow(x, right[j], left, lk, rk, lw)
  {
    if right != [] {
      var tail := right[1..];
      RightRowsMembers(left, tail, lk, rk, lw, rw, x);
      if x in RightRows(left, tail, lk, rk, lw, rw) {
        var j :| 0 <= j < |tail| && FromRightRow(x, tail[j], left, lk, rk, lw);
        assert right[j + 1] == tail[j];
      }
      if exists j :: 0 <= j < |right| && FromRightRow(x, right[j], left, lk, rk, lw) {
        var j :| 0 <= j < |right| && FromRightRow(x, right[j], left, lk, rk, lw);
        if j > 0 {
          assert tail[j - 1] == right[j];
        }
      }
    }
  }

  /**
   * The merged rows are exactly: each categories row joined with each messages
   * row of the same `id`; each categories row whose `id` has no message,
   * followed by missing cells; each messages row whose `id` has no categories
   * row, with missing categories cells except the `id`.
   */
  lemma MergeRows(categories: Table, messages: Table, x: Row)
    requires WellFormed(categories) && WellFormed(messages)
    requires NoDuplicates(categories.columns) && NoDuplicates(messages.columns)
    requires Merge(categories, messages).Success?
    ensures Key in categories.columns && Key in messages.columns
    ensures var lk, rk := IndexOf(categories.columns, Key), IndexOf(messages.columns, Key);
      var lw, rw := |categories.columns|, |messages.columns|;
      x in Merge(categories, messages).value.rows <==>
        || (exists i :: 0 <= i < |categories.rows| && FromLeftRow(x, categories.rows[i], messages.rows, lk, rk, rw))
        || (exists j :: 0 <= j < |messages.rows| && FromRightRow(x, messages.rows[j], categories.rows, lk, rk, lw))
  {
    var lk, rk := IndexOf(categories.columns, Key), IndexOf(messages.columns, Key);
    var lw, rw := |categories.columns|, |messages.columns|;
    LeftRowsMembers(categories.rows, messages.rows, lk, rk, lw, rw, x);
    RightRowsMembers(categories.rows, messages.rows, lk, rk, lw, rw, x);
  }

  // ---------------------------------------------------------------------------
  // Column layout

  lemma SuffixedIsNotKey(c: string, suffix: string)
    requires suffix == LeftSuffix || suffix == RightSuffix
    ensures c + suffix != Key
  {
    assert (c + suffix)[|c| + 1] == suffix[1];
  }

  /** With distinct names, the right columns minus `id` no longer hold `id`. */
  lemma RestHasNoKey(right: seq<string>)
    requires NoDuplicates(right) && Key in right
    ensures Key !in RemoveAt(right, IndexOf(right, Key))
    ensures NoDuplicates(RemoveAt(right, IndexOf(right, Key)))
  {
  }

  /**
   * The merged table holds `id` once, at its place among the categories
   * columns; when the two inputs share no other column, the columns are the
   * categories columns followed by the messages columns other than `id`, and
   * the merge cannot fail.
   */
  lemma MergeColumnLayout(categories: Table, messages: Table)
    requires WellFormed(categories) && WellFormed(messages)
    requires NoDuplicates(categories.columns) && NoDuplicates(messages.columns)
    requires Key in categories.columns && Key in messages.columns
    ensures var lk, rk := IndexOf(categories.columns, Key), IndexOf(messages.columns, Key);
      && (Merge(categories, messages).Success? ==>
           var columns := Merge(categories, messages).value.columns;
           && columns[lk] == Key
           && forall i :: 0 <= i < |columns| && columns[i] == Key ==> i == lk)
      && ((forall c :: c in categories.columns && c in messages.columns ==> c == Key) ==>
           && Merge(categories, messages).Success?
           && Merge(categories, messages).value.columns == categories.columns + RemoveAt(messages.columns, rk))
  {
    var lc, rc := categories.columns, messages.columns;
    var lk, rk := IndexOf(lc, Key), IndexOf(rc, Key);
    var rest := RemoveAt(rc, rk);
    RestHasNoKey(rc);
    var renamedLeft := Rename(lc, rest, LeftSuffix);
    var renamedRight := Rename(rest, lc, RightSuffix);
    var columns := renamedLeft + renamedRight;
    forall i | 0 <= i < |columns| && i != lk ensures columns[i] != Key {
      if i < |lc| {
        if lc[i] in rest {
          SuffixedIsNotKey(lc[i], LeftSuffix);
        }
      } else {
        var c := rest[i - |lc|];
        if c in lc {
          SuffixedIsNotKey(c, RightSuffix);
        }
      }
    }
    if forall c :: c in lc && c in rc ==> c == Key {
      forall j | 0 <= j < |rest| ensures rest[j] !in lc {
        assert rest[j] in rc by {
          if j < rk { assert rest[j] == rc[j]; } else { assert rest[j] == rc[j + 1]; }
        }
      }
      assert renamedLeft == lc;
      assert renamedRight == rest;
    }
  }
}
