/** The table operations the pipeline performs, on table values: a table is
    a header of column names and a sequence of rows of cells. Column access
    is by name (the first column so named); an operation that raises in the
    table library returns the error instead. */
module Frames {
  import opened Collections
  import Text

  /** A table cell: text, an integer, a list of strings, or a missing value (NaN/None). */
  datatype Cell = Str(s: string) | Int(n: int) | Items(items: seq<string>) | Missing

  datatype Frame = Frame(columns: seq<string>, rows: seq<seq<Cell>>)

  datatype FrameError =
    | KeyError(column: string)                 // a named column is absent
    | LengthMismatch(expected: nat, given: nat) // a header or row of the wrong size
    | NotText(column: string)                  // a string operation met a non-string cell

  /** Every row has one cell per column. */
  predicate Rectangular(f: Frame) {
    forall i | 0 <= i < |f.rows| :: |f.rows[i]| == |f.columns|
  }

  /** A table with the given header and no rows. */
  function Empty(columns: seq<string>): (f: Frame)
    ensures f.columns == columns && f.rows == [] && Rectangular(f)
  {
    Frame(columns, [])
  }

  /** The position of the first column named `c`. */
  function IndexOf(columns: seq<string>, c: string): (k: nat)
    requires c in columns
    ensures k < |columns| && columns[k] == c && c !in columns[..k]
  {
    if columns[0] == c then 0
    else
      assert columns == [columns[0]] + columns[1..];
      1 + IndexOf(columns[1..], c)
  }

  /** The cell of `row` under column `c`; missing when there is no such column. */
  function Get(columns: seq<string>, row: seq<Cell>, c: string): Cell {
    if c in columns && IndexOf(columns, c) < |row| then row[IndexOf(columns, c)] else Missing
  }

  /** In a header without repeated names, column `k` is found at position `k`. */
  lemma GetAt(columns: seq<string>, row: seq<Cell>, k: nat)
    requires NoDuplicates(columns) && |row| == |columns| && k < |columns|
    ensures Get(columns, row, columns[k]) == row[k]
  {
    var j := IndexOf(columns, columns[k]);
    assert columns[j] == columns[k];
  }

  /** The first name of `wanted` that is not a column of `columns`. */
  function FirstAbsent(columns: seq<string>, wanted: seq<string>): (c: string)
    requires exists k | 0 <= k < |wanted| :: wanted[k] !in columns
    ensures c in wanted && c !in columns
  {
    if wanted[0] !in columns then wanted[0]
    else
      assert exists k | 0 <= k < |wanted[1..]| :: wanted[1..][k] !in columns by {
        var k :| 0 <= k < |wanted| && wanted[k] !in columns;
        assert wanted[1..][k - 1] == wanted[k];
      }
      FirstAbsent(columns, wanted[1..])
  }

  /** The first wanted name the header lacks is the one at the first such position. */
  lemma {:induction false} FirstAbsentAt(columns: seq<string>, wanted: seq<string>, n: nat)
    requires n < |wanted| && wanted[n] !in columns
    requires forall k | 0 <= k < n :: wanted[k] in columns
    ensures FirstAbsent(columns, wanted) == wanted[n]
    decreases n
  {
    if n > 0 {
      assert wanted[1..][n - 1] == wanted[n];
      FirstAbsentAt(columns, wanted[1..], n - 1);
    }
  }

  /** The cells of `row` under the names `wanted`, in the order asked; this is also
      how a row is re-laid under another header. */
  function Pick(columns: seq<string>, row: seq<Cell>, wanted: seq<string>): (r: seq<Cell>)
    ensures |r| == |wanted|
  {
    seq(|wanted|, k requires 0 <= k < |wanted| => Get(columns, row, wanted[k]))
  }

  /** `df[cols]`: the named columns, in the order asked (a name may be asked twice). */
  function Select(f: Frame, cols: seq<string>): (r: Result<Frame, FrameError>)
    ensures r.Ok? <==> forall k | 0 <= k < |cols| :: cols[k] in f.columns
    ensures r.Err? ==> r.error.KeyError? && r.error.column in cols && r.error.column !in f.columns
    ensures r.Ok? ==> r.value.columns == cols && |r.value.rows| == |f.rows| && Rectangular(r.value)
    ensures r.Ok? ==> forall i, k | 0 <= i < |f.rows| && 0 <= k < |cols| ::
                        r.value.rows[i][k] == Get(f.columns, f.rows[i], cols[k])
    ensures r.Ok? ==> forall i | 0 <= i < |f.rows| :: r.value.rows[i] == Pick(f.columns, f.rows[i], cols)
  {
    if forall k | 0 <= k < |cols| :: cols[k] in f.columns then
      Ok(Frame(cols, seq(|f.rows|, i requires 0 <= i < |f.rows| => Pick(f.columns, f.rows[i], cols))))
    else
      Err(KeyError(FirstAbsent(f.columns, cols)))
  }

  /** `df[name] = values`: overwrite the column so named, or add it at the end. */
  function Assign(f: Frame, name: string, values: seq<Cell>): (r: Frame)
    requires |values| == |f.rows|
    requires Rectangular(f)
    ensures Rectangular(r) && |r.rows| == |f.rows|
    ensures name in f.columns ==> r.columns == f.columns
    ensures name !in f.columns ==> r.columns == f.columns + [name]
    ensures forall i, k | 0 <= i < |f.rows| && 0 <= k < |f.columns| ::
              r.rows[i][k] == if f.columns[k] == name then values[i] else f.rows[i][k]
    ensures name !in f.columns ==> forall i | 0 <= i < |f.rows| :: r.rows[i] == f.rows[i] + [values[i]]
  {
    if name in f.columns then
      Frame(f.columns, seq(|f.rows|, i requires 0 <= i < |f.rows| =>
                             seq(|f.columns|, k requires 0 <= k < |f.columns| =>
                                   if f.columns[k] == name then values[i] else f.rows[i][k])))
    else
      Frame(f.columns + [name], seq(|f.rows|, i requires 0 <= i < |f.rows| => f.rows[i] + [values[i]]))
  }

  /** In a header without repeated names, overwriting the column at position
      `j` changes that cell of every row and nothing else. */
  lemma AssignAt(f: Frame, j: nat, values: seq<Cell>)
    requires Rectangular(f) && NoDuplicates(f.columns) && j < |f.columns| && |values| == |f.rows|
    ensures Assign(f, f.columns[j], values)
            == Frame(f.columns, seq(|f.rows|, i requires 0 <= i < |f.rows| => f.rows[i][j := values[i]]))
  {
    var r := Assign(f, f.columns[j], values);
    forall i | 0 <= i < |f.rows| ensures r.rows[i] == f.rows[i][j := values[i]] {
      forall k | 0 <= k < |f.columns| ensures r.rows[i][k] == f.rows[i][j := values[i]][k] {
        if k != j {
          assert f.columns[k] != f.columns[j];
        }
      }
    }
  }

  /** `df[name] = v` for a single value: the same value in every row. */
  function AssignConstant(f: Frame, name: string, v: Cell): (r: Frame)
    requires Rectangular(f)
    ensures Rectangular(r) && |r.rows| == |f.rows|
  {
    Assign(f, name, seq(|f.rows|, _ => v))
  }

  /** A constant written under a new name is a last cell added to every row. */
  lemma AssignConstantNew(f: Frame, name: string, v: Cell)
    requires Rectangular(f) && name !in f.columns
    ensures AssignConstant(f, name, v) == Frame(f.columns + [name], AppendEach(f.rows, v))
  {
  }

  /** After `df[name] = v` every row holds `v` under `name`. */
  lemma AssignConstantGet(f: Frame, name: string, v: Cell)
    requires Rectangular(f)
    ensures forall i | 0 <= i < |f.rows| ::
              Get(AssignConstant(f, name, v).columns, AssignConstant(f, name, v).rows[i], name) == v
  {
    var r := AssignConstant(f, name, v);
    forall i | 0 <= i < |f.rows| ensures Get(r.columns, r.rows[i], name) == v {
      var k := IndexOf(r.columns, name);
      if name in f.columns {
        assert r.rows[i][k] == v;
      } else {
        assert forall j | 0 <= j < |f.columns| :: r.columns[j] != name;
        assert k == |f.columns|;
        assert r.rows[i] == f.rows[i] + [v];
      }
    }
  }

  /** `df.columns = names`: relabel the columns by position. */
  function Rename(f: Frame, names: seq<string>): (r: Result<Frame, FrameError>)
    ensures r.Ok? <==> |names| == |f.columns|
    ensures r.Err? ==> r.error == LengthMismatch(|f.columns|, |names|)
    ensures r.Ok? ==> r.value == Frame(names, f.rows)
  {
    if |names| == |f.columns| then Ok(Frame(names, f.rows))
    else Err(LengthMismatch(|f.columns|, |names|))
  }

  /** `df.drop_duplicates()`: the first occurrence of each distinct row. */
  function DropDuplicates(f: Frame): (r: Frame)
    ensures r.columns == f.columns && NoDuplicates(r.rows)
    ensures forall row :: row in r.rows <==> row in f.rows
    ensures IsSubseq(r.rows, f.rows)
    ensures Rectangular(f) ==> Rectangular(r)
  {
    DistinctIsSubseq(f.rows);
    Frame(f.columns, Distinct(f.rows))
  }

  /** `drop_duplicates` keeps the first occurrence of each row: the rows it
      keeps from any leading part of the table come first, in the same order. */
  lemma DropDuplicatesKeepsFirst(f: Frame, k: nat)
    requires k <= |f.rows|
    ensures DropDuplicates(Frame(f.columns, f.rows[..k])).rows <= DropDuplicates(f).rows
  {
    DistinctPrefix(f.rows, k);
  }

  /** The header of `a.append(b)`: the columns of `a`, then those of `b` that `a` lacks. */
  function Union(a: seq<string>, b: seq<string>): (u: seq<string>)
    ensures forall c :: c in u <==> c in a || c in b
  {
    a + Filter(b, c => c !in a)
  }

  /** Two headers without repeated names have a union without repeated names. */
  lemma UnionNoDuplicates(a: seq<string>, b: seq<string>)
    requires NoDuplicates(a) && NoDuplicates(b)
    ensures NoDuplicates(Union(a, b))
  {
    var rest := Filter(b, c => c !in a);
    FilterNoDuplicates(b, c => c !in a);
    var u := a + rest;
    forall i, j | 0 <= i < j < |u| ensures u[i] != u[j] {
      if j >= |a| && i < |a| {
        assert u[j] == rest[j - |a|] && u[j] !in a;
      } else if i >= |a| {
        assert u[i] == rest[i - |a|] && u[j] == rest[j - |a|];
      }
    }
  }

  /** A header that already holds every column of `b` is its own union with `b`. */
  lemma UnionCovered(a: seq<string>, b: seq<string>)
    requires forall k | 0 <= k < |b| :: b[k] in a
    ensures Union(a, b) == a
  {
    FilterNone(b, c => c !in a);
  }

  /** Rows re-laid under another header (each by `Pick`), missing where their own header lacks a column. */
  function RealignRows(columns: seq<string>, rows: seq<seq<Cell>>, target: seq<string>): (r: seq<seq<Cell>>)
    ensures |r| == |rows|
    ensures forall i | 0 <= i < |rows| :: r[i] == Pick(columns, rows[i], target)
  {
    seq(|rows|, i requires 0 <= i < |rows| => Pick(columns, rows[i], target))
  }

  lemma RealignRowsConcat(columns: seq<string>, a: seq<seq<Cell>>, b: seq<seq<Cell>>, target: seq<string>)
    ensures RealignRows(columns, a + b, target) == RealignRows(columns, a, target) + RealignRows(columns, b, target)
  {
  }

  /** `a.append(b, ignore_index=True)`: the rows of `a` then those of `b`,
      both re-laid under the union of the two headers. */
  function Append(a: Frame, b: Frame): (r: Frame)
    ensures Rectangular(r) && |r.rows| == |a.rows| + |b.rows|
  {
    var u := Union(a.columns, b.columns);
    Frame(u, RealignRows(a.columns, a.rows, u) + RealignRows(b.columns, b.rows, u))
  }

  /** Cells are found under the same name after re-laying a row. */
  lemma GetRealign(columns: seq<string>, row: seq<Cell>, target: seq<string>, c: string)
    requires c in target
    ensures Get(target, Pick(columns, row, target), c) == Get(columns, row, c)
  {
  }

  /** Re-laying a row under its own header, when no name repeats, changes nothing. */
  lemma RealignSame(columns: seq<string>, row: seq<Cell>)
    requires NoDuplicates(columns) && |row| == |columns|
    ensures Pick(columns, row, columns) == row
  {
    forall k | 0 <= k < |columns| ensures Pick(columns, row, columns)[k] == row[k] {
      GetAt(columns, row, k);
    }
  }

  /** Appending a table whose columns the first already has, when no name
      repeats there: the header stays, the second table's rows are re-laid
      under it and follow the first table's. */
  lemma AppendCovered(a: Frame, b: Frame)
    requires NoDuplicates(a.columns) && Rectangular(a)
    requires forall k | 0 <= k < |b.columns| :: b.columns[k] in a.columns
    ensures Append(a, b) == Frame(a.columns, a.rows + RealignRows(b.columns, b.rows, a.columns))
  {
    UnionCovered(a.columns, b.columns);
    forall i | 0 <= i < |a.rows| ensures RealignRows(a.columns, a.rows, a.columns)[i] == a.rows[i] {
      RealignSame(a.columns, a.rows[i]);
    }
  }

  /** Appending two tables with the same header, without repeated names,
      is concatenation of their rows. */
  lemma AppendSameColumns(a: Frame, b: Frame)
    requires a.columns == b.columns && NoDuplicates(a.columns)
    requires Rectangular(a) && Rectangular(b)
    ensures Append(a, b) == Frame(a.columns, a.rows + b.rows)
  {
    var u := Union(a.columns, b.columns);
    FilterNone(b.columns, c => c !in a.columns);
    assert u == a.columns;
    forall i | 0 <= i < |a.rows| ensures RealignRows(a.columns, a.rows, u)[i] == a.rows[i] {
      RealignSame(a.columns, a.rows[i]);
    }
    forall i | 0 <= i < |b.rows| ensures RealignRows(b.columns, b.rows, u)[i] == b.rows[i] {
      RealignSame(b.columns, b.rows[i]);
    }
  }

  /** The values of a text column passed through `g`, as `df[name].apply(g)`
      does for a function that accepts only strings. */
  function ApplyText(f: Frame, name: string, g: string -> Cell): (r: Result<seq<Cell>, FrameError>)
    requires Rectangular(f)
    ensures r.Ok? <==> name in f.columns && forall i | 0 <= i < |f.rows| :: Get(f.columns, f.rows[i], name).Str?
    ensures r.Err? ==> r.error == if name in f.columns then NotText(name) else KeyError(name)
    ensures r.Ok? ==> |r.value| == |f.rows| &&
                      forall i | 0 <= i < |f.rows| :: r.value[i] == g(Get(f.columns, f.rows[i], name).s)
  {
    if name !in f.columns then Err(KeyError(name))
    else if forall i | 0 <= i < |f.rows| :: Get(f.columns, f.rows[i], name).Str? then
      Ok(seq(|f.rows|, i requires 0 <= i < |f.rows| => g(Get(f.columns, f.rows[i], name).s)))
    else Err(NotText(name))
  }

  /** One row of `df.explode(column)` at position `j`: a list of k >= 1 values
      gives k copies of the row, each holding one value; an empty list gives
      the row once with a missing value; any other cell leaves the row as it is. */
  function ExplodeRow(row: seq<Cell>, j: nat): (r: seq<seq<Cell>>)
  {
    if j < |row| && row[j].Items? then
      if row[j].items == [] then [row[j := Missing]]
      else seq(|row[j].items|, m requires 0 <= m < |row[j].items| => row[j := Str(row[j].items[m])])
    else [row]
  }

  function ExplodeRows(rows: seq<seq<Cell>>, j: nat): (r: seq<seq<Cell>>)
    decreases |rows|
  {
    if rows == [] then [] else ExplodeRows(rows[..|rows| - 1], j) + ExplodeRow(rows[|rows| - 1], j)
  }

  /** `df.explode(name)`. */
  function Explode(f: Frame, name: string): (r: Result<Frame, FrameError>)
    ensures r.Ok? <==> name in f.columns
    ensures r.Err? ==> r.error == KeyError(name)
  {
    if name in f.columns then Ok(Frame(f.columns, ExplodeRows(f.rows, IndexOf(f.columns, name))))
    else Err(KeyError(name))
  }

  lemma {:induction false} ExplodeRowsShape(rows: seq<seq<Cell>>, j: nat, n: nat)
    requires forall i | 0 <= i < |rows| :: |rows[i]| == n
    ensures forall i | 0 <= i < |ExplodeRows(rows, j)| :: |ExplodeRows(rows, j)[i]| == n
    decreases |rows|
  {
    if rows != [] {
      ExplodeRowsShape(rows[..|rows| - 1], j, n);
    }
  }

  /** Exploding keeps every row as wide as the header. */
  lemma ExplodeRectangular(f: Frame, name: string)
    requires Rectangular(f) && name in f.columns
    ensures Rectangular(Explode(f, name).value)
  {
    ExplodeRowsShape(f.rows, IndexOf(f.columns, name), |f.columns|);
  }

  /** What `.str.replace("$", "")` makes of one cell: text loses its dollar
      signs; a cell that is not text becomes missing. */
  function StripCell(c: Cell): (r: Cell)
    ensures c.Str? ==> r == Str(Text.RemoveDollar(c.s))
    ensures !c.Str? ==> r == Missing
  {
    if c.Str? then Str(Text.RemoveDollar(c.s)) else Missing
  }

  /** `df[name].str.replace("$", "")`. */
  function StrRemoveDollar(f: Frame, name: string): (r: Result<seq<Cell>, FrameError>)
    ensures r.Ok? <==> name in f.columns
    ensures r.Err? ==> r.error == KeyError(name)
    ensures r.Ok? ==> |r.value| == |f.rows| &&
                      forall i | 0 <= i < |f.rows| :: r.value[i] == StripCell(Get(f.columns, f.rows[i], name))
  {
    if name !in f.columns then Err(KeyError(name))
    else Ok(seq(|f.rows|, i requires 0 <= i < |f.rows| => StripCell(Get(f.columns, f.rows[i], name))))
  }

  /** The rows one row becomes when a list of values is placed in a new last
      column and exploded: one copy per value, or a single copy holding a
      missing value when the list is empty. */
  function Spread(row: seq<Cell>, values: seq<string>): (r: seq<seq<Cell>>)
  {
    if values == [] then [row + [Missing]]
    else seq(|values|, m requires 0 <= m < |values| => row + [Str(values[m])])
  }

  function SpreadRows(rows: seq<seq<Cell>>, lists: seq<seq<string>>): (r: seq<seq<Cell>>)
    requires |lists| == |rows|
    decreases |rows|
  {
    if rows == [] then []
    else SpreadRows(rows[..|rows| - 1], lists[..|rows| - 1]) + Spread(rows[|rows| - 1], lists[|rows| - 1])
  }

  lemma {:induction false} ExplodeRowsSpread(tagged: seq<seq<Cell>>, rows: seq<seq<Cell>>, lists: seq<seq<string>>, j: nat)
    requires |lists| == |rows| == |tagged|
    requires forall i | 0 <= i < |rows| :: |rows[i]| == j && tagged[i] == rows[i] + [Items(lists[i])]
    ensures ExplodeRows(tagged, j) == SpreadRows(rows, lists)
    decreases |rows|
  {
    if rows != [] {
      var n := |rows| - 1;
      ExplodeRowsSpread(tagged[..n], rows[..n], lists[..n], j);
      var row, ts := rows[n], lists[n];
      if ts == [] {
        assert tagged[n][j := Missing] == row + [Missing];
      } else {
        assert forall m | 0 <= m < |ts| :: tagged[n][j := Str(ts[m])] == row + [Str(ts[m])];
      }
    }
  }

  /** Putting a list-valued column at the end and exploding it: every row is
      spread over its own list. */
  lemma ExplodeNewColumn(f: Frame, name: string, lists: seq<seq<string>>)
    requires Rectangular(f) && name !in f.columns && |lists| == |f.rows|
    ensures Explode(Assign(f, name, seq(|lists|, i requires 0 <= i < |lists| => Items(lists[i]))), name)
            == Ok(Frame(f.columns + [name], SpreadRows(f.rows, lists)))
  {
    var values := seq(|lists|, i requires 0 <= i < |lists| => Items(lists[i]));
    var g := Assign(f, name, values);
    assert g.columns == f.columns + [name];
    var k := IndexOf(g.columns, name);
    assert k == |f.columns| by {
      assert g.columns[|f.columns|] == name;
      assert forall i | 0 <= i < |f.columns| :: g.columns[i] != name;
    }
    ExplodeRowsSpread(g.rows, f.rows, lists, k);
  }

  /** The number of rows spreading gives: one per value, and one for an empty list. */
  function SpreadSize(lists: seq<seq<string>>): nat
    decreases |lists|
  {
    if lists == [] then 0
    else SpreadSize(lists[..|lists| - 1]) + (if lists[|lists| - 1] == [] then 1 else |lists[|lists| - 1]|)
  }

  lemma {:induction false} SpreadRowsCount(rows: seq<seq<Cell>>, lists: seq<seq<string>>)
    requires |lists| == |rows|
    ensures |SpreadRows(rows, lists)| == SpreadSize(lists)
    decreases |rows|
  {
    if rows != [] {
      SpreadRowsCount(rows[..|rows| - 1], lists[..|rows| - 1]);
    }
  }

  /** Every dollar sign deleted from every value of a list. */
  function DollarFree(values: seq<string>): (r: seq<string>)
    ensures |r| == |values|
    ensures forall m | 0 <= m < |values| :: r[m] == Text.RemoveDollar(values[m])
  {
    seq(|values|, m requires 0 <= m < |values| => Text.RemoveDollar(values[m]))
  }

  function DollarFreeLists(lists: seq<seq<string>>): (r: seq<seq<string>>)
    ensures |r| == |lists|
    ensures forall i | 0 <= i < |lists| :: r[i] == DollarFree(lists[i])
  {
    seq(|lists|, i requires 0 <= i < |lists| => DollarFree(lists[i]))
  }

  /** Rows with the cell at position `n` passed through StripCell. */
  function StripAt(rows: seq<seq<Cell>>, n: nat): (r: seq<seq<Cell>>)
    requires forall i | 0 <= i < |rows| :: n < |rows[i]|
    ensures |r| == |rows|
    ensures forall i | 0 <= i < |rows| :: r[i] == rows[i][n := StripCell(rows[i][n])]
  {
    seq(|rows|, i requires 0 <= i < |rows| => rows[i][n := StripCell(rows[i][n])])
  }

  lemma {:induction false} SpreadRowsShape(rows: seq<seq<Cell>>, lists: seq<seq<string>>, n: nat)
    requires |lists| == |rows|
    requires forall i | 0 <= i < |rows| :: |rows[i]| == n
    ensures forall i | 0 <= i < |SpreadRows(rows, lists)| :: |SpreadRows(rows, lists)[i]| == n + 1
    decreases |rows|
  {
    if rows != [] {
      SpreadRowsShape(rows[..|rows| - 1], lists[..|rows| - 1], n);
    }
  }

  /** The copies of one row spread over dollar-free values. */
  lemma SpreadCover(row: seq<Cell>, values: seq<string>)
    requires forall m | 0 <= m < |values| :: '$' !in values[m]
    ensures |Spread(row, values)| > 0 && Spread(row, values)[0][..|row|] == row
    ensures forall o: seq<Cell> | o in Spread(row, values) ::
              |o| == |row| + 1 && o[..|row|] == row
              && (o[|row|] == Missing || (o[|row|].Str? && '$' !in o[|row|].s))
  {
    var out := Spread(row, values);
    forall o: seq<Cell> | o in out
      ensures |o| == |row| + 1 && o[..|row|] == row
      ensures o[|row|] == Missing || (o[|row|].Str? && '$' !in o[|row|].s)
    {
      var m :| 0 <= m < |out| && out[m] == o;
      if values != [] {
        assert o == row + [Str(values[m])];
      }
    }
    assert out[0] in out;
  }

  /** The first `n` cells of every row. */
  function Prefixes(rows: seq<seq<Cell>>, n: nat): (r: seq<seq<Cell>>)
    requires forall i | 0 <= i < |rows| :: n <= |rows[i]|
    ensures |r| == |rows| && forall i | 0 <= i < |rows| :: r[i] == rows[i][..n]
  {
    seq(|rows|, i requires 0 <= i < |rows| => rows[i][..n])
  }

  /** Spreading rows of width `n` over dollar-free lists: every result row is
      an input row followed by a missing or dollar-free value. */
  lemma {:induction false} SpreadRowsCover(rows: seq<seq<Cell>>, lists: seq<seq<string>>, n: nat)
    requires |lists| == |rows|
    requires forall i | 0 <= i < |rows| :: |rows[i]| == n
    requires forall i, m | 0 <= i < |lists| && 0 <= m < |lists[i]| :: '$' !in lists[i][m]
    ensures forall o: seq<Cell> | o in SpreadRows(rows, lists) ::
              |o| == n + 1 && o[..n] in rows && (o[n] == Missing || (o[n].Str? && '$' !in o[n].s))
    decreases |rows|
  {
    if rows != [] {
      var k := |rows| - 1;
      var rows', lists' := rows[..k], lists[..k];
      SpreadRowsCover(rows', lists', n);
      var before := SpreadRows(rows', lists');
      var last := Spread(rows[k], lists[k]);
      var all := SpreadRows(rows, lists);
      assert all == before + last;
      SpreadCover(rows[k], lists[k]);
      forall o: seq<Cell> | o in all
        ensures |o| == n + 1 && o[..n] in rows && (o[n] == Missing || (o[n].Str? && '$' !in o[n].s))
      {
        if o in before {
          assert o[..n] in rows';
        } else {
          assert o in last;
        }
      }
    }
  }

  /** Spreading loses no row: every input row is the prefix of some result row. */
  lemma {:induction false} SpreadRowsKeepsRows(rows: seq<seq<Cell>>, lists: seq<seq<string>>, n: nat)
    requires |lists| == |rows|
    requires forall i | 0 <= i < |rows| :: |rows[i]| == n
    ensures forall i | 0 <= i < |SpreadRows(rows, lists)| :: n <= |SpreadRows(rows, lists)[i]|
    ensures forall i | 0 <= i < |rows| :: rows[i] in Prefixes(SpreadRows(rows, lists), n)
    decreases |rows|
  {
    SpreadRowsShape(rows, lists, n);
    if rows != [] {
      var k := |rows| - 1;
      var rows', lists' := rows[..k], lists[..k];
      var before := SpreadRows(rows', lists');
      var last := Spread(rows[k], lists[k]);
      var all := SpreadRows(rows, lists);
      assert all == before + last;
      assert forall i | 0 <= i < |before| :: |before[i]| == n + 1 by {
        SpreadRowsShape(rows', lists', n);
      }
      assert forall i | 0 <= i < |last| :: |last[i]| == n + 1;
      var pb, pl := Prefixes(before, n), Prefixes(last, n);
      assert forall i | 0 <= i < k :: rows'[i] in pb by {
        SpreadRowsKeepsRows(rows', lists', n);
      }
      assert Prefixes(all, n) == pb + pl;
      assert pl[0] == rows[k];
      forall i | 0 <= i < |rows| ensures rows[i] in pb + pl {
        if i < k {
          assert rows[i] == rows'[i];
        }
      }
    }
  }

  lemma StripAtConcat(a: seq<seq<Cell>>, b: seq<seq<Cell>>, n: nat)
    requires forall i | 0 <= i < |a| :: n < |a[i]|
    requires forall i | 0 <= i < |b| :: n < |b[i]|
    ensures StripAt(a + b, n) == StripAt(a, n) + StripAt(b, n)
  {
  }

  lemma StripSpread(row: seq<Cell>, ts: seq<string>)
    ensures forall i | 0 <= i < |Spread(row, ts)| :: |row| < |Spread(row, ts)[i]|
    ensures StripAt(Spread(row, ts), |row|) == Spread(row, DollarFree(ts))
  {
    var n := |row|;
    if ts == [] {
      StripLast(row, Missing);
    } else {
      var x := Spread(row, ts);
      forall m | 0 <= m < |ts| ensures StripAt(x, n)[m] == Spread(row, DollarFree(ts))[m] {
        assert x[m] == row + [Str(ts[m])];
        StripLast(row, Str(ts[m]));
      }
    }
  }

  /** Stripping the last cell of a row leaves the cells before it alone. */
  lemma StripLast(row: seq<Cell>, c: Cell)
    ensures (row + [c])[|row| := StripCell(c)] == row + [StripCell(c)]
  {
  }

  lemma {:induction false} StripSpreadRows(rows: seq<seq<Cell>>, lists: seq<seq<string>>, n: nat)
    requires |lists| == |rows|
    requires forall i | 0 <= i < |rows| :: |rows[i]| == n
    ensures forall i | 0 <= i < |SpreadRows(rows, lists)| :: n < |SpreadRows(rows, lists)[i]|
    ensures StripAt(SpreadRows(rows, lists), n) == SpreadRows(rows, DollarFreeLists(lists))
    decreases |rows|
  {
    SpreadRowsShape(rows, lists, n);
    if rows != [] {
      var k := |rows| - 1;
      var rows', lists' := rows[..k], lists[..k];
      StripSpreadRows(rows', lists', n);
      assert DollarFreeLists(lists)[..k] == DollarFreeLists(lists');
      assert DollarFreeLists(lists)[k] == DollarFree(lists[k]);
      StripSpread(rows[k], lists[k]);
      StripAtConcat(SpreadRows(rows', lists'), Spread(rows[k], lists[k]), n);
    }
  }
}
