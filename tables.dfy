/**
 * Data frames as the pipeline uses them: a list of column names and rows of cells.
 * Every non-metadata cell is an opaque string (files are read with `dtype=str`);
 * the metadata columns hold integers; `pd.NA` is `Null`.
 *
 * The pure operations below are the pandas/dask primitives the scripts call
 * (`reindex`, `assign`, `drop`, `rename`, `merge(how="left")`); `Frame` is a frame the
 * scripts update in place (`df.insert`, `df[c] = ...`).
 */
module Tables {
  import opened Wrappers
  import opened Text
  import opened Sorting

  datatype Cell = Null | Str(s: String) | Int(i: int)

  datatype Table = Table(names: seq<String>, rows: seq<seq<Cell>>)

  predicate Distinct<T(==)>(s: seq<T>) {
    forall i, j :: 0 <= i < j < |s| ==> s[i] != s[j]
  }

  predicate RowsFit(t: Table) {
    forall i :: 0 <= i < |t.rows| ==> |t.rows[i]| == |t.names|
  }

  /** Column names are unique (pandas de-duplicates parsed headers) and every row has one cell per column. */
  predicate WellFormed(t: Table) {
    Distinct(t.names) && RowsFit(t)
  }

  lemma {:induction false} DistinctCounts<T>(s: seq<T>, x: T)
    requires Distinct(s)
    ensures multiset(s)[x] <= 1
  {
    if s != [] {
      assert s == [s[0]] + s[1..];
      assert s[0] !in s[1..];
      DistinctCounts(s[1..], x);
    }
  }

  /** A rearrangement of a sequence without repeats has no repeats. */
  lemma DistinctPermutation<T>(a: seq<T>, b: seq<T>)
    requires Distinct(a) && multiset(a) == multiset(b)
    ensures Distinct(b)
  {
    forall i, j | 0 <= i < j < |b| ensures b[i] != b[j] {
      DistinctCounts(a, b[i]);
      TwoOccurrences(b, i, j);
    }
  }

  lemma TwoOccurrences<T>(b: seq<T>, i: nat, j: nat)
    requires i < j < |b|
    ensures b[i] == b[j] ==> multiset(b)[b[i]] >= 2
  {
    assert b == b[..j] + b[j..];
    assert b[i] in b[..j] && b[j] in b[j..];
    assert multiset(b)[b[j]] == multiset(b[..j])[b[j]] + multiset(b[j..])[b[j]];
  }

  /** Position of the first column called `c`. */
  function IndexOf(names: seq<String>, c: String): (r: Option<nat>)
    ensures r.Some? ==> r.value < |names| && names[r.value] == c
    ensures r.Some? ==> forall j :: 0 <= j < r.value ==> names[j] != c
    ensures r.None? <==> c !in names
  {
    if names == [] then None
    else if names[0] == c then Some(0)
    else match IndexOf(names[1..], c)
      case None => None
      case Some(k) => Some(k + 1)
  }

  lemma IndexOfDistinct(names: seq<String>, k: nat)
    requires Distinct(names) && k < |names|
    ensures IndexOf(names, names[k]) == Some(k)
  {}

  /** `astype(str)` of one cell: a missing value prints as "nan". */
  function CellText(c: Cell): String {
    match c
    case Null => "nan"
    case Str(s) => s
    case Int(i) => IntToString(i)
  }

  /** The value of column `c` in row `i`, or `Null` where the frame has no such column. */
  function CellAt(t: Table, i: nat, c: String): Cell
    requires RowsFit(t) && i < |t.rows|
  {
    match IndexOf(t.names, c)
    case None => Null
    case Some(k) => t.rows[i][k]
  }

  /**
   * `df.reindex(columns=cols)` (equally: add every missing column as `pd.NA`, then `df[cols]`):
   * exactly the columns `cols`, in that order; shared columns keep their values, the others are null.
   */
  function Reindex(t: Table, cols: seq<String>): (r: Table)
    requires RowsFit(t)
    ensures r.names == cols && |r.rows| == |t.rows| && RowsFit(r)
    ensures forall i, k :: 0 <= i < |t.rows| && 0 <= k < |cols| ==> r.rows[i][k] == CellAt(t, i, cols[k])
  {
    Table(cols, seq(|t.rows|, i requires 0 <= i < |t.rows| =>
      seq(|cols|, k requires 0 <= k < |cols| => CellAt(t, i, cols[k]))))
  }

  /** A column that `Reindex` keeps has the cells it had. */
  lemma ReindexCellAt(t: Table, cols: seq<String>, i: nat, c: String)
    requires RowsFit(t) && i < |t.rows| && c in cols
    ensures CellAt(Reindex(t, cols), i, c) == CellAt(t, i, c)
  {
    var k := IndexOf(cols, c).value;
    assert Reindex(t, cols).rows[i][k] == CellAt(t, i, cols[k]);
  }

  /** Re-aligning a frame to its own column order changes nothing. */
  lemma ReindexSelf(t: Table)
    requires WellFormed(t)
    ensures Reindex(t, t.names) == t
  {
    var r := Reindex(t, t.names);
    forall i | 0 <= i < |t.rows| ensures r.rows[i] == t.rows[i] {
      forall k | 0 <= k < |t.names| ensures r.rows[i][k] == t.rows[i][k] {
        IndexOfDistinct(t.names, k);
      }
    }
  }

  /** `df[name] = col` / `ddf.assign(name=col)`: replace the column in place, or append it. */
  function Assign(t: Table, name: String, col: seq<Cell>): (r: Table)
    requires RowsFit(t) && |col| == |t.rows|
    ensures RowsFit(r) && |r.rows| == |t.rows|
    ensures name in t.names ==> r.names == t.names
    ensures name !in t.names ==> r.names == t.names + [name]
    ensures forall i :: 0 <= i < |t.rows| ==> CellAt(r, i, name) == col[i]
    ensures forall i, c :: 0 <= i < |t.rows| && c != name ==> CellAt(r, i, c) == CellAt(t, i, c)
  {
    match IndexOf(t.names, name)
    case Some(k) =>
      Table(t.names, seq(|t.rows|, i requires 0 <= i < |t.rows| => t.rows[i][k := col[i]]))
    case None =>
      IndexOfAppendAll(t.names, name);
      Table(t.names + [name], seq(|t.rows|, i requires 0 <= i < |t.rows| => t.rows[i] + [col[i]]))
  }

  lemma IndexOfAppendAll(names: seq<String>, x: String)
    requires x !in names
    ensures IndexOf(names + [x], x) == Some(|names|)
    ensures forall c :: c != x ==> IndexOf(names + [x], c) == IndexOf(names, c)
  {
    IndexOfAppend(names, x, x);
    forall c | c != x ensures IndexOf(names + [x], c) == IndexOf(names, c) {
      IndexOfAppend(names, x, c);
    }
  }

  lemma {:induction false} IndexOfAppend(names: seq<String>, x: String, c: String)
    ensures IndexOf(names + [x], c) == if c in names then IndexOf(names, c) else if c == x then Some(|names|) else None
  {
    if names != [] {
      assert (names + [x])[1..] == names[1..] + [x];
      IndexOfAppend(names[1..], x, c);
    }
  }

  /** Looking a name up behind a prefix that does not contain it. */
  lemma IndexOfBehind(pre: seq<String>, names: seq<String>, c: String)
    requires c !in pre
    ensures IndexOf(names, c).None? ==> IndexOf(pre + names, c).None?
    ensures IndexOf(names, c).Some? ==> IndexOf(pre + names, c) == Some(|pre| + IndexOf(names, c).value)
  {
    match IndexOf(names, c)
    case None =>
      assert forall x :: x in pre + names ==> x in pre || x in names;
    case Some(j) =>
      FoundBehind(pre, names, c, j);
  }

  lemma FoundBehind(pre: seq<String>, names: seq<String>, c: String, j: nat)
    requires c !in pre && j < |names| && names[j] == c
    requires forall k :: 0 <= k < j ==> names[k] != c
    ensures IndexOf(pre + names, c) == Some(|pre| + j)
  {
    var all := pre + names;
    forall k | 0 <= k < |pre| + j ensures all[k] != c {
      if k < |pre| {
        assert all[k] == pre[k];
      } else {
        assert all[k] == names[k - |pre|];
      }
    }
    IndexOfFirst(all, c, |pre| + j);
  }

  /** The position of the first occurrence is the one `IndexOf` finds. */
  lemma IndexOfFirst(names: seq<String>, c: String, k: nat)
    requires k < |names| && names[k] == c
    requires forall j :: 0 <= j < k ==> names[j] != c
    ensures IndexOf(names, c) == Some(k)
  {
    assert c in names;
  }

  /** The column names kept by `drop`. */
  function Without(names: seq<String>, gone: seq<String>): (r: seq<String>)
    ensures forall c :: c in r <==> c in names && c !in gone
    ensures |r| <= |names|
  {
    if names == [] then [] else (if names[0] in gone then [] else [names[0]]) + Without(names[1..], gone)
  }

  lemma {:induction false} WithoutDistinct(s: seq<String>, gone: seq<String>)
    requires Distinct(s)
    ensures Distinct(Without(s, gone))
  {
    if s != [] {
      WithoutDistinct(s[1..], gone);
      assert s[0] !in s[1..];
    }
  }

  /** Dropping depends only on which of the list's own names are to go. */
  lemma {:induction false} WithoutSameOn(s: seq<String>, g1: seq<String>, g2: seq<String>)
    requires forall c :: c in s ==> (c in g1 <==> c in g2)
    ensures Without(s, g1) == Without(s, g2)
  {
    if s != [] {
      WithoutSameOn(s[1..], g1, g2);
    }
  }

  /** A name that is not yet in a list of unique names keeps it unique when appended. */
  lemma DistinctAppend<T>(s: seq<T>, x: T)
    requires Distinct(s) && x !in s
    ensures Distinct(s + [x])
  {
    forall i, j | 0 <= i < j < |s + [x]| ensures (s + [x])[i] != (s + [x])[j] {
      assert (s + [x])[i] == s[i];
      if j < |s| { assert (s + [x])[j] == s[j]; }
    }
  }

  /** Dropping works column by column: it splits over a concatenation. */
  lemma {:induction false} WithoutAppend(a: seq<String>, b: seq<String>, gone: seq<String>)
    ensures Without(a + b, gone) == Without(a, gone) + Without(b, gone)
  {
    if a != [] {
      assert (a + b)[1..] == a[1..] + b;
      WithoutAppend(a[1..], b, gone);
    } else {
      assert a + b == b;
    }
  }

  /** Dropping names that are not there leaves the list as it was. */
  lemma {:induction false} WithoutNothing(s: seq<String>, gone: seq<String>)
    requires forall c :: c in gone ==> c !in s
    ensures Without(s, gone) == s
  {
    if s != [] {
      WithoutNothing(s[1..], gone);
      assert s == [s[0]] + s[1..];
    }
  }

  /** `df.drop(columns=gone)`: raises `KeyError` when one of them is absent. */
  function Drop(t: Table, gone: seq<String>): (r: Result<Table>)
    requires RowsFit(t)
    ensures r.Err? <==> exists c :: c in gone && c !in t.names
    ensures r.Ok? ==> r.value.names == Without(t.names, gone) && |r.value.rows| == |t.rows| && RowsFit(r.value)
    ensures r.Ok? ==> forall i, c :: 0 <= i < |t.rows| && c !in gone ==> CellAt(r.value, i, c) == CellAt(t, i, c)
  {
    if exists c :: c in gone && c !in t.names then Err(MissingKey)
    else
      Ok(Reindex(t, Without(t.names, gone)))
  }

  /** `df.rename(columns={from: to})`: a no-op when `from` is absent. */
  function Rename(t: Table, from: String, to: String): (r: Table)
    ensures |r.names| == |t.names| && r.rows == t.rows
    ensures forall k :: 0 <= k < |t.names| ==> r.names[k] == if t.names[k] == from then to else t.names[k]
  {
    Table(Renamed(t.names, from, to), t.rows)
  }

  function Renamed(names: seq<String>, from: String, to: String): (r: seq<String>)
    ensures |r| == |names|
    ensures forall k :: 0 <= k < |names| ==> r[k] == if names[k] == from then to else names[k]
  {
    seq(|names|, k requires 0 <= k < |names| => if names[k] == from then to else names[k])
  }

  /** Renaming a column that was appended after names that do not include it. */
  lemma RenamedLast(names: seq<String>, extra: seq<String>, from: String, to: String)
    requires extra != [] && from !in names && from == extra[|extra| - 1] && from !in extra[..|extra| - 1]
    ensures Renamed(names + extra, from, to) == names + extra[..|extra| - 1] + [to]
  {
    var r := Renamed(names + extra, from, to);
    var e := names + extra[..|extra| - 1] + [to];
    forall k | 0 <= k < |r| ensures r[k] == e[k] {
      if k < |names| {
        assert (names + extra)[k] == names[k];
      } else if k < |names| + |extra| - 1 {
        assert (names + extra)[k] == extra[k - |names|] == extra[..|extra| - 1][k - |names|];
      }
    }
  }

  /** Two name lists that hold `c1` and `c2` at exactly the same positions find them at the same place. */
  lemma {:induction false} IndexOfSame(n1: seq<String>, n2: seq<String>, c1: String, c2: String)
    requires |n1| == |n2| && forall k :: 0 <= k < |n1| ==> (n1[k] == c1 <==> n2[k] == c2)
    ensures IndexOf(n2, c2) == IndexOf(n1, c1)
  {
    if n1 != [] {
      IndexOfSame(n1[1..], n2[1..], c1, c2);
    }
  }

  /**
   * A rename onto a fresh name moves the column: its cells are found under the new name,
   * the old name is gone and every other column is untouched.
   */
  lemma RenameCells(t: Table, from: String, to: String, i: nat, c: String)
    requires RowsFit(t) && i < |t.rows| && from != to && to !in t.names
    ensures RowsFit(Rename(t, from, to)) && from !in Rename(t, from, to).names
    ensures CellAt(Rename(t, from, to), i, to) == CellAt(t, i, from)
    ensures c != from && c != to ==> CellAt(Rename(t, from, to), i, c) == CellAt(t, i, c)
  {
    var r := Rename(t, from, to);
    IndexOfSame(t.names, r.names, from, to);
    if c != from && c != to {
      IndexOfSame(t.names, r.names, c, c);
    }
  }

  /** Appending names does not move the first occurrence of a name that is already there. */
  lemma {:induction false} IndexOfFront(names: seq<String>, extra: seq<String>, c: String)
    requires c in names
    ensures IndexOf(names + extra, c) == IndexOf(names, c)
  {
    if names[0] != c {
      assert (names + extra)[1..] == names[1..] + extra;
      IndexOfFront(names[1..], extra, c);
    }
  }

  /** `find_col_ci` / `find_col_case_insensitive`: the first column equal to `target` ignoring case. */
  function FindColCi(cols: seq<String>, target: String): (r: Option<String>)
    ensures r.Some? ==> r.value in cols && Lower(r.value) == Lower(target)
    ensures r.None? <==> forall c :: c in cols ==> Lower(c) != Lower(target)
  {
    if cols == [] then None
    else if Lower(cols[0]) == Lower(target) then Some(cols[0])
    else FindColCi(cols[1..], target)
  }

  /** The column found is the first that matches: every column before it differs ignoring case. */
  lemma {:induction false} FindColCiFirst(cols: seq<String>, target: String, k: nat)
    requires k < |cols| && Lower(cols[k]) == Lower(target)
    ensures FindColCi(cols, target).Some?
    ensures exists j :: 0 <= j <= k && FindColCi(cols, target) == Some(cols[j])
                  && forall i :: 0 <= i < j ==> Lower(cols[i]) != Lower(target)
  {
    if Lower(cols[0]) != Lower(target) {
      FindColCiFirst(cols[1..], target, k - 1);
      var j :| 0 <= j <= k - 1 && FindColCi(cols[1..], target) == Some(cols[1..][j])
                  && forall i :: 0 <= i < j ==> Lower(cols[1..][i]) != Lower(target);
      assert FindColCi(cols, target) == Some(cols[j + 1]);
      assert forall i :: 0 <= i < j + 1 ==> Lower(cols[i]) != Lower(target) by {
        forall i | 0 <= i < j + 1 ensures Lower(cols[i]) != Lower(target) {
          if i > 0 { assert cols[i] == cols[1..][i - 1]; }
        }
      }
    }
  }

  /** Columns appended after the list that do not match leave the search result as it was. */
  lemma {:induction false} FindColCiAppend(cols: seq<String>, extra: seq<String>, target: String)
    requires forall c :: c in extra ==> Lower(c) != Lower(target)
    ensures FindColCi(cols + extra, target) == FindColCi(cols, target)
  {
    if cols != [] {
      assert (cols + extra)[1..] == cols[1..] + extra;
      FindColCiAppend(cols[1..], extra, target);
    } else {
      assert cols + extra == extra;
    }
  }

  /** `key=str.lower` */
  predicate LowerLe(a: String, b: String) {
    StrLe(Lower(a), Lower(b))
  }

  lemma LowerLeOrder()
    ensures TotalPreorder(LowerLe) && Transitive(LowerLe)
  {
    forall a, b ensures LowerLe(a, b) || LowerLe(b, a) { StrLeTotal(Lower(a), Lower(b)); }
    forall a, b, c | LowerLe(a, b) && LowerLe(b, c) ensures LowerLe(a, c) {
      StrLeTransitive(Lower(a), Lower(b), Lower(c));
    }
  }

  /** `df.insert(pos, name, col)` once the name is known to be new. */
  function InsertColumn(t: Table, pos: nat, name: String, col: seq<Cell>): (r: Table)
    requires RowsFit(t) && pos <= |t.names| && |col| == |t.rows|
    ensures r.names == t.names[..pos] + [name] + t.names[pos..]
    ensures |r.rows| == |t.rows| && RowsFit(r)
    ensures forall i :: 0 <= i < |t.rows| ==> r.rows[i] == t.rows[i][..pos] + [col[i]] + t.rows[i][pos..]
  {
    Table(t.names[..pos] + [name] + t.names[pos..],
          seq(|t.rows|, i requires 0 <= i < |t.rows| => t.rows[i][..pos] + [col[i]] + t.rows[i][pos..]))
  }

  predicate ColumnsFit(t: Table, cols: seq<seq<Cell>>) {
    forall k :: 0 <= k < |cols| ==> |cols[k]| == |t.rows|
  }

  /** `with_columns` of columns computed beforehand from `t`: each one replaces its name's column or is appended. */
  function AssignAll(t: Table, names: seq<String>, cols: seq<seq<Cell>>): (r: Table)
    requires RowsFit(t) && |cols| == |names| && ColumnsFit(t, cols)
    ensures RowsFit(r) && |r.rows| == |t.rows|
  {
    if names == [] then t
    else
      var n := |names| - 1;
      Assign(AssignAll(t, names[..n], cols[..n]), names[n], cols[n])
  }

  /** The input's columns stay first and in place; the new names are added. */
  lemma {:induction false} AssignAllNames(t: Table, names: seq<String>, cols: seq<seq<Cell>>, c: String)
    requires RowsFit(t) && |cols| == |names| && ColumnsFit(t, cols)
    ensures |AssignAll(t, names, cols).names| >= |t.names| && AssignAll(t, names, cols).names[..|t.names|] == t.names
    ensures c in AssignAll(t, names, cols).names <==> c in t.names || c in names
  {
    if names != [] {
      var n := |names| - 1;
      AssignAllNames(t, names[..n], cols[..n], c);
      var prev := AssignAll(t, names[..n], cols[..n]).names;
      assert (prev + [names[n]])[..|t.names|] == prev[..|t.names|];
      assert names == names[..n] + [names[n]];
    }
  }

  /** Under distinct names, each named column holds its new values. */
  lemma {:induction false} AssignAllAt(t: Table, names: seq<String>, cols: seq<seq<Cell>>, i: nat, k: nat)
    requires RowsFit(t) && |cols| == |names| && ColumnsFit(t, cols) && Distinct(names)
    requires i < |t.rows| && k < |names|
    ensures CellAt(AssignAll(t, names, cols), i, names[k]) == cols[k][i]
  {
    var n := |names| - 1;
    if k < n {
      var init := names[..n];
      assert init[k] == names[k] && cols[..n][k] == cols[k];
      assert names[k] != names[n];
      assert Distinct(init) by {
        forall a, b | 0 <= a < b < n ensures init[a] != init[b] {
          assert init[a] == names[a] && init[b] == names[b];
        }
      }
      AssignAllAt(t, init, cols[..n], i, k);
    }
  }

  /** A column whose name is not assigned keeps its values. */
  lemma {:induction false} AssignAllElse(t: Table, names: seq<String>, cols: seq<seq<Cell>>, i: nat, c: String)
    requires RowsFit(t) && |cols| == |names| && ColumnsFit(t, cols)
    requires i < |t.rows| && c !in names
    ensures CellAt(AssignAll(t, names, cols), i, c) == CellAt(t, i, c)
  {
    if names != [] {
      var n := |names| - 1;
      assert names[n] in names;
      assert c !in names[..n];
      AssignAllElse(t, names[..n], cols[..n], i, c);
    }
  }

  function Nulls(n: nat): (r: seq<Cell>)
    ensures |r| == n && forall i :: 0 <= i < n ==> r[i] == Null
  {
    seq(n, _ => Null)
  }

  /** Frames that agree cell by cell on every column name re-align to the same frame. */
  lemma ReindexCellwise(a: Table, b: Table, cols: seq<String>)
    requires RowsFit(a) && RowsFit(b) && |a.rows| == |b.rows|
    requires forall i, c :: 0 <= i < |a.rows| ==> CellAt(a, i, c) == CellAt(b, i, c)
    ensures Reindex(a, cols) == Reindex(b, cols)
  {
    var ra, rb := Reindex(a, cols), Reindex(b, cols);
    forall i | 0 <= i < |a.rows| ensures ra.rows[i] == rb.rows[i] {
      forall k | 0 <= k < |cols| ensures ra.rows[i][k] == rb.rows[i][k] {
        assert CellAt(a, i, cols[k]) == CellAt(b, i, cols[k]);
      }
    }
  }

  /** A frame updated in place. */
  class Frame {
    var names: seq<String>
    var rows: seq<seq<Cell>>

    ghost predicate Valid()
      reads this
    {
      WellFormed(Table(names, rows))
    }

    function Value(): Table
      reads this
    {
      Table(names, rows)
    }

    constructor (t: Table)
      requires WellFormed(t)
      ensures Valid() && Value() == t
    {
      names := t.names;
      rows := t.rows;
    }

    /** `df.insert(pos, name, col)`: fails (pandas raises `ValueError`) when `name` is already a column. */
    method Insert(pos: nat, name: String, col: seq<Cell>) returns (ok: bool)
      requires Valid() && pos <= |names| && |col| == |rows|
      modifies this
      ensures Valid()
      ensures ok <==> name !in old(names)
      ensures Value() == if ok then InsertColumn(old(Value()), pos, name, col) else old(Value())
    {
      if name in names {
        return false;
      }
      var t := InsertColumn(Value(), pos, name, col);
      assert Distinct(t.names) by {
        assert multiset(t.names) == multiset(names[..pos]) + multiset{name} + multiset(names[pos..]);
        assert names == names[..pos] + names[pos..];
        forall i, j | 0 <= i < j < |t.names| ensures t.names[i] != t.names[j] {
          if i < pos && j > pos { assert t.names[j] == names[j - 1]; }
          else if i > pos { assert t.names[i] == names[i - 1] && t.names[j] == names[j - 1]; }
        }
      }
      names, rows := t.names, t.rows;
      return true;
    }

    /** `df[name] = col`. */
    method SetColumn(name: String, col: seq<Cell>)
      requires Valid() && |col| == |rows|
      modifies this
      ensures Valid()
      ensures Value() == Assign(old(Value()), name, col)
    {
      var t := Assign(Value(), name, col);
      assert Distinct(t.names) by {
        if name !in names {
          forall i, j | 0 <= i < j < |t.names| ensures t.names[i] != t.names[j] {
            if j == |names| { assert t.names[i] == names[i]; }
          }
        }
      }
      names, rows := t.names, t.rows;
    }

    /**
     * `for c in cols: if c not in df.columns: df[c] = pd.NA` followed by `df = df[cols]`:
     * the frame ends up with exactly the columns `cols`, every shared column keeps its values
     * and the others are null; no row is added or dropped.
     */
    method PadTo(cols: seq<String>)
      requires Valid() && Distinct(cols)
      modifies this
      ensures Valid()
      ensures Value() == Reindex(old(Value()), cols)
      ensures names == cols && |rows| == old(|rows|)
      ensures forall i, k :: 0 <= i < |rows| && 0 <= k < |cols| ==> rows[i][k] == CellAt(old(Value()), i, cols[k])
    {
      ghost var orig := Value();
      for j := 0 to |cols|
        invariant Valid() && |rows| == |orig.rows|
        invariant forall c :: c in orig.names ==> c in names
        invariant forall k :: 0 <= k < j ==> cols[k] in names
        invariant forall i, c :: 0 <= i < |rows| ==> CellAt(Value(), i, c) == CellAt(orig, i, c)
      {
        if cols[j] !in names {
          SetColumn(cols[j], Nulls(|rows|));
        }
      }
      ReindexCellwise(Value(), orig, cols);
      ReindexTo(cols);
    }

    /** `df = df.reindex(columns=cols)` */
    method ReindexTo(cols: seq<String>)
      requires Valid() && Distinct(cols)
      modifies this
      ensures Valid()
      ensures Value() == Reindex(old(Value()), cols)
    {
      var t := Reindex(Value(), cols);
      names, rows := t.names, t.rows;
    }
  }
}
