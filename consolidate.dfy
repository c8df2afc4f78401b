/**
 * The two passes of `parquet.py`. Pass 1 reads only headers and collects, per survey module,
 * the union of all column names. Pass 2 reads every file in full, adds the period columns
 * `anio`, `trimestre` and `anio_trimestre`, pads it to the module's canonical column list
 * and hands the files, in order, to the single-file writer.
 */
module Consolidate {
  import opened Wrappers
  import opened Text
  import opened Sorting
  import opened Tables
  import opened Sniff
  import opened Classify
  import opened Writer

  /** One entry of pass 1's `info`: the file, its module, the period in its name, how to read it. */
  datatype FileInfo = FileInfo(file: CsvFile, mod: String, period: Option<(int, int)>, enc: Encoding, delim: char, cols: seq<String>)

  // ---------------------------------------------------------------- pass 1

  /** What pass 1 records for one file: nothing when no module is recognised or no header is found. */
  function InfoOf(f: CsvFile): (r: seq<FileInfo>)
    ensures |r| <= 1
    ensures forall i :: 0 <= i < |r| ==> r[i].file == f && r[i].mod in Modules && |r[i].cols| > 0
  {
    var name := Basename(f.path);
    var m := DetectModule(name);
    var h := HeadersOnlySpec(f);
    if m.None? || h.Err? then []
    else
      var fi := FileInfo(f, m.value, ParseYearTrimFromName(name), h.value.enc, h.value.delim, h.value.cols);
      assert fi.file == f && fi.mod in Modules && |fi.cols| > 0;
      [fi]
  }

  /** `file_info` after pass 1: one record per file whose module and header were found, in order. */
  function Pass1Info(files: seq<CsvFile>): (r: seq<FileInfo>)
    ensures |r| <= |files|
    ensures forall i :: 0 <= i < |r| ==> r[i].file in files && r[i].mod in Modules && |r[i].cols| > 0
  {
    if files == [] then []
    else
      var prev := Pass1Info(files[..|files| - 1]);
      var tail := InfoOf(files[|files| - 1]);
      Pass1InfoJoin(files, prev, tail);
      prev + tail
  }

  lemma Pass1InfoJoin(files: seq<CsvFile>, prev: seq<FileInfo>, tail: seq<FileInfo>)
    requires files != []
    requires forall i :: 0 <= i < |prev| ==> prev[i].file in files[..|files| - 1] && prev[i].mod in Modules && |prev[i].cols| > 0
    requires forall i :: 0 <= i < |tail| ==> tail[i].file == files[|files| - 1] && tail[i].mod in Modules && |tail[i].cols| > 0
    ensures forall i :: 0 <= i < |prev + tail| ==> (prev + tail)[i].file in files && (prev + tail)[i].mod in Modules && |(prev + tail)[i].cols| > 0
  {
    var r := prev + tail;
    forall i | 0 <= i < |r| ensures r[i].file in files && r[i].mod in Modules && |r[i].cols| > 0 {
      if i < |prev| {
        assert r[i] == prev[i];
        var j :| 0 <= j < |files| - 1 && files[..|files| - 1][j] == prev[i].file;
        assert files[j] == prev[i].file;
      } else {
        assert r[i] == tail[i - |prev|];
      }
    }
  }

  /** `set(cols)` */
  function Names(cols: seq<String>): (r: set<String>)
    ensures forall c :: c in r <==> c in cols
  {
    set c | c in cols
  }

  /** `module_to_union[m]`: every column name of every file of module `m`. */
  function UnionOf(info: seq<FileInfo>, m: String): (r: set<String>)
    ensures forall k, c :: 0 <= k < |info| && info[k].mod == m && c in info[k].cols ==> c in r
  {
    if info == [] then {}
    else
      assert forall k :: 0 <= k < |info| - 1 ==> info[..|info| - 1][k] == info[k];
      UnionOf(info[..|info| - 1], m) + if info[|info| - 1].mod == m then Names(info[|info| - 1].cols) else {}
  }

  /** One more entry adds its header to its own module's union and its path to its own module's list. */
  lemma Pass1Step(info: seq<FileInfo>, fi: FileInfo, m: String)
    ensures UnionOf(info + [fi], m) == UnionOf(info, m) + if fi.mod == m then Names(fi.cols) else {}
    ensures PathsOf(info + [fi], m) == PathsOf(info, m) + if fi.mod == m then [fi.file.path] else []
  {
    assert (info + [fi])[..|info|] == info;
  }

  /** `module_to_files[m]` */
  function PathsOf(info: seq<FileInfo>, m: String): seq<String> {
    if info == [] then []
    else PathsOf(info[..|info| - 1], m) + if info[|info| - 1].mod == m then [info[|info| - 1].file.path] else []
  }

  /** `[fi for fi in file_info if fi["mod"] == mod]` */
  function FilesOf(info: seq<FileInfo>, m: String): (r: seq<FileInfo>)
    ensures |r| <= |info|
    ensures forall k :: 0 <= k < |r| ==> r[k].mod == m
  {
    if info == [] then []
    else FilesOf(info[..|info| - 1], m) + if info[|info| - 1].mod == m then [info[|info| - 1]] else []
  }

  /** A column is in a module's union exactly when some file of that module has it in its header. */
  lemma {:induction false} UnionOfExact(info: seq<FileInfo>, m: String, c: String)
    ensures c in UnionOf(info, m) <==> exists k :: 0 <= k < |info| && info[k].mod == m && c in info[k].cols
  {
    if info != [] {
      var init := info[..|info| - 1];
      UnionOfExact(init, m, c);
      if exists k :: 0 <= k < |init| && init[k].mod == m && c in init[k].cols {
        var k :| 0 <= k < |init| && init[k].mod == m && c in init[k].cols;
        assert info[k] == init[k];
      }
      if exists k :: 0 <= k < |info| && info[k].mod == m && c in info[k].cols {
        var k :| 0 <= k < |info| && info[k].mod == m && c in info[k].cols;
        if k < |init| { assert init[k] == info[k]; }
      }
    }
  }

  /** Every header column of every file of module `m` is in the module's union. */
  lemma {:induction false} FilesOfInUnion(info: seq<FileInfo>, m: String)
    ensures forall k, c :: 0 <= k < |FilesOf(info, m)| && c in FilesOf(info, m)[k].cols ==> c in UnionOf(info, m)
  {
    if info != [] {
      FilesOfInUnion(info[..|info| - 1], m);
    }
  }

  lemma Pass1InfoStep(files: seq<CsvFile>, i: nat)
    requires i < |files|
    ensures Pass1Info(files[..i + 1]) == Pass1Info(files[..i]) + InfoOf(files[i])
  {
    assert files[..i + 1][..i] == files[..i];
  }

  const ModuleSet: set<String> := set m | m in Modules

  /** `union` and `paths` are pass 1's two dictionaries for the entries `info`: one key per module. */
  ghost predicate Tracks(info: seq<FileInfo>, union: map<String, set<String>>, paths: map<String, seq<String>>) {
    union.Keys == ModuleSet && paths.Keys == ModuleSet
    && forall m :: m in ModuleSet ==> union[m] == UnionOf(info, m) && paths[m] == PathsOf(info, m)
  }

  /** Recording one more entry under its own module keeps both dictionaries up to date. */
  lemma TracksStep(info: seq<FileInfo>, union: map<String, set<String>>, paths: map<String, seq<String>>, fi: FileInfo)
    requires Tracks(info, union, paths) && fi.mod in Modules
    ensures fi.mod in union && fi.mod in paths
    ensures Tracks(info + [fi], union[fi.mod := union[fi.mod] + Names(fi.cols)], paths[fi.mod := paths[fi.mod] + [fi.file.path]])
  {
    assert fi.mod in ModuleSet;
    forall m | m in ModuleSet
      ensures UnionOf(info + [fi], m) == UnionOf(info, m) + (if fi.mod == m then Names(fi.cols) else {})
      ensures PathsOf(info + [fi], m) == PathsOf(info, m) + (if fi.mod == m then [fi.file.path] else [])
    {
      Pass1Step(info, fi, m);
    }
  }

  /**
   * One turn of pass 1's loop: the file's module from its name, then its header, then its
   * period; a file with both a module and a header is recorded.
   */
  method Pass1File(files: seq<CsvFile>, i: nat, info: seq<FileInfo>, union: map<String, set<String>>, paths: map<String, seq<String>>)
    returns (info': seq<FileInfo>, union': map<String, set<String>>, paths': map<String, seq<String>>)
    requires i < |files| && info == Pass1Info(files[..i]) && Tracks(info, union, paths)
    ensures info' == Pass1Info(files[..i + 1]) && Tracks(info', union', paths')
  {
    Pass1InfoStep(files, i);
    var name := Basename(files[i].path);
    var mod := DetectModule(name);
    if mod.None? {
      return info, union, paths;
    }
    var h := HeadersOnly(files[i]);
    if h.Err? {
      return info, union, paths;
    }
    var fi := FileInfo(files[i], mod.value, ParseYearTrimFromName(name), h.value.enc, h.value.delim, h.value.cols);
    TracksStep(info, union, paths, fi);
    info' := info + [fi];
    union' := union[fi.mod := union[fi.mod] + Names(fi.cols)];
    paths' := paths[fi.mod := paths[fi.mod] + [fi.file.path]];
  }

  /**
   * `pass1`: one entry per file whose module is recognised and whose header could be read,
   * in input order; per module, the union of those headers and the list of those paths.
   */
  method Pass1(files: seq<CsvFile>) returns (info: seq<FileInfo>, union: map<String, set<String>>, paths: map<String, seq<String>>)
    ensures info == Pass1Info(files)
    ensures union.Keys == ModuleSet && paths.Keys == ModuleSet
    ensures forall m :: m in ModuleSet ==> union[m] == UnionOf(info, m) && paths[m] == PathsOf(info, m)
  {
    info := [];
    union := map m | m in ModuleSet :: {};
    paths := map m | m in ModuleSet :: [];
    for i := 0 to |files|
      invariant info == Pass1Info(files[..i])
      invariant Tracks(info, union, paths)
    {
      info, union, paths := Pass1File(files, i, info, union, paths);
    }
    assert files[..|files|] == files;
  }

  // ---------------------------------------------------------------- period columns

  const MetaNames: seq<String> := ["anio", "trimestre", "anio_trimestre"]

  /** `.str.replace(r"\D", "").str.zfill(3)` of a PER cell. */
  function PerCode(c: Cell): (r: String)
    ensures |r| >= 3 && AllDigits(r)
    ensures var d := DigitsOnly(CellText(c));
      |r| == (if |d| >= 3 then |d| else 3) && r[|r| - |d|..] == d && forall i :: 0 <= i < |r| - |d| ==> r[i] == '0'
  {
    var d := DigitsOnly(CellText(c));
    ZFillDigits(d, 3);
    ZFill(d, 3)
  }

  /** (year, quarter) of one PER cell: the first digit is the quarter, the next two the year after 2000. */
  function PeriodOfPer(c: Cell): (r: (int, int))
    ensures 2000 <= r.0 <= 2099 && 0 <= r.1 <= 9
  {
    var p := PerCode(c);
    (2000 + 10 * DigitVal(p[1]) + DigitVal(p[2]), DigitVal(p[0]))
  }

  /**
   * A clean three-digit PER code "qyy" stands for quarter q of year 2000 + yy: no digit is
   * dropped and no zero is padded in.
   */
  lemma PeriodOfPerCode(s: String)
    requires |s| == 3 && AllDigits(s)
    ensures PeriodOfPer(Str(s)) == (2000 + 10 * DigitVal(s[1]) + DigitVal(s[2]), DigitVal(s[0]))
  {
    DigitsOnlyKeepsDigits(s);
    assert PerCode(Str(s)) == s;
  }

  /**
   * Which digits of a PER cell give the period: non-digits are dropped and the rest left-padded
   * with '0' to three, so `"1-24"` reads as quarter 1 of 2024, `"24"` as quarter 0 of 2024 and
   * `"5"` as quarter 0 of 2005; of a longer run only the first three digits are read.
   */
  lemma PeriodOfPerPadded(c: Cell)
    ensures var d := DigitsOnly(CellText(c)); var (year, quarter) := PeriodOfPer(c);
      (|d| >= 3 ==> year == 2000 + 10 * DigitVal(d[1]) + DigitVal(d[2]) && quarter == DigitVal(d[0]))
      && (|d| == 2 ==> year == 2000 + 10 * DigitVal(d[0]) + DigitVal(d[1]) && quarter == 0)
      && (|d| == 1 ==> year == 2000 + DigitVal(d[0]) && quarter == 0)
      && (|d| == 0 ==> year == 2000 && quarter == 0)
  {
    var d := DigitsOnly(CellText(c));
    ZeroPaddedHead(PerCode(c), d);
    assert DigitVal('0') == 0;
  }

  /** The first three characters of `d` left-padded with '0' to at least three. */
  lemma ZeroPaddedHead(p: String, d: String)
    requires |p| == (if |d| >= 3 then |d| else 3) && p[|p| - |d|..] == d
    requires forall i :: 0 <= i < |p| - |d| ==> p[i] == '0'
    ensures |d| >= 3 ==> p[0] == d[0] && p[1] == d[1] && p[2] == d[2]
    ensures |d| == 2 ==> p[0] == '0' && p[1] == d[0] && p[2] == d[1]
    ensures |d| == 1 ==> p[0] == '0' && p[1] == '0' && p[2] == d[0]
    ensures |d| == 0 ==> p[0] == '0' && p[1] == '0' && p[2] == '0'
  {
    assert forall i :: |p| - |d| <= i < |p| ==> p[i] == d[i - (|p| - |d|)];
  }

  /** A missing PER prints as "nan", keeps no digit and is read as quarter 0 of 2000. */
  lemma PeriodOfNullPer()
    ensures PeriodOfPer(Null) == (2000, 0)
  {
    assert DigitsOnly("nan") == [];
  }

  function Const(n: nat, c: Cell): (r: seq<Cell>)
    ensures |r| == n && forall i :: 0 <= i < n ==> r[i] == c
  {
    seq(n, _ => c)
  }

  /** `derive_year_trim_from_per`: per-row year and quarter from the PER column, nulls when there is none. */
  function PerColumns(t: Table): (r: (seq<Cell>, seq<Cell>))
    requires RowsFit(t)
    ensures |r.0| == |t.rows| && |r.1| == |t.rows|
  {
    match FindColCi(t.names, "per")
    case None => (Nulls(|t.rows|), Nulls(|t.rows|))
    case Some(c) =>
      (seq(|t.rows|, i requires 0 <= i < |t.rows| => Int(PeriodOfPer(CellAt(t, i, c)).0)),
       seq(|t.rows|, i requires 0 <= i < |t.rows| => Int(PeriodOfPer(CellAt(t, i, c)).1)))
  }

  /** The `anio` and `trimestre` columns: the period from the file name when there is one, else from PER. */
  function YearQuarterColumns(t: Table, period: Option<(int, int)>): (r: (seq<Cell>, seq<Cell>))
    requires RowsFit(t)
    ensures |r.0| == |t.rows| && |r.1| == |t.rows|
  {
    match period
    case Some((y, q)) => (Const(|t.rows|, Int(y)), Const(|t.rows|, Int(q)))
    case None => PerColumns(t)
  }

  /** `anio.astype("string") + "T" + trimestre.astype("string")`: null when either part is null. */
  function Label(a: Cell, q: Cell): Cell {
    if a.Int? && q.Int? then Str(IntToString(a.i) + "T" + IntToString(q.i)) else Null
  }

  function Labels(a: seq<Cell>, q: seq<Cell>): (r: seq<Cell>)
    requires |a| == |q|
    ensures |r| == |a| && forall i :: 0 <= i < |a| ==> r[i] == Label(a[i], q[i])
  {
    seq(|a|, i requires 0 <= i < |a| => Label(a[i], q[i]))
  }

  predicate HasMeta(names: seq<String>) {
    exists m :: m in MetaNames && m in names
  }

  /** The frame `add_meta_cols` produces when none of the three names is taken. */
  function WithMeta(t: Table, period: Option<(int, int)>): (r: Table)
    requires RowsFit(t)
    ensures r.names == MetaNames + t.names && |r.rows| == |t.rows| && RowsFit(r)
    ensures forall i :: 0 <= i < |t.rows| ==>
              var yq := YearQuarterColumns(t, period);
              r.rows[i] == [yq.0[i], yq.1[i], Label(yq.0[i], yq.1[i])] + t.rows[i]
  {
    var yq := YearQuarterColumns(t, period);
    var labels := Labels(yq.0, yq.1);
    MetaInserted(t, yq.0, yq.1, labels);
    InsertColumn(InsertColumn(InsertColumn(t, 0, "anio", yq.0), 1, "trimestre", yq.1), 2, "anio_trimestre", labels)
  }

  /** The three insertions of `add_meta_cols` put the three columns in front, in order. */
  lemma MetaInserted(t: Table, a: seq<Cell>, q: seq<Cell>, l: seq<Cell>)
    requires RowsFit(t) && |a| == |t.rows| && |q| == |t.rows| && |l| == |t.rows|
    ensures var r := InsertColumn(InsertColumn(InsertColumn(t, 0, "anio", a), 1, "trimestre", q), 2, "anio_trimestre", l);
            r.names == MetaNames + t.names && forall i :: 0 <= i < |t.rows| ==> r.rows[i] == [a[i], q[i], l[i]] + t.rows[i]
  {
    var t1 := InsertColumn(t, 0, "anio", a);
    var t2 := InsertColumn(t1, 1, "trimestre", q);
    var r := InsertColumn(t2, 2, "anio_trimestre", l);
    assert t1.names == ["anio"] + t.names;
    InsertAfter(["anio"], t.names, "trimestre");
    assert t2.names == ["anio", "trimestre"] + t.names;
    InsertAfter(["anio", "trimestre"], t.names, "anio_trimestre");
    forall i | 0 <= i < |t.rows| ensures r.rows[i] == [a[i], q[i], l[i]] + t.rows[i] {
      var row := t.rows[i];
      assert t1.rows[i] == [a[i]] + row;
      InsertAfter([a[i]], row, q[i]);
      assert t2.rows[i] == [a[i], q[i]] + row;
      InsertAfter([a[i], q[i]], row, l[i]);
    }
  }

  /** Inserting right after a front part of a row. */
  lemma InsertAfter<T>(front: seq<T>, row: seq<T>, x: T)
    ensures (front + row)[..|front|] + [x] + (front + row)[|front|..] == front + [x] + row
  {
    assert (front + row)[..|front|] == front && (front + row)[|front|..] == row;
  }

  /**
   * A period read off the file name is stamped on every row, whatever PER says; the label is
   * year, "T", quarter.
   */
  lemma FileNamePeriodWins(t: Table, y: int, q: int, i: nat)
    requires RowsFit(t) && i < |t.rows|
    ensures WithMeta(t, Some((y, q))).rows[i][..3] == [Int(y), Int(q), Str(IntToString(y) + "T" + IntToString(q))]
  {}

  /** Without a period in the name, each row's year and quarter come from its own PER value. */
  lemma PerPeriodPerRow(t: Table, c: String, i: nat)
    requires RowsFit(t) && i < |t.rows| && FindColCi(t.names, "per") == Some(c)
    ensures var p := PeriodOfPer(CellAt(t, i, c));
            WithMeta(t, None).rows[i][..3] == [Int(p.0), Int(p.1), Str(IntToString(p.0) + "T" + IntToString(p.1))]
  {}

  /** Without a period in the name and without a PER column, the three columns are null. */
  lemma NoPeriodNulls(t: Table, i: nat)
    requires RowsFit(t) && i < |t.rows| && FindColCi(t.names, "per").None?
    ensures WithMeta(t, None).rows[i][..3] == [Null, Null, Null]
  {}

  /**
   * `add_meta_cols`: inserts `anio`, `trimestre` and `anio_trimestre` at positions 0, 1 and 2;
   * pandas refuses (`ValueError`) when one of these names is already a column.
   */
  method AddMetaCols(f: Frame, period: Option<(int, int)>) returns (ok: bool)
    requires f.Valid()
    modifies f
    ensures ok <==> !HasMeta(old(f.names))
    ensures ok ==> f.Valid() && f.Value() == WithMeta(old(f.Value()), period)
  {
    ghost var t := f.Value();
    var yq := YearQuarterColumns(f.Value(), period);
    ok := f.Insert(0, "anio", yq.0);
    if !ok {
      return;
    }
    ok := f.Insert(1, "trimestre", yq.1);
    if !ok {
      return;
    }
    ok := f.Insert(2, "anio_trimestre", Labels(yq.0, yq.1));
    if ok {
      assert f.Value() == WithMeta(t, period);
    }
  }

  // ---------------------------------------------------------------- final schema

  lemma {:induction false} WithoutSorted(s: seq<String>, gone: seq<String>)
    requires Transitive(LowerLe) && Sorted(s, LowerLe)
    ensures Sorted(Without(s, gone), LowerLe)
  {
    if s != [] {
      WithoutSorted(s[1..], gone);
      var rest := Without(s[1..], gone);
      if s[0] !in gone && rest != [] {
        assert rest[0] in s[1..];
        var j :| 0 <= j < |s[1..]| && s[1..][j] == rest[0];
        SortedPairwise(s, LowerLe, 0, j + 1);
        assert ([s[0]] + rest)[1..] == rest;
      }
    }
  }

  ghost predicate IsFinalColumns(cols: seq<String>, union: set<String>) {
    |cols| >= 3 && cols[..3] == MetaNames && Distinct(cols)
    && (forall c :: c in cols <==> c in MetaNames || c in union)
  }

  /**
   * `final_cols`: the three period columns, then every other name of the union sorted
   * case-insensitively, each exactly once.
   */
  method FinalColumns(union: set<String>) returns (cols: seq<String>)
    ensures IsFinalColumns(cols, union)
    ensures Sorted(cols[3..], LowerLe)
  {
    var u := SetToSeq(union);
    LowerLeOrder();
    var sorted := SortBy(u, LowerLe);
    SortBySorted(u, LowerLe);
    DistinctPermutation(u, sorted);
    MultisetMembers(sorted, u);
    FinalColumnsOf(sorted, union);
    cols := MetaNames + Without(sorted, MetaNames);
    WithoutSorted(sorted, MetaNames);
    assert cols[3..] == Without(sorted, MetaNames);
  }

  lemma FinalColumnsOf(sorted: seq<String>, union: set<String>)
    requires Distinct(sorted) && forall c :: c in sorted <==> c in union
    ensures IsFinalColumns(MetaNames + Without(sorted, MetaNames), union)
  {
    var rest := Without(sorted, MetaNames);
    WithoutDistinct(sorted, MetaNames);
    var cols := MetaNames + rest;
    assert cols[..3] == MetaNames;
    forall i, j | 0 <= i < j < |cols| ensures cols[i] != cols[j] {
      if i < 3 && j >= 3 { assert cols[i] == MetaNames[i] && cols[j] == rest[j - 3] && rest[j - 3] in rest; }
      if i >= 3 { assert cols[i] == rest[i - 3] && cols[j] == rest[j - 3]; }
    }
  }

  // ---------------------------------------------------------------- pass 2

  /** Whether loading a file raises, whatever the module's column list is. */
  predicate LoadFails(fi: FileInfo) {
    match ReadFullCsvRobust(fi.file, fi.enc, fi.delim)
    case Err(_) => true
    case Ok(t) => HasMeta(t.names)
  }

  /**
   * What `load_one` returns for one file: the robust full read, the period columns, then the
   * frame padded and ordered to the module's columns.
   */
  function LoadSpec(fi: FileInfo, cols: seq<String>): (r: Result<Table>)
    ensures r.Ok? ==> r.value.names == cols && RowsFit(r.value)
    ensures r.Err? <==> LoadFails(fi)
    ensures r.Err? ==> r.error == ParseFailed || r.error == DuplicateColumn
  {
    match ReadFullCsvRobust(fi.file, fi.enc, fi.delim)
    case Err(e) => Err(e)
    case Ok(t) =>
      if HasMeta(t.names) then Err(DuplicateColumn) else Ok(Reindex(WithMeta(t, fi.period), cols))
  }

  /**
   * Padding drops no row and no value: every data column of the full read that is in the
   * module's list keeps its cells, and every other listed column is null.
   */
  lemma LoadKeepsValues(fi: FileInfo, cols: seq<String>, i: nat, c: String)
    requires LoadSpec(fi, cols).Ok? && c in cols && c !in MetaNames
    ensures var t := ReadFullCsvRobust(fi.file, fi.enc, fi.delim).value;
            |LoadSpec(fi, cols).value.rows| == |t.rows| &&
            (i < |t.rows| ==> CellAt(LoadSpec(fi, cols).value, i, c) == CellAt(t, i, c))
  {
    var t := ReadFullCsvRobust(fi.file, fi.enc, fi.delim).value;
    var m := WithMeta(t, fi.period);
    assert LoadSpec(fi, cols).value == Reindex(m, cols);
    if i < |t.rows| {
      ReindexCellAt(m, cols, i, c);
      WithMetaCellAt(t, fi.period, i, c);
    }
  }

  /** The three leading columns leave every other column's cells where a lookup finds them. */
  lemma WithMetaCellAt(t: Table, period: Option<(int, int)>, i: nat, c: String)
    requires RowsFit(t) && i < |t.rows| && c !in MetaNames
    ensures CellAt(WithMeta(t, period), i, c) == CellAt(t, i, c)
  {
    var m := WithMeta(t, period);
    IndexOfBehind(MetaNames, t.names, c);
    match IndexOf(t.names, c)
    case None => {}
    case Some(j) =>
      var yq := YearQuarterColumns(t, period);
      var front := [yq.0[i], yq.1[i], Label(yq.0[i], yq.1[i])];
      assert m.rows[i] == front + t.rows[i];
      assert (front + t.rows[i])[|front| + j] == t.rows[i][j];
  }

  /** `load_one` */
  method LoadOne(fi: FileInfo, cols: seq<String>) returns (r: Result<Table>)
    requires Distinct(cols)
    ensures r == LoadSpec(fi, cols)
  {
    var read := ReadFullCsvRobust(fi.file, fi.enc, fi.delim);
    if read.Err? {
      return Err(read.error);
    }
    var frame := new Frame(read.value);
    var ok := AddMetaCols(frame, fi.period);
    if !ok {
      return Err(DuplicateColumn);
    }
    frame.PadTo(cols);
    return Ok(frame.Value());
  }

  /** The loaded frames of the first files, one more appended. */
  function AppendLoaded(files: seq<FileInfo>, cols: seq<String>, parts: seq<Table>, p: Table): (r: seq<Table>)
    requires |parts| < |files| && LoadSpec(files[|parts|], cols) == Ok(p)
    requires forall j :: 0 <= j < |parts| ==> LoadSpec(files[j], cols).Ok? && parts[j] == LoadSpec(files[j], cols).value
    ensures |r| == |parts| + 1
    ensures forall j :: 0 <= j < |r| ==> LoadSpec(files[j], cols).Ok? && r[j] == LoadSpec(files[j], cols).value
  {
    var r := parts + [p];
    assert forall j :: 0 <= j < |parts| ==> r[j] == parts[j];
    r
  }

  /** `sum(1 for fi in files_mod if col in set(fi["cols"]))` */
  function CoverageCount(files: seq<FileInfo>, col: String): (n: nat)
    ensures n <= |files|
    ensures n == |files| <==> forall k :: 0 <= k < |files| ==> col in files[k].cols
    ensures n == 0 <==> forall k :: 0 <= k < |files| ==> col !in files[k].cols
  {
    if files == [] then 0
    else
      var n := CoverageCount(files[..|files| - 1], col) + if col in files[|files| - 1].cols then 1 else 0;
      assert forall k :: 0 <= k < |files| - 1 ==> files[..|files| - 1][k] == files[k];
      n
  }

  /** The coverage report: per column, how many of the module's files have it, out of how many. */
  method Coverage(files: seq<FileInfo>, cols: seq<String>) returns (cov: seq<(String, nat, nat)>)
    ensures |cov| == |cols|
    ensures forall k :: 0 <= k < |cols| ==> cov[k] == (cols[k], CoverageCount(files, cols[k]), |files|)
    ensures forall k :: 0 <= k < |cols| ==> cov[k].1 <= cov[k].2
  {
    cov := [];
    for k := 0 to |cols|
      invariant |cov| == k
      invariant forall j :: 0 <= j < k ==> cov[j] == (cols[j], CoverageCount(files, cols[j]), |files|)
    {
      var cnt := CountFilesWith(files, cols[k]);
      cov := cov + [(cols[k], cnt, |files|)];
    }
  }

  /** The count of one column of the coverage report. */
  method CountFilesWith(files: seq<FileInfo>, col: String) returns (cnt: nat)
    ensures cnt == CoverageCount(files, col)
  {
    cnt := 0;
    for j := 0 to |files|
      invariant cnt == CoverageCount(files[..j], col)
    {
      CoverageStep(files, j, col);
      if col in files[j].cols {
        cnt := cnt + 1;
      }
    }
    assert files[..|files|] == files;
  }

  lemma CoverageStep(files: seq<FileInfo>, j: nat, col: String)
    requires j < |files|
    ensures CoverageCount(files[..j + 1], col) == CoverageCount(files[..j], col) + if col in files[j].cols then 1 else 0
  {
    assert files[..j + 1][..j] == files[..j];
  }

  datatype ModuleOutput = ModuleOutput(columns: seq<String>, file: Table, coverage: seq<(String, nat, nat)>)

  /**
   * The body of `build_with_dask` for one module: nothing when the module has no file; the
   * error of the first file that fails to load; otherwise the final column list, the single
   * file written (every file's rows, in order, under that list) and the coverage report.
   */
  method BuildModule(info: seq<FileInfo>, m: String, union: set<String>) returns (r: Result<Option<ModuleOutput>>)
    requires union == UnionOf(info, m)
    ensures FilesOf(info, m) == [] ==> r == Ok(None)
    ensures r.Err? <==> exists k :: 0 <= k < |FilesOf(info, m)| && LoadFails(FilesOf(info, m)[k])
    ensures r.Err? ==> r.error == ParseFailed || r.error == DuplicateColumn
    ensures r.Ok? && FilesOf(info, m) != [] ==> r.value.Some?
    ensures r.Ok? && r.value.Some? ==> ModuleWritten(FilesOf(info, m), union, r.value.value)
  {
    var files := FilesOf(info, m);
    if files == [] {
      return Ok(None);
    }
    var cols := FinalColumns(union);
    var parts: seq<Table> := [];
    for k := 0 to |files|
      invariant |parts| == k
      invariant forall j :: 0 <= j < k ==> LoadSpec(files[j], cols).Ok? && parts[j] == LoadSpec(files[j], cols).value
    {
      var p := LoadOne(files[k], cols);
      if p.Err? {
        assert 0 <= k < |FilesOf(info, m)| && LoadFails(FilesOf(info, m)[k]);
        return Err(p.error);
      }
      parts := AppendLoaded(files, cols, parts, p.value);
    }
    FilesOfInUnion(info, m);
    var out := WriteModule(files, union, cols, parts);
    return Ok(Some(out));
  }

  /**
   * The output of one module: the final column list of the union, sorted after the three period
   * columns and holding every column of every file; the file written, with every file's rows in
   * order under that list; and the coverage of each column.
   */
  ghost predicate ModuleWritten(files: seq<FileInfo>, union: set<String>, out: ModuleOutput)
    ensures ModuleWritten(files, union, out) ==> |out.file.names| >= 3 && out.file.names[..3] == MetaNames
  {
    && IsFinalColumns(out.columns, union) && Sorted(out.columns[3..], LowerLe)
    && out.file.names == out.columns
    && (forall k, c :: 0 <= k < |files| && c in files[k].cols ==> c in out.columns)
    && (forall k :: 0 <= k < |files| ==> LoadSpec(files[k], out.columns).Ok?)
    && out.file.rows == Rows(seq(|files|, k requires 0 <= k < |files| => LoadSpec(files[k], out.columns).value))
    && |out.coverage| == |out.columns|
    && (forall k :: 0 <= k < |out.columns| ==> out.coverage[k] == (out.columns[k], CoverageCount(files, out.columns[k]), |files|))
  }

  /** The end of `build_with_dask` for a module: the loaded frames written as one file, and the coverage. */
  method WriteModule(files: seq<FileInfo>, union: set<String>, cols: seq<String>, parts: seq<Table>) returns (out: ModuleOutput)
    requires files != [] && IsFinalColumns(cols, union) && Sorted(cols[3..], LowerLe)
    requires forall k, c :: 0 <= k < |files| && c in files[k].cols ==> c in union
    requires |parts| == |files|
    requires forall j :: 0 <= j < |files| ==> LoadSpec(files[j], cols).Ok? && parts[j] == LoadSpec(files[j], cols).value
    ensures ModuleWritten(files, union, out)
  {
    assert parts == seq(|files|, k requires 0 <= k < |files| => LoadSpec(files[k], cols).value);
    var written := WriteSingle(parts);
    ConcatSameSchema(parts, cols);
    var cov := Coverage(files, cols);
    out := ModuleOutput(cols, written.value, cov);
  }
}
