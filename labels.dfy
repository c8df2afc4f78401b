/**
 * `base_from_parquet_path` and `apply_labels_to_parquet` of `apply_enoe_labels.py`: which base a
 * consolidated table belongs to, which dictionary variables become `<column>_label` columns of it,
 * what those columns hold, and the diagnostic kept for label columns that come out empty.
 *
 * Reading and writing parquet files is not modelled: the table is a parameter, and whether the
 * output file already exists is a flag.
 */
module Labelling {
  import opened Wrappers
  import opened Text
  import opened Sorting
  import opened Tables
  import opened Dictionary

  // ---------------------------------------------------------------- base of a parquet file

  const Bases: seq<String> := ["COE1T", "COE2T", "SDEMT", "HOGT", "VIVT"]

  predicate EndsWith(s: String, suffix: String) {
    |suffix| <= |s| && s[|s| - |suffix|..] == suffix
  }

  /** `enoe_master_<base>_labeled.parquet`, in lower case. */
  function MasterSuffix(base: String): String {
    "enoe_master_" + Lower(base) + "_labeled.parquet"
  }

  /** The text a `$` without MULTILINE anchors to: the end, or just before one final newline. */
  function Anchored(name: String): (r: String)
    ensures r == name || name == r + ['\n']
  {
    if name != [] && name[|name| - 1] == '\n' then name[..|name| - 1] else name
  }

  /** The first base whose file-name pattern ends the (lower-cased) name. */
  function FirstBase(lname: String, bases: seq<String>): (r: Option<String>)
    ensures r.Some? ==> r.value in bases && EndsWith(lname, MasterSuffix(r.value))
    ensures r.None? <==> forall b :: b in bases ==> !EndsWith(lname, MasterSuffix(b))
  {
    if bases == [] then None
    else if EndsWith(lname, MasterSuffix(bases[0])) then Some(bases[0])
    else FirstBase(lname, bases[1..])
  }

  /**
   * `base_from_parquet_path`: the base named by `enoe_master_<base>_labeled.parquet` at the end of the
   * file name, in any case; `ValueError` when the name has no such ending.
   */
  function BaseFromParquetPath(path: String): (r: Result<String>)
    ensures r.Ok? ==> r.value in Bases && EndsWith(Lower(Anchored(Basename(path))), MasterSuffix(r.value))
    ensures r.Err? ==> r.error == UnknownBase
    ensures r.Err? <==> forall b :: b in Bases ==> !EndsWith(Lower(Anchored(Basename(path))), MasterSuffix(b))
  {
    match FirstBase(Lower(Anchored(Basename(path))), Bases)
    case None => Err(UnknownBase)
    case Some(b) => Ok(b)
  }

  /** Only the file name counts: the directories above it do not change the base. */
  lemma BaseIgnoresDirectory(dir: String, name: String)
    requires dir == [] || IsSep(dir[|dir| - 1])
    requires forall i :: 0 <= i < |name| ==> !IsSep(name[i])
    ensures BaseFromParquetPath(dir + name) == BaseFromParquetPath(name)
  {
    BasenameJoin(dir, name);
    BasenameJoin([], name);
    assert [] + name == name;
  }

  // ---------------------------------------------------------------- matching variables to columns

  /** `col_upper_to_orig = {c.upper(): c for c in orig_cols}`: a later column of the same spelling wins. */
  function UpperToOrig(cols: seq<String>): (r: map<String, String>)
    ensures forall u :: u in r ==> r[u] in cols && Upper(r[u]) == u
  {
    if cols == [] then map[]
    else UpperToOrig(cols[..|cols| - 1])[Upper(cols[|cols| - 1]) := cols[|cols| - 1]]
  }

  /** Every column is found by its upper-cased name, and that name leads to the last column spelled so. */
  lemma {:induction false} UpperToOrigLast(cols: seq<String>, k: nat)
    requires k < |cols|
    requires forall j :: k < j < |cols| ==> Upper(cols[j]) != Upper(cols[k])
    ensures Upper(cols[k]) in UpperToOrig(cols) && UpperToOrig(cols)[Upper(cols[k])] == cols[k]
  {
    var n := |cols| - 1;
    var init := cols[..n];
    assert UpperToOrig(cols) == UpperToOrig(init)[Upper(cols[n]) := cols[n]];
    if k < n {
      assert init[k] == cols[k];
      assert forall j :: k < j < n ==> init[j] == cols[j];
      UpperToOrigLast(init, k);
      assert Upper(cols[n]) != Upper(cols[k]);
    }
  }

  /** One entry of `mapped_pairs`: the upper-cased variable, the column it labels and its map. */
  datatype Pair = Pair(varUp: String, column: String, mapping: map<String, String>)

  /** The test of the loop over `var_maps`: the variable names a column, ignoring case, and has a non-empty map. */
  predicate IsCandidate(vm: VarMapping, upper: map<String, String>) {
    Upper(vm.variable) in upper && vm.mapping != map[]
  }

  function PairOf(vm: VarMapping, upper: map<String, String>): Pair
    requires IsCandidate(vm, upper)
  {
    Pair(Upper(vm.variable), upper[Upper(vm.variable)], vm.mapping)
  }

  /** `mapped_pairs` after the loop. */
  function MappedPairs(vms: seq<VarMapping>, upper: map<String, String>): (r: seq<Pair>)
    ensures |r| <= |vms|
    ensures forall p :: p in r ==> p.varUp in upper && p.column == upper[p.varUp] && p.mapping != map[]
  {
    if vms == [] then []
    else
      var vm := vms[|vms| - 1];
      MappedPairs(vms[..|vms| - 1], upper) + if IsCandidate(vm, upper) then [PairOf(vm, upper)] else []
  }

  /** `missing_in_parquet` after the loop. */
  function MissingVars(vms: seq<VarMapping>, upper: map<String, String>): (r: seq<String>)
    ensures |r| <= |vms|
    ensures forall i :: 0 <= i < |vms| && !IsCandidate(vms[i], upper) ==> vms[i].variable in r
  {
    if vms == [] then []
    else
      var vm := vms[|vms| - 1];
      assert forall i :: 0 <= i < |vms| - 1 ==> vms[..|vms| - 1][i] == vms[i];
      MissingVars(vms[..|vms| - 1], upper) + if IsCandidate(vm, upper) then [] else [vm.variable]
  }

  /** Every dictionary variable lands in exactly one of the two lists. */
  lemma {:induction false} PartitionSizes(vms: seq<VarMapping>, upper: map<String, String>)
    ensures |MappedPairs(vms, upper)| + |MissingVars(vms, upper)| == |vms|
  {
    if vms != [] {
      PartitionSizes(vms[..|vms| - 1], upper);
    }
  }

  /** A variable is listed as missing exactly when one of its entries is not a candidate. */
  lemma {:induction false} MissingExact(vms: seq<VarMapping>, upper: map<String, String>, v: String)
    ensures v in MissingVars(vms, upper) <==> exists i :: 0 <= i < |vms| && vms[i].variable == v && !IsCandidate(vms[i], upper)
  {
    if vms != [] {
      var n := |vms| - 1;
      MissingExact(vms[..n], upper, v);
      if exists i :: 0 <= i < n && vms[..n][i].variable == v && !IsCandidate(vms[..n][i], upper) {
        var i :| 0 <= i < n && vms[..n][i].variable == v && !IsCandidate(vms[..n][i], upper);
        assert vms[i] == vms[..n][i];
      }
      if exists i :: 0 <= i < |vms| && vms[i].variable == v && !IsCandidate(vms[i], upper) {
        var i :| 0 <= i < |vms| && vms[i].variable == v && !IsCandidate(vms[i], upper);
        if i < n { assert vms[..n][i] == vms[i]; }
      }
    }
  }

  /**
   * A pair is recorded exactly for each candidate variable; it labels a column of the table whose
   * upper-cased name is the variable's.
   */
  lemma MappedExact(vms: seq<VarMapping>, cols: seq<String>, p: Pair)
    ensures p in MappedPairs(vms, UpperToOrig(cols)) <==>
              exists i :: 0 <= i < |vms| && IsCandidate(vms[i], UpperToOrig(cols)) && p == PairOf(vms[i], UpperToOrig(cols))
    ensures p in MappedPairs(vms, UpperToOrig(cols)) ==> p.column in cols && Upper(p.column) == p.varUp && p.mapping != map[]
  {
    MappedMembers(vms, UpperToOrig(cols), p);
  }

  lemma {:induction false} MappedMembers(vms: seq<VarMapping>, upper: map<String, String>, p: Pair)
    ensures p in MappedPairs(vms, upper) <==>
              exists i :: 0 <= i < |vms| && IsCandidate(vms[i], upper) && p == PairOf(vms[i], upper)
  {
    if vms != [] {
      var n := |vms| - 1;
      MappedMembers(vms[..n], upper, p);
      if exists i :: 0 <= i < n && IsCandidate(vms[..n][i], upper) && p == PairOf(vms[..n][i], upper) {
        var i :| 0 <= i < n && IsCandidate(vms[..n][i], upper) && p == PairOf(vms[..n][i], upper);
        assert vms[i] == vms[..n][i];
      }
      if exists i :: 0 <= i < |vms| && IsCandidate(vms[i], upper) && p == PairOf(vms[i], upper) {
        var i :| 0 <= i < |vms| && IsCandidate(vms[i], upper) && p == PairOf(vms[i], upper);
        if i < n { assert vms[..n][i] == vms[i]; }
      }
    }
  }

  /** The loop over `var_maps.items()`: `candidates` counts the pairs it records. */
  method MatchVariables(vms: seq<VarMapping>, upper: map<String, String>)
    returns (pairs: seq<Pair>, missing: seq<String>, candidates: nat)
    ensures pairs == MappedPairs(vms, upper) && missing == MissingVars(vms, upper)
    ensures candidates == |pairs|
  {
    pairs, missing, candidates := [], [], 0;
    for i := 0 to |vms|
      invariant pairs == MappedPairs(vms[..i], upper) && missing == MissingVars(vms[..i], upper)
      invariant candidates == |pairs|
    {
      assert vms[..i + 1][..i] == vms[..i];
      var vm := vms[i];
      var vUp := Upper(vm.variable);
      if vUp in upper && vm.mapping != map[] {
        candidates := candidates + 1;
        pairs := pairs + [Pair(vUp, upper[vUp], vm.mapping)];
      } else {
        missing := missing + [vm.variable];
      }
    }
    assert vms[..|vms|] == vms;
  }

  // ---------------------------------------------------------------- label columns

  /** The lookup UDF on one cell: `map_elements` leaves nulls null; other values are looked up by `str(v)`. */
  function LabelCell(mapping: map<String, String>, c: Cell): (r: Cell)
    ensures c == Null ==> r == Null
    ensures c != Null ==> (r == Null <==> forall k :: k in NormVariants(Some(CellText(c))) ==> k !in mapping)
    ensures r != Null ==> r == Str(Lookup(mapping, Some(CellText(c))).value)
  {
    if c == Null then Null
    else match Lookup(mapping, Some(CellText(c)))
      case None => Null
      case Some(l) => Str(l)
  }

  /** `f"{parquet_col}_label"` */
  function Alias(p: Pair): String {
    p.column + "_label"
  }

  function Aliases(pairs: seq<Pair>): (r: seq<String>)
    ensures |r| == |pairs| && forall k :: 0 <= k < |pairs| ==> r[k] == Alias(pairs[k])
  {
    seq(|pairs|, k requires 0 <= k < |pairs| => Alias(pairs[k]))
  }

  predicate DistinctAliases(pairs: seq<Pair>) {
    Distinct(Aliases(pairs))
  }

  /** The label column of one pair, computed from the input table. */
  function LabelColumn(t: Table, p: Pair): (r: seq<Cell>)
    requires RowsFit(t)
    ensures |r| == |t.rows|
    ensures forall i :: 0 <= i < |t.rows| ==> r[i] == LabelCell(p.mapping, CellAt(t, i, p.column))
  {
    seq(|t.rows|, i requires 0 <= i < |t.rows| => LabelCell(p.mapping, CellAt(t, i, p.column)))
  }

  function LabelColumns(t: Table, pairs: seq<Pair>): (r: seq<seq<Cell>>)
    requires RowsFit(t)
    ensures |r| == |pairs| && ColumnsFit(t, r)
    ensures forall k :: 0 <= k < |pairs| ==> r[k] == LabelColumn(t, pairs[k])
  {
    seq(|pairs|, k requires 0 <= k < |pairs| => LabelColumn(t, pairs[k]))
  }

  /** `lf.with_columns(exprs)`: every label column is computed from the input, then added or replaced. */
  function WithLabels(t: Table, pairs: seq<Pair>): (r: Table)
    requires RowsFit(t)
    ensures RowsFit(r) && |r.rows| == |t.rows|
  {
    AssignAll(t, Aliases(pairs), LabelColumns(t, pairs))
  }

  /**
   * The labelled table has the input's rows and its columns, first and in place, plus exactly the
   * label columns; each label column holds, row by row, the lookup of its code column, and every
   * other column keeps its values.
   */
  lemma WithLabelsExact(t: Table, pairs: seq<Pair>, i: nat, c: String)
    requires RowsFit(t) && DistinctAliases(pairs) && i < |t.rows|
    ensures |WithLabels(t, pairs).names| >= |t.names| && WithLabels(t, pairs).names[..|t.names|] == t.names
    ensures c in WithLabels(t, pairs).names <==> c in t.names || exists k :: 0 <= k < |pairs| && Alias(pairs[k]) == c
    ensures forall k :: 0 <= k < |pairs| && Alias(pairs[k]) == c ==>
              CellAt(WithLabels(t, pairs), i, c) == LabelCell(pairs[k].mapping, CellAt(t, i, pairs[k].column))
    ensures (forall k :: 0 <= k < |pairs| ==> Alias(pairs[k]) != c) ==> CellAt(WithLabels(t, pairs), i, c) == CellAt(t, i, c)
  {
    var names := Aliases(pairs);
    var cols := LabelColumns(t, pairs);
    AssignAllNames(t, names, cols, c);
    if c in names {
      var k :| 0 <= k < |names| && names[k] == c;
      AssignAllAt(t, names, cols, i, k);
      forall k' | 0 <= k' < |pairs| && Alias(pairs[k']) == c ensures k' == k {
        assert names[k'] == c;
      }
    } else {
      AssignAllElse(t, names, cols, i, c);
    }
  }

  // ---------------------------------------------------------------- diagnostics

  function Min(a: nat, b: nat): nat {
    if a <= b then a else b
  }

  /** The first `n` rows of column `c` (`read_parquet(n_rows=n, columns=[c])`). */
  function SampleColumn(t: Table, c: String, n: nat): (r: seq<Cell>)
    requires RowsFit(t)
    ensures |r| == Min(n, |t.rows|)
    ensures forall i :: 0 <= i < |r| ==> r[i] == CellAt(t, i, c)
  {
    seq(Min(n, |t.rows|), i requires 0 <= i < Min(n, |t.rows|) => CellAt(t, i, c))
  }

  predicate AllNull(cells: seq<Cell>) {
    forall i :: 0 <= i < |cells| ==> cells[i] == Null
  }

  /** `not any(k in mapping_keys for k in norm_variants(u))` */
  predicate Unmapped(mapping: map<String, String>, u: String) {
    forall k :: k in NormVariants(Some(u)) ==> k !in mapping
  }

  /** An unmapped value gets no label from the lookup. */
  lemma UnmappedHasNoLabel(mapping: map<String, String>, u: String)
    ensures Unmapped(mapping, u) <==> Lookup(mapping, Some(u)).None?
  {}

  /** The unmapped values among `us`, in order. */
  function UnmappedOf(us: seq<String>, mapping: map<String, String>): seq<String> {
    if us == [] then []
    else UnmappedOf(us[..|us| - 1], mapping) + if Unmapped(mapping, us[|us| - 1]) then [us[|us| - 1]] else []
  }

  lemma {:induction false} UnmappedOfMembers(us: seq<String>, mapping: map<String, String>, u: String)
    ensures u in UnmappedOf(us, mapping) <==> u in us && Unmapped(mapping, u)
  {
    if us != [] {
      var n := |us| - 1;
      UnmappedOfMembers(us[..n], mapping, u);
      assert us == us[..n] + [us[n]];
    }
  }

  /** Scanning further only appends. */
  lemma {:induction false} UnmappedOfPrefix(us: seq<String>, mapping: map<String, String>, i: nat)
    requires i <= |us|
    ensures UnmappedOf(us[..i], mapping) <= UnmappedOf(us, mapping)
    decreases |us| - i
  {
    if i < |us| {
      UnmappedOfPrefix(us, mapping, i + 1);
      assert us[..i + 1][..i] == us[..i];
    } else {
      assert us[..i] == us;
    }
  }

  lemma UnmappedOfStep(us: seq<String>, mapping: map<String, String>, i: nat)
    requires i < |us|
    ensures UnmappedOf(us[..i + 1], mapping) == UnmappedOf(us[..i], mapping) + if Unmapped(mapping, us[i]) then [us[i]] else []
  {
    assert us[..i + 1][..i] == us[..i];
  }

  /** One value of `unmapped_samples`: kept when no variant of it is a key. */
  method ScanValue(us: seq<String>, mapping: map<String, String>, i: nat, samples: seq<String>) returns (samples': seq<String>)
    requires i < |us| && samples == UnmappedOf(us[..i], mapping)
    ensures samples' == UnmappedOf(us[..i + 1], mapping)
    ensures |samples'| <= |samples| + 1
  {
    UnmappedOfStep(us, mapping, i);
    samples' := samples;
    if Unmapped(mapping, us[i]) {
      samples' := samples + [us[i]];
    }
  }

  /** `unmapped_samples`: the loop stops once ten are collected, so they are the first ten unmapped values. */
  method UnmappedSamples(us: seq<String>, mapping: map<String, String>) returns (samples: seq<String>)
    ensures samples <= UnmappedOf(us, mapping)
    ensures |samples| == Min(10, |UnmappedOf(us, mapping)|)
  {
    samples := [];
    var i := 0;
    while i < |us|
      invariant 0 <= i <= |us|
      invariant samples == UnmappedOf(us[..i], mapping) && |samples| < 10
    {
      samples := ScanValue(us, mapping, i, samples);
      i := i + 1;
      if |samples| >= 10 {
        UnmappedOfPrefix(us, mapping, i);
        return;
      }
    }
    assert us[..i] == us;
  }

  /** `col_vals.unique().head(50)`: distinct texts of the non-null codes, in an order the model does not fix. */
  method UniqueValues(codes: seq<Cell>) returns (us: seq<String>)
    ensures |us| <= 50 && Distinct(us)
    ensures forall u :: u in us ==> exists i :: 0 <= i < |codes| && codes[i] != Null && CellText(codes[i]) == u
    ensures |us| < 50 ==> forall i :: 0 <= i < |codes| && codes[i] != Null ==> CellText(codes[i]) in us
  {
    var texts := set i | 0 <= i < |codes| && codes[i] != Null :: CellText(codes[i]);
    var all := SetToSeq(texts);
    us := all[..Min(50, |all|)];
    forall u | u in us ensures exists i :: 0 <= i < |codes| && codes[i] != Null && CellText(codes[i]) == u {
      assert u in texts;
    }
    if |us| < 50 {
      assert us == all;
      forall i | 0 <= i < |codes| && codes[i] != Null ensures CellText(codes[i]) in us {
        assert CellText(codes[i]) in texts;
      }
    }
  }

  /** `list(mapping_keys)[:10]`: up to ten distinct keys of the map, all of them when it has fewer. */
  method SampleKeys(mapping: map<String, String>) returns (keys: seq<String>)
    ensures |keys| <= 10 && Distinct(keys)
    ensures forall k :: k in keys ==> k in mapping
    ensures |keys| < 10 ==> forall k :: k in mapping ==> k in keys
  {
    var all := SetToSeq(mapping.Keys);
    keys := all[..Min(10, |all|)];
    if |keys| < 10 {
      assert keys == all;
    }
  }

  /** One entry of `label_all_null_detail`. */
  datatype NullDetail = NullDetail(varUp: String, column: String, unmapped: seq<String>, keys: seq<String>)

  /** What a detail records about a pair whose label column came out null on the sampled rows. */
  ghost predicate DetailOf(d: NullDetail, p: Pair, codes: seq<Cell>) {
    d.varUp == p.varUp && d.column == p.column
    && |d.unmapped| <= 10
    && (forall u :: u in d.unmapped ==>
          Unmapped(p.mapping, u) && exists i :: 0 <= i < |codes| && codes[i] != Null && CellText(codes[i]) == u)
    && |d.keys| <= 10 && Distinct(d.keys)
    && (forall k :: k in d.keys ==> k in p.mapping)
    && (|d.keys| < 10 ==> forall k :: k in p.mapping ==> k in d.keys)
  }

  /** The pairs whose label column is null on every sampled row of the output, in order. */
  function NullPairs(pairs: seq<Pair>, out: Table, n: nat): seq<Pair>
    requires RowsFit(out)
  {
    if pairs == [] then []
    else
      var p := pairs[|pairs| - 1];
      NullPairs(pairs[..|pairs| - 1], out, n) + if AllNull(SampleColumn(out, Alias(p), n)) then [p] else []
  }

  ghost predicate DetailsOf(ds: seq<NullDetail>, pairs: seq<Pair>, out: Table, t: Table, n: nat)
    requires RowsFit(out) && RowsFit(t)
  {
    var nulls := NullPairs(pairs, out, n);
    |ds| == |nulls| && forall j :: 0 <= j < |ds| ==> DetailOf(ds[j], nulls[j], SampleColumn(t, nulls[j].column, n))
  }

  /** The detail of one pair: samples of its unmapped codes and of its map's keys. */
  method Detail(p: Pair, codes: seq<Cell>) returns (d: NullDetail)
    ensures DetailOf(d, p, codes)
  {
    var us := UniqueValues(codes);
    var unmapped := UnmappedSamples(us, p.mapping);
    forall u | u in unmapped ensures u in us && Unmapped(p.mapping, u) {
      UnmappedOfMembers(us, p.mapping, u);
    }
    var keys := SampleKeys(p.mapping);
    d := NullDetail(p.varUp, p.column, unmapped, keys);
  }

  /** The diagnostic loop over `mapped_pairs`: a detail for every label column null on all sampled rows. */
  method NullDetails(pairs: seq<Pair>, out: Table, t: Table, n: nat) returns (ds: seq<NullDetail>)
    requires RowsFit(out) && RowsFit(t)
    ensures DetailsOf(ds, pairs, out, t, n)
  {
    ds := [];
    for i := 0 to |pairs|
      invariant DetailsOf(ds, pairs[..i], out, t, n)
    {
      assert pairs[..i + 1][..i] == pairs[..i];
      var p := pairs[i];
      var labels := SampleColumn(out, Alias(p), n);
      if forall r :: 0 <= r < |labels| ==> labels[r] == Null {
        var d := Detail(p, SampleColumn(t, p.column, n));
        ds := ds + [d];
      }
    }
    assert pairs[..|pairs|] == pairs;
  }

  /**
   * The same loop as the source writes it: the null count of a label column is asked of the column
   * (a polars Series) as `.height`, which only a DataFrame has. The first pair whose label column
   * was written therefore raises, the enclosing `except Exception: pass` swallows the error, and the
   * details collected so far, none, are what is reported. `raised` tells whether that happened.
   */
  method NullDetailsAsWritten(pairs: seq<Pair>, out: Table) returns (ds: seq<NullDetail>, raised: bool)
    ensures raised <==> exists k :: 0 <= k < |pairs| && Alias(pairs[k]) in out.names
    ensures ds == []
  {
    ds := [];
    raised := false;
    var i := 0;
    while i < |pairs| && !raised
      invariant 0 <= i <= |pairs|
      invariant !raised ==> forall k :: 0 <= k < i ==> Alias(pairs[k]) !in out.names
      invariant raised ==> 0 < i && Alias(pairs[i - 1]) in out.names
    {
      if Alias(pairs[i]) in out.names {
        // `sample_labels[lab].drop_nulls().height` raises before anything is appended
        raised := true;
      }
      i := i + 1;
    }
  }

  /** Every pair's label column is in the labelled table, so the loop as written raises whenever a variable is mapped. */
  lemma AsWrittenAlwaysRaises(t: Table, pairs: seq<Pair>)
    requires RowsFit(t) && pairs != []
    ensures Alias(pairs[0]) in WithLabels(t, pairs).names
  {
    AssignAllNames(t, Aliases(pairs), LabelColumns(t, pairs), Alias(pairs[0]));
    assert Aliases(pairs)[0] == Alias(pairs[0]);
  }

  /** When some label column is null on every sampled row, the empty list the code as written reports misses its detail. */
  lemma AllNullDetailLost(pairs: seq<Pair>, out: Table, t: Table, n: nat)
    requires RowsFit(out) && RowsFit(t) && NullPairs(pairs, out, n) != []
    ensures !DetailsOf([], pairs, out, t, n)
  {
  }

  /**
   * One input that shows the loss: a column `x` whose one row is null, labelled by the map of a
   * variable `X`. Its label column `x_label` is null on the sampled row, so a detail is due, while
   * the loop as written raises on `x_label` and reports none.
   */
  lemma AllNullDetailLostExample()
    ensures var t := Table(["x"], [[Null]]);
            var pairs := [Pair("X", "x", map["1" := "uno"])];
            NullPairs(pairs, WithLabels(t, pairs), 1) == pairs && !DetailsOf([], pairs, WithLabels(t, pairs), t, 1)
  {
    var t := Table(["x"], [[Null]]);
    var pairs := [Pair("X", "x", map["1" := "uno"])];
    assert DistinctAliases(pairs);
    WithLabelsExact(t, pairs, 0, "x_label");
    assert Alias(pairs[0]) == "x_label";
    var out := WithLabels(t, pairs);
    assert CellAt(out, 0, "x_label") == Null;
    assert AllNull(SampleColumn(out, "x_label", 1));
    assert NullPairs(pairs, out, 1) == NullPairs([], out, 1) + [pairs[0]];
  }

  // ---------------------------------------------------------------- the whole step

  /** The diagnostic record: variables with no column, details of all-null label columns, the table's columns. */
  datatype Diagnostic = Diagnostic(missing: seq<String>, allNull: seq<NullDetail>, columns: seq<String>)

  /** `(n_cols_mapeadas, n_cols_posibles, diagnostico)` and the table written to the output file. */
  datatype Applied = Applied(mapped: nat, candidates: nat, diag: Diagnostic, output: Table)

  /** `base_maps.get(base, {})` */
  function VarMapsOf(baseMaps: map<String, seq<VarMapping>>, base: String): seq<VarMapping> {
    if base in baseMaps then baseMaps[base] else []
  }

  /** The outcome for a base with maps, given the table read from the input file. */
  ghost predicate LabelledAs(a: Applied, t: Table, vms: seq<VarMapping>, n: nat)
    requires RowsFit(t)
  {
    var upper := UpperToOrig(t.names);
    var pairs := MappedPairs(vms, upper);
    DistinctAliases(pairs)
    && a.mapped == |pairs| && a.candidates == |pairs|
    && a.output == WithLabels(t, pairs)
    && a.diag.missing == MissingVars(vms, upper)
    && a.diag.columns == SortBy(t.names, LowerLe)
    && DetailsOf(a.diag.allNull, pairs, a.output, t, n)
  }

  /**
   * `apply_labels_to_parquet`: refuses to overwrite an existing output unless told to, needs a base
   * in the file name, copies the table unchanged when the base has no maps, and otherwise adds a
   * label column for every dictionary variable that names a column. Two variables naming the same
   * column would give two columns of the same name, which the engine refuses.
   */
  method ApplyLabelsToParquet(path: String, baseMaps: map<String, seq<VarMapping>>, t: Table,
                              outExists: bool, overwrite: bool, sampleRows: nat) returns (r: Result<Applied>)
    requires RowsFit(t)
    ensures !overwrite && outExists ==> r == Err(OutputExists)
    ensures (overwrite || !outExists) && BaseFromParquetPath(path).Err? ==> r == Err(UnknownBase)
    ensures r.Ok? ==> BaseFromParquetPath(path).Ok? && (overwrite || !outExists)
    ensures r.Ok? && VarMapsOf(baseMaps, BaseFromParquetPath(path).value) == [] ==>
              r.value == Applied(0, 0, Diagnostic([], [], t.names), t)
    ensures (overwrite || !outExists) && BaseFromParquetPath(path).Ok? && VarMapsOf(baseMaps, BaseFromParquetPath(path).value) != [] ==>
              if DistinctAliases(MappedPairs(VarMapsOf(baseMaps, BaseFromParquetPath(path).value), UpperToOrig(t.names)))
              then r.Ok? && LabelledAs(r.value, t, VarMapsOf(baseMaps, BaseFromParquetPath(path).value), sampleRows)
              else r == Err(DuplicateColumn)
  {
    if !overwrite && outExists {
      return Err(OutputExists);
    }
    var base := BaseFromParquetPath(path);
    if base.Err? {
      return Err(UnknownBase);
    }
    var vms := VarMapsOf(baseMaps, base.value);
    if vms == [] {
      return Ok(Applied(0, 0, Diagnostic([], [], t.names), t));
    }
    var upper := UpperToOrig(t.names);
    var sortedCols := SortBy(t.names, LowerLe);
    var pairs, missing, candidates := MatchVariables(vms, upper);
    if !DistinctAliases(pairs) {
      return Err(DuplicateColumn);
    }
    var out := WithLabels(t, pairs);
    var details := NullDetails(pairs, out, t, sampleRows);
    r := Ok(Applied(|pairs|, candidates, Diagnostic(missing, details, sortedCols), out));
  }
}
