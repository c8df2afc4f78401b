/**
 * `label_ent_mun.py`: adds the state name (`ent_nombre`) and, where the table has a
 * municipality column, the municipality name (`mun_nombre`) to a consolidated ENOE table,
 * by left joins against the AGEEML catalogue of states and municipalities.
 */
module Geo {
  import opened Wrappers
  import opened Text
  import opened Tables
  import opened Sniff
  import opened Writer

  // ---------------------------------------------------------------- reading the catalogue

  /** The catalogue CSV, seen through the library calls `read_catalog` makes. */
  datatype CatalogFile = CatalogFile(
    /** `sample.decode(enc, errors="replace")` of the first 256 KiB: total, never raises */
    decodeSample: Encoding -> String,
    /** `csv.Sniffer().sniff(text, delimiters=[",", ";", "|", "\t"])`, `None` when it raises */
    sniff: String -> Option<char>,
    /** `pd.read_csv(path, encoding=enc, sep=sep, dtype=str, engine="python")`, `None` when it raises */
    read: (Encoding, char) -> Option<ParsedTable>)

  const CatalogEncodings: seq<Encoding> := [Utf8, Utf8Sig, Cp1252, Latin1]

  /** One pass of the encoding loop: decode the sample, sniff its delimiter, read the file. */
  function CatalogAttempt(f: CatalogFile, enc: Encoding): Option<ParsedTable> {
    var text := f.decodeSample(enc);
    f.read(enc, SniffDelimiter(f.sniff(text), text))
  }

  /** The first encoding whose read succeeds. */
  function FirstCatalog(f: CatalogFile, encs: seq<Encoding>): (r: Option<ParsedTable>)
    ensures r.None? <==> forall i :: 0 <= i < |encs| ==> CatalogAttempt(f, encs[i]).None?
    ensures r.Some? ==> exists i :: 0 <= i < |encs| && CatalogAttempt(f, encs[i]) == r
  {
    if encs == [] then None
    else if CatalogAttempt(f, encs[0]).Some? then CatalogAttempt(f, encs[0])
    else FirstCatalog(f, encs[1..])
  }

  /** The loop stops at the first success: later encodings are never tried. */
  lemma {:induction false} FirstCatalogAt(f: CatalogFile, encs: seq<Encoding>, i: nat)
    requires i < |encs| && CatalogAttempt(f, encs[i]).Some?
    requires forall j :: 0 <= j < i ==> CatalogAttempt(f, encs[j]).None?
    ensures FirstCatalog(f, encs) == CatalogAttempt(f, encs[i])
  {
    if i > 0 {
      FirstCatalogAt(f, encs[1..], i - 1);
    }
  }

  /**
   * The frame `read_catalog` works on: the first of the four attempts that succeeds, else a
   * last Latin-1 read with a comma, whose failure is not caught.
   */
  function CatalogTable(f: CatalogFile): (r: Result<ParsedTable>)
    ensures r.Err? <==> (forall i :: 0 <= i < |CatalogEncodings| ==> CatalogAttempt(f, CatalogEncodings[i]).None?)
                        && f.read(Latin1, ',').None?
    ensures r.Err? ==> r.error == ParseFailed
    ensures FirstCatalog(f, CatalogEncodings).None? && r.Ok? ==> f.read(Latin1, ',') == Some(r.value)
  {
    match FirstCatalog(f, CatalogEncodings)
    case Some(t) => Ok(t)
    case None =>
      match f.read(Latin1, ',')
      case Some(t) => Ok(t)
      case None => Err(ParseFailed)
  }

  /** The encoding loop of `read_catalog`, with its `break` and its last resort. */
  method ReadCatalogTable(f: CatalogFile) returns (r: Result<ParsedTable>)
    ensures r == CatalogTable(f)
  {
    var df: Option<ParsedTable> := None;
    var i := 0;
    while i < |CatalogEncodings|
      invariant 0 <= i <= |CatalogEncodings|
      invariant df.None? && FirstCatalog(f, CatalogEncodings) == FirstCatalog(f, CatalogEncodings[i..])
    {
      assert CatalogEncodings[i..][1..] == CatalogEncodings[i + 1..];
      assert CatalogEncodings[i..][0] == CatalogEncodings[i];
      var text := f.decodeSample(CatalogEncodings[i]);
      var sep := SniffDelimiter(f.sniff(text), text);
      df := f.read(CatalogEncodings[i], sep);
      assert df == CatalogAttempt(f, CatalogEncodings[i]);
      if df.Some? {
        assert df == FirstCatalog(f, CatalogEncodings[i..]);
        break;
      }
      i := i + 1;
    }
    if df.None? {
      assert FirstCatalog(f, CatalogEncodings).None?;
      df := f.read(Latin1, ',');
      if df.None? {
        return Err(ParseFailed);
      }
    }
    return Ok(df.value);
  }

  // ---------------------------------------------------------------- codes

  function Max(a: nat, b: nat): nat { if a >= b then a else b }

  /**
   * `astype(str).str.replace(r"\D", "", regex=True).str.zfill(width)` on a catalogue cell:
   * the digits of the text, left-padded with zeros to `width`; a longer code is kept whole.
   */
  function CatalogCode(c: Cell, width: nat): (r: String)
    ensures AllDigits(r)
    ensures |r| == Max(width, |DigitsOnly(CellText(c))|)
    ensures r[|r| - |DigitsOnly(CellText(c))|..] == DigitsOnly(CellText(c))
    ensures forall i :: 0 <= i < |r| - |DigitsOnly(CellText(c))| ==> r[i] == '0'
  {
    var d := DigitsOnly(CellText(c));
    ZFillDigits(d, width);
    ZFill(d, width)
  }

  /** Normalising a normalised code changes nothing. */
  lemma CatalogCodeIdempotent(c: Cell, width: nat)
    ensures CatalogCode(Str(CatalogCode(c, width)), width) == CatalogCode(c, width)
  {
    DigitsOnlyKeepsDigits(CatalogCode(c, width));
  }

  /**
   * The same rule on a table column read with `astype("string")`: a missing value stays
   * missing, every other value is normalised as in the catalogue.
   */
  function TableCode(c: Cell, width: nat): (r: Cell)
    ensures r.Null? <==> c.Null?
    ensures !c.Null? ==> r == Str(CatalogCode(c, width))
  {
    if c.Null? then Null else Str(CatalogCode(c, width))
  }

  /** A column of normalised codes, one per row. */
  function Codes(t: Table, col: String, width: nat): (r: seq<Cell>)
    requires RowsFit(t)
    ensures |r| == |t.rows|
    ensures forall i :: 0 <= i < |t.rows| ==> r[i] == TableCode(CellAt(t, i, col), width)
  {
    seq(|t.rows|, i requires 0 <= i < |t.rows| => TableCode(CellAt(t, i, col), width))
  }

  // ---------------------------------------------------------------- catalogue entries

  /** One catalogue row as the joins see it: its normalised key and its name. */
  datatype Entry = Entry(key: seq<String>, name: Cell)

  /** The first entry with the given key. */
  function FirstEntry(cat: seq<Entry>, key: seq<String>): (r: Option<Entry>)
    ensures r.Some? ==> r.value in cat && r.value.key == key
    ensures r.None? <==> forall e :: e in cat ==> e.key != key
  {
    if cat == [] then None
    else if cat[0].key == key then Some(cat[0])
    else FirstEntry(cat[1..], key)
  }

  /** An entry that no earlier entry shares its key with is the one found. */
  lemma {:induction false} FirstEntryAt(cat: seq<Entry>, j: nat)
    requires j < |cat| && forall i :: 0 <= i < j ==> cat[i].key != cat[j].key
    ensures FirstEntry(cat, cat[j].key) == Some(cat[j])
  {
    if j > 0 {
      FirstEntryAt(cat[1..], j - 1);
    }
  }

  lemma {:induction false} FirstEntryAppend(cat: seq<Entry>, e: Entry, key: seq<String>)
    ensures FirstEntry(cat + [e], key) ==
      if FirstEntry(cat, key).Some? then FirstEntry(cat, key) else if e.key == key then Some(e) else None
  {
    if cat != [] {
      assert (cat + [e])[1..] == cat[1..] + [e];
      FirstEntryAppend(cat[1..], e, key);
    }
  }

  predicate DistinctKeys(cat: seq<Entry>) {
    forall i, j :: 0 <= i < j < |cat| ==> cat[i].key != cat[j].key
  }

  /**
   * `drop_duplicates(subset=key)` with the default `keep="first"`: an entry survives when no
   * earlier entry has its key.
   */
  function UniqueFirst(cat: seq<Entry>): (r: seq<Entry>)
    ensures |r| <= |cat|
    ensures forall e :: e in r ==> e in cat
  {
    if cat == [] then []
    else
      var init := cat[..|cat| - 1];
      var last := cat[|cat| - 1];
      if FirstEntry(init, last.key).Some? then UniqueFirst(init) else UniqueFirst(init) + [last]
  }

  /** De-duplication keeps, for every key, the first catalogue row that has it. */
  lemma {:induction false} UniqueFirstKeepsFirst(cat: seq<Entry>, key: seq<String>)
    ensures FirstEntry(UniqueFirst(cat), key) == FirstEntry(cat, key)
  {
    if cat != [] {
      var init := cat[..|cat| - 1];
      var last := cat[|cat| - 1];
      assert cat == init + [last];
      UniqueFirstKeepsFirst(init, key);
      FirstEntryAppend(init, last, key);
      if FirstEntry(init, last.key).None? {
        FirstEntryAppend(UniqueFirst(init), last, key);
      }
    }
  }

  /** No two surviving entries share a key. */
  lemma {:induction false} UniqueFirstDistinct(cat: seq<Entry>)
    ensures DistinctKeys(UniqueFirst(cat))
  {
    if cat != [] {
      var init := cat[..|cat| - 1];
      var last := cat[|cat| - 1];
      UniqueFirstDistinct(init);
      if FirstEntry(init, last.key).None? {
        var u := UniqueFirst(init);
        UniqueFirstKeepsFirst(init, last.key);
        forall i | 0 <= i < |u| ensures u[i].key != last.key {
          assert u[i] in u;
        }
      }
    }
  }

  // ---------------------------------------------------------------- `read_catalog`

  const Expected: seq<String> := ["CVE_ENT", "NOM_ENT", "CVE_MUN", "NOM_MUN"]

  /** The two de-duplicated catalogues. */
  datatype Catalog = Catalog(ent: seq<Entry>, mun: seq<Entry>)

  /** `df[["CVE_ENT", "NOM_ENT"]]` with the state code normalised to two digits. */
  function EntRows(t: Table): (r: seq<Entry>)
    requires RowsFit(t)
    ensures |r| == |t.rows|
  {
    seq(|t.rows|, i requires 0 <= i < |t.rows| =>
      Entry([CatalogCode(CellAt(t, i, "CVE_ENT"), 2)], CellAt(t, i, "NOM_ENT")))
  }

  /** `df[["CVE_ENT", "CVE_MUN", "NOM_MUN"]]` with the codes normalised to two and three digits. */
  function MunRows(t: Table): (r: seq<Entry>)
    requires RowsFit(t)
    ensures |r| == |t.rows|
  {
    seq(|t.rows|, i requires 0 <= i < |t.rows| =>
      Entry([CatalogCode(CellAt(t, i, "CVE_ENT"), 2), CatalogCode(CellAt(t, i, "CVE_MUN"), 3)], CellAt(t, i, "NOM_MUN")))
  }

  /**
   * The checks and normalisation of `read_catalog` on the frame it read: `ValueError` when an
   * expected column is missing; otherwise both catalogues, unique by their keys.
   */
  function ReadCatalog(t: ParsedTable): (r: Result<Catalog>)
    ensures r.Err? <==> exists c :: c in Expected && c !in t.names
    ensures r.Err? ==> r.error == MissingColumns
    ensures r.Ok? ==> DistinctKeys(r.value.ent) && DistinctKeys(r.value.mun)
    ensures r.Ok? ==> forall e :: e in r.value.ent ==> e in EntRows(t)
    ensures r.Ok? ==> forall e :: e in r.value.mun ==> e in MunRows(t)
  {
    if exists c :: c in Expected && c !in t.names then Err(MissingColumns)
    else
      UniqueFirstDistinct(EntRows(t));
      UniqueFirstDistinct(MunRows(t));
      Ok(Catalog(UniqueFirst(EntRows(t)), UniqueFirst(MunRows(t))))
  }

  /**
   * Every state code of the catalogue file is still there after de-duplication, with the
   * name of the first row that carries it.
   */
  lemma EntCatalogFirstRow(t: ParsedTable, j: nat)
    requires ReadCatalog(t).Ok? && j < |t.rows|
    requires forall i :: 0 <= i < j ==> EntRows(t)[i].key != EntRows(t)[j].key
    ensures FirstEntry(ReadCatalog(t).value.ent, EntRows(t)[j].key) == Some(EntRows(t)[j])
  {
    UniqueFirstKeepsFirst(EntRows(t), EntRows(t)[j].key);
    FirstEntryAt(EntRows(t), j);
  }

  /** The same for municipalities, keyed by state and municipality code together. */
  lemma MunCatalogFirstRow(t: ParsedTable, j: nat)
    requires ReadCatalog(t).Ok? && j < |t.rows|
    requires forall i :: 0 <= i < j ==> MunRows(t)[i].key != MunRows(t)[j].key
    ensures FirstEntry(ReadCatalog(t).value.mun, MunRows(t)[j].key) == Some(MunRows(t)[j])
  {
    UniqueFirstKeepsFirst(MunRows(t), MunRows(t)[j].key);
    FirstEntryAt(MunRows(t), j);
  }

  /** `read_catalog`: read the file, check the columns, normalise and de-duplicate. */
  method LoadCatalog(f: CatalogFile) returns (r: Result<Catalog>)
    ensures CatalogTable(f).Err? ==> r == Err(ParseFailed)
    ensures CatalogTable(f).Ok? ==> r == ReadCatalog(CatalogTable(f).value)
  {
    var df := ReadCatalogTable(f);
    if df.Err? {
      return Err(df.error);
    }
    var t := df.value;
    if exists c :: c in Expected && c !in t.names {
      return Err(MissingColumns);
    }
    r := Ok(Catalog(UniqueFirst(EntRows(t)), UniqueFirst(MunRows(t))));
  }

  // ---------------------------------------------------------------- the left join

  /** The catalogue key one table row joins on; `None` when a key cell is missing, which matches nothing. */
  function JoinKey(cells: seq<Cell>): (r: Option<seq<String>>)
    ensures r.Some? <==> forall k :: 0 <= k < |cells| ==> cells[k].Str?
    ensures r.Some? ==> |r.value| == |cells| && forall k :: 0 <= k < |cells| ==> cells[k] == Str(r.value[k])
  {
    if forall k :: 0 <= k < |cells| ==> cells[k].Str? then
      Some(seq(|cells|, k requires 0 <= k < |cells| => cells[k].s))
    else None
  }

  /** The name a row receives from the catalogue: that of the entry with its key, or null. */
  function NameOf(cat: seq<Entry>, cells: seq<Cell>): Cell {
    match JoinKey(cells)
    case None => Null
    case Some(key) =>
      match FirstEntry(cat, key)
      case None => Null
      case Some(e) => e.name
  }

  /** The cells a left merge appends to one row: the matching entry's key and name, or nulls. */
  function JoinCells(cat: seq<Entry>, cells: seq<Cell>): (r: seq<Cell>)
    ensures |r| == |cells| + 1
    ensures r[|cells|] == NameOf(cat, cells)
  {
    match JoinKey(cells)
    case None => Nulls(|cells| + 1)
    case Some(key) =>
      match FirstEntry(cat, key)
      case None => Nulls(|cells| + 1)
      case Some(e) => seq(|cells|, k requires 0 <= k < |cells| => Str(key[k])) + [e.name]
  }

  /** The key cells of row `i`. */
  function KeyCells(t: Table, i: nat, cols: seq<String>): (r: seq<Cell>)
    requires RowsFit(t) && i < |t.rows|
    ensures |r| == |cols| && forall k :: 0 <= k < |cols| ==> r[k] == CellAt(t, i, cols[k])
  {
    seq(|cols|, k requires 0 <= k < |cols| => CellAt(t, i, cols[k]))
  }

  /**
   * `merge(cat, how="left", left_on=leftOn, right_on=...)` against a catalogue with unique
   * keys: every row is kept once and in order, with the catalogue's columns appended.
   */
  function LeftJoin(t: Table, leftOn: seq<String>, right: seq<String>, cat: seq<Entry>): (r: Table)
    requires RowsFit(t) && |right| == |leftOn| + 1
    ensures r.names == t.names + right && |r.rows| == |t.rows| && RowsFit(r)
    ensures forall i :: 0 <= i < |t.rows| ==> r.rows[i][..|t.names|] == t.rows[i]
  {
    Table(t.names + right, seq(|t.rows|, i requires 0 <= i < |t.rows| =>
      t.rows[i] + JoinCells(cat, KeyCells(t, i, leftOn))))
  }

  /** After the join, the left columns are unchanged and the name column holds the matched name. */
  lemma LeftJoinCells(t: Table, leftOn: seq<String>, right: seq<String>, cat: seq<Entry>, i: nat, c: String)
    requires RowsFit(t) && |right| == |leftOn| + 1 && i < |t.rows|
    requires Distinct(right) && forall x :: x in right ==> x !in t.names
    ensures c !in right ==> CellAt(LeftJoin(t, leftOn, right, cat), i, c) == CellAt(t, i, c)
    ensures CellAt(LeftJoin(t, leftOn, right, cat), i, right[|leftOn|]) == NameOf(cat, KeyCells(t, i, leftOn))
  {
    var r := LeftJoin(t, leftOn, right, cat);
    if c in t.names {
      IndexOfFront(t.names, right, c);
    } else if c !in right {
      assert c !in r.names;
    }
    IndexOfBehind(t.names, right, right[|leftOn|]);
    IndexOfDistinct(right, |leftOn|);
    assert r.rows[i][|t.names| + |leftOn|] == JoinCells(cat, KeyCells(t, i, leftOn))[|leftOn|];
  }

  // ---------------------------------------------------------------- `label_one_parquet`

  /** The column names after `ddf.assign(name=...)`: replaced in place, or appended. */
  function AddName(names: seq<String>, name: String): (r: seq<String>)
    ensures forall c :: c in r <==> c in names || c == name
  {
    if name in names then names else names + [name]
  }

  lemma AssignWellFormed(t: Table, name: String, col: seq<Cell>)
    requires WellFormed(t) && |col| == |t.rows|
    ensures WellFormed(Assign(t, name, col)) && Assign(t, name, col).names == AddName(t.names, name)
  {
    if name !in t.names {
      DistinctAppend(t.names, name);
    }
  }

  /** The merge, rename and drop of the ENT block, on a frame that already has `_ent_code`. */
  function EntJoined(a: Table, ent: seq<Entry>): (r: Table)
    requires RowsFit(a)
    ensures RowsFit(r) && |r.rows| == |a.rows|
  {
    Rename(LeftJoin(a, ["_ent_code"], ["CVE_ENT", "NOM_ENT"], ent), "NOM_ENT", "ent_nombre")
  }

  lemma EntJoinedNames(a: Table, ent: seq<Entry>)
    requires WellFormed(a) && "CVE_ENT" !in a.names && "NOM_ENT" !in a.names && "ent_nombre" !in a.names
    ensures EntJoined(a, ent).names == a.names + ["CVE_ENT", "ent_nombre"]
    ensures Without(a.names + ["CVE_ENT", "ent_nombre"], ["CVE_ENT"]) == a.names + ["ent_nombre"]
    ensures Distinct(a.names + ["ent_nombre"])
  {
    RenamedLast(a.names, ["CVE_ENT", "NOM_ENT"], "NOM_ENT", "ent_nombre");
    assert ["CVE_ENT", "NOM_ENT"][..1] == ["CVE_ENT"];
    assert a.names + ["CVE_ENT"] + ["ent_nombre"] == a.names + ["CVE_ENT", "ent_nombre"];
    WithoutAppend(a.names, ["CVE_ENT", "ent_nombre"], ["CVE_ENT"]);
    WithoutNothing(a.names, ["CVE_ENT"]);
    WithoutNothing(["ent_nombre"], ["CVE_ENT"]);
    assert Without(["CVE_ENT", "ent_nombre"], ["CVE_ENT"]) == Without(["ent_nombre"], ["CVE_ENT"]);
    DistinctAppend(a.names, "ent_nombre");
  }

  lemma EntJoinedCell(a: Table, ent: seq<Entry>, i: nat, x: String)
    requires WellFormed(a) && "CVE_ENT" !in a.names && "NOM_ENT" !in a.names && "ent_nombre" !in a.names
    requires "_ent_code" in a.names && i < |a.rows|
    ensures CellAt(EntJoined(a, ent), i, "ent_nombre") == NameOf(ent, [CellAt(a, i, "_ent_code")])
    ensures x in a.names ==> CellAt(EntJoined(a, ent), i, x) == CellAt(a, i, x)
  {
    var b := LeftJoin(a, ["_ent_code"], ["CVE_ENT", "NOM_ENT"], ent);
    LeftJoinCells(a, ["_ent_code"], ["CVE_ENT", "NOM_ENT"], ent, i, x);
    RenameCells(b, "NOM_ENT", "ent_nombre", i, x);
    assert KeyCells(a, i, ["_ent_code"]) == [CellAt(a, i, "_ent_code")];
  }

  /** The table-side ENT code column. */
  function WithEntCode(t: Table, ec: String): (r: Table)
    requires RowsFit(t)
    ensures RowsFit(r) && |r.rows| == |t.rows|
  {
    Assign(t, "_ent_code", Codes(t, ec, 2))
  }

  /**
   * The ENT block: the normalised code as `_ent_code`, the left merge with the state
   * catalogue, `NOM_ENT` renamed to `ent_nombre` and the catalogue's `CVE_ENT` dropped.
   */
  function EntBlock(t: Table, ec: String, ent: seq<Entry>): (r: Table)
    requires WellFormed(t) && "CVE_ENT" !in t.names && "NOM_ENT" !in t.names && "ent_nombre" !in t.names
    ensures RowsFit(r) && |r.rows| == |t.rows|
  {
    var a := WithEntCode(t, ec);
    AssignWellFormed(t, "_ent_code", Codes(t, ec, 2));
    EntJoinedNames(a, ent);
    Drop(EntJoined(a, ent), ["CVE_ENT"]).value
  }

  /** The ENT block adds `_ent_code` (unless the table had it) and `ent_nombre` after the table's columns. */
  lemma EntBlockNames(t: Table, ec: String, ent: seq<Entry>)
    requires WellFormed(t) && "CVE_ENT" !in t.names && "NOM_ENT" !in t.names && "ent_nombre" !in t.names
    ensures EntBlock(t, ec, ent).names == AddName(t.names, "_ent_code") + ["ent_nombre"]
    ensures WellFormed(EntBlock(t, ec, ent))
  {
    var a := WithEntCode(t, ec);
    AssignWellFormed(t, "_ent_code", Codes(t, ec, 2));
    EntJoinedNames(a, ent);
  }

  /**
   * Row by row, the ENT block writes the normalised code and the state name found for it,
   * and leaves every column of the table other than `_ent_code` as it was.
   */
  lemma EntBlockCell(t: Table, ec: String, ent: seq<Entry>, i: nat, x: String)
    requires WellFormed(t) && "CVE_ENT" !in t.names && "NOM_ENT" !in t.names && "ent_nombre" !in t.names
    requires i < |t.rows|
    ensures CellAt(EntBlock(t, ec, ent), i, "_ent_code") == TableCode(CellAt(t, i, ec), 2)
    ensures CellAt(EntBlock(t, ec, ent), i, "ent_nombre") == NameOf(ent, [TableCode(CellAt(t, i, ec), 2)])
    ensures x in t.names && x != "_ent_code" ==> CellAt(EntBlock(t, ec, ent), i, x) == CellAt(t, i, x)
  {
    var a := WithEntCode(t, ec);
    AssignWellFormed(t, "_ent_code", Codes(t, ec, 2));
    EntJoinedNames(a, ent);
    EntJoinedCell(a, ent, i, x);
    EntJoinedCell(a, ent, i, "_ent_code");
  }

  /** The merge, rename and drop of the MUN block, on a frame that already has both code columns. */
  function MunJoined(a: Table, mun: seq<Entry>): (r: Table)
    requires RowsFit(a)
    ensures RowsFit(r) && |r.rows| == |a.rows|
  {
    Rename(LeftJoin(a, ["_ent_code", "_mun_code"], ["CVE_ENT", "CVE_MUN", "NOM_MUN"], mun), "NOM_MUN", "mun_nombre")
  }

  predicate MunFree(names: seq<String>) {
    "CVE_ENT" !in names && "CVE_MUN" !in names && "NOM_MUN" !in names && "mun_nombre" !in names
  }

  lemma MunJoinedNames(a: Table, mun: seq<Entry>)
    requires WellFormed(a) && MunFree(a.names)
    ensures MunJoined(a, mun).names == a.names + ["CVE_ENT", "CVE_MUN", "mun_nombre"]
    ensures Without(a.names + ["CVE_ENT", "CVE_MUN", "mun_nombre"], ["CVE_ENT", "CVE_MUN"]) == a.names + ["mun_nombre"]
    ensures Distinct(a.names + ["mun_nombre"])
  {
    RenamedLast(a.names, ["CVE_ENT", "CVE_MUN", "NOM_MUN"], "NOM_MUN", "mun_nombre");
    assert ["CVE_ENT", "CVE_MUN", "NOM_MUN"][..2] == ["CVE_ENT", "CVE_MUN"];
    assert a.names + ["CVE_ENT", "CVE_MUN"] + ["mun_nombre"] == a.names + ["CVE_ENT", "CVE_MUN", "mun_nombre"];
    WithoutAppend(a.names, ["CVE_ENT", "CVE_MUN", "mun_nombre"], ["CVE_ENT", "CVE_MUN"]);
    WithoutNothing(a.names, ["CVE_ENT", "CVE_MUN"]);
    WithoutNothing(["mun_nombre"], ["CVE_ENT", "CVE_MUN"]);
    assert ["CVE_ENT", "CVE_MUN", "mun_nombre"][1..] == ["CVE_MUN", "mun_nombre"];
    assert ["CVE_MUN", "mun_nombre"][1..] == ["mun_nombre"];
    assert Without(["CVE_ENT", "CVE_MUN", "mun_nombre"], ["CVE_ENT", "CVE_MUN"]) == Without(["mun_nombre"], ["CVE_ENT", "CVE_MUN"]);
    DistinctAppend(a.names, "mun_nombre");
  }

  lemma MunJoinedCell(a: Table, mun: seq<Entry>, i: nat, x: String)
    requires WellFormed(a) && MunFree(a.names) && i < |a.rows|
    ensures CellAt(MunJoined(a, mun), i, "mun_nombre") ==
              NameOf(mun, [CellAt(a, i, "_ent_code"), CellAt(a, i, "_mun_code")])
    ensures x in a.names ==> CellAt(MunJoined(a, mun), i, x) == CellAt(a, i, x)
  {
    MunJoinedLooked(a, mun, i);
    if x in a.names {
      MunJoinedKeeps(a, mun, i, x);
    }
  }

  /** The right-hand columns of the MUN merge are distinct and new, and leave room for `mun_nombre`. */
  lemma MunJoinFree(a: Table, mun: seq<Entry>)
    requires WellFormed(a) && MunFree(a.names)
    ensures Distinct(["CVE_ENT", "CVE_MUN", "NOM_MUN"])
    ensures forall x :: x in ["CVE_ENT", "CVE_MUN", "NOM_MUN"] ==> x !in a.names
    ensures "mun_nombre" !in LeftJoin(a, ["_ent_code", "_mun_code"], ["CVE_ENT", "CVE_MUN", "NOM_MUN"], mun).names
  {
    var right := ["CVE_ENT", "CVE_MUN", "NOM_MUN"];
    assert right[0] != right[1] && right[0] != right[2] && right[1] != right[2];
    assert "mun_nombre" !in right;
  }

  lemma MunJoinedLooked(a: Table, mun: seq<Entry>, i: nat)
    requires WellFormed(a) && MunFree(a.names) && i < |a.rows|
    ensures CellAt(MunJoined(a, mun), i, "mun_nombre") ==
              NameOf(mun, [CellAt(a, i, "_ent_code"), CellAt(a, i, "_mun_code")])
  {
    var b := LeftJoin(a, ["_ent_code", "_mun_code"], ["CVE_ENT", "CVE_MUN", "NOM_MUN"], mun);
    MunJoinFree(a, mun);
    LeftJoinCells(a, ["_ent_code", "_mun_code"], ["CVE_ENT", "CVE_MUN", "NOM_MUN"], mun, i, "NOM_MUN");
    RenameCells(b, "NOM_MUN", "mun_nombre", i, "NOM_MUN");
    assert KeyCells(a, i, ["_ent_code", "_mun_code"]) == [CellAt(a, i, "_ent_code"), CellAt(a, i, "_mun_code")];
  }

  lemma MunJoinedKeeps(a: Table, mun: seq<Entry>, i: nat, x: String)
    requires WellFormed(a) && MunFree(a.names) && i < |a.rows| && x in a.names
    ensures CellAt(MunJoined(a, mun), i, x) == CellAt(a, i, x)
  {
    var b := LeftJoin(a, ["_ent_code", "_mun_code"], ["CVE_ENT", "CVE_MUN", "NOM_MUN"], mun);
    MunJoinFree(a, mun);
    LeftJoinCells(a, ["_ent_code", "_mun_code"], ["CVE_ENT", "CVE_MUN", "NOM_MUN"], mun, i, x);
    RenameCells(b, "NOM_MUN", "mun_nombre", i, x);
  }

  /**
   * The `_ent_code` the MUN block joins on when the frame has none yet: the normalised ENT
   * column, or an all-missing column (which matches no municipality) when there is no ENT column.
   */
  function EntFill(t: Table, entCol: Option<String>): (r: seq<Cell>)
    requires RowsFit(t)
    ensures |r| == |t.rows|
    ensures entCol.None? ==> forall i :: 0 <= i < |r| ==> r[i] == Null
  {
    match entCol
    case Some(ec) => Codes(t, ec, 2)
    case None => Nulls(|t.rows|)
  }

  /** The frame with both code columns, as the MUN block builds it before the merge. */
  function WithMunCodes(t: Table, mc: String, entCol: Option<String>): (r: Table)
    requires RowsFit(t)
    ensures RowsFit(r) && |r.rows| == |t.rows|
  {
    var u := if "_ent_code" in t.names then t else Assign(t, "_ent_code", EntFill(t, entCol));
    Assign(u, "_mun_code", Codes(u, mc, 3))
  }

  /** The key a row of the MUN block joins on, in terms of the frame the block starts from. */
  function EntKey(t: Table, i: nat, entCol: Option<String>): Cell
    requires RowsFit(t) && i < |t.rows|
  {
    if "_ent_code" in t.names then CellAt(t, i, "_ent_code") else EntFill(t, entCol)[i]
  }

  lemma WithMunCodesNames(t: Table, mc: String, entCol: Option<String>)
    requires WellFormed(t)
    ensures WellFormed(WithMunCodes(t, mc, entCol))
    ensures WithMunCodes(t, mc, entCol).names == AddName(AddName(t.names, "_ent_code"), "_mun_code")
  {
    var u := if "_ent_code" in t.names then t else Assign(t, "_ent_code", EntFill(t, entCol));
    if "_ent_code" !in t.names {
      AssignWellFormed(t, "_ent_code", EntFill(t, entCol));
    }
    AssignWellFormed(u, "_mun_code", Codes(u, mc, 3));
  }

  lemma WithMunCodesCell(t: Table, mc: String, entCol: Option<String>, i: nat, x: String)
    requires WellFormed(t) && mc != "_ent_code" && i < |t.rows|
    ensures CellAt(WithMunCodes(t, mc, entCol), i, "_ent_code") == EntKey(t, i, entCol)
    ensures CellAt(WithMunCodes(t, mc, entCol), i, "_mun_code") == TableCode(CellAt(t, i, mc), 3)
    ensures x != "_ent_code" && x != "_mun_code" ==> CellAt(WithMunCodes(t, mc, entCol), i, x) == CellAt(t, i, x)
  {
  }

  /**
   * The MUN block: `_ent_code` when the frame lacks it, the normalised municipality code as
   * `_mun_code`, the left merge with the municipality catalogue on both codes, `NOM_MUN`
   * renamed to `mun_nombre`, and the catalogue's `CVE_ENT` and `CVE_MUN` dropped.
   */
  function MunBlock(t: Table, mc: String, entCol: Option<String>, mun: seq<Entry>): (r: Table)
    requires WellFormed(t) && MunFree(t.names)
    ensures RowsFit(r) && |r.rows| == |t.rows|
  {
    var a := WithMunCodes(t, mc, entCol);
    WithMunCodesNames(t, mc, entCol);
    MunJoinedNames(a, mun);
    Drop(MunJoined(a, mun), ["CVE_ENT", "CVE_MUN"]).value
  }

  /** The MUN block adds the missing code columns and `mun_nombre` after the table's columns. */
  lemma MunBlockNames(t: Table, mc: String, entCol: Option<String>, mun: seq<Entry>)
    requires WellFormed(t) && MunFree(t.names)
    ensures MunBlock(t, mc, entCol, mun).names == AddName(AddName(t.names, "_ent_code"), "_mun_code") + ["mun_nombre"]
    ensures WellFormed(MunBlock(t, mc, entCol, mun))
  {
    WithMunCodesNames(t, mc, entCol);
    MunJoinedNames(WithMunCodes(t, mc, entCol), mun);
  }

  /**
   * Row by row, the MUN block writes the municipality name found for the pair of state and
   * municipality codes, and leaves every other column of the table as it was.
   */
  lemma MunBlockCell(t: Table, mc: String, entCol: Option<String>, mun: seq<Entry>, i: nat, x: String)
    requires WellFormed(t) && mc != "_ent_code" && MunFree(t.names) && i < |t.rows|
    ensures CellAt(MunBlock(t, mc, entCol, mun), i, "mun_nombre") ==
              NameOf(mun, [EntKey(t, i, entCol), TableCode(CellAt(t, i, mc), 3)])
    ensures x in t.names && x != "_ent_code" && x != "_mun_code" ==> CellAt(MunBlock(t, mc, entCol, mun), i, x) == CellAt(t, i, x)
  {
    var a := WithMunCodes(t, mc, entCol);
    WithMunCodesNames(t, mc, entCol);
    MunJoinedNames(a, mun);
    WithMunCodesCell(t, mc, entCol, i, x);
    MunJoinedCell(a, mun, i, x);
  }

  // ---------------------------------------------------------------- the whole frame

  /** `find_col_case_insensitive(ddf.columns, "ent")` */
  function EntColumn(t: Table): Option<String> {
    FindColCi(t.names, "ent")
  }

  /** `find_col_case_insensitive(ddf.columns, "mun")` */
  function MunColumn(t: Table): Option<String> {
    FindColCi(t.names, "mun")
  }

  /** A column found by a case-insensitive search has the length of the name searched for. */
  lemma FoundLength(cols: seq<String>, target: String)
    ensures FindColCi(cols, target).Some? ==> |FindColCi(cols, target).value| == |target|
  {
    if FindColCi(cols, target).Some? {
      assert |Lower(FindColCi(cols, target).value)| == |Lower(target)|;
    }
  }

  /**
   * A table whose names collide with the catalogue's or with the new name columns: the
   * model reports it instead of following pandas' suffixing of colliding merge columns.
   */
  predicate Clash(t: Table) {
    (EntColumn(t).Some? && ("CVE_ENT" in t.names || "NOM_ENT" in t.names || "ent_nombre" in t.names))
    || (MunColumn(t).Some? && !MunFree(t.names))
  }

  /** The table's own columns that are still there at the end. */
  predicate Survives(t: Table, dropOriginal: bool, c: String) {
    c in t.names && c != "_ent_code" && c != "_mun_code"
    && !(dropOriginal && (EntColumn(t) == Some(c) || MunColumn(t) == Some(c)))
  }

  /** The state name row `i` receives. */
  function EntName(t: Table, ent: seq<Entry>, i: nat): Cell
    requires RowsFit(t) && i < |t.rows| && EntColumn(t).Some?
  {
    NameOf(ent, [TableCode(CellAt(t, i, EntColumn(t).value), 2)])
  }

  /**
   * The municipality name row `i` receives: the pair of its normalised state code (the
   * table's own `_ent_code`, null when absent, if it has no ENT column) and its normalised
   * municipality code.
   */
  function MunName(t: Table, mun: seq<Entry>, i: nat): Cell
    requires RowsFit(t) && i < |t.rows| && MunColumn(t).Some?
  {
    var entKey := if EntColumn(t).Some? then TableCode(CellAt(t, i, EntColumn(t).value), 2) else CellAt(t, i, "_ent_code");
    NameOf(mun, [entKey, TableCode(CellAt(t, i, MunColumn(t).value), 3)])
  }

  /** The columns the ENT block adds are none of the names the MUN block needs free. */
  lemma MunFreeAfterEnt(names: seq<String>, extra: seq<String>)
    requires extra == ["ent_nombre"] || extra == ["_ent_code", "ent_nombre"]
    ensures MunFree(names + extra) <==> MunFree(names)
  {
    assert "ent_nombre"[0] != "mun_nombre"[0];
    assert |"ent_nombre"| != |"CVE_ENT"| && |"_ent_code"| != |"CVE_ENT"|;
    assert |"ent_nombre"| != |"CVE_MUN"| && |"_ent_code"| != |"CVE_MUN"|;
    assert |"ent_nombre"| != |"NOM_MUN"| && |"_ent_code"| != |"NOM_MUN"|;
    assert |"_ent_code"| != |"mun_nombre"|;
    forall x | x in extra ensures x != "CVE_ENT" && x != "CVE_MUN" && x != "NOM_MUN" && x != "mun_nombre" {}
  }

  /** The ENT part of `label_one_parquet`: skipped, with a warning, when there is no ENT column. */
  method LabelEnt(t: Table, ent: seq<Entry>) returns (r: Result<Table>)
    requires WellFormed(t)
    ensures r.Err? <==> EntColumn(t).Some? && ("CVE_ENT" in t.names || "NOM_ENT" in t.names || "ent_nombre" in t.names)
    ensures r.Err? ==> r.error == ColumnClash
    ensures r.Ok? && EntColumn(t).None? ==> r.value == t
    ensures r.Ok? ==> WellFormed(r.value) && |r.value.rows| == |t.rows|
    ensures r.Ok? && EntColumn(t).Some? ==> r.value.names == AddName(t.names, "_ent_code") + ["ent_nombre"]
    ensures r.Ok? ==> MunColumn(r.value) == MunColumn(t) && (MunFree(r.value.names) <==> MunFree(t.names))
    ensures r.Ok? ==> forall i, x :: 0 <= i < |t.rows| && x in t.names && x != "_ent_code" ==> CellAt(r.value, i, x) == CellAt(t, i, x)
    ensures r.Ok? && EntColumn(t).Some? ==> forall i :: 0 <= i < |t.rows| ==>
              CellAt(r.value, i, "ent_nombre") == EntName(t, ent, i)
              && CellAt(r.value, i, "_ent_code") == TableCode(CellAt(t, i, EntColumn(t).value), 2)
  {
    var entCol := FindColCi(t.names, "ent");
    if entCol.None? {
      return Ok(t);
    }
    if "CVE_ENT" in t.names || "NOM_ENT" in t.names || "ent_nombre" in t.names {
      return Err(ColumnClash);
    }
    FoundLength(t.names, "ent");
    var ddf := EntBlock(t, entCol.value, ent);
    EntBlockNames(t, entCol.value, ent);
    var extra := if "_ent_code" in t.names then ["ent_nombre"] else ["_ent_code", "ent_nombre"];
    assert ddf.names == t.names + extra;
    FindColCiAppend(t.names, extra, "mun");
    MunFreeAfterEnt(t.names, extra);
    forall i, x | 0 <= i < |t.rows|
      ensures x in t.names && x != "_ent_code" ==> CellAt(ddf, i, x) == CellAt(t, i, x)
      ensures CellAt(ddf, i, "ent_nombre") == EntName(t, ent, i)
      ensures CellAt(ddf, i, "_ent_code") == TableCode(CellAt(t, i, entCol.value), 2)
    {
      EntBlockCell(t, entCol.value, ent, i, x);
    }
    return Ok(ddf);
  }

  /** The MUN part of `label_one_parquet`: skipped when there is no MUN column. */
  method LabelMun(u: Table, mun: seq<Entry>, entCol: Option<String>) returns (r: Result<Table>)
    requires WellFormed(u)
    ensures r.Err? <==> MunColumn(u).Some? && !MunFree(u.names)
    ensures r.Err? ==> r.error == ColumnClash
    ensures r.Ok? && MunColumn(u).None? ==> r.value == u
    ensures r.Ok? ==> WellFormed(r.value) && |r.value.rows| == |u.rows|
    ensures r.Ok? && MunColumn(u).Some? ==> r.value.names == AddName(AddName(u.names, "_ent_code"), "_mun_code") + ["mun_nombre"]
    ensures r.Ok? ==> forall i, x :: 0 <= i < |u.rows| && x in u.names && x != "_ent_code" && x != "_mun_code" ==>
              CellAt(r.value, i, x) == CellAt(u, i, x)
    ensures r.Ok? && MunColumn(u).Some? ==> forall i :: 0 <= i < |u.rows| ==>
              CellAt(r.value, i, "mun_nombre") == NameOf(mun, [EntKey(u, i, entCol), TableCode(CellAt(u, i, MunColumn(u).value), 3)])
  {
    var munCol := FindColCi(u.names, "mun");
    if munCol.None? {
      return Ok(u);
    }
    if !MunFree(u.names) {
      return Err(ColumnClash);
    }
    FoundLength(u.names, "mun");
    var ddf := MunBlock(u, munCol.value, entCol, mun);
    MunBlockNames(u, munCol.value, entCol, mun);
    forall i, x | 0 <= i < |u.rows|
      ensures x in u.names && x != "_ent_code" && x != "_mun_code" ==> CellAt(ddf, i, x) == CellAt(u, i, x)
      ensures CellAt(ddf, i, "mun_nombre") == NameOf(mun, [EntKey(u, i, entCol), TableCode(CellAt(u, i, munCol.value), 3)])
    {
      MunBlockCell(u, munCol.value, entCol, mun, i, x);
    }
    return Ok(ddf);
  }

  const HelperCodes: seq<String> := ["_ent_code", "_mun_code"]

  /** The clean-up of `label_one_parquet`: the helper code columns present are dropped. */
  method DropHelpers(u: Table) returns (r: Table)
    requires WellFormed(u)
    ensures WellFormed(r) && |r.rows| == |u.rows|
    ensures r.names == Without(u.names, HelperCodes)
    ensures forall i, x :: 0 <= i < |u.rows| && x !in HelperCodes ==> CellAt(r, i, x) == CellAt(u, i, x)
  {
    var dropCols: seq<String> := [];
    if "_ent_code" in u.names {
      dropCols := dropCols + ["_ent_code"];
    }
    if "_mun_code" in u.names {
      dropCols := dropCols + ["_mun_code"];
    }
    WithoutSameOn(u.names, dropCols, HelperCodes);
    WithoutDistinct(u.names, dropCols);
    r := u;
    if dropCols != [] {
      r := Drop(u, dropCols).value;
    } else {
      WithoutNothing(u.names, dropCols);
    }
  }

  /** The original code columns found, in the order `label_one_parquet` lists them. */
  function Originals(entCol: Option<String>, munCol: Option<String>): (r: seq<String>)
    ensures forall c :: c in r <==> entCol == Some(c) || munCol == Some(c)
  {
    (if entCol.Some? then [entCol.value] else []) + (if munCol.Some? then [munCol.value] else [])
  }

  /** `todrop`: the original ENT and MUN columns that the frame has. */
  function PresentOriginals(names: seq<String>, entCol: Option<String>, munCol: Option<String>): (r: seq<String>)
    ensures forall c :: c in r <==> c in names && c in Originals(entCol, munCol)
  {
    (if entCol.Some? && entCol.value in names then [entCol.value] else [])
    + (if munCol.Some? && munCol.value in names then [munCol.value] else [])
  }

  /** The optional last step: the original ENT and MUN columns dropped when `dropOriginal` is set. */
  method DropOriginals(u: Table, entCol: Option<String>, munCol: Option<String>, dropOriginal: bool) returns (r: Table)
    requires WellFormed(u)
    ensures WellFormed(r) && |r.rows| == |u.rows|
    ensures r.names == if dropOriginal then Without(u.names, Originals(entCol, munCol)) else u.names
    ensures forall i, x :: 0 <= i < |u.rows| && !(dropOriginal && x in Originals(entCol, munCol)) ==>
              CellAt(r, i, x) == CellAt(u, i, x)
  {
    r := u;
    if dropOriginal {
      var todrop := PresentOriginals(u.names, entCol, munCol);
      WithoutSameOn(u.names, todrop, Originals(entCol, munCol));
      WithoutDistinct(u.names, todrop);
      if todrop != [] {
        r := Drop(u, todrop).value;
      } else {
        WithoutNothing(u.names, todrop);
      }
    }
  }
  /** The columns after both label blocks, in order. */
  function BothNames(names: seq<String>): seq<String> {
    var afterEnt := if FindColCi(names, "ent").Some? then AddName(names, "_ent_code") + ["ent_nombre"] else names;
    if FindColCi(names, "mun").Some? then AddName(AddName(afterEnt, "_ent_code"), "_mun_code") + ["mun_nombre"] else afterEnt
  }

  /** The columns after both label blocks, once the helper code columns are dropped, in order. */
  function CodesNames(names: seq<String>): seq<String> {
    Without(BothNames(names), HelperCodes)
  }

  /** The columns of a labelled frame, in order: `CodesNames` less the original code columns when they are dropped. */
  function LabelledNames(names: seq<String>, dropOriginal: bool): seq<String> {
    if dropOriginal then Without(CodesNames(names), Originals(FindColCi(names, "ent"), FindColCi(names, "mun")))
    else CodesNames(names)
  }

  /** The helper columns are gone, the two name columns are there exactly when their code column is. */
  lemma CodesNamesMembers(t: Table)
    ensures forall c :: c in CodesNames(t.names) <==>
              (c in t.names && c !in HelperCodes) || (c == "ent_nombre" && EntColumn(t).Some?) || (c == "mun_nombre" && MunColumn(t).Some?)
  {
    assert "ent_nombre" !in HelperCodes && "mun_nombre" !in HelperCodes;
  }

  /**
   * A labelled frame keeps every column of its input but the helper codes (and the original codes
   * when they are dropped), and gains `ent_nombre`/`mun_nombre` exactly when it has an ENT/MUN column.
   */
  lemma LabelledNamesMembers(t: Table, dropOriginal: bool)
    ensures forall c :: c in LabelledNames(t.names, dropOriginal) <==>
              Survives(t, dropOriginal, c) || (c == "ent_nombre" && EntColumn(t).Some?) || (c == "mun_nombre" && MunColumn(t).Some?)
  {
    forall c ensures c in LabelledNames(t.names, dropOriginal) <==>
                       Survives(t, dropOriginal, c) || (c == "ent_nombre" && EntColumn(t).Some?) || (c == "mun_nombre" && MunColumn(t).Some?) {
      LabelledNameMember(t, dropOriginal, c);
    }
  }

  lemma LabelledNameMember(t: Table, dropOriginal: bool, c: String)
    ensures c in LabelledNames(t.names, dropOriginal) <==>
              Survives(t, dropOriginal, c) || (c == "ent_nombre" && EntColumn(t).Some?) || (c == "mun_nombre" && MunColumn(t).Some?)
  {
    CodesNamesMembers(t);
    FoundLength(t.names, "ent");
    FoundLength(t.names, "mun");
    var o := Originals(EntColumn(t), MunColumn(t));
    assert "ent_nombre" !in o && "mun_nombre" !in o;
  }

  /** Row by row, `u` carries the state and municipality names looked up for the codes of `t`. */
  predicate NamesLooked(t: Table, cat: Catalog, u: Table)
    requires RowsFit(t) && RowsFit(u) && |u.rows| == |t.rows|
  {
    (EntColumn(t).Some? ==> forall i :: 0 <= i < |t.rows| ==> CellAt(u, i, "ent_nombre") == EntName(t, cat.ent, i))
    && (MunColumn(t).Some? ==> forall i :: 0 <= i < |t.rows| ==> CellAt(u, i, "mun_nombre") == MunName(t, cat.mun, i))
  }

  /** Dropping columns other than `ent_nombre` and `mun_nombre` keeps the looked-up names. */
  lemma DropKeepsLooked(t: Table, cat: Catalog, gone: seq<String>, u: Table, v: Table)
    requires RowsFit(t) && RowsFit(u) && RowsFit(v) && |u.rows| == |t.rows| && |v.rows| == |t.rows|
    requires "ent_nombre" !in gone && "mun_nombre" !in gone
    requires NamesLooked(t, cat, u)
    requires forall i, x :: 0 <= i < |u.rows| && x !in gone ==> CellAt(v, i, x) == CellAt(u, i, x)
    ensures NamesLooked(t, cat, v)
  {
  }

  /** After the ENT block, the state key the MUN block reads is the one `MunName` describes. */
  lemma EntKeyAfterEnt(t: Table, u: Table, entCol: Option<String>, i: nat)
    requires RowsFit(t) && RowsFit(u) && |u.rows| == |t.rows| && i < |t.rows|
    requires entCol.None? ==> u == t
    requires entCol.Some? ==> "_ent_code" in u.names && CellAt(u, i, "_ent_code") == TableCode(CellAt(t, i, entCol.value), 2)
    ensures EntKey(u, i, entCol) == if entCol.Some? then TableCode(CellAt(t, i, entCol.value), 2) else CellAt(t, i, "_ent_code")
  {
    if entCol.None? && "_ent_code" !in t.names {
      assert IndexOf(t.names, "_ent_code").None?;
    }
  }

  /** Both label blocks, the helper code columns still in place. */
  method LabelBoth(t: Table, cat: Catalog) returns (r: Result<Table>)
    requires WellFormed(t)
    ensures r.Err? <==> Clash(t)
    ensures r.Err? ==> r.error == ColumnClash
    ensures r.Ok? ==> WellFormed(r.value) && |r.value.rows| == |t.rows|
    ensures r.Ok? ==> r.value.names == BothNames(t.names)
    ensures r.Ok? ==> forall i, c :: 0 <= i < |t.rows| && c in t.names && c !in HelperCodes ==> CellAt(r.value, i, c) == CellAt(t, i, c)
    ensures r.Ok? ==> NamesLooked(t, cat, r.value)
  {
    var entCol := FindColCi(t.names, "ent");
    var ent := LabelEnt(t, cat.ent);
    if ent.Err? {
      return ent;
    }
    var u1 := ent.value;
    var mun := LabelMun(u1, cat.mun, entCol);
    if mun.Err? {
      return mun;
    }
    var u2 := mun.value;
    assert forall x :: x in t.names ==> x in u1.names;
    BothKeeps(t, u1, u2);
    assert entCol.Some? ==> "_ent_code" in u1.names && "ent_nombre" in u1.names;
    BothEntLooked(t, cat, u1, u2);
    BothMunLooked(t, cat, u1, u2, entCol);
    return Ok(u2);
  }

  /** Neither block touches a column of the input other than the helper codes. */
  lemma BothKeeps(t: Table, u1: Table, u2: Table)
    requires RowsFit(t) && RowsFit(u1) && RowsFit(u2) && |u1.rows| == |t.rows| && |u2.rows| == |t.rows|
    requires forall x :: x in t.names ==> x in u1.names
    requires forall i, x :: 0 <= i < |t.rows| && x in t.names && x != "_ent_code" ==> CellAt(u1, i, x) == CellAt(t, i, x)
    requires forall i, x :: 0 <= i < |u1.rows| && x in u1.names && x != "_ent_code" && x != "_mun_code" ==>
               CellAt(u2, i, x) == CellAt(u1, i, x)
    ensures forall i, c :: 0 <= i < |t.rows| && c in t.names && c !in HelperCodes ==> CellAt(u2, i, c) == CellAt(t, i, c)
  {
    forall i, c | 0 <= i < |t.rows| && c in t.names && c !in HelperCodes ensures CellAt(u2, i, c) == CellAt(t, i, c) {
      assert c != "_ent_code" && c != "_mun_code";
    }
  }

  /** The MUN block keeps the state names the ENT block looked up. */
  lemma BothEntLooked(t: Table, cat: Catalog, u1: Table, u2: Table)
    requires RowsFit(t) && RowsFit(u1) && RowsFit(u2) && |u1.rows| == |t.rows| && |u2.rows| == |t.rows|
    requires EntColumn(t).Some? ==> "ent_nombre" in u1.names
    requires EntColumn(t).Some? ==> forall i :: 0 <= i < |t.rows| ==> CellAt(u1, i, "ent_nombre") == EntName(t, cat.ent, i)
    requires forall i, x :: 0 <= i < |u1.rows| && x in u1.names && x != "_ent_code" && x != "_mun_code" ==>
               CellAt(u2, i, x) == CellAt(u1, i, x)
    ensures EntColumn(t).Some? ==> forall i :: 0 <= i < |t.rows| ==> CellAt(u2, i, "ent_nombre") == EntName(t, cat.ent, i)
  {
    if EntColumn(t).Some? {
      forall i | 0 <= i < |t.rows| ensures CellAt(u2, i, "ent_nombre") == EntName(t, cat.ent, i) {
        assert CellAt(u2, i, "ent_nombre") == CellAt(u1, i, "ent_nombre");
      }
    }
  }

  /** The municipality names looked up after the ENT block are those `MunName` describes on the input. */
  lemma BothMunLooked(t: Table, cat: Catalog, u1: Table, u2: Table, entCol: Option<String>)
    requires RowsFit(t) && RowsFit(u1) && RowsFit(u2) && |u1.rows| == |t.rows| && |u2.rows| == |t.rows|
    requires entCol == EntColumn(t) && MunColumn(u1) == MunColumn(t)
    requires entCol.None? ==> u1 == t
    requires entCol.Some? ==> "_ent_code" in u1.names
    requires entCol.Some? ==> forall i :: 0 <= i < |t.rows| ==>
               CellAt(u1, i, "_ent_code") == TableCode(CellAt(t, i, entCol.value), 2)
    requires forall i, x :: 0 <= i < |t.rows| && x in t.names && x != "_ent_code" ==> CellAt(u1, i, x) == CellAt(t, i, x)
    requires MunColumn(u1).Some? ==> forall i :: 0 <= i < |u1.rows| ==>
               CellAt(u2, i, "mun_nombre") == NameOf(cat.mun, [EntKey(u1, i, entCol), TableCode(CellAt(u1, i, MunColumn(u1).value), 3)])
    ensures MunColumn(t).Some? ==> forall i :: 0 <= i < |t.rows| ==> CellAt(u2, i, "mun_nombre") == MunName(t, cat.mun, i)
  {
    var munCol := MunColumn(t);
    if munCol.Some? {
      FoundLength(t.names, "mun");
      forall i | 0 <= i < |t.rows| ensures CellAt(u2, i, "mun_nombre") == MunName(t, cat.mun, i) {
        assert CellAt(u1, i, munCol.value) == CellAt(t, i, munCol.value);
        EntKeyAfterEnt(t, u1, entCol, i);
      }
    }
  }

  /** Both label blocks followed by dropping the helper code columns. */
  method LabelCodes(t: Table, cat: Catalog) returns (r: Result<Table>)
    requires WellFormed(t)
    ensures r.Err? <==> Clash(t)
    ensures r.Err? ==> r.error == ColumnClash
    ensures r.Ok? ==> WellFormed(r.value) && |r.value.rows| == |t.rows|
    ensures r.Ok? ==> r.value.names == CodesNames(t.names)
    ensures r.Ok? ==> forall i, c :: 0 <= i < |t.rows| && c in t.names && c !in HelperCodes ==> CellAt(r.value, i, c) == CellAt(t, i, c)
    ensures r.Ok? ==> NamesLooked(t, cat, r.value)
  {
    var both := LabelBoth(t, cat);
    if both.Err? {
      return both;
    }
    var u := DropHelpers(both.value);
    DropKeepsLooked(t, cat, HelperCodes, both.value, u);
    return Ok(u);
  }

  /**
   * `label_one_parquet` on one frame: the ENT block when there is an ENT column, the MUN
   * block when there is a MUN column, the helper code columns dropped, and the original code
   * columns dropped when `dropOriginal` (`DROP_ORIGINAL_CODES`) is set.
   */
  method LabelFrame(t: Table, cat: Catalog, dropOriginal: bool) returns (r: Result<Table>)
    requires WellFormed(t)
    ensures r.Err? <==> Clash(t)
    ensures r.Err? ==> r.error == ColumnClash
    ensures r.Ok? ==> WellFormed(r.value) && |r.value.rows| == |t.rows|
    ensures r.Ok? ==> r.value.names == LabelledNames(t.names, dropOriginal)
    ensures r.Ok? ==> forall c :: c in r.value.names <==>
              Survives(t, dropOriginal, c) || (c == "ent_nombre" && EntColumn(t).Some?) || (c == "mun_nombre" && MunColumn(t).Some?)
    ensures r.Ok? ==> forall i, c :: 0 <= i < |t.rows| && Survives(t, dropOriginal, c) ==> CellAt(r.value, i, c) == CellAt(t, i, c)
    ensures r.Ok? ==> NamesLooked(t, cat, r.value)
  {
    var labelled := LabelCodes(t, cat);
    if labelled.Err? {
      return labelled;
    }
    var u := labelled.value;
    var dropped := DropOriginals(u, EntColumn(t), MunColumn(t), dropOriginal);
    LabelledNamesMembers(t, dropOriginal);
    FoundLength(t.names, "ent");
    FoundLength(t.names, "mun");
    DropKeepsLooked(t, cat, if dropOriginal then Originals(EntColumn(t), MunColumn(t)) else [], u, dropped);
    return Ok(dropped);
  }

  // ---------------------------------------------------------------- one parquet file

  /** The output file name: the input's base name with `.parquet` replaced by `_labeled.parquet`. */
  function OutputName(path: String): (r: String)
    ensures forall i :: 0 <= i < |r| ==> !IsSep(r[i])
  {
    ReplaceAll(Basename(path), ".parquet", "_labeled.parquet")
  }

  /** `dir/stem.parquet` is written as `stem_labeled.parquet` when the stem has no dot. */
  lemma OutputNameOf(dir: String, stem: String)
    requires dir == [] || IsSep(dir[|dir| - 1])
    requires forall i :: 0 <= i < |stem| ==> !IsSep(stem[i]) && stem[i] != '.'
    ensures OutputName(dir + stem + ".parquet") == stem + "_labeled.parquet"
  {
    var name := stem + ".parquet";
    assert dir + stem + ".parquet" == dir + name;
    forall i | 0 <= i < |name| ensures !IsSep(name[i]) {
      if i >= |stem| { assert name[i] == ".parquet"[i - |stem|]; }
    }
    BasenameJoin(dir, name);
    ReplaceAtEnd(stem, ".parquet", "_labeled.parquet");
  }

  /** A base name without `.parquet` is kept as it is. */
  lemma OutputNameUnchanged(path: String)
    requires !Contains(Basename(path), ".parquet")
    ensures OutputName(path) == Basename(path)
  {
    ReplaceAbsent(Basename(path), ".parquet", "_labeled.parquet");
  }

  /** Everything `LabelFrame` promises about the labelled frame `u` of `t`. */
  ghost predicate FrameLabelled(t: Table, cat: Catalog, dropOriginal: bool, u: Table)
    requires WellFormed(t)
  {
    WellFormed(u) && |u.rows| == |t.rows| && u.names == LabelledNames(t.names, dropOriginal)
    && (forall i, c :: 0 <= i < |t.rows| && Survives(t, dropOriginal, c) ==> CellAt(u, i, c) == CellAt(t, i, c))
    && NamesLooked(t, cat, u)
  }

  lemma {:induction false} TotalRowsSame(ps: seq<Table>, qs: seq<Table>)
    requires |ps| == |qs| && forall k :: 0 <= k < |ps| ==> |ps[k].rows| == |qs[k].rows|
    ensures TotalRows(ps) == TotalRows(qs)
  {
    if ps != [] {
      TotalRowsSame(ps[..|ps| - 1], qs[..|qs| - 1]);
    }
  }

  /** One partition of `label_one_parquet`: its columns were checked for a clash before the loop. */
  method LabelPart(t: Table, columns: seq<String>, cat: Catalog, dropOriginal: bool) returns (u: Table)
    requires WellFormed(t) && t.names == columns && !Clash(Table(columns, []))
    ensures FrameLabelled(t, cat, dropOriginal, u)
  {
    assert Clash(t) == Clash(Table(columns, []));
    var l := LabelFrame(t, cat, dropOriginal);
    u := l.value;
  }

  /** The labelled partitions with one more appended. */
  function Extend(parts: seq<Table>, cat: Catalog, dropOriginal: bool, labelled: seq<Table>, u: Table): (r: seq<Table>)
    requires |labelled| < |parts| && forall k :: 0 <= k < |parts| ==> WellFormed(parts[k])
    requires forall j :: 0 <= j < |labelled| ==> FrameLabelled(parts[j], cat, dropOriginal, labelled[j])
    requires FrameLabelled(parts[|labelled|], cat, dropOriginal, u)
    ensures |r| == |labelled| + 1
    ensures forall j :: 0 <= j < |r| ==> FrameLabelled(parts[j], cat, dropOriginal, r[j])
  {
    var r := labelled + [u];
    assert forall j :: 0 <= j < |labelled| ==> r[j] == labelled[j];
    r
  }

  lemma LabelledWellFormed(columns: seq<String>, parts: seq<Table>, cat: Catalog, dropOriginal: bool, labelled: seq<Table>)
    requires |labelled| == |parts| && forall k :: 0 <= k < |parts| ==> WellFormed(parts[k]) && parts[k].names == columns
    requires forall j :: 0 <= j < |labelled| ==> FrameLabelled(parts[j], cat, dropOriginal, labelled[j])
    ensures forall j :: 0 <= j < |labelled| ==> RowsFit(labelled[j]) && Distinct(labelled[j].names)
    ensures forall j :: 0 <= j < |labelled| ==> labelled[j].names == LabelledNames(columns, dropOriginal)
    ensures forall j :: 0 <= j < |labelled| ==> |labelled[j].rows| == |parts[j].rows|
  {
    forall j | 0 <= j < |labelled|
      ensures RowsFit(labelled[j]) && Distinct(labelled[j].names)
      ensures labelled[j].names == LabelledNames(columns, dropOriginal) && |labelled[j].rows| == |parts[j].rows|
    {
      assert FrameLabelled(parts[j], cat, dropOriginal, labelled[j]);
    }
  }

  datatype LabelledFile = LabelledFile(name: String, table: Table)

  /** The end of `label_one_parquet`: the labelled partitions written as one file. */
  method WriteLabelled(path: String, columns: seq<String>, parts: seq<Table>, cat: Catalog, dropOriginal: bool, labelled: seq<Table>)
    returns (r: Result<LabelledFile>)
    requires forall k :: 0 <= k < |parts| ==> WellFormed(parts[k]) && parts[k].names == columns
    requires |labelled| == |parts|
    requires forall j :: 0 <= j < |labelled| ==> FrameLabelled(parts[j], cat, dropOriginal, labelled[j])
    ensures r.Err? <==> parts == []
    ensures r.Err? ==> r.error == NoPartitions
    ensures r.Ok? ==> r.value.name == OutputName(path)
    ensures r.Ok? ==> r.value.table.names == LabelledNames(columns, dropOriginal) && |r.value.table.rows| == TotalRows(parts)
    ensures r.Ok? ==> exists ls: seq<Table> ::
              (|ls| == |parts|
               && (forall k :: 0 <= k < |parts| ==> FrameLabelled(parts[k], cat, dropOriginal, ls[k]))
               && r.value.table.rows == Rows(ls))
  {
    var name := OutputName(path);
    var schema := LabelledNames(columns, dropOriginal);
    LabelledWellFormed(columns, parts, cat, dropOriginal, labelled);
    var w := WriteSingle(labelled);
    if w.Err? {
      return Err(w.error);
    }
    assert labelled[0].names == schema;
    ConcatSameSchema(labelled, schema);
    ConcatRowCount(labelled, schema);
    TotalRowsSame(parts, labelled);
    return Ok(LabelledFile(name, w.value));
  }

  /**
   * `label_one_parquet`: every partition of the input (all with the columns `columns`) is
   * labelled, and the labelled partitions are written as one file named by `OutputName`.
   */
  method LabelOneParquet(path: String, columns: seq<String>, parts: seq<Table>, cat: Catalog, dropOriginal: bool)
    returns (r: Result<LabelledFile>)
    requires forall k :: 0 <= k < |parts| ==> WellFormed(parts[k]) && parts[k].names == columns
    ensures r.Err? <==> Clash(Table(columns, [])) || parts == []
    ensures r.Err? ==> r.error == if Clash(Table(columns, [])) then ColumnClash else NoPartitions
    ensures r.Ok? ==> r.value.name == OutputName(path)
    ensures r.Ok? ==> r.value.table.names == LabelledNames(columns, dropOriginal) && |r.value.table.rows| == TotalRows(parts)
    ensures r.Ok? ==> exists ls: seq<Table> ::
              (|ls| == |parts|
               && (forall k :: 0 <= k < |parts| ==> FrameLabelled(parts[k], cat, dropOriginal, ls[k]))
               && r.value.table.rows == Rows(ls))
  {
    if Clash(Table(columns, [])) {
      return Err(ColumnClash);
    }
    var labelled: seq<Table> := [];
    for k := 0 to |parts|
      invariant |labelled| == k
      invariant forall j :: 0 <= j < k ==> FrameLabelled(parts[j], cat, dropOriginal, labelled[j])
    {
      var u := LabelPart(parts[k], columns, cat, dropOriginal);
      labelled := Extend(parts, cat, dropOriginal, labelled, u);
    }
    r := WriteLabelled(path, columns, parts, cat, dropOriginal, labelled);
  }
}
