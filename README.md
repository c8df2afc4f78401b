# ENOE / MEITEF data pipeline — a verified model

This project models the core of a Python pipeline that turns INEGI survey microdata into tables ready
for analysis. It covers:

- **ENOE** (Encuesta Nacional de Ocupación y Empleo) quarterly CSV files;
- **MEITEF** (informal-economy indicators) tidy tables;
- **the steps between them**, listed below with the files that model each.

The model is written in Dafny; every contract below is proved.

- **Consolidation of the ENOE CSV releases** (`src/etl-enoe/parquet.py`).
  - Each file's survey module (`SDEMT`, `COE1T`, …) and year and quarter come from its name (`classify.dfy`).
  - The encoding is sniffed from byte-order marks and NUL counts. The delimiter is sniffed from the first line, and the header search tries every encoding and delimiter in order. The full read falls back from the C engine to the Python engine, then through the encodings, then to a lossy Latin-1 read (`sniff.dfy`).
  - Pass 1 collects, per module, the union of column names and the list of files. Pass 2 loads each file against the final schema: `anio`, `trimestre` and `anio_trimestre` first, then the rest sorted case-insensitively. It adds the period columns from the file name, or else from the `PER` column. It also counts, per column, the files that carry it (`consolidate.dfy`).
  - One Parquet file is written per module from a sequence of partitions, re-aligning any partition whose schema differs (`writer.dfy`). The writer is shared with the geographic labeller.
- **Label dictionaries** (`src/etl-enoe/microdatos/apply_enoe_labels.py`).
  - Dictionary rows are grouped by base table and variable, and the releases are merged so that the latest year and quarter wins. Code keys are normalised: stripped, integer and zero-padded forms (`dictionary.dfy`).
  - Labels are applied to a module's Parquet file: its base comes from the file name, variables are matched to columns case-insensitively, and each mapped column gets a `<column>_label` column. The diagnostic of unmatched variables is kept. The diagnostic of all-null label columns is modelled twice: as the code writes it, where it always comes out empty, and as intended, with one detail per all-null label column (`labels.dfy`; see "## Findings").
- **Geographic labels** (`src/etl-enoe/label_ent_mun.py`).
  - The state and municipality catalogue is read through a chain of encodings, and its codes are zero-padded.
  - The first catalogue row per key is kept.
  - `ent_nombre` and `mun_nombre` are left-joined onto every partition.
  - The helper code columns are dropped, and optionally the original code columns too (`geo.dfy`).
- **Header inventory** (`src/etl-enoe/microdatos/headers.py`). Header names are normalised: BOM removed, trimmed, whitespace collapsed, lower-cased. Files are grouped by identical normalised header, and the groups are split into multi-file and single-file lists in their report order (`headers.dfy`).
- **Flat copy of the extracted CSVs** (`src/etl-enoe/files.py`). Names are sanitised, the top-level folder tag is added, and the first free `__2`, `__3`, … suffix is chosen (`files.dfy`).
- **MEITEF cleaning** (`src/etl-meitef/clean_meitef.py`). A period label becomes the month that closes it, and a year cell becomes its four-digit year (`meitef.dfy`).
- **MEITEF analysis helpers** (`src/analisis_meitef.py`): file-name slugs, the month of a period label, the row filter of one indicator and metric, and the choice of the reference period (`analysis.dfy`).

Four modules are shared support:

- `wrappers.dfy`: `Option`, `Result` and the error kinds.
- `text.dfy`: Python string operations on `seq<char>`. These are `strip`, `lower`/`upper`, substring search, `re.sub` of runs, digits and `zfill`.
- `sorting.dfy`: a stable insertion sort for `sorted(key=...)`.
- `tables.dfy`: a table of named columns and rows of cells. It carries the pandas operations the scripts use (`reindex`, assignment, `drop`, `rename`, `insert`), plus a `Frame` class that updates a table in place.

Library calls stand as parameters of the model, so each is an oracle whose result is taken as given:

- reading a CSV with a given engine, encoding and delimiter;
- `csv.Sniffer`;
- strict decoding of bytes;
- whether a copy succeeds.

Files that the scripts read become values, and the filesystem is a finite set of existing paths.

Two month tables that look alike but do not agree:

- `clean_meitef.py` maps "12 Meses" and "Anio" to no month, because neither contains `anual` or `año`.
- `analisis_meitef.py` maps both to December.

The model keeps each table as written: `Meitef.PeriodToMonth` and `Analysis.PeriodMonth`. `Meitef.TwelveMonthsUnknown` proves that `12 Meses` has no month in the first, and `Analysis.PeriodMonth` gives 12 for it, since it contains neither `6 Meses` nor `9 Meses`.

## Model

| member | source | states |
|---|---|---|
| Classify.FirstTag | src/etl-enoe/parquet.py:83-85 | the index of the first module tag contained in the upper-cased name, no earlier tag contained; none exactly when no tag is contained |
| Classify.DetectModule | src/etl-enoe/parquet.py:81-88 | the module found is one of the known modules and no module listed before it occurs in the upper-cased file name; when no module name occurs, a name containing COE1 gives COE1T, otherwise one containing COE2 gives COE2T; none exactly when none of these occurs |
| Classify.DetectModuleSome | src/etl-enoe/parquet.py:81-88 | a file has a module exactly when one of the module names occurs in its upper-cased name |
| Classify.Search | src/etl-enoe/parquet.py:32-35 | the leftmost position from which `(20\d{2})…trim?…(\d)` matches, with no match before it; none when nothing matches from there on |
| Classify.YearTrimAt | src/etl-enoe/parquet.py:36-37 | the year read at a match lies in 2000-2099 and the quarter digit in 0-9 |
| Classify.ParseYearTrimFromName | src/etl-enoe/parquet.py:34-38 | a year and quarter found in a file name are a 20xx year and a single digit |
| Classify.ParseYearTrimLeftmost | src/etl-enoe/parquet.py:34-38 | a period is found exactly when the pattern matches somewhere, and it is the one read at the leftmost match |
| Classify.ParseYearTrimIgnoresCase | src/etl-enoe/parquet.py:32 | the match is case-insensitive: upper-casing the name does not change the period found |
| Classify.UpperKeepsYearTrim | src/etl-enoe/parquet.py:32 | a match at a position still matches there after upper-casing, with the same year and quarter |
| Classify.UpperKeepsTrim | src/etl-enoe/parquet.py:32 | the quarter word `trim` is recognised in either case |
| Classify.ParseYearTrimExample | src/etl-enoe/parquet.py:32-37 | `ENOEN_SDEMT_2024_trim3.csv` reads as year 2024, quarter 3 |
| Classify.ParseYearTrimOnly20xx | src/etl-enoe/parquet.py:32-38 | a 1999 file name has no period: only 20xx years match |
| Sniff.SniffEncoding | src/etl-enoe/parquet.py:91-100 | each encoding is reported exactly when its BOM opens the data (UTF-16 LE only when it is not a UTF-32 LE BOM); with no BOM, plain UTF-16 exactly when the first 2000 bytes hold more than 50 NULs, else nothing |
| Sniff.Utf32BeforeUtf16 | src/etl-enoe/parquet.py:95-97 | data opening with the UTF-32 LE BOM is UTF-32 LE, though it also opens with the UTF-16 LE BOM |
| Sniff.FirstLine | src/etl-enoe/parquet.py:108 | the first line is a prefix of the text without line breaks, ended by a break or by the end of the text |
| Sniff.ArgMax | src/etl-enoe/parquet.py:109-111 | the chosen candidate occurs in the line at least as often as every other, and strictly more often than every candidate before it |
| Sniff.SniffDelimiter | src/etl-enoe/parquet.py:103-111 | the sniffed delimiter when the sniffer succeeds, else a candidate among `, ; \| tab` occurring most often in the first line |
| Sniff.SniffDelimiterTie | src/etl-enoe/parquet.py:108-111 | a first line without any candidate gives a comma |
| Sniff.SniffDelimiterFirstLineOnly | src/etl-enoe/parquet.py:108-110 | the fallback delimiter depends on the first line only: what follows the first line break does not change it |
| Sniff.Latin1Text | src/etl-enoe/parquet.py:176 | Latin-1 decoding maps each byte to the character with the same code |
| Sniff.Latin1RoundTrip | src/etl-enoe/parquet.py:176 | Latin-1 decoding loses nothing: encoding the text again gives back the bytes |
| Sniff.HeaderEncodings | src/etl-enoe/parquet.py:118-119 | the sniffed encoding, when there is one, is tried first, then the seven fixed encodings in their order |
| Sniff.TryEncoding | src/etl-enoe/parquet.py:124-142 | a header found with one encoding is non-empty and is tagged with that encoding |
| Sniff.FirstEncoding | src/etl-enoe/parquet.py:123-142 | the header of the first encoding that yields one; none exactly when every encoding fails |
| Sniff.FirstEncodingAt | src/etl-enoe/parquet.py:123-142 | when the `i`-th encoding is the first whose attempt gives a header, the search returns that encoding's header |
| Sniff.FirstDelimiter | src/etl-enoe/parquet.py:146-152 | the first candidate delimiter giving a non-empty header; none exactly when no delimiter does |
| Sniff.FirstDelimiterAt | src/etl-enoe/parquet.py:146-152 | when the `j`-th delimiter is the first giving a non-empty header, that header is returned with that delimiter |
| Sniff.FirstCombo | src/etl-enoe/parquet.py:145-152 | the combined search over encodings and delimiters fails exactly when it fails for every encoding |
| Sniff.FirstComboAt | src/etl-enoe/parquet.py:145-152 | when encoding `i` is the first for which some delimiter works and `j` is its first such delimiter, the search returns the header read with `i` and `j` |
| Sniff.HeadersOnly | src/etl-enoe/parquet.py:113-154 | the header of the first encoding whose sample or file gives one; when no encoding does, the header of the first (encoding, delimiter) pair that gives one; `Undecodable` only when no pair gives a header; the result is non-empty and read with an encoding tried |
| Sniff.HeadersOnlySpec | src/etl-enoe/parquet.py:113-154 | a header found is non-empty and was read with one of the encodings tried |
| Sniff.HeadersOnlyFirst | src/etl-enoe/parquet.py:113-154 | the first successful encoding decides the header; failing that, the first successful (encoding, delimiter) pair; an error is `Undecodable` and means no pair gives a header |
| Sniff.ComboSearch | src/etl-enoe/parquet.py:145-152 | the nested loop over encodings and delimiters returns the first combination that gives a header |
| Sniff.FirstParsed | src/etl-enoe/parquet.py:168-172 | the table of the first encoding the Python engine parses; none exactly when every encoding fails |
| Sniff.FirstParsedAt | src/etl-enoe/parquet.py:168-172 | when the `i`-th encoding is the first the Python engine parses, its table is the one returned |
| Sniff.FirstParsedFirst | src/etl-enoe/parquet.py:168-172 | the same for every first-parsing encoding at once |
| Sniff.LossyParse | src/etl-enoe/parquet.py:174-177 | the last-resort Latin-1 read gives a table whose rows fit its columns |
| Sniff.ReadFullCsvRobust | src/etl-enoe/parquet.py:157-183 | the C engine's table when it parses; else the Python engine's; after a Python decoding error, the table of the first alternate encoding that parses, else the lossy Latin-1 read; after any other Python error, the lossy read; `ParseFailed` exactly when both engines and every fallback fail |
| Tables.FindColCi | src/etl-enoe/parquet.py:40-45 | the column found matches the target ignoring case; none exactly when no column does |
| Tables.FindColCiFirst | src/etl-enoe/parquet.py:40-45 | when some column matches, one at or before it is returned: the first match wins |
| Tables.FindColCiAppend | src/etl-enoe/parquet.py:40-45 | columns added after the match that do not match do not change the result |
| Tables.Reindex | src/etl-enoe/parquet.py:287 | the table gets exactly the listed columns; each cell is the old cell of that column, null for a column that was missing |
| Tables.ReindexSelf | src/etl-enoe/parquet.py:287 | reindexing a table on its own columns changes nothing |
| Tables.Assign | src/etl-enoe/label_ent_mun.py:151-153 | assignment sets the named column to the given values, appends it when new, and leaves every other column's cells as they were |
| Tables.Drop | src/etl-enoe/label_ent_mun.py:159 | dropping fails exactly when a named column is absent; otherwise the remaining columns keep their order and cells |
| Tables.Rename | src/etl-enoe/label_ent_mun.py:157 | renaming changes only the names equal to the old name and keeps every row |
| Tables.RenameCells | src/etl-enoe/label_ent_mun.py:157 | after renaming, the new name reads the cells the old name read and every other column reads as before |
| Tables.InsertColumn | src/etl-enoe/parquet.py:67 | the column is inserted at the given position in the names and in every row, the rest shifted right |
| Tables.LowerLeOrder | src/etl-enoe/parquet.py:258 | comparison of lower-cased names is a total, transitive preorder, so sorting by it is well defined |
| Tables.Frame.Insert | src/etl-enoe/parquet.py:67-78 | in-place insert succeeds exactly when the name is new and then holds the table with the column inserted; otherwise the frame is unchanged |
| Tables.Frame.SetColumn | src/etl-enoe/parquet.py:286 | in-place assignment leaves the frame holding the assigned table |
| Tables.Frame.PadTo | src/etl-enoe/parquet.py:284-287 | after adding missing columns as nulls and reordering, the frame has exactly the listed columns with the old cells |
| Tables.Frame.ReindexTo | src/etl-enoe/parquet.py:287 | the frame holds its old table reindexed on the listed columns |
| Writer.ParquetWriter.constructor | src/etl-enoe/parquet.py:222 | a new writer fixes the schema and holds no rows |
| Writer.ParquetWriter.WriteTable | src/etl-enoe/parquet.py:225 | writing a table with the writer's schema appends its rows to those written |
| Writer.Align | src/etl-enoe/parquet.py:232-239 | a partition re-aligned to the schema has exactly the schema's columns and keeps its row count |
| Writer.AlignIsReindex | src/etl-enoe/parquet.py:232-239 | aligning (adding missing columns as nulls, then selecting) is the same as reindexing on the schema |
| Writer.ConcatRowCount | src/etl-enoe/parquet.py:228-240 | the file holds as many rows as all partitions together |
| Writer.ConcatSameSchema | src/etl-enoe/parquet.py:228-240 | when every partition already has the schema, the file is their rows one after another, unchanged |
| Writer.Stacked | src/etl-enoe/parquet.py:215-242 | writing fails exactly when there are no partitions; otherwise the file has the first partition's columns |
| Writer.WriteSingle | src/etl-enoe/parquet.py:210-242 | the writer loop produces the stacked, re-aligned partitions, or `NoPartitions` for none |
| Consolidate.InfoOf | src/etl-enoe/parquet.py:193-204 | pass 1 records at most one entry per file, and an entry it keeps names that file, a known module and a non-empty header |
| Consolidate.Pass1Info | src/etl-enoe/parquet.py:186-206 | at most one record per file, each for a file of the scan, with a known module and a non-empty header |
| Consolidate.Names | src/etl-enoe/parquet.py:203 | the set of names holds exactly the listed columns |
| Consolidate.UnionOf | src/etl-enoe/parquet.py:203 | every column of every file of a module is in that module's union |
| Consolidate.UnionOfExact | src/etl-enoe/parquet.py:203 | a column is in a module's union exactly when some file of that module has it |
| Consolidate.Pass1Step | src/etl-enoe/parquet.py:203-204 | one more file adds its columns to its own module's union and its path to that module's list, and changes no other module |
| Consolidate.FilesOf | src/etl-enoe/parquet.py:253 | the files of a module are files of the scan that belong to that module |
| Consolidate.FilesOfInUnion | src/etl-enoe/parquet.py:253 | every column of every file of a module is in that module's union |
| Consolidate.TracksStep | src/etl-enoe/parquet.py:203-204 | the per-module union and path maps keep matching the files scanned when one more is added |
| Consolidate.Pass1File | src/etl-enoe/parquet.py:192-206 | one turn of the scan loop keeps the maps equal to the union and paths of the files scanned so far |
| Consolidate.Pass1 | src/etl-enoe/parquet.py:186-207 | after the scan, every module maps to the union of its files' columns and the list of their paths |
| Consolidate.PerCode | src/etl-enoe/parquet.py:53 | the `PER` code is the cell's digits, left-padded with '0' to three when shorter and kept whole when longer |
| Consolidate.PeriodOfPer | src/etl-enoe/parquet.py:53-56 | the period read from `PER` is a 20xx year and a quarter digit |
| Consolidate.PeriodOfPerPadded | src/etl-enoe/parquet.py:53-56 | the period read from a PER cell by the number of its digits: three or more give quarter d0 of 2000 + d1d2, two give quarter 0 of 2000 + d0d1, one gives quarter 0 of 2000 + d0, none gives quarter 0 of 2000 |
| Consolidate.PeriodOfPerCode | src/etl-enoe/parquet.py:53-56 | a clean three-digit code `qyy` reads as quarter q of year 2000 + yy: no digit is dropped or padded in |
| Consolidate.PeriodOfNullPer | src/etl-enoe/parquet.py:53-56 | a null `PER` reads as year 2000, quarter 0, as the code computes it |
| Consolidate.PerColumns | src/etl-enoe/parquet.py:47-57 | the year and quarter columns derived from `PER` have one cell per row |
| Consolidate.YearQuarterColumns | src/etl-enoe/parquet.py:61-65 | the year and quarter columns, from the file name or from `PER`, have one cell per row |
| Consolidate.Labels | src/etl-enoe/parquet.py:74-77 | the `anio_trimestre` column is, row by row, the label of that row's year and quarter |
| Consolidate.WithMeta | src/etl-enoe/parquet.py:59-79 | the three meta columns go first and the original columns and cells follow unchanged |
| Consolidate.MetaInserted | src/etl-enoe/parquet.py:67-78 | inserting `anio` at 0, `trimestre` at 1 and `anio_trimestre` at 2 puts exactly those three names and cells in front of every row, the old ones following in order |
| Consolidate.WithMetaCellAt | src/etl-enoe/parquet.py:59-79 | after the meta columns are added, every other column still finds the same cell in every row |
| Consolidate.FileNamePeriodWins | src/etl-enoe/parquet.py:63-78 | a period from the file name fills every row as year, quarter and `<y>T<q>` |
| Consolidate.PerPeriodPerRow | src/etl-enoe/parquet.py:61-62 | without a file-name period, each row gets the period of its own `PER` cell |
| Consolidate.NoPeriodNulls | src/etl-enoe/parquet.py:49-52 | with neither a file-name period nor a `PER` column, the meta cells are null |
| Consolidate.AddMetaCols | src/etl-enoe/parquet.py:59-79 | in place, the meta columns are added exactly when none of them exists, and the frame then holds the table with meta columns |
| Consolidate.WithoutSorted | src/etl-enoe/parquet.py:259 | removing names from a sorted list leaves it sorted |
| Consolidate.FinalColumns | src/etl-enoe/parquet.py:258-259 | the final schema is the meta columns, then the rest of the union without repetition, sorted ignoring case |
| Consolidate.FinalColumnsOf | src/etl-enoe/parquet.py:259 | the meta columns followed by the sorted union minus the meta columns is a final schema for that union |
| Consolidate.LoadSpec | src/etl-enoe/parquet.py:277-299 | a loaded file has exactly the final columns; loading fails exactly when the read fails or a meta column clashes |
| Consolidate.LoadKeepsValues | src/etl-enoe/parquet.py:284-287 | a loaded non-meta column holds the file's own cells, null where the file lacks it |
| Tables.ReindexCellAt | src/etl-enoe/parquet.py:287 | a column kept by the reindex holds the same cell in every row as before |
| Consolidate.LoadOne | src/etl-enoe/parquet.py:277-299 | the in-place loading steps compute the loaded table |
| Consolidate.CoverageCount | src/etl-enoe/parquet.py:318 | the count is at most the number of files, equal to it exactly when every file has the column, and zero exactly when none does |
| Consolidate.Coverage | src/etl-enoe/parquet.py:316-319 | one entry per final column: its name, how many files have it, and the number of files |
| Consolidate.BuildModule | src/etl-enoe/parquet.py:252-319 | a module without files produces nothing; the build fails exactly when loading one of its files fails; otherwise it writes one file under the sorted final columns, in which every file's columns appear, holding every file's loaded rows in order, and the coverage of each column is the number of files that list it |
| Consolidate.WriteModule | src/etl-enoe/parquet.py:303-319 | the loaded frames are written as one file under the final columns, holding every file's rows in order, and each column's coverage is how many of the module's files list it, out of all of them |
| Consolidate.ModuleWritten | src/etl-enoe/parquet.py:258-319 | a written module file opens with the three period columns |
| Consolidate.AppendLoaded | src/etl-enoe/parquet.py:272-301 | appending the next file's loaded frame keeps the list equal, position by position, to the loads of the files so far |
| Dictionary.KeepIdChars | src/etl-enoe/microdatos/apply_enoe_labels.py:63 | only upper-case letters and digits are kept |
| Dictionary.ParseId | src/etl-enoe/microdatos/apply_enoe_labels.py:54-64 | a release id splits into base, quarter digit and two-digit year; a string not shaped like one keeps its id characters with quarter and year 0 |
| Dictionary.ParseTablaBase | src/etl-enoe/microdatos/apply_enoe_labels.py:48-64 | the parsed quarter is one digit and the year two |
| Dictionary.UpperIdChars | src/etl-enoe/microdatos/apply_enoe_labels.py:53 | upper-casing leaves letters and digits that are already upper-case as they are |
| Dictionary.ParseTablaBaseRoundTrip | src/etl-enoe/microdatos/apply_enoe_labels.py:46-62 | an id written as prefix, quarter and padded year parses back to the canonical base, that quarter and that year |
| Dictionary.ParseIdWritten | src/etl-enoe/microdatos/apply_enoe_labels.py:46-62 | the pattern splits an identifier made of a prefix, a quarter digit and a two-digit year back into the canonical base of the prefix, that quarter and that year |
| Dictionary.IdNormalised | src/etl-enoe/microdatos/apply_enoe_labels.py:46-48 | an identifier of capital letters and digits is unchanged by stripping and upper-casing |
| Dictionary.ParseTablaBaseExample | src/etl-enoe/microdatos/apply_enoe_labels.py:45-62 | `COE2T424` is base `COE2T`, quarter 4, year 24 |
| Dictionary.ParseTablaBaseAliasExample | src/etl-enoe/microdatos/apply_enoe_labels.py:57 | the short alias `COE1` in `COE1324` reads as base `COE1T` |
| Dictionary.YearQuarterRank | src/etl-enoe/microdatos/apply_enoe_labels.py:66-67 | the rank encodes the full year and the quarter digit |
| Dictionary.RankOrder | src/etl-enoe/microdatos/apply_enoe_labels.py:66-67 | ranks order releases by year, then by quarter |
| Dictionary.RawVariants | src/etl-enoe/microdatos/apply_enoe_labels.py:211-222 | the value itself is always the first variant tried |
| Dictionary.NormVariants | src/etl-enoe/microdatos/apply_enoe_labels.py:208-228 | a missing value has no variants; otherwise exactly the stripped value's variants, the stripped value first, with no repetition |
| Dictionary.NormVariantsOrder | src/etl-enoe/microdatos/apply_enoe_labels.py:208-228 | the lookup order in full: the stripped value, then its upper-case form for non-numeric text, or `str(int)` and then the two-digit form for numeric text, each only when it differs from the forms before it |
| Dictionary.CodeKeys | src/etl-enoe/microdatos/apply_enoe_labels.py:69-91 | a blank code has no keys; otherwise the stripped code is a key |
| Dictionary.CodeKeysAreVariants | src/etl-enoe/microdatos/apply_enoe_labels.py:69-91 | the keys a code is stored under are exactly the variants a value is looked up by |
| Dictionary.NormalizeCodeKeys | src/etl-enoe/microdatos/apply_enoe_labels.py:69-91 | the loop builds exactly the key set of the code |
| Dictionary.PaddedDigit | src/etl-enoe/microdatos/apply_enoe_labels.py:86-88 | a digit written padded (`05`) or plain (`5`) is an integer literal of that value |
| Dictionary.CodeKeysPadded | src/etl-enoe/microdatos/apply_enoe_labels.py:86-88 | `05` and `5` are stored under the same two keys |
| Dictionary.FirstKnown | src/etl-enoe/microdatos/apply_enoe_labels.py:231-233 | the first variant present in the mapping, none before it present; none exactly when no variant is present |
| Dictionary.Lookup | src/etl-enoe/microdatos/apply_enoe_labels.py:230-234 | a missing value has no label; a label is found exactly when some variant is a key, and it is the label of the first such variant |
| Dictionary.LookupExact | src/etl-enoe/microdatos/apply_enoe_labels.py:230-234 | a value whose stripped form is a key gets that key's label |
| Dictionary.LookupNumeric | src/etl-enoe/microdatos/apply_enoe_labels.py:217-218 | a numeric value whose integer form is a key gets a label |
| Dictionary.LookupPaddedCode | src/etl-enoe/microdatos/apply_enoe_labels.py:211-234 | a padded code such as ` 05 ` finds the label stored under `5` |
| Dictionary.LookupOnlyKnown | src/etl-enoe/microdatos/apply_enoe_labels.py:211-234 | when exactly one variant of a value is a key, the lookup gives that key's label |
| Dictionary.PaddedVariants | src/etl-enoe/microdatos/apply_enoe_labels.py:80-96 | a padded digit with surrounding spaces has exactly the variants `0d` and `d`, and `d` is among them |
| Dictionary.OverlayKeys | src/etl-enoe/microdatos/apply_enoe_labels.py:171-172 | the overlay of mappings has exactly the keys of all of them |
| Dictionary.Overlay | src/etl-enoe/microdatos/apply_enoe_labels.py:171-172 | every key of every mapping is in the overlay, and the last mapping's labels win |
| Dictionary.OverlayLast | src/etl-enoe/microdatos/apply_enoe_labels.py:171-172 | a key takes the label of the last mapping that has it |
| Dictionary.LastHolder | src/etl-enoe/microdatos/apply_enoe_labels.py:171-172 | every key of the overlay comes from a mapping that no later mapping overrides |
| Dictionary.StoreOf | src/etl-enoe/microdatos/apply_enoe_labels.py:157-163 | a category with a value and a caption stores the caption under the value's keys; a blank one stores nothing |
| Dictionary.Stores | src/etl-enoe/microdatos/apply_enoe_labels.py:157-163 | one store per category, in order |
| Dictionary.LocalMapKeys | src/etl-enoe/microdatos/apply_enoe_labels.py:156-163 | a key is in a release's mapping exactly when it is a key of some usable category |
| Dictionary.LocalMap | src/etl-enoe/microdatos/apply_enoe_labels.py:156-163 | every usable category's stripped code is a key, and the last category's caption is stored under its code |
| Dictionary.StoreOfKeys | src/etl-enoe/microdatos/apply_enoe_labels.py:157-163 | a category writes a key exactly when it is usable and the key is one of its code's normalised keys |
| Dictionary.LookupOwnLabel | src/etl-enoe/microdatos/apply_enoe_labels.py:156-163 | a category's own value looks up its own caption unless a later category overwrote that key |
| Dictionary.StoresStep | src/etl-enoe/microdatos/apply_enoe_labels.py:157-163 | one more category overlays its store on the mapping built so far |
| Dictionary.StoreKeys | src/etl-enoe/microdatos/apply_enoe_labels.py:162-163 | storing a caption under a set of keys overlays exactly those keys |
| Dictionary.WriteCategory | src/etl-enoe/microdatos/apply_enoe_labels.py:158-163 | writing one category overlays its store |
| Dictionary.LocalMapOf | src/etl-enoe/microdatos/apply_enoe_labels.py:156-163 | the category loop builds the release's mapping |
| Dictionary.EntryOf | src/etl-enoe/microdatos/apply_enoe_labels.py:151-153 | a dictionary row becomes an entry of its own variable |
| Dictionary.Entries | src/etl-enoe/microdatos/apply_enoe_labels.py:150-153 | one entry per row, in order |
| Dictionary.GroupIndex | src/etl-enoe/microdatos/apply_enoe_labels.py:165 | the position of the group of a base and variable; none exactly when no group has them |
| Dictionary.GroupedExact | src/etl-enoe/microdatos/apply_enoe_labels.py:148-165 | grouping has one group per base and variable present, holding exactly that pair's releases in order |
| Dictionary.Grouped | src/etl-enoe/microdatos/apply_enoe_labels.py:148-165 | no more groups than records, and no group without releases |
| Dictionary.AddEntry | src/etl-enoe/microdatos/apply_enoe_labels.py:165 | a record adds at most one group, a group it opens holds just its own release under its base and variable, and no group is emptied |
| Dictionary.AddEntryNew | src/etl-enoe/microdatos/apply_enoe_labels.py:165 | an entry for a new pair opens a group and keeps the grouping exact |
| Dictionary.AddEntryExisting | src/etl-enoe/microdatos/apply_enoe_labels.py:165 | an entry for a known pair joins its group and keeps the grouping exact |
| Dictionary.ByRank | src/etl-enoe/microdatos/apply_enoe_labels.py:169 | sorting the releases by rank is a permutation of them |
| Dictionary.MergedKeys | src/etl-enoe/microdatos/apply_enoe_labels.py:168-172 | the merged mapping has exactly the keys of all releases |
| Dictionary.Merged | src/etl-enoe/microdatos/apply_enoe_labels.py:168-172 | every code of every release is a key of the merged mapping |
| Dictionary.RanksCovered | src/etl-enoe/microdatos/apply_enoe_labels.py:169 | sorting by rank loses no release, so every release's codes reach the overlay |
| Dictionary.LatestReleaseWins | src/etl-enoe/microdatos/apply_enoe_labels.py:169-172 | every merged label is the label of a release that has the code, whose rank is the highest among the releases having it, and that comes last in input order among the releases of that rank |
| Dictionary.AssembleOf | src/etl-enoe/microdatos/apply_enoe_labels.py:167-173 | a base appears in the result exactly when some group has it, and maps to its groups' merged mappings in order |
| Dictionary.Assemble | src/etl-enoe/microdatos/apply_enoe_labels.py:167-173 | every group's base is in the result, and every base listed has at least one variable mapping |
| Dictionary.VarsOfMembers | src/etl-enoe/microdatos/apply_enoe_labels.py:173 | a base's list holds a variable's mapping exactly when some group of that base and variable merges to it |
| Dictionary.VarsOfSource | src/etl-enoe/microdatos/apply_enoe_labels.py:173 | every mapping in a base's list comes from some group of that base and variable |
| Dictionary.VarsOfHas | src/etl-enoe/microdatos/apply_enoe_labels.py:173 | every group of a base puts its merged mapping in that base's list |
| Dictionary.BaseVarMappingsExact | src/etl-enoe/microdatos/apply_enoe_labels.py:143-176 | every variable of a base in the dictionary appears under that base with the merge of all its releases, and only such |
| Dictionary.GroupRows | src/etl-enoe/microdatos/apply_enoe_labels.py:150-165 | the grouping loop computes the grouping of the rows' entries |
| Dictionary.GroupRow | src/etl-enoe/microdatos/apply_enoe_labels.py:151-165 | one record of the first loop extends the grouping of the records before it to the grouping that includes it |
| Dictionary.MergeReleases | src/etl-enoe/microdatos/apply_enoe_labels.py:169-172 | the merge loop computes the release merge |
| Dictionary.BuildBaseVarMappings | src/etl-enoe/microdatos/apply_enoe_labels.py:143-176 | the whole consolidation computes the per-base variable mappings |
| Dictionary.AssembleGroup | src/etl-enoe/microdatos/apply_enoe_labels.py:168-173 | one group of the second loop extends the result for the groups before it to the result that includes it |
| Labelling.Anchored | src/etl-enoe/microdatos/apply_enoe_labels.py:182 | the `$` anchor also matches before one final newline |
| Labelling.FirstBase | src/etl-enoe/microdatos/apply_enoe_labels.py:181-187 | the first base whose master suffix ends the name; none exactly when none does |
| Labelling.BaseFromParquetPath | src/etl-enoe/microdatos/apply_enoe_labels.py:181-191 | the base is a known base whose suffix ends the lower-cased file name; `UnknownBase` exactly when no base matches |
| Labelling.BaseIgnoresDirectory | src/etl-enoe/microdatos/apply_enoe_labels.py:186 | only the file name decides the base, not the directory |
| Labelling.UpperToOrig | src/etl-enoe/microdatos/apply_enoe_labels.py:267 | every upper-cased key maps to a column that upper-cases to it |
| Labelling.UpperToOrigLast | src/etl-enoe/microdatos/apply_enoe_labels.py:267 | among columns equal ignoring case, the last one wins |
| Labelling.PartitionSizes | src/etl-enoe/microdatos/apply_enoe_labels.py:282-295 | every variable is either mapped or reported missing |
| Labelling.MappedPairs | src/etl-enoe/microdatos/apply_enoe_labels.py:283-293 | at most one pair per variable; each pair's column is the one its upper-cased variable names, and its mapping is non-empty |
| Labelling.MissingVars | src/etl-enoe/microdatos/apply_enoe_labels.py:294-295 | at most one entry per variable; every variable without a column or with an empty mapping is listed |
| Labelling.MissingExact | src/etl-enoe/microdatos/apply_enoe_labels.py:294-295 | a variable is reported missing exactly when it has no column or an empty mapping |
| Labelling.MappedExact | src/etl-enoe/microdatos/apply_enoe_labels.py:283-293 | a pair is mapped exactly when its variable has a non-empty mapping and a column of the same name ignoring case |
| Labelling.MatchVariables | src/etl-enoe/microdatos/apply_enoe_labels.py:277-295 | the matching loop computes the mapped pairs, the missing variables and the candidate count |
| Labelling.LabelCell | src/etl-enoe/microdatos/apply_enoe_labels.py:287-291 | a null cell stays null; a cell gets a label exactly when a variant of its text is a key, and the label is the dictionary's |
| Labelling.Aliases | src/etl-enoe/microdatos/apply_enoe_labels.py:291 | each mapped column is labelled into `<column>_label` |
| Labelling.LabelColumn | src/etl-enoe/microdatos/apply_enoe_labels.py:288-291 | the label column holds each row's label of the source column |
| Labelling.LabelColumns | src/etl-enoe/microdatos/apply_enoe_labels.py:288-291 | one label column per mapped pair |
| Labelling.WithLabels | src/etl-enoe/microdatos/apply_enoe_labels.py:298-300 | adding the label columns keeps the row count |
| Labelling.WithLabelsExact | src/etl-enoe/microdatos/apply_enoe_labels.py:298-301 | the original columns come first; each alias holds its labels; every other column is unchanged |
| Labelling.SampleColumn | src/etl-enoe/microdatos/apply_enoe_labels.py:313-314 | the sample holds the column's first rows, at most the sample size |
| Labelling.UnmappedHasNoLabel | src/etl-enoe/microdatos/apply_enoe_labels.py:350-354 | a value counts as unmapped exactly when looking it up finds no label |
| Labelling.UnmappedOfMembers | src/etl-enoe/microdatos/apply_enoe_labels.py:352-354 | the unmapped list is exactly the unmapped values, in order |
| Labelling.UnmappedOfPrefix | src/etl-enoe/microdatos/apply_enoe_labels.py:352-356 | the unmapped values of a prefix are a prefix of all the unmapped values |
| Labelling.UnmappedSamples | src/etl-enoe/microdatos/apply_enoe_labels.py:351-356 | the sample is the first ten unmapped values, or all of them when fewer |
| Labelling.ScanValue | src/etl-enoe/microdatos/apply_enoe_labels.py:353-354 | one value extends the unmapped list of the values before it, by that value exactly when none of its variants is a key |
| Labelling.UniqueValues | src/etl-enoe/microdatos/apply_enoe_labels.py:323-324 | at most 50 distinct texts of non-null codes; all of them when fewer than 50 |
| Labelling.SampleKeys | src/etl-enoe/microdatos/apply_enoe_labels.py:358 | at most ten distinct keys of the mapping; all keys when it has fewer |
| Labelling.Detail | src/etl-enoe/microdatos/apply_enoe_labels.py:316-365 | the detail of an all-null label column records its variable, column, unmapped samples and sample keys |
| Labelling.NullDetails | src/etl-enoe/microdatos/apply_enoe_labels.py:303-365 | as intended: one detail for each label column that is null in every sampled row, in order |
| Labelling.NullDetailsAsWritten | src/etl-enoe/microdatos/apply_enoe_labels.py:303-367 | as written: the loop raises exactly when some pair's label column is present, and the swallowed error leaves the details empty |
| Labelling.AsWrittenAlwaysRaises | src/etl-enoe/microdatos/apply_enoe_labels.py:308-319 | every mapped pair's label column is in the labelled table, so the loop as written raises whenever a variable is mapped |
| Labelling.AllNullDetailLost | src/etl-enoe/microdatos/apply_enoe_labels.py:319-367 | when a label column is null on every sampled row, the empty list reported as written is not the intended list of details |
| Labelling.AllNullDetailLostExample | src/etl-enoe/microdatos/apply_enoe_labels.py:319-367 | a one-row null column `x` with a map for `X` gives an all-null `x_label`, whose detail the code as written loses |
| Labelling.ApplyLabelsToParquet | src/etl-enoe/microdatos/apply_enoe_labels.py:238-396 | `OutputExists` when the output exists and overwrite is off; `UnknownBase` when no base matches; a base without variables is copied unchanged; two variables aliasing the same label column give `DuplicateColumn`; otherwise one label column per mapped variable is added, mapped and missing variables are counted exactly, and the all-null label columns are reported as intended (see "## Findings") |
| Geo.FirstCatalog | src/etl-enoe/label_ent_mun.py:68-75 | the table of the first encoding that reads the catalogue; none exactly when every encoding fails |
| Geo.FirstCatalogAt | src/etl-enoe/label_ent_mun.py:68-75 | the first encoding that succeeds decides the table |
| Geo.CatalogTable | src/etl-enoe/label_ent_mun.py:65-78 | after the encodings, a final Latin-1 comma read; `ParseFailed` exactly when all of them fail |
| Geo.ReadCatalogTable | src/etl-enoe/label_ent_mun.py:65-78 | the read loop computes the catalogue table |
| Geo.CatalogCode | src/etl-enoe/label_ent_mun.py:87-88 | a code is the digits of the cell, left-padded with '0' to the width and never shortened |
| Geo.CatalogCodeIdempotent | src/etl-enoe/label_ent_mun.py:87-88 | normalising a normalised code changes nothing |
| Geo.TableCode | src/etl-enoe/label_ent_mun.py:152 | a null code stays null; any other becomes its normalised code |
| Geo.Codes | src/etl-enoe/label_ent_mun.py:152 | the code column is each row's normalised code |
| Geo.FirstEntry | src/etl-enoe/label_ent_mun.py:155 | the first catalogue entry with the key; none exactly when no entry has it |
| Geo.FirstEntryAt | src/etl-enoe/label_ent_mun.py:90-91 | an entry whose key no earlier entry has is the one found for that key |
| Geo.FirstEntryAppend | src/etl-enoe/label_ent_mun.py:90-91 | an entry added at the end is found only for a key no earlier entry has |
| Geo.UniqueFirst | src/etl-enoe/label_ent_mun.py:90-91 | deduplication keeps only entries of the catalogue |
| Geo.UniqueFirstKeepsFirst | src/etl-enoe/label_ent_mun.py:90-91 | deduplicating keeps the first entry of each key |
| Geo.UniqueFirstDistinct | src/etl-enoe/label_ent_mun.py:90-91 | after deduplication no two entries share a key |
| Geo.EntRows | src/etl-enoe/label_ent_mun.py:87 | one state entry per catalogue row |
| Geo.MunRows | src/etl-enoe/label_ent_mun.py:88 | one municipality entry per catalogue row |
| Geo.ReadCatalog | src/etl-enoe/label_ent_mun.py:80-94 | `MissingColumns` exactly when an expected column is absent; otherwise both catalogues have distinct keys and come from the table's rows |
| Geo.EntCatalogFirstRow | src/etl-enoe/label_ent_mun.py:90 | the state catalogue finds, for a key, its first row in the file |
| Geo.MunCatalogFirstRow | src/etl-enoe/label_ent_mun.py:91 | the municipality catalogue finds, for a key, its first row in the file |
| Geo.LoadCatalog | src/etl-enoe/label_ent_mun.py:58-94 | loading fails when the file cannot be read, else it reads both catalogues from the table |
| Geo.JoinKey | src/etl-enoe/label_ent_mun.py:155 | a key is formed exactly when every key cell is text |
| Geo.JoinCells | src/etl-enoe/label_ent_mun.py:155 | the join appends the catalogue name after the key cells |
| Geo.KeyCells | src/etl-enoe/label_ent_mun.py:155 | a row's key cells are its cells of the key columns |
| Geo.LeftJoin | src/etl-enoe/label_ent_mun.py:155 | a left join keeps every row and its cells and appends the right-hand columns |
| Geo.LeftJoinCells | src/etl-enoe/label_ent_mun.py:155 | after the join, the name column holds the catalogue name of the row's key and every other column is unchanged |
| Geo.AddName | src/etl-enoe/label_ent_mun.py:151 | adding a column name gives exactly the old names and the new one |
| Geo.EntJoined | src/etl-enoe/label_ent_mun.py:155-159 | the state join keeps the row count |
| Geo.EntJoinedNames | src/etl-enoe/label_ent_mun.py:155-159 | the state join appends the key and `ent_nombre`, and dropping the key leaves `ent_nombre` last |
| Geo.EntJoinedCell | src/etl-enoe/label_ent_mun.py:155-159 | `ent_nombre` holds the catalogue name of the row's state code; the other columns are unchanged |
| Geo.WithEntCode | src/etl-enoe/label_ent_mun.py:151-153 | adding the state code keeps the row count |
| Geo.EntBlock | src/etl-enoe/label_ent_mun.py:149-159 | the state block keeps the row count |
| Geo.EntBlockNames | src/etl-enoe/label_ent_mun.py:149-159 | the state block adds `_ent_code` and `ent_nombre` |
| Geo.EntBlockCell | src/etl-enoe/label_ent_mun.py:149-159 | `_ent_code` is the normalised state code and `ent_nombre` its name; other columns are unchanged |
| Geo.MunJoined | src/etl-enoe/label_ent_mun.py:176-179 | the municipality join keeps the row count |
| Geo.MunJoinedNames | src/etl-enoe/label_ent_mun.py:176-179 | the municipality join appends the two keys and `mun_nombre`, and dropping the keys leaves `mun_nombre` last |
| Geo.MunJoinedCell | src/etl-enoe/label_ent_mun.py:176-179 | `mun_nombre` holds the name of the row's state and municipality codes |
| Geo.EntFill | src/etl-enoe/label_ent_mun.py:167-171 | the state code used for municipalities has one cell per row |
| Geo.WithMunCodes | src/etl-enoe/label_ent_mun.py:166-174 | adding the municipality codes keeps the row count |
| Geo.WithMunCodesNames | src/etl-enoe/label_ent_mun.py:166-174 | the municipality codes add `_ent_code` and `_mun_code` when absent |
| Geo.WithMunCodesCell | src/etl-enoe/label_ent_mun.py:166-174 | `_mun_code` is the three-digit normalised code and `_ent_code` the state key; other columns are unchanged |
| Geo.MunBlock | src/etl-enoe/label_ent_mun.py:164-179 | the municipality block keeps the row count |
| Geo.MunBlockNames | src/etl-enoe/label_ent_mun.py:164-179 | the municipality block adds the codes and `mun_nombre` |
| Geo.MunBlockCell | src/etl-enoe/label_ent_mun.py:164-179 | `mun_nombre` is the name of the row's keys; other columns are unchanged |
| Geo.FoundLength | src/etl-enoe/label_ent_mun.py:97-103 | a column found ignoring case has the target's length |
| Geo.MunFreeAfterEnt | src/etl-enoe/label_ent_mun.py:164 | the state columns do not clash with the municipality columns |
| Geo.LabelEnt | src/etl-enoe/label_ent_mun.py:148-161 | with a state column and no clash, `_ent_code` and `ent_nombre` are added holding the code and the name, and every other column is unchanged; a clash is `ColumnClash`; without a state column the table is unchanged |
| Geo.LabelMun | src/etl-enoe/label_ent_mun.py:163-181 | the same for municipalities, keyed by the state and municipality codes |
| Geo.DropHelpers | src/etl-enoe/label_ent_mun.py:183-188 | the helper code columns are removed and everything else is kept |
| Geo.Originals | src/etl-enoe/label_ent_mun.py:192-194 | the original code columns are those found |
| Geo.DropOriginals | src/etl-enoe/label_ent_mun.py:190-196 | the original code columns are removed only when asked, and everything else is kept |
| Geo.PresentOriginals | src/etl-enoe/label_ent_mun.py:192-194 | the columns to drop are exactly the original ENT and MUN columns that the frame still has |
| Geo.CodesNamesMembers | src/etl-enoe/label_ent_mun.py:183-188 | after dropping the helpers, the columns are the old ones plus the names added |
| Geo.LabelledNamesMembers | src/etl-enoe/label_ent_mun.py:148-196 | the labelled columns are the old ones plus the names, minus the originals when dropped |
| Geo.LabelledNameMember | src/etl-enoe/label_ent_mun.py:148-196 | one name is a labelled column exactly when it survives from the input or is a name column whose code column exists |
| Geo.DropKeepsLooked | src/etl-enoe/label_ent_mun.py:183-196 | dropping columns other than the names keeps the looked-up names |
| Geo.EntKeyAfterEnt | src/etl-enoe/label_ent_mun.py:166-171 | the municipality join reuses the state code computed by the state step |
| Geo.LabelBoth | src/etl-enoe/label_ent_mun.py:148-181 | both steps fail exactly on a clash; otherwise rows and original cells are kept and the names are looked up |
| Geo.LabelCodes | src/etl-enoe/label_ent_mun.py:148-188 | the same after the helper columns are dropped |
| Geo.LabelFrame | src/etl-enoe/label_ent_mun.py:148-196 | labelling a partition fails exactly on a clash; otherwise it has the labelled columns, keeps every surviving cell and holds the looked-up names |
| Geo.OutputNameOf | src/etl-enoe/label_ent_mun.py:142-143 | `<stem>.parquet` is written as `<stem>_labeled.parquet` |
| Geo.OutputName | src/etl-enoe/label_ent_mun.py:142-143 | the output name is a bare file name, with no directory separator |
| Geo.OutputNameUnchanged | src/etl-enoe/label_ent_mun.py:142-143 | a name without `.parquet` is kept |
| Geo.TotalRowsSame | src/etl-enoe/label_ent_mun.py:202-203 | labelling each partition keeps the total row count |
| Geo.LabelOneParquet | src/etl-enoe/label_ent_mun.py:137-203 | the labelled file is named after the input, has the labelled columns and all rows, and is each partition labelled; it fails on a clash or when there are no partitions |
| Geo.LabelPart | src/etl-enoe/label_ent_mun.py:148-196 | a partition whose columns do not clash is labelled with everything `LabelFrame` promises |
| Geo.WriteLabelled | src/etl-enoe/label_ent_mun.py:198-200 | the labelled partitions are concatenated and written under the input's name: an error exactly when there were no partitions, otherwise as many rows as all partitions together and the columns of the labelled frames |
| Headers.RemoveBom | src/etl-enoe/microdatos/headers.py:38 | the result holds no BOM and only characters of the input |
| Headers.RemoveBomAbsent | src/etl-enoe/microdatos/headers.py:38 | a name without a BOM is unchanged |
| Headers.RemoveBomAppend | src/etl-enoe/microdatos/headers.py:38 | BOM removal works piece by piece |
| Headers.CollapseSpace | src/etl-enoe/microdatos/headers.py:40 | collapsing whitespace never lengthens the name, keeps it empty exactly when it was, and keeps whether it starts or ends with a space |
| Headers.CollapseShape | src/etl-enoe/microdatos/headers.py:40 | after collapsing, every whitespace run is one space |
| Headers.CollapseSettled | src/etl-enoe/microdatos/headers.py:40 | collapsing a name with single spaces only changes nothing |
| Headers.LowerShape | src/etl-enoe/microdatos/headers.py:41 | lower-casing keeps the name trimmed, single-spaced and BOM-free |
| Headers.NormalizeHeaderName | src/etl-enoe/microdatos/headers.py:34-41 | a missing name normalises to the empty name |
| Headers.NormalizeFixed | src/etl-enoe/microdatos/headers.py:34-41 | a name already without BOM, surrounding or repeated whitespace and upper-case letters normalises to itself |
| Headers.NormalizeWord | src/etl-enoe/microdatos/headers.py:34-41 | a name without whitespace or BOM normalises to its lower-case form, character by character |
| Headers.NormalizeShape | src/etl-enoe/microdatos/headers.py:34-41 | a normalised name has no BOM, no surrounding space, single spaces and no upper-case letter |
| Headers.NormalizeIdempotent | src/etl-enoe/microdatos/headers.py:34-41 | normalising twice is normalising once |
| Headers.StripAbsorb | src/etl-enoe/microdatos/headers.py:39 | surrounding whitespace does not change the stripped name |
| Headers.NormalizeStripped | src/etl-enoe/microdatos/headers.py:89-90 | stripping before normalising changes nothing |
| Headers.FirstDecoded | src/etl-enoe/microdatos/headers.py:45-49 | the first encoding that decodes strictly; none exactly when all fail |
| Headers.FirstDecodedAt | src/etl-enoe/microdatos/headers.py:45-49 | when the `i`-th encoding is the first that decodes strictly, its text is the one returned |
| Headers.BestDecode | src/etl-enoe/microdatos/headers.py:43-51 | UTF-8 with BOM, then UTF-8, then the remaining encodings are tried in order |
| Headers.HeaderDelimiter | src/etl-enoe/microdatos/headers.py:53-59 | the sniffed delimiter, else a comma |
| Headers.HeaderDelimiterAgrees | src/etl-enoe/microdatos/headers.py:53-59 | without any candidate in the first line, it agrees with the consolidation script's sniffer |
| Headers.RawHeader | src/etl-enoe/microdatos/headers.py:73-87 | an empty header means the first row read was empty |
| Headers.StripAll | src/etl-enoe/microdatos/headers.py:89 | each header cell is stripped |
| Headers.NormalizeAll | src/etl-enoe/microdatos/headers.py:90 | each header cell is normalised |
| Headers.ReadCsvHeader | src/etl-enoe/microdatos/headers.py:61-91 | the stripped and normalised headers have one entry per raw cell, read with the sniffed delimiter |
| Headers.ReadCsvHeaderNormalized | src/etl-enoe/microdatos/headers.py:89-91 | each cell is stored stripped and normalised, and the normalised form is settled |
| Headers.ReadSource | src/etl-enoe/microdatos/headers.py:113-122 | a source has a header exactly when its file could be read, and then its normalised header |
| Headers.FirstRead | src/etl-enoe/microdatos/headers.py:117-120 | a group has a sample header exactly when it has members |
| Headers.GroupByHeader | src/etl-enoe/microdatos/headers.py:108-122 | the files are walked in path order, ignoring case; every readable file is in the group of its normalised header, in that order, and unreadable files are listed as errors |
| Headers.PathOrder | src/etl-enoe/microdatos/headers.py:113 | sorting the files by path gives them in path order and loses none |
| Headers.FailedStep | src/etl-enoe/microdatos/headers.py:121-122 | an unreadable file is added to the errors only |
| Headers.JoinStep | src/etl-enoe/microdatos/headers.py:116 | a file with a known header joins that group |
| Headers.NewGroupStep | src/etl-enoe/microdatos/headers.py:116-120 | a file with a new header opens a group and records its sample |
| Headers.MembersExactly | src/etl-enoe/microdatos/headers.py:113-116 | a path is in a group exactly when it is readable and has that group's header |
| Headers.MultiEntries | src/etl-enoe/microdatos/headers.py:127 | the multi-file list holds exactly the groups with more than one file |
| Headers.SingleEntries | src/etl-enoe/microdatos/headers.py:143 | the single-file list holds exactly the groups with one file, with that file |
| Headers.MultiLeTotal | src/etl-enoe/microdatos/headers.py:129 | the report order of groups (largest first, then by label) is a total preorder |
| Headers.SingleLeTotal | src/etl-enoe/microdatos/headers.py:148 | the report order of single files is a total preorder |
| Headers.Multi | src/etl-enoe/microdatos/headers.py:127-129 | the multi-file list is sorted in report order and holds exactly the groups of more than one file, with their files |
| Headers.Singles | src/etl-enoe/microdatos/headers.py:143-148 | the single-file list is sorted in report order and holds exactly the groups of one file, with that file |
| Headers.MultiExactly | src/etl-enoe/microdatos/headers.py:127-129 | the multi-file list is exactly the groups with several members, with those members |
| Headers.SinglesExactly | src/etl-enoe/microdatos/headers.py:143-148 | the single-file list is exactly the groups with one member, with that member |
| Headers.SplitExclusive | src/etl-enoe/microdatos/headers.py:127 | a group with members is in exactly one of the two lists |
| Files.Sanitize | src/etl-enoe/files.py:20-23 | a sanitised name holds only letters, digits, `_`, `-` and `.` |
| Files.NoSpaceContained | src/etl-enoe/files.py:22 | a name of allowed characters holds no space |
| Files.SanitizeFixed | src/etl-enoe/files.py:20-23 | a name of allowed characters is already sanitised |
| Files.SanitizeIdempotent | src/etl-enoe/files.py:20-23 | sanitising twice is sanitising once |
| Files.NumberedInjective | src/etl-enoe/files.py:32 | different numbers give different destination names |
| Files.NamesBelow | src/etl-enoe/files.py:30-35 | the names numbered from 2 up to a bound are all included |
| Files.NotBelow | src/etl-enoe/files.py:30-35 | a numbered name is not among those with smaller numbers |
| Files.FirstFreeUnique | src/etl-enoe/files.py:25-35 | only one name is the first free one |
| Files.FreeFrom | src/etl-enoe/files.py:30-35 | counting up from a number whose predecessors are taken reaches the smallest free number |
| Files.FreeDest | src/etl-enoe/files.py:25-35 | the destination chosen is never a path already taken |
| Files.FreeDestFirst | src/etl-enoe/files.py:25-35 | the destination chosen is the first free name: the plain name when free, else the smallest free number from 2 |
| Files.UniqueDestPath | src/etl-enoe/files.py:25-35 | the destination is free: the plain name when it is free, otherwise the smallest free number from 2; it is the name `FreeDest` picks |
| Files.FreeNumber | src/etl-enoe/files.py:30-35 | the loop stops at the smallest number from 2 whose name is free |
| Files.Tag | src/etl-enoe/files.py:55-57 | a nested file is tagged with its sanitised top-level folder, a top-level file with `root` |
| Files.CsvFiles | src/etl-enoe/files.py:44 | exactly the files whose suffix is `.csv` in any case |
| Files.CountCopied | src/etl-enoe/files.py:50-64 | at most one copy per file |
| Files.LedgerAdd | src/etl-enoe/files.py:61-63 | adding a free destination keeps the copies distinct and new |
| Files.CopyOne | src/etl-enoe/files.py:53-67 | a successful copy adds the first free destination over the paths taken so far; a failed one changes nothing |
| Files.Dests | src/etl-enoe/files.py:50-67 | one destination per successful copy |
| Files.CopyAll | src/etl-enoe/files.py:50-67 | the destinations are, file by file, the first free name among the paths that existed and the earlier copies; the counter equals the successful copies; destinations are distinct and none existed before |
| Files.CopyCsvFiles | src/etl-enoe/files.py:44-67 | the same for the `.csv` files found under the root, in the order found |
| Meitef.PeriodToMonth | src/etl-meitef/clean_meitef.py:37-65 | a missing label has no month; otherwise the month of the trimmed, lower-cased label by the ordered tests; it is 3, 6, 9 or 12 |
| Meitef.MonthOfKey | src/etl-meitef/clean_meitef.py:42-65 | the tests in order: a first quarter gives 3, then second 6, third 9, fourth 12; with no quarter, six months gives 6, nine months 9, a year 12; none exactly when nothing matches |
| Meitef.QuarterBeforeAccumulated | src/etl-meitef/clean_meitef.py:45-59 | `T1 6 meses` gives 3: the quarter test comes before the six-month test |
| Meitef.SixMonthsLabel | src/etl-meitef/clean_meitef.py:45-59 | `6 Meses` gives 6 |
| Meitef.TwelveMonthsUnknown | src/etl-meitef/clean_meitef.py:42-65 | `12 Meses` has no month |
| Meitef.UnmarkedKey | src/etl-meitef/clean_meitef.py:42-65 | a key with none of the marks the tests look for has no month |
| Meitef.FourDigitsShift | src/etl-meitef/clean_meitef.py:77 | four digits at a later position are four digits at one less in the tail |
| Meitef.FindFourDigits | src/etl-meitef/clean_meitef.py:77 | the leftmost position of four consecutive digits; none exactly when there is none |
| Meitef.CleanYear | src/etl-meitef/clean_meitef.py:68-80 | the value of the leftmost run of four digits, between 0 and 9999; none exactly for a missing cell or one without four digits |
| Meitef.FourDigitsBound | src/etl-meitef/clean_meitef.py:79 | four digits are at most 9999 |
| Meitef.YearDigits | src/etl-meitef/clean_meitef.py:77-79 | a year from 1000 to 9999 is written with four digits |
| Meitef.CleanYearAt | src/etl-meitef/clean_meitef.py:77-79 | the year is read from the leftmost run of four digits, wherever it starts |
| Meitef.CleanYearAfter | src/etl-meitef/clean_meitef.py:68-79 | a year between text without digits and any mark (`p2019` gives 2019) is read back as that year |
| Meitef.CleanYearMarked | src/etl-meitef/clean_meitef.py:68-79 | a year followed by any revision mark is read back as that year |
| Analysis.FoldChar | src/analisis_meitef.py:74 | folding gives ASCII only, and leaves ASCII unchanged |
| Analysis.AsciiFold | src/analisis_meitef.py:74 | a folded string is ASCII, and an ASCII string folds to itself |
| Analysis.TrimLeft | src/analisis_meitef.py:76 | a suffix of the input that does not start with `_`, with only `_` removed before it |
| Analysis.TrimRight | src/analisis_meitef.py:76 | a prefix of the input that does not end with `_`, with only `_` removed after it |
| Analysis.Slugify | src/analisis_meitef.py:64-76 | a slug is lower-case letters, digits and single `_` separators, never at either end; a missing text gives the empty slug |
| Analysis.TrimmedSquashed | src/analisis_meitef.py:75-76 | trimming a squashed string keeps it squashed, with no `_` at either end |
| Analysis.SquashedSlice | src/analisis_meitef.py:75-76 | any slice of a squashed string is squashed |
| Analysis.LowerSlug | src/analisis_meitef.py:76 | lower-casing a trimmed, squashed string gives a slug |
| Analysis.SlugifyIdempotent | src/analisis_meitef.py:64-76 | slugifying a slug gives it back |
| Analysis.SlugFixed | src/analisis_meitef.py:64-76 | a text that is already a slug is its own slug |
| Analysis.SlugifyKeepsAlnums | src/analisis_meitef.py:64-76 | the slug holds exactly the letters and digits of the accent-folded text, in order, lower-cased |
| Analysis.SlugSettled | src/analisis_meitef.py:64-76 | a slug is unchanged by folding, squashing and lower-casing |
| Analysis.PeriodMonth | src/analisis_meitef.py:131-147 | `T1` gives 3, `T2` 6, `T3` 9, `T4` 12; any other label containing `6 Meses` gives 6, else one containing `9 Meses` gives 9; everything else, a missing label included, gives 12 |
| Analysis.SixMonthsInJune | src/analisis_meitef.py:132-142 | `6 Meses` closes in June |
| Analysis.FilterSubset | src/analisis_meitef.py:200-203 | exactly the rows of the indicator and metric, never more than the table |
| Analysis.FilterAppend | src/analisis_meitef.py:200-203 | filtering two tables together is filtering each |
| Analysis.FilterIdempotent | src/analisis_meitef.py:200-203 | filtering twice is filtering once |
| Analysis.First | src/analisis_meitef.py:227-228 | the first of the candidates in `mode()` order: most frequent, then least |
| Analysis.Present | src/analisis_meitef.py:215 | exactly the non-null periods, each once |
| Analysis.FirstPresent | src/analisis_meitef.py:219-225 | the first preferred label present, none before it present; none when no label is present |
| Analysis.ChooseReferencePeriod | src/analisis_meitef.py:206-228 | `NoPeriods` exactly when every period is null; otherwise a present period: the first preferred label present, or else a most frequent period |
| Analysis.PreferredInDecember | src/analisis_meitef.py:145-147 | every preferred reference label closes in December |
| Text.Squash | src/etl-enoe/files.py:23 | squashing never lengthens, keeps a kept first character and leaves no two separators in a row |
| Text.SquashSettled | src/etl-enoe/files.py:23 | squashing a squashed string changes nothing |
| Text.SquashRun | src/etl-enoe/files.py:23 | a run of other characters between kept ones becomes one `_` |
| Text.SquashKeeps | src/etl-enoe/files.py:23 | squashing keeps every kept character, in order |
| Text.Strip | src/etl-enoe/microdatos/apply_enoe_labels.py:158-159 | the stripped text neither starts nor ends with whitespace and is a prefix of the left-stripped text |
| Text.Lower | src/etl-enoe/microdatos/headers.py:41 | each character is lower-cased, the length kept |
| Text.Upper | src/etl-enoe/parquet.py:82 | each character is upper-cased, the length kept |
| Text.ReplaceAll | src/etl-enoe/label_ent_mun.py:143 | every character of the result comes from the text or the replacement; a replacement of the same length keeps the length |
| Text.ZFill | src/etl-enoe/parquet.py:53 | the text right-aligned with zeros to the width, never shortened |
| Text.Basename | src/etl-enoe/parquet.py:193 | the part of the path after its last separator |
| Sorting.SortBy | src/etl-enoe/microdatos/apply_enoe_labels.py:169 | the sorted sequence is a permutation of the input |
| Sorting.SortByStable | src/etl-enoe/microdatos/apply_enoe_labels.py:169 | elements that compare equal keep their input order |
| Sorting.Dedup | src/etl-enoe/microdatos/apply_enoe_labels.py:223-227 | each element of the input once, none lost |
| Sorting.DedupOrder | src/etl-enoe/microdatos/apply_enoe_labels.py:223-227 | the kept elements are in the order of their first occurrences in the input |
| Sorting.DedupTwo | src/etl-enoe/microdatos/apply_enoe_labels.py:223-227 | of two items the first is kept, and the second when it differs |
| Sorting.DedupThree | src/etl-enoe/microdatos/apply_enoe_labels.py:223-227 | of three items each one is kept when it differs from the items before it |

## Left out

- Parsers as oracles. `pandas.read_csv`, `polars`, `pyarrow`, `csv.Sniffer` and `bytes.decode` are oracle parameters of the files (`CsvFile`, `HeaderFile`, `CatalogFile`). What a parser does with quoting, dtypes and malformed lines is not modelled.
- Dask partitions as tables. A Dask dataframe is a sequence of partition tables. Lazy evaluation and parallel computation are not modelled, and any exception inside a partition aborts the build.
- Output and paths. Logging, printing, console summaries and the `OUT_DIR` and path constants are left out. So is the writing of JSON diagnostics, coverage and column lists.
- Loaders and discovery. `find_all_json_files`, `load_all_json_dicts`, `discover_parquets`, `save_columns_list` and `preview` are not part of this model. They only read or list files.
- The filesystem as values.
  - It is a finite set of existing paths, and success of `shutil.copy2` is an oracle.
  - A failed copy is taken to leave no file behind.
  - pathlib `stem`, `suffix` and `parts` are given with each entry.
  - The order of `rglob`, `iterdir` and `glob` is taken as the order of the input sequence.
- Files.UniqueDestPath: a path exists when the same string is in the set. Windows compares paths ignoring case, so a candidate `x__b.csv` beside an existing `X__b.csv` is free in the model but taken on disk, where the copy would get `__2`. The same holds for `Files.CopyAll` and `Files.CopyCsvFiles`.
- Headers.GroupByHeader: `sorted` on Windows paths is modelled as the order of the whole lower-cased path strings. pathlib compares part by part, so the two differ when a separator is compared with another character (`a b\x` against `a\x`). Lower-casing is the Latin-1 one described below.
- Unicode, narrowed.
  - Case mapping covers ASCII plus the Latin-1 letters À–þ. `upper` does not turn ß into `SS`, ÿ into Ÿ or µ into Μ, and no character above U+00FF changes case.
  - `\w` is exact up to U+00FF: letters, digits, `_`, ª µ º, ² ³ ¹ and ¼ ½ ¾. No character above U+00FF is a word character in the model.
  - `\s` follows `str.isspace`; `\d` and `int()` cover ASCII digits only.
  - `Analysis.FoldChar`: NFKD followed by dropping non-ASCII is modelled for Latin-1 characters only.
  - Characters above U+00FF are dropped.
- Geo.EntFill: without an ENT column, the source assigns a one-partition empty series, which Dask aligns by index. The model fills the column with nulls, one per row; either way no municipality matches.
- `str()` of non-string cells is limited to text and integer cells.
- Set and dictionary iteration order is not modelled.
  - `Dictionary.CodeKeys` is a set.
  - `Labelling.SampleKeys` takes ten keys of a Python set, as `list(set)[:10]` does; which ten is left open, as set order is.
  - The order of polars `unique` is left open.
- `Analysis.First`: `mode()` is modelled as most frequent, ties broken by least in code-point order.
- Pandas `merge` renames clashing columns with `_x`/`_y` suffixes. The model reports such a clash as `ColumnClash` and does not rename.
- Pandas dtype casts to `Int64` and `string` are represented by the cell kinds `Int`, `Str` and `Null` and are not modelled further.
- Unreachable branches are not modelled.
  - The final lossy decode in `headers.py` `_best_decode` cannot be reached, because Latin-1 decodes any byte string.
  - The `periodos[0]` fallback in `elegir_periodo_referencia` cannot be reached either, because `mode()` of a non-empty column is non-empty.
- Diagnostics that only log are not modelled. This covers their `try`/`except` blocks and the inspection code after the main labelling in `label_ent_mun.py`. The all-null label diagnostic of `apply_enoe_labels.py` is the exception: it is modelled, as written and as intended (see "## Findings").
- Labelling.ApplyLabelsToParquet: its `allNull` diagnostic is the intended one from `Labelling.NullDetails`. The code as written reports `[]` there for every input (see "## Findings"); `Labelling.NullDetailsAsWritten` models that.
- Scraping, decompression, `clean_enoe.py`, plotting, statistics and the deflation and fiscal scripts are outside this model.

## Findings

| source | as written | input that shows it | evidently intended | confidence | as-written member | corrected member |
|---|---|---|---|---|---|---|
| src/etl-enoe/microdatos/apply_enoe_labels.py:319 | `sample_labels[lab].drop_nulls().height` asks a polars Series for `height`, which only a DataFrame has. The AttributeError is swallowed by `except Exception: pass` at :366-367, so `label_all_null_detail` is always `[]` | a column `x` whose sampled rows are all null, mapped by a variable `X`: its `x_label` column is null on every sampled row, yet no detail is reported | count the non-null labels (`.len()` of the Series) and report a detail for each all-null label column | high that the list is always empty; not executed | Labelling.NullDetailsAsWritten, Labelling.AllNullDetailLostExample | Labelling.NullDetails |
