/**
 * `write_single_parquet_from_ddf` (the same function in `parquet.py` and `label_ent_mun.py`):
 * one output file whose schema is fixed by the first partition; every later partition whose
 * schema differs is padded with nulls and put in the writer's column order before it is appended.
 */
module Writer {
  import opened Wrappers
  import opened Text
  import opened Tables

  /** `pq.ParquetWriter`: a fixed column list and the rows appended so far. */
  class ParquetWriter {
    const schema: seq<String>
    var rows: seq<seq<Cell>>

    ghost predicate Valid()
      reads this
    {
      RowsFit(Table(schema, rows))
    }

    constructor (schema: seq<String>)
      ensures Valid() && this.schema == schema && rows == []
    {
      this.schema := schema;
      rows := [];
    }

    /** `writer.write_table(tbl)`: only a table of exactly the writer's columns may be appended. */
    method WriteTable(t: Table)
      requires Valid() && t.names == schema && RowsFit(t)
      modifies this
      ensures Valid() && rows == old(rows) + t.rows
    {
      rows := rows + t.rows;
    }
  }

  /** A partition as it is written: unchanged when its columns are the writer's, re-aligned otherwise. */
  function Align(p: Table, schema: seq<String>): (r: Table)
    requires RowsFit(p)
    ensures r.names == schema && |r.rows| == |p.rows| && RowsFit(r)
  {
    if p.names == schema then p else Reindex(p, schema)
  }

  /** Re-aligning only ever pads and reorders: it gives what `Reindex` gives. */
  lemma AlignIsReindex(p: Table, schema: seq<String>)
    requires WellFormed(p)
    ensures Align(p, schema) == Reindex(p, schema)
  {
    if p.names == schema { ReindexSelf(p); }
  }

  function Concat(parts: seq<Table>, schema: seq<String>): (rows: seq<seq<Cell>>)
    requires forall k :: 0 <= k < |parts| ==> RowsFit(parts[k])
    ensures forall i :: 0 <= i < |rows| ==> |rows[i]| == |schema|
  {
    if parts == [] then []
    else Concat(parts[..|parts| - 1], schema) + Align(parts[|parts| - 1], schema).rows
  }

  function TotalRows(parts: seq<Table>): nat {
    if parts == [] then 0 else TotalRows(parts[..|parts| - 1]) + |parts[|parts| - 1].rows|
  }

  /** No row is lost or invented: the output has as many rows as all partitions together. */
  lemma {:induction false} ConcatRowCount(parts: seq<Table>, schema: seq<String>)
    requires forall k :: 0 <= k < |parts| ==> RowsFit(parts[k])
    ensures |Concat(parts, schema)| == TotalRows(parts)
  {
    if parts != [] { ConcatRowCount(parts[..|parts| - 1], schema); }
  }

  /** When every partition already has the writer's columns, the output is the plain concatenation. */
  lemma {:induction false} ConcatSameSchema(parts: seq<Table>, schema: seq<String>)
    requires forall k :: 0 <= k < |parts| ==> RowsFit(parts[k]) && parts[k].names == schema
    ensures Concat(parts, schema) == Rows(parts)
  {
    if parts != [] { ConcatSameSchema(parts[..|parts| - 1], schema); }
  }

  function Rows(parts: seq<Table>): seq<seq<Cell>> {
    if parts == [] then [] else Rows(parts[..|parts| - 1]) + parts[|parts| - 1].rows
  }

  /** The single output file: the first partition's columns, the partitions' rows in order. */
  function Stacked(parts: seq<Table>): (r: Result<Table>)
    requires forall k :: 0 <= k < |parts| ==> RowsFit(parts[k])
    ensures r.Err? <==> parts == []
    ensures r.Ok? ==> r.value.names == parts[0].names && RowsFit(r.value)
  {
    if parts == [] then Err(NoPartitions)
    else Ok(Table(parts[0].names, Concat(parts, parts[0].names)))
  }

  /**
   * `write_single_parquet_from_ddf`: `RuntimeError` when there is no partition; otherwise the
   * writer holds the stacked partitions.
   */
  method WriteSingle(parts: seq<Table>) returns (r: Result<Table>)
    requires forall k :: 0 <= k < |parts| ==> RowsFit(parts[k]) && Distinct(parts[k].names)
    ensures r == Stacked(parts)
  {
    if parts == [] {
      return Err(NoPartitions);
    }
    var writer := new ParquetWriter(parts[0].names);
    writer.WriteTable(parts[0]);
    assert parts[..1] == [parts[0]];
    for k := 1 to |parts|
      invariant writer.Valid() && writer.schema == parts[0].names
      invariant writer.rows == Concat(parts[..k], parts[0].names)
    {
      var p := parts[k];
      if p.names != writer.schema {
        var frame := new Frame(p);
        frame.PadTo(writer.schema);
        p := frame.Value();
      }
      assert p == Align(parts[k], parts[0].names);
      assert parts[..k + 1][..k] == parts[..k];
      writer.WriteTable(p);
    }
    assert parts[..|parts|] == parts;
    return Ok(Table(writer.schema, writer.rows));
  }
}
