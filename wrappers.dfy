/** Option and Result, the two wrappers the model uses for Python's `None` and for raised exceptions. */
module Wrappers {

  datatype Option<+T> = None | Some(value: T)

  /** The error kinds the pipeline raises or absorbs. */
  datatype Error =
    | NoPartitions        // RuntimeError("No hay particiones que escribir.")
    | Undecodable         // UnicodeDecodeError at the end of the header search
    | ParseFailed         // the last-resort full parse raised
    | DuplicateColumn     // DataFrame.insert of a column that already exists
    | UnknownBase         // ValueError: no base in the parquet file name
    | OutputExists        // FileExistsError when overwrite is off
    | MissingColumns      // ValueError: catalogue lacks an expected column
    | MissingKey          // KeyError from DataFrame.drop / an absent column
    | ColumnClash         // a helper or catalogue column name is already taken
    | NoPeriods           // ValueError: no non-null period

  datatype Result<+T> = Ok(value: T) | Err(error: Error)
}
