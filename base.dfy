/** Shared result types: Python's exceptions and SQLite's errors become values. */
module Base {

  datatype Option<+T> = None | Some(value: T)

  /** The exceptions the modelled code raises (Python built-ins and sqlite3 errors). */
  datatype Failure =
    | IndexError                                   // list index out of range
    | KeyError(key: string)                        // missing dict key
    | ValueError                                   // float() or date.fromisoformat() rejected its text
    | TypeError                                    // item assignment into a str
    | AttributeError                               // self.hdr was never set
    | RemoteDisconnected                           // http.client error that urllib does not wrap in URLError
    | OverflowError                                // date arithmetic left years 1..9999
    | NoSuchTable(table: string)                   // sqlite3.OperationalError
    | NoSuchColumn(column: string)                 // sqlite3.OperationalError
    | ColumnCount(expected: nat, given: nat)       // sqlite3.OperationalError on INSERT
    | UniqueConstraint(index: string)              // sqlite3.IntegrityError on CREATE UNIQUE INDEX

  datatype Result<+T> = Ok(value: T) | Err(failure: Failure)
}
