/** Failure-compatible result type shared by every stage of the report
    pipeline. Each constructor of `Error` stands for one way the original
    program aborts: an exception it raises or an `exit()` it calls. */
module Results {

  datatype Error =
    | UnknownCurrency(code: string)        // KeyError on the currency table
    | BadNumber(field: string, text: string)  // float() rejects a salary cell
    | BadTimestamp(text: string)           // strptime rejects published_at
    | MissingField(field: string)          // a record lacks one of the six fields
    | EmptyFile                            // the CSV file holds no row at all
    | NoData                               // no data row passes admission
    | MissingColumn(column: string)        // list.index finds no such title
    | ShortRow(row: nat)                   // a row has no cell at the title's index

  datatype Result<+T> = Ok(value: T) | Err(error: Error) {

    predicate IsFailure() {
      Err?
    }

    function PropagateFailure<U>(): Result<U>
      requires Err?
    {
      Err(error)
    }

    function Extract(): T
      requires Ok?
    {
      value
    }
  }

  datatype Option<+T> = None | Some(value: T)
}
