/** Failures raised by the pipeline. Each constructor stands for one Python exception that the
    source can raise; `Result` carries either a value or the failure that ended the computation. */
module Results {

  datatype Failure =
    | MissingColumns(names: seq<string>) // KeyError from selecting absent columns of a frame
    | NonStringTeam(column: string)      // LabelEncoder refusing a team column that does not hold names
    | UnseenLabel(name: string)          // ValueError from LabelEncoder.transform on an unseen name
    | NoData                             // StatisticsError from statistics.mean on no data
    | NonNumeric(column: string)         // TypeError from statistics.mean on a text cell
    | ColumnCount(given: nat)            // ValueError from building a frame with the wrong width
    | UnknownLabel(code: int)            // KeyError from looking up a label the outcome map lacks

  datatype Result<T> = Ok(value: T) | Err(error: Failure)
}
