/** The errors the handlers raise, one constructor per distinct `HTTPException` or validation failure. */
module Errors {

  datatype Error =
    | InvalidQuery(fields: seq<string>)     // 422: a Query(...) constraint failed, for the fields named
    | NotFound                              // 404: "Record not found"
    | ConfirmationRequired                  // 400: "Set confirm=true to clear history"
    | NotCsv                                // 400: the file name has neither .csv nor .txt
    | Undecodable                           // 400: neither UTF-8 nor cp1252 decodes the upload
    | Unreadable(reason: string)            // 400: the CSV reader failed, with its message
    | MissingColumns(columns: seq<string>)  // 400: required columns absent, in the required order
    | NotNumeric                            // 400: a required column is not numeric
    | PredictionFailed                      // 500: the model rejected the feature matrix
    | ResponseInvalid                       // 500: a row failed validation against HistoryRecord
}
