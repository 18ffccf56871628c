/** The outcome codes `main` returns, in `Ok` or in `Err`. */
module RetCodes {
  datatype RetCode =
    | NoModification
    | ModifiedReadme
    | FailedParsingFile
    | FailedToWriteReadme
    | InvalidFilename
}
