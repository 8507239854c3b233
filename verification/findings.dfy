/**
 The outcomes the cleaning script reports, one constructor per message it
 prints, carried as values instead of console lines.
 */
module Findings {

  datatype Finding =
      /** A file none of the candidate encodings could decode. */
    | UnreadableFile(file: string)
      /** A loaded table is about to be checked; carries its row count. */
    | Checking(table: string, rows: nat)
      /** The columns holding at least one missing value, each with its count, in column order. */
    | NullsFound(table: string, counts: seq<(string, nat)>)
    | NoNulls(table: string)
    | DuplicatesFound(table: string, column: string)
    | NoDuplicates(table: string, column: string)
      /** Some value of an identifier column does not match the identifier pattern. */
    | InvalidCharacters(table: string, column: string)
      /** A foreign-key check whose data was not available. */
    | FkSkipped(table: string)
      /** `count` rows of the foreign-key column hold a value absent from the key column. */
    | FkMissing(table: string, fkColumn: string, count: nat, pkColumn: string)
    | FkValid(table: string, fkColumn: string)
}
