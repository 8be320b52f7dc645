/**
 * The rows the error handler and the scheduler read and write: the key
 * table (`zz_api`), the character table (`zz_api_characters`) and the
 * `ApiStop904` entry of the key-value storage table.
 */
module Store {
  import opened Wrappers

  /** The `isDirector` column: '' (not yet validated), 'T' or 'F'. */
  datatype DirectorFlag = Unset | Director | NotDirector

  /**
   * One `zz_api_characters` row. Its primary key, `apiRowID`, is the key
   * under which the row is stored in `Characters`. A NULL `modulus` is `None`.
   */
  datatype CharRow = CharRow(
    keyID: int,
    characterID: int,
    isDirector: DirectorFlag,
    cachedUntil: int,
    errorCode: int,
    modulus: Option<int>)

  /** The `zz_api` columns the model reads or writes. */
  datatype KeyRow = KeyRow(vCode: string, errorCode: int)

  /** The character table, indexed by `apiRowID`. */
  type Characters = map<int, CharRow>

  /**
   * The whole store: key rows by `keyID`, character rows by `apiRowID`, and
   * the `ApiStop904` marker (the time until which polling is suspended).
   */
  datatype Db = Db(keys: map<int, KeyRow>, chars: Characters, apiStop: Option<int>)
}
