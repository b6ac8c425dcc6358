/** Error values, the Option/Result wrappers and a fact about sequences shared by the
    migration generator.
    The generator reports every fatal condition as a value instead of exiting. */
module Errors {

  datatype Option<+T> = None | Some(value: T)

  /** The fatal conditions of the generator, each carrying what its message names. */
  datatype MigrationError =
    | ParseError(filename: string)                                  // the name is outside the filename grammar
    | UnexpectedDialect(dialect: string, path: string)              // a child uses a dialect nobody expects
    | MissingDialect(dialect: string, id: string, direction: string) // an expected dialect lacks coverage
    | ReadError(path: string)                                       // a migration source cannot be read
    | NoChunks(path: string)                                        // splitting produced no fragment
    | WriteError(name: string)                                      // a fragment file cannot be written

  datatype Result<+T> = Ok(value: T) | Err(error: MigrationError)

  /** A sequence cut at k and joined again is the sequence. */
  lemma CutRejoins<T>(s: seq<T>, k: nat)
    requires k <= |s|
    ensures s[..k] + s[k..] == s
  {
  }
}
