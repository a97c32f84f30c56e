/** Failure-carrying values shared by every part of the model. */
module Results {
  import opened Paths

  /** A value that may be absent. */
  datatype Option<+T> = None | Some(value: T)

  /**
   * The exceptions the decoders and writers raise, one constructor per
   * distinct cause.  Causes that name a file carry its resolved path.
   */
  datatype Error =
    | TruncatedHeader(expected: nat, found: nat)   // ValueError from extract_header
    | TruncatedEntry(offset: nat, found: nat)      // struct.error from read_entry
    | MissingName(index: nat)                      // IndexError from nxfn[i]
    | BadUtf8(index: nat)                          // UnicodeDecodeError on a name
    | UnsupportedEncryption(code: nat)             // NotImplementedError
    | UnsupportedCompression(code: nat)            // NotImplementedError
    | CorruptStream(code: nat)                     // a decompressor raised
    | IsADirectory(dir: Path)                      // FileExistsError / IsADirectoryError
    | FileExists(file: Path)                       // "File exists" Exception
    | NotADirectory(blocker: Path)                 // makedirs/open under a regular file
    | FileNotFound(missing: Path)                  // os.remove of an absent path

  /** A result that is either a value or the error that was raised. */
  datatype Result<+T> = Ok(value: T) | Err(error: Error)
}
