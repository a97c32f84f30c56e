/** A read-only binary file opened with `open(path, 'rb')`. */
module Streams {
  import opened Bytes

  /** The open archive: its bytes and the current position. */
  class ArchiveFile {
    const content: Bytes
    var pos: nat

    constructor (content: Bytes)
      ensures this.content == content && pos == 0
    {
      this.content := content;
      pos := 0;
    }

    /** `seek(at)` (whence `SEEK_SET`); seeking past the end is allowed. */
    method Seek(at: nat)
      modifies this
      ensures pos == at
    {
      pos := at;
    }

    /** `read(n)`: the next `n` bytes or fewer at the end; the position moves past them. */
    method Read(n: nat) returns (buf: Bytes)
      modifies this
      ensures buf == ReadAt(content, old(pos), n)
      ensures pos == old(pos) + |buf|
    {
      buf := ReadAt(content, pos, n);
      pos := pos + |buf|;
    }
  }
}
