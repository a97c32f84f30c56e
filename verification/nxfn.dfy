/**
 * The NeoX filename table (NXFN) embedded after an NXPK entry table: a
 * 16-byte header of four little-endian u32 values (signature, reserved,
 * blob size, decompressed size) followed by a blob of NUL-separated names.
 * Decoding also dumps the header and the raw blob next to the extracted
 * files, under the writers' existence/overwrite policy.
 */
module Nxfn {
  import opened Bytes
  import opened Paths
  import opened Results
  import opened FileSystem
  import opened Streams
  import opened FormatHandler

  const SIGNATURE: Bytes := Ascii("NXFN")
  /** `SIGNATURE` read as a little-endian u32. */
  const SIGNATURE_WORD: nat := 0x4E46584E
  const HEADER_SIZE: nat := 16
  const HEADER_DUMP: Bytes := Ascii("__nxfn_header.json")
  const DATA_DUMP: Bytes := Ascii("__nxfn_data.bin")

  /**
   * `check_signature`: the buffer starts with `NXFN`, that is, it holds four
   * bytes whose little-endian u32 value is the signature word.
   */
  predicate CheckSignature(buf: Bytes)
    ensures CheckSignature(buf) <==> |buf| >= 4 && U32(buf, 0) == SIGNATURE_WORD
  {
    if |buf| < 4 then false
    else
      assert SIGNATURE == LE32(SIGNATURE_WORD);
      LE32OfU32(buf, 0);
      assert buf[..4] == buf[0..4];
      StartsWith(buf, SIGNATURE)
  }

  datatype NxfnHeader = NxfnHeader(magicNumber: nat, reserved0: nat, dataSize: nat, decompressedDataSize: nat)

  /** Every field fits its u32 slot. */
  predicate Fits(h: NxfnHeader)
  {
    && h.magicNumber < 0x1_0000_0000 && h.reserved0 < 0x1_0000_0000
    && h.dataSize < 0x1_0000_0000 && h.decompressedDataSize < 0x1_0000_0000
  }

  /** `struct.unpack('<IIII', buf)` on the first 16 bytes. */
  function DecodeHeader(buf: Bytes): (h: NxfnHeader)
    requires |buf| >= HEADER_SIZE
    ensures Fits(h)
  {
    NxfnHeader(U32(buf, 0), U32(buf, 4), U32(buf, 8), U32(buf, 12))
  }

  /** `struct.pack('<IIII', ...)`, the layout the decoder reads. */
  function EncodeHeader(h: NxfnHeader): (buf: Bytes)
    requires Fits(h)
    ensures |buf| == HEADER_SIZE
  {
    LE32(h.magicNumber) + LE32(h.reserved0) + LE32(h.dataSize) + LE32(h.decompressedDataSize)
  }

  /** Decoding an encoded header gives back every field. */
  lemma HeaderRoundTrip(h: NxfnHeader)
    requires Fits(h)
    ensures DecodeHeader(EncodeHeader(h)) == h
  {
    var buf := EncodeHeader(h);
    U32Window(buf, 0, LE32(h.magicNumber));
    U32Window(buf, 4, LE32(h.reserved0));
    U32Window(buf, 8, LE32(h.dataSize));
    U32Window(buf, 12, LE32(h.decompressedDataSize));
  }

  /** Encoding a decoded header gives back the 16 bytes it came from. */
  lemma HeaderBytesRoundTrip(buf: Bytes)
    requires |buf| == HEADER_SIZE
    ensures EncodeHeader(DecodeHeader(buf)) == buf
  {
    LE32OfU32(buf, 0);
    LE32OfU32(buf, 4);
    LE32OfU32(buf, 8);
    LE32OfU32(buf, 12);
    SlicesJoin(buf, 0, 4, 8);
    SlicesJoin(buf, 0, 8, 12);
    SlicesJoin(buf, 0, 12, 16);
    assert buf[0..16] == buf;
  }

  /**
   * `extract_header`: the header at `offset` and its size, or a truncation
   * error when fewer than 16 bytes are left.  The signature is not checked
   * here.
   */
  function ExtractHeaderSpec(content: Bytes, offset: nat): Result<(NxfnHeader, nat)>
  {
    var buf := ReadAt(content, offset, HEADER_SIZE);
    if |buf| < HEADER_SIZE then Err(TruncatedHeader(HEADER_SIZE, |buf|))
    else Ok((DecodeHeader(buf), HEADER_SIZE))
  }

  /**
   * The header is found exactly when 16 bytes follow `offset`, whatever
   * they hold; it is then the decoding of those bytes.
   */
  lemma ExtractHeaderOutcome(content: Bytes, offset: nat)
    ensures ExtractHeaderSpec(content, offset).Ok? <==> offset + HEADER_SIZE <= |content|
    ensures ExtractHeaderSpec(content, offset).Ok? ==>
      ExtractHeaderSpec(content, offset).value
        == (DecodeHeader(content[offset..offset + HEADER_SIZE]), HEADER_SIZE)
    ensures ExtractHeaderSpec(content, offset).Err? ==>
      ExtractHeaderSpec(content, offset).error.TruncatedHeader?
  {
    if offset + HEADER_SIZE <= |content| {
      assert ReadAt(content, offset, HEADER_SIZE) == content[offset..offset + HEADER_SIZE];
    }
  }

  // ---------------------------------------------------------------------
  // The dump files
  // ---------------------------------------------------------------------

  /**
   * The dump pattern for the file `text` names: with `force` an existing
   * dump is removed first; the dump is then saved only if nothing exists
   * at `text`.  Both existence tests are `os.path.exists` on the text as
   * written; the removal and the save act on its resolved path.
   */
  function DumpSpec(t: Tree, cwd: Path, text: Bytes, data: Bytes, force: bool): Result<Tree>
  {
    var path := Abspath(cwd, text);
    var cleared := if PathExists(t, cwd, text) && force then RemoveSpec(t, path) else Ok(t);
    match cleared
    case Err(e) => Err(e)
    case Ok(t1) => if PathExists(t1, cwd, text) then Ok(t1) else SaveSpec(t1, data, path, force)
  }

  /**
   * An existing dump is left alone without `force` and rewritten with it
   * (a directory in its place cannot be removed); a dump that does not
   * exist is saved, under the save's own checks on the resolved path.
   */
  lemma DumpPolicy(t: Tree, cwd: Path, text: Bytes, data: Bytes, force: bool)
    requires WellFormed(t)
    ensures var path := Abspath(cwd, text);
      && (PathExists(t, cwd, text) ==> path in t)
      && (PathExists(t, cwd, text) && !force ==> DumpSpec(t, cwd, text, data, force) == Ok(t))
      && (PathExists(t, cwd, text) && force && t[path].File? ==>
            DumpSpec(t, cwd, text, data, force) == Ok(t[path := File(data)]))
      && (PathExists(t, cwd, text) && force && t[path].Dir? ==>
            DumpSpec(t, cwd, text, data, force) == Err(IsADirectory(path)))
      && (!PathExists(t, cwd, text) ==> DumpSpec(t, cwd, text, data, force) == SaveSpec(t, data, path, force))
  {
    var path := Abspath(cwd, text);
    if PathExists(t, cwd, text) {
      PathExistsResolves(t, cwd, text);
      if force && t[path].File? {
        DumpRewrites(t, cwd, text, data);
      }
    }
  }

  /** With `force`, an existing dump file is replaced by the new data. */
  lemma DumpRewrites(t: Tree, cwd: Path, text: Bytes, data: Bytes)
    requires WellFormed(t) && PathExists(t, cwd, text)
    requires Abspath(cwd, text) in t && t[Abspath(cwd, text)].File?
    ensures DumpSpec(t, cwd, text, data, true) == Ok(t[Abspath(cwd, text) := File(data)])
  {
    var path := Abspath(cwd, text);
    var t1 := t - {path};
    if PathExists(t1, cwd, text) {
      PathExistsResolves(t1, cwd, text);
    }
    assert RemoveSpec(t, path) == Ok(t1);
    SaveOverRemovedFile(t, data, path, true);
  }

  /** Without `force` a dump only adds, and afterwards the dump exists. */
  lemma DumpWithoutForceExtends(t: Tree, cwd: Path, text: Bytes, data: Bytes)
    requires DumpSpec(t, cwd, text, data, false).Ok?
    ensures Extends(t, DumpSpec(t, cwd, text, data, false).value)
    ensures Abspath(cwd, text) in DumpSpec(t, cwd, text, data, false).value
  {
    if PathExists(t, cwd, text) {
      PathExistsResolves(t, cwd, text);
    } else {
      SaveWithoutForceExtends(t, data, Abspath(cwd, text));
    }
  }

  /** A successful dump keeps the tree well formed. */
  lemma DumpPreservesWellFormed(t: Tree, cwd: Path, text: Bytes, data: Bytes, force: bool)
    requires WellFormed(t) && DumpSpec(t, cwd, text, data, force).Ok?
    ensures WellFormed(DumpSpec(t, cwd, text, data, force).value)
  {
    DumpPolicy(t, cwd, text, data, force);
    if !PathExists(t, cwd, text) {
      SavePreservesWellFormed(t, data, Abspath(cwd, text), force);
    }
  }

  // ---------------------------------------------------------------------
  // Decoding
  // ---------------------------------------------------------------------

  /** `os.path.join(DESTINATION, '__nxfn_header.json')`. */
  function HeaderFile(args: Args): Bytes
  {
    JoinPath(args.destination, HEADER_DUMP)
  }

  /** `os.path.join(DESTINATION, '__nxfn_data.bin')`. */
  function DataFile(args: Args): Bytes
  {
    JoinPath(args.destination, DATA_DUMP)
  }

  /**
   * `decode`: read the header at `offset`, dump it, read the blob of
   * `data_size` bytes right after the header, dump it, and split it on NUL.
   */
  function DecodeSpec(content: Bytes, offset: nat, args: Args, cwd: Path,
                      serialise: NxfnHeader -> Bytes, t: Tree): Run<seq<Bytes>>
  {
    match ExtractHeaderSpec(content, offset)
    case Err(e) => Run(Err(e), t)
    case Ok((h, size)) =>
      match DumpSpec(t, cwd, HeaderFile(args), serialise(h), args.force)
      case Err(e) => Run(Err(e), t)
      case Ok(t1) =>
        var blob := ReadAt(content, offset + size, h.dataSize);
        match DumpSpec(t1, cwd, DataFile(args), blob, args.force)
        case Err(e) => Run(Err(e), t1)
        case Ok(t2) => Run(Ok(Split(blob, NUL)), t2)
  }

  /** The blob `decode` reads: `data_size` bytes right after the 16-byte header. */
  function Blob(content: Bytes, offset: nat): Bytes
    requires ExtractHeaderSpec(content, offset).Ok?
  {
    ReadAt(content, offset + HEADER_SIZE, ExtractHeaderSpec(content, offset).value.0.dataSize)
  }

  /**
   * The names are the blob's NUL-separated segments: joined with NUL they
   * give the blob back, none contains NUL, and there is one more name than
   * there are NULs in the blob.
   */
  lemma DecodedNames(content: Bytes, offset: nat, args: Args, cwd: Path,
                     serialise: NxfnHeader -> Bytes, t: Tree)
    requires DecodeSpec(content, offset, args, cwd, serialise, t).out.Ok?
    ensures ExtractHeaderSpec(content, offset).Ok?
    ensures var names := DecodeSpec(content, offset, args, cwd, serialise, t).out.value;
      && names == Split(Blob(content, offset), NUL)
      && Join(names, NUL) == Blob(content, offset)
      && (forall k :: 0 <= k < |names| ==> NUL !in names[k])
      && |names| == Count(Blob(content, offset), NUL) + 1
  {
    var blob := Blob(content, offset);
    JoinSplit(blob, NUL);
    SplitSegmentsFree(blob, NUL);
    SplitSegmentCount(blob, NUL);
  }

  /** The dump files' names are single path components. */
  lemma DumpNamesValid()
    ensures ValidName(HEADER_DUMP) && ValidName(DATA_DUMP)
  {
    assert HEADER_DUMP[0] != DOT && |HEADER_DUMP| > 2;
    assert DATA_DUMP[0] != DOT && |DATA_DUMP| > 2;
    forall k | 0 <= k < |HEADER_DUMP| ensures HEADER_DUMP[k] != SLASH { }
    forall k | 0 <= k < |DATA_DUMP| ensures DATA_DUMP[k] != SLASH { }
  }

  /** The two dumps sit side by side in the destination directory. */
  lemma DumpPathsDistinct(cwd: Path, args: Args)
    ensures Abspath(cwd, HeaderFile(args)) == Abspath(cwd, args.destination) + [HEADER_DUMP]
    ensures Abspath(cwd, DataFile(args)) == Abspath(cwd, args.destination) + [DATA_DUMP]
    ensures !IsPrefix(Abspath(cwd, HeaderFile(args)), Abspath(cwd, DataFile(args)))
    ensures !IsPrefix(Abspath(cwd, DataFile(args)), Abspath(cwd, HeaderFile(args)))
  {
    DumpNamesValid();
    JoinName(cwd, args.destination, HEADER_DUMP);
    JoinName(cwd, args.destination, DATA_DUMP);
    var dir := Abspath(cwd, args.destination);
    assert (dir + [HEADER_DUMP])[|dir|] != (dir + [DATA_DUMP])[|dir|];
  }

  /**
   * A successful dump leaves its path present, holding `data` when it was
   * missing or `force` was set and untouched otherwise.
   */
  lemma DumpOutcome(t: Tree, cwd: Path, text: Bytes, data: Bytes, force: bool)
    requires WellFormed(t) && DumpSpec(t, cwd, text, data, force).Ok?
    ensures var path, t' := Abspath(cwd, text), DumpSpec(t, cwd, text, data, force).value;
      && path in t'
      && (force || path !in t ==> t'[path] == File(data))
      && (!force && path in t ==> t'[path] == t[path])
  {
    DumpPolicy(t, cwd, text, data, force);
    if !PathExists(t, cwd, text) {
      SaveEffect(t, data, Abspath(cwd, text), force);
    }
  }

  /** A dump changes nothing at a path that is neither above nor below it. */
  lemma DumpLeavesOthers(t: Tree, cwd: Path, text: Bytes, data: Bytes, force: bool, q: Path)
    requires WellFormed(t) && DumpSpec(t, cwd, text, data, force).Ok?
    requires !IsPrefix(Abspath(cwd, text), q) && !IsPrefix(q, Abspath(cwd, text))
    ensures var t' := DumpSpec(t, cwd, text, data, force).value;
      (q in t' <==> q in t) && (q in t ==> t'[q] == t[q])
  {
    DumpPolicy(t, cwd, text, data, force);
    if !PathExists(t, cwd, text) {
      SaveEffect(t, data, Abspath(cwd, text), force);
    }
  }

  /** The decode once its header is read: the header dump, then the data dump. */
  lemma DecodeSteps(content: Bytes, offset: nat, args: Args, cwd: Path,
                    serialise: NxfnHeader -> Bytes, t: Tree, h: NxfnHeader, size: nat)
    requires ExtractHeaderSpec(content, offset) == Ok((h, size))
    ensures size == HEADER_SIZE
    ensures var first := DumpSpec(t, cwd, HeaderFile(args), serialise(h), args.force);
      && (first.Err? ==> DecodeSpec(content, offset, args, cwd, serialise, t) == Run(Err(first.error), t))
      && (first.Ok? ==>
            var second := DumpSpec(first.value, cwd, DataFile(args), Blob(content, offset), args.force);
            && (second.Err? ==> DecodeSpec(content, offset, args, cwd, serialise, t) == Run(Err(second.error), first.value))
            && (second.Ok? ==>
                  DecodeSpec(content, offset, args, cwd, serialise, t)
                  == Run(Ok(Split(Blob(content, offset), NUL)), second.value)))
  {
  }

  /**
   * A successful decode read the header, wrote (or kept) the header dump,
   * then wrote (or kept) the data dump, and left the tree the second dump gave.
   */
  lemma DecodeDumpStages(content: Bytes, offset: nat, args: Args, cwd: Path,
                         serialise: NxfnHeader -> Bytes, t: Tree)
    requires DecodeSpec(content, offset, args, cwd, serialise, t).out.Ok?
    ensures ExtractHeaderSpec(content, offset).Ok? && ExtractHeaderSpec(content, offset).value.1 == HEADER_SIZE
    ensures var h := ExtractHeaderSpec(content, offset).value.0;
      var first := DumpSpec(t, cwd, HeaderFile(args), serialise(h), args.force);
      && first.Ok?
      && DumpSpec(first.value, cwd, DataFile(args), Blob(content, offset), args.force).Ok?
      && DecodeSpec(content, offset, args, cwd, serialise, t).tree
         == DumpSpec(first.value, cwd, DataFile(args), Blob(content, offset), args.force).value
  {
  }

  /**
   * After a successful decode the data dump holds exactly the blob when it
   * was missing or `force` was set, and is untouched otherwise.
   */
  lemma DataDumpHoldsBlob(content: Bytes, offset: nat, args: Args, cwd: Path,
                          serialise: NxfnHeader -> Bytes, t: Tree)
    requires WellFormed(t)
    requires DecodeSpec(content, offset, args, cwd, serialise, t).out.Ok?
    ensures ExtractHeaderSpec(content, offset).Ok?
    ensures var dataPath := Abspath(cwd, DataFile(args));
      var t' := DecodeSpec(content, offset, args, cwd, serialise, t).tree;
      && dataPath in t'
      && (args.force || dataPath !in t ==> t'[dataPath] == File(Blob(content, offset)))
      && (!args.force && dataPath in t ==> t'[dataPath] == t[dataPath])
  {
    DecodeDumpStages(content, offset, args, cwd, serialise, t);
    var h := ExtractHeaderSpec(content, offset).value.0;
    DumpPathsDistinct(cwd, args);
    DumpLeavesOthers(t, cwd, HeaderFile(args), serialise(h), args.force, Abspath(cwd, DataFile(args)));
    DumpPreservesWellFormed(t, cwd, HeaderFile(args), serialise(h), args.force);
    var t1 := DumpSpec(t, cwd, HeaderFile(args), serialise(h), args.force).value;
    DumpOutcome(t1, cwd, DataFile(args), Blob(content, offset), args.force);
  }

  /** Without `force` a decode only adds to the filesystem, whatever its outcome. */
  lemma DecodeWithoutForceExtends(content: Bytes, offset: nat, args: Args, cwd: Path,
                                  serialise: NxfnHeader -> Bytes, t: Tree)
    requires !args.force
    ensures Extends(t, DecodeSpec(content, offset, args, cwd, serialise, t).tree)
  {
    if ExtractHeaderSpec(content, offset).Ok? {
      var (h, size) := ExtractHeaderSpec(content, offset).value;
      DecodeSteps(content, offset, args, cwd, serialise, t, h, size);
      var first := DumpSpec(t, cwd, HeaderFile(args), serialise(h), false);
      if first.Ok? {
        DumpWithoutForceExtends(t, cwd, HeaderFile(args), serialise(h));
        if DumpSpec(first.value, cwd, DataFile(args), Blob(content, offset), false).Ok? {
          DumpWithoutForceExtends(first.value, cwd, DataFile(args), Blob(content, offset));
        }
      }
    }
  }

  /** A decode, whatever its outcome, leaves a well-formed tree well formed. */
  lemma DecodePreservesWellFormed(content: Bytes, offset: nat, args: Args, cwd: Path,
                                  serialise: NxfnHeader -> Bytes, t: Tree)
    requires WellFormed(t)
    ensures WellFormed(DecodeSpec(content, offset, args, cwd, serialise, t).tree)
  {
    if ExtractHeaderSpec(content, offset).Ok? {
      var (h, size) := ExtractHeaderSpec(content, offset).value;
      DecodeSteps(content, offset, args, cwd, serialise, t, h, size);
      var first := DumpSpec(t, cwd, HeaderFile(args), serialise(h), args.force);
      if first.Ok? {
        DumpPreservesWellFormed(t, cwd, HeaderFile(args), serialise(h), args.force);
        if DumpSpec(first.value, cwd, DataFile(args), Blob(content, offset), args.force).Ok? {
          DumpPreservesWellFormed(first.value, cwd, DataFile(args), Blob(content, offset), args.force);
        }
      }
    }
  }

  /** After a successful decode both dump files exist at their resolved paths. */
  lemma DecodeLeavesDumps(content: Bytes, offset: nat, args: Args, cwd: Path,
                          serialise: NxfnHeader -> Bytes, t: Tree)
    requires WellFormed(t)
    requires DecodeSpec(content, offset, args, cwd, serialise, t).out.Ok?
    ensures var t' := DecodeSpec(content, offset, args, cwd, serialise, t).tree;
      Abspath(cwd, HeaderFile(args)) in t' && Abspath(cwd, DataFile(args)) in t'
  {
    DecodeDumpStages(content, offset, args, cwd, serialise, t);
    var h := ExtractHeaderSpec(content, offset).value.0;
    DumpPathsDistinct(cwd, args);
    DumpOutcome(t, cwd, HeaderFile(args), serialise(h), args.force);
    DumpPreservesWellFormed(t, cwd, HeaderFile(args), serialise(h), args.force);
    var t1 := DumpSpec(t, cwd, HeaderFile(args), serialise(h), args.force).value;
    DumpLeavesOthers(t1, cwd, DataFile(args), Blob(content, offset), args.force, Abspath(cwd, HeaderFile(args)));
    DumpOutcome(t1, cwd, DataFile(args), Blob(content, offset), args.force);
  }

  /**
   * Without `force`, when `os.path.exists` finds both dumps the decode
   * touches nothing and only returns the names.
   */
  lemma DecodeSkipsExistingDumps(content: Bytes, offset: nat, args: Args, cwd: Path,
                                 serialise: NxfnHeader -> Bytes, t: Tree)
    requires WellFormed(t) && !args.force && ExtractHeaderSpec(content, offset).Ok?
    requires PathExists(t, cwd, HeaderFile(args)) && PathExists(t, cwd, DataFile(args))
    ensures DecodeSpec(content, offset, args, cwd, serialise, t) == Run(Ok(Split(Blob(content, offset), NUL)), t)
  {
    var h := ExtractHeaderSpec(content, offset).value.0;
    DumpPolicy(t, cwd, HeaderFile(args), serialise(h), false);
    DumpPolicy(t, cwd, DataFile(args), Blob(content, offset), false);
  }

  /** The dump files' names are plain names. */
  lemma DumpNamesDirect()
    ensures DirectName(HEADER_DUMP) && DirectName(DATA_DUMP)
  {
    DumpNamesValid();
    SplitFree(HEADER_DUMP, SLASH);
    SplitFree(DATA_DUMP, SLASH);
  }

  /**
   * Without `force`, decoding again over what a successful decode left
   * behind, or over anything that kept it, changes nothing and returns the
   * same names, provided the destination never climbs with `..`: only then
   * does `os.path.exists` find the dumps where the save put them.
   */
  lemma DecodeRepeat(content: Bytes, offset: nat, args: Args, cwd: Path,
                     serialise: NxfnHeader -> Bytes, t: Tree, later: Tree)
    requires WellFormed(t) && !args.force && ClimbFree(args.destination)
    requires DecodeSpec(content, offset, args, cwd, serialise, t).out.Ok?
    requires WellFormed(later) && Extends(DecodeSpec(content, offset, args, cwd, serialise, t).tree, later)
    ensures DecodeSpec(content, offset, args, cwd, serialise, later)
         == Run(DecodeSpec(content, offset, args, cwd, serialise, t).out, later)
  {
    DecodeLeavesDumps(content, offset, args, cwd, serialise, t);
    DumpNamesDirect();
    JoinDirect(args.destination, HEADER_DUMP);
    JoinDirect(args.destination, DATA_DUMP);
    PathExistsDirect(later, cwd, HeaderFile(args));
    PathExistsDirect(later, cwd, DataFile(args));
    DecodeSkipsExistingDumps(content, offset, args, cwd, serialise, later);
    DecodedNames(content, offset, args, cwd, serialise, t);
  }

  /** The handler for an NXFN table found at `offset` in `file`. */
  class NxfnHandler {
    const file: ArchiveFile
    const offset: nat
    var header: Option<NxfnHeader>

    constructor (file: ArchiveFile, offset: nat)
      ensures this.file == file && this.offset == offset && header == None
    {
      this.file := file;
      this.offset := offset;
      header := None;
    }

    /** `is_compatible`: the four bytes at the offset start with `NXFN`. */
    method IsCompatible() returns (ok: bool)
      modifies file
      ensures ok == CheckSignature(ReadAt(file.content, offset, 4))
    {
      file.Seek(offset);
      var buf := file.Read(4);
      ok := CheckSignature(buf);
    }

    /** `extract_header`. */
    method ExtractHeader() returns (r: Result<(NxfnHeader, nat)>)
      modifies file
      ensures r == ExtractHeaderSpec(file.content, offset)
    {
      var headerSize := HEADER_SIZE;
      file.Seek(offset);
      var buf := file.Read(headerSize);
      if |buf| < headerSize {
        return Err(TruncatedHeader(headerSize, |buf|));
      }
      r := Ok((DecodeHeader(buf), headerSize));
    }

    /** `decode`: the names, after dumping the header and the blob. */
    method Decode(disk: Disk, args: Args, serialise: NxfnHeader -> Bytes) returns (r: Result<seq<Bytes>>)
      requires disk.Valid()
      modifies this, file, disk
      ensures disk.Valid()
      ensures Run(r, disk.tree) == DecodeSpec(file.content, offset, args, disk.cwd, serialise, old(disk.tree))
      ensures header == match ExtractHeaderSpec(file.content, offset)
                        case Ok((h, _)) => Some(h)
                        case Err(_) => old(header)
    {
      var extracted := ExtractHeader();
      if extracted.Err? {
        return Err(extracted.error);
      }
      var (h, headerSize) := extracted.value;
      header := Some(h);
      ghost var t0 := disk.tree;
      DecodeSteps(file.content, offset, args, disk.cwd, serialise, t0, h, headerSize);
      var headerDumped := DumpHeader(disk, JoinPath(args.destination, HEADER_DUMP), h, serialise, args.force);
      if headerDumped.Err? {
        return Err(headerDumped.error);
      }
      assert DumpSpec(t0, disk.cwd, HeaderFile(args), serialise(h), args.force) == Ok(disk.tree);
      // the blob
      file.Seek(offset + headerSize);
      var data := file.Read(h.dataSize);
      assert data == Blob(file.content, offset);
      var dataDumped := DumpData(disk, JoinPath(args.destination, DATA_DUMP), data, args.force);
      if dataDumped.Err? {
        return Err(dataDumped.error);
      }
      r := Ok(Split(data, NUL));
    }

    /**
     * The header dump: an existing file is removed first under `force`, and
     * the header is saved as JSON only if nothing then exists at `text`.
     */
    method DumpHeader(disk: Disk, text: Bytes, h: NxfnHeader, serialise: NxfnHeader -> Bytes, force: bool)
      returns (r: Result<()>)
      requires disk.Valid()
      modifies disk
      ensures disk.Valid()
      ensures Applied(DumpSpec(old(disk.tree), disk.cwd, text, serialise(h), force), old(disk.tree), r, disk.tree)
    {
      DumpPolicy(disk.tree, disk.cwd, text, serialise(h), force);
      if disk.Exists(text) && force {
        var removed := disk.Remove(disk.Resolve(text));
        if removed.Err? {
          return removed;
        }
      }
      if !disk.Exists(text) {
        r := SaveJson(disk, h, serialise, text, force);
      } else {
        r := Ok(());
      }
    }

    /**
     * The data dump: an existing file is removed first under `force`, and
     * the blob is saved only if nothing then exists at `text`.
     */
    method DumpData(disk: Disk, text: Bytes, data: Bytes, force: bool) returns (r: Result<()>)
      requires disk.Valid()
      modifies disk
      ensures disk.Valid()
      ensures Applied(DumpSpec(old(disk.tree), disk.cwd, text, data, force), old(disk.tree), r, disk.tree)
    {
      DumpPolicy(disk.tree, disk.cwd, text, data, force);
      if disk.Exists(text) && force {
        var removed := disk.Remove(disk.Resolve(text));
        if removed.Err? {
          return removed;
        }
      }
      if !disk.Exists(text) {
        r := SaveBinary(disk, data, text, force);
      } else {
        r := Ok(());
      }
    }
  }
}
