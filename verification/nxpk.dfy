/**
 * The NeoX package (NXPK, `.npk`) decoder: a 24-byte header, a table of
 * 28-byte entry records at `table_offset`, an NXFN filename table right
 * after the entry table, and the entries' data, each extracted to
 * `DESTINATION/<name>` after its encryption and compression codes are
 * dispatched.
 */
module Nxpk {
  import opened Bytes
  import opened Paths
  import opened Results
  import opened FileSystem
  import opened Streams
  import opened FormatHandler
  import Nxfn

  const SIGNATURE: Bytes := Ascii("NXPK")
  /** `SIGNATURE` read as a little-endian u32. */
  const SIGNATURE_WORD: nat := 0x4B50584E
  const HEADER_SIZE: nat := 24
  const ENTRY_SIZE: nat := 28

  /**
   * `check_signature`: the buffer starts with `NXPK`, that is, it holds four
   * bytes whose little-endian u32 value is the signature word.
   */
  predicate CheckSignature(buf: Bytes)
    ensures CheckSignature(buf) <==> |buf| >= 4 && U32(buf, 0) == SIGNATURE_WORD
  {
    if |buf| < 4 then false
    else
      assert SIGNATURE == LE32(SIGNATURE_WORD);
      LE32OfU32(buf, 0);
      assert buf[..4] == buf[0..4];
      StartsWith(buf, SIGNATURE)
  }

  // ---------------------------------------------------------------------
  // The header, layout `<IIHHBBHII`
  // ---------------------------------------------------------------------

  datatype ArchiveHeader = ArchiveHeader(
    magicNumber: nat, entryCount: nat,
    reserved0W: nat, reserved1W: nat, reserved2B: nat, reserved3B: nat,
    reserved4W: nat, reserved5D: nat, tableOffset: nat)

  /** Every field fits its slot in the layout. */
  predicate HeaderFits(h: ArchiveHeader)
  {
    && h.magicNumber < 0x1_0000_0000 && h.entryCount < 0x1_0000_0000
    && h.reserved0W < 0x1_0000 && h.reserved1W < 0x1_0000
    && h.reserved2B < 0x100 && h.reserved3B < 0x100
    && h.reserved4W < 0x1_0000 && h.reserved5D < 0x1_0000_0000
    && h.tableOffset < 0x1_0000_0000
  }

  /** `struct.unpack('<IIHHBBHII', buf)`. */
  function DecodeHeader(buf: Bytes): (h: ArchiveHeader)
    requires |buf| >= HEADER_SIZE
    ensures HeaderFits(h)
  {
    ArchiveHeader(U32(buf, 0), U32(buf, 4), U16(buf, 8), U16(buf, 10), U8(buf, 12), U8(buf, 13),
                  U16(buf, 14), U32(buf, 16), U32(buf, 20))
  }

  /** `struct.pack('<IIHHBBHII', ...)`, the layout the decoder reads. */
  function EncodeHeader(h: ArchiveHeader): (buf: Bytes)
    requires HeaderFits(h)
    ensures |buf| == HEADER_SIZE
  {
    LE32(h.magicNumber) + LE32(h.entryCount) + LE16(h.reserved0W) + LE16(h.reserved1W)
      + [h.reserved2B as byte] + [h.reserved3B as byte] + LE16(h.reserved4W)
      + LE32(h.reserved5D) + LE32(h.tableOffset)
  }

  /** Decoding an encoded header gives back every field. */
  lemma HeaderRoundTrip(h: ArchiveHeader)
    requires HeaderFits(h)
    ensures DecodeHeader(EncodeHeader(h)) == h
  {
    var buf := EncodeHeader(h);
    U32Window(buf, 0, LE32(h.magicNumber));
    U32Window(buf, 4, LE32(h.entryCount));
    U16Window(buf, 8, LE16(h.reserved0W));
    U16Window(buf, 10, LE16(h.reserved1W));
    U16Window(buf, 14, LE16(h.reserved4W));
    U32Window(buf, 16, LE32(h.reserved5D));
    U32Window(buf, 20, LE32(h.tableOffset));
  }

  /** Encoding a decoded header gives back the 24 bytes it came from. */
  lemma HeaderBytesRoundTrip(buf: Bytes)
    requires |buf| == HEADER_SIZE
    ensures EncodeHeader(DecodeHeader(buf)) == buf
  {
    var h := DecodeHeader(buf);
    var head := LE32(h.magicNumber) + LE32(h.entryCount) + LE16(h.reserved0W) + LE16(h.reserved1W);
    var tail := [h.reserved2B as byte] + [h.reserved3B as byte] + LE16(h.reserved4W)
                + LE32(h.reserved5D) + LE32(h.tableOffset);
    assert head == buf[0..12] by {
      LE32OfU32(buf, 0);
      LE32OfU32(buf, 4);
      LE16OfU16(buf, 8);
      LE16OfU16(buf, 10);
      SlicesJoin(buf, 0, 4, 8);
      SlicesJoin(buf, 0, 8, 10);
      SlicesJoin(buf, 0, 10, 12);
    }
    assert tail == buf[12..24] by {
      assert [h.reserved2B as byte] == buf[12..13] && [h.reserved3B as byte] == buf[13..14];
      LE16OfU16(buf, 14);
      LE32OfU32(buf, 16);
      LE32OfU32(buf, 20);
      SlicesJoin(buf, 12, 13, 14);
      SlicesJoin(buf, 12, 14, 16);
      SlicesJoin(buf, 12, 16, 20);
      SlicesJoin(buf, 12, 20, 24);
    }
    assert EncodeHeader(h) == head + tail;
    SlicesJoin(buf, 0, 12, 24);
    assert buf[0..24] == buf;
  }

  /**
   * `extract_header`: the header at the handler's offset, or a truncation
   * error when fewer than 24 bytes are left.  The signature is not checked.
   */
  function ExtractHeaderSpec(content: Bytes, offset: nat): Result<ArchiveHeader>
  {
    var buf := ReadAt(content, offset, HEADER_SIZE);
    if |buf| < HEADER_SIZE then Err(TruncatedHeader(HEADER_SIZE, |buf|)) else Ok(DecodeHeader(buf))
  }

  /** The header is found exactly when 24 bytes follow `offset`, whatever they hold. */
  lemma ExtractHeaderOutcome(content: Bytes, offset: nat)
    ensures ExtractHeaderSpec(content, offset).Ok? <==> offset + HEADER_SIZE <= |content|
    ensures ExtractHeaderSpec(content, offset).Ok? ==>
      ExtractHeaderSpec(content, offset).value == DecodeHeader(content[offset..offset + HEADER_SIZE])
    ensures ExtractHeaderSpec(content, offset).Err? ==>
      ExtractHeaderSpec(content, offset).error.TruncatedHeader?
  {
    if offset + HEADER_SIZE <= |content| {
      assert ReadAt(content, offset, HEADER_SIZE) == content[offset..offset + HEADER_SIZE];
    }
  }

  // ---------------------------------------------------------------------
  // Entry records, layout `<IIIIIIHH`
  // ---------------------------------------------------------------------

  datatype Entry = Entry(
    checksum: nat, dataOffset: nat, dataSize: nat, uncompressedSize: nat,
    dataCrc: nat, uncompressedCrc: nat, compressionType: nat, encryptionType: nat)

  predicate EntryFits(e: Entry)
  {
    && e.checksum < 0x1_0000_0000 && e.dataOffset < 0x1_0000_0000
    && e.dataSize < 0x1_0000_0000 && e.uncompressedSize < 0x1_0000_0000
    && e.dataCrc < 0x1_0000_0000 && e.uncompressedCrc < 0x1_0000_0000
    && e.compressionType < 0x1_0000 && e.encryptionType < 0x1_0000
  }

  /** `struct.unpack('<IIIIIIHH', buf)`. */
  function DecodeEntry(buf: Bytes): (e: Entry)
    requires |buf| >= ENTRY_SIZE
    ensures EntryFits(e)
  {
    Entry(U32(buf, 0), U32(buf, 4), U32(buf, 8), U32(buf, 12), U32(buf, 16), U32(buf, 20),
          U16(buf, 24), U16(buf, 26))
  }

  /** `struct.pack('<IIIIIIHH', ...)`, the layout the decoder reads. */
  function EncodeEntry(e: Entry): (buf: Bytes)
    requires EntryFits(e)
    ensures |buf| == ENTRY_SIZE
  {
    LE32(e.checksum) + LE32(e.dataOffset) + LE32(e.dataSize) + LE32(e.uncompressedSize)
      + LE32(e.dataCrc) + LE32(e.uncompressedCrc) + LE16(e.compressionType) + LE16(e.encryptionType)
  }

  /** Decoding an encoded record gives back every field. */
  lemma EntryRoundTrip(e: Entry)
    requires EntryFits(e)
    ensures DecodeEntry(EncodeEntry(e)) == e
  {
    var buf := EncodeEntry(e);
    U32Window(buf, 0, LE32(e.checksum));
    U32Window(buf, 4, LE32(e.dataOffset));
    U32Window(buf, 8, LE32(e.dataSize));
    U32Window(buf, 12, LE32(e.uncompressedSize));
    U32Window(buf, 16, LE32(e.dataCrc));
    U32Window(buf, 20, LE32(e.uncompressedCrc));
    U16Window(buf, 24, LE16(e.compressionType));
    U16Window(buf, 26, LE16(e.encryptionType));
  }

  /** Encoding a decoded record gives back the 28 bytes it came from. */
  lemma EntryBytesRoundTrip(buf: Bytes)
    requires |buf| == ENTRY_SIZE
    ensures EncodeEntry(DecodeEntry(buf)) == buf
  {
    var e := DecodeEntry(buf);
    var head := LE32(e.checksum) + LE32(e.dataOffset) + LE32(e.dataSize) + LE32(e.uncompressedSize);
    var tail := LE32(e.dataCrc) + LE32(e.uncompressedCrc) + LE16(e.compressionType) + LE16(e.encryptionType);
    assert head == buf[0..16] by {
      LE32OfU32(buf, 0);
      LE32OfU32(buf, 4);
      LE32OfU32(buf, 8);
      LE32OfU32(buf, 12);
      SlicesJoin(buf, 0, 4, 8);
      SlicesJoin(buf, 0, 8, 12);
      SlicesJoin(buf, 0, 12, 16);
    }
    assert tail == buf[16..28] by {
      LE32OfU32(buf, 16);
      LE32OfU32(buf, 20);
      LE16OfU16(buf, 24);
      LE16OfU16(buf, 26);
      SlicesJoin(buf, 16, 20, 24);
      SlicesJoin(buf, 16, 24, 26);
      SlicesJoin(buf, 16, 26, 28);
    }
    assert EncodeEntry(e) == head + tail;
    SlicesJoin(buf, 0, 16, 28);
    assert buf[0..28] == buf;
  }

  /** `read_entry(at)`: the record at `at`; unpacking fails on a short read. */
  function ReadEntrySpec(content: Bytes, at: nat): (r: Result<Entry>)
    ensures r.Ok? <==> at + ENTRY_SIZE <= |content|
    ensures r.Err? ==> r.error == TruncatedEntry(at, if at < |content| then |content| - at else 0)
  {
    var buf := ReadAt(content, at, ENTRY_SIZE);
    if |buf| < ENTRY_SIZE then Err(TruncatedEntry(at, |buf|)) else Ok(DecodeEntry(buf))
  }

  // ---------------------------------------------------------------------
  // The entry table
  // ---------------------------------------------------------------------

  /**
   * The indexing loop: records `0 .. n-1` read at `start + 28 * k` in
   * order; the first record that cannot be unpacked aborts it.
   */
  function ReadTable(content: Bytes, start: nat, n: nat): (r: Result<seq<Entry>>)
    ensures r.Ok? ==> |r.value| == n
  {
    if n == 0 then Ok([])
    else match ReadTable(content, start, n - 1)
      case Err(e) => Err(e)
      case Ok(es) =>
        match ReadEntrySpec(content, start + ENTRY_SIZE * (n - 1))
        case Err(e) => Err(e)
        case Ok(x) => Ok(es + [x])
  }

  /**
   * A table is read exactly when its last record fits in the file; it then
   * holds `n` records, record `k` decoded from the 28 bytes at
   * `start + 28 * k`.
   */
  lemma {:induction false} TableLayout(content: Bytes, start: nat, n: nat)
    ensures ReadTable(content, start, n).Ok? <==> n == 0 || start + ENTRY_SIZE * n <= |content|
    ensures ReadTable(content, start, n).Ok? ==>
      var es := ReadTable(content, start, n).value;
      && |es| == n
      && forall k :: 0 <= k < n ==>
           start + ENTRY_SIZE * (k + 1) <= |content|
           && es[k] == DecodeEntry(content[start + ENTRY_SIZE * k..start + ENTRY_SIZE * (k + 1)])
    ensures ReadTable(content, start, n).Err? ==> ReadTable(content, start, n).error.TruncatedEntry?
  {
    if n > 0 {
      TableLayout(content, start, n - 1);
      var at := start + ENTRY_SIZE * (n - 1);
      if at + ENTRY_SIZE <= |content| {
        assert n - 1 == 0 || start + ENTRY_SIZE * (n - 1) <= |content|;
        var prev := ReadTable(content, start, n - 1).value;
        assert ReadAt(content, at, ENTRY_SIZE) == content[at..at + ENTRY_SIZE];
        var x := DecodeEntry(content[at..at + ENTRY_SIZE]);
        assert ReadTable(content, start, n) == Ok(prev + [x]);
        forall k | 0 <= k < n
          ensures start + ENTRY_SIZE * (k + 1) <= |content|
          ensures (prev + [x])[k] == DecodeEntry(content[start + ENTRY_SIZE * k..start + ENTRY_SIZE * (k + 1)])
        {
          if k < n - 1 {
            assert (prev + [x])[k] == prev[k];
          }
        }
      }
    }
  }

  /** Once a record fails, the error is that of the first failing record. */
  lemma {:induction false} TableErrorPersists(content: Bytes, start: nat, k: nat, n: nat)
    requires k <= n && ReadTable(content, start, k).Err?
    ensures ReadTable(content, start, n) == ReadTable(content, start, k)
  {
    if k < n {
      TableErrorPersists(content, start, k, n - 1);
    }
  }

  /** `entry_table`: record `k` under key `k`. */
  function Indexed(es: seq<Entry>): (m: map<nat, Entry>)
    ensures forall k: nat :: k in m <==> k < |es|
    ensures forall k: nat :: k < |es| ==> m[k] == es[k]
  {
    map k: nat | k < |es| :: es[k]
  }

  /** Recording one more entry adds one key. */
  lemma IndexedSnoc(es: seq<Entry>, x: Entry)
    ensures Indexed(es + [x]) == Indexed(es)[|es| := x]
  {
    var m, m' := Indexed(es + [x]), Indexed(es)[|es| := x];
    assert forall k: nat :: k in m <==> k in m';
    assert forall k: nat :: k in m ==> m[k] == m'[k];
  }

  /** The dictionary has one key per record. */
  lemma {:induction false} IndexedSize(es: seq<Entry>)
    ensures |Indexed(es)| == |es|
  {
    if es != [] {
      var init := es[..|es| - 1];
      IndexedSize(init);
      assert Indexed(es).Keys == Indexed(init).Keys + {|init|};
    }
  }

  // ---------------------------------------------------------------------
  // Foreign codecs
  // ---------------------------------------------------------------------

  /**
   * The library calls the decoder relies on, as partial functions: `None`
   * stands for the exception the library raises.  `headerJson` is the text
   * `json.dumps` gives for the NXFN header.
   */
  datatype Codecs = Codecs(
    zlib: Bytes -> Option<Bytes>,
    lz4Block: (Bytes, nat) -> Option<Bytes>,
    zstd: Bytes -> Option<Bytes>,
    isUtf8: Bytes -> bool,
    headerJson: Nxfn.NxfnHeader -> Bytes)

  function Lift(r: Option<Bytes>, code: nat): Result<Bytes>
  {
    match r
    case Some(d) => Ok(d)
    case None => Err(CorruptStream(code))
  }

  /**
   * The compression dispatch: 0 keeps the bytes, 1 is zlib, 2 is an LZ4
   * block of the recorded uncompressed size, 3 is zstd, anything else is
   * unsupported.
   */
  function Decompress(codecs: Codecs, e: Entry, data: Bytes): (r: Result<Bytes>)
    ensures e.compressionType == 0 ==> r == Ok(data)
    ensures e.compressionType > 3 ==> r == Err(UnsupportedCompression(e.compressionType))
    ensures r.Err? && e.compressionType <= 3 ==> r.error == CorruptStream(e.compressionType)
  {
    match e.compressionType
    case 0 => Ok(data)
    case 1 => Lift(codecs.zlib(data), 1)
    case 2 => Lift(codecs.lz4Block(data, e.uncompressedSize), 2)
    case 3 => Lift(codecs.zstd(data), 3)
    case _ => Err(UnsupportedCompression(e.compressionType))
  }

  /** The LZ4 block decoder never produces more than the size it is given. */
  ghost predicate Lz4Bounded(codecs: Codecs)
  {
    forall d, n :: codecs.lz4Block(d, n).Some? ==> |codecs.lz4Block(d, n).value| <= n
  }

  /** An LZ4 entry decompresses to at most its recorded uncompressed size. */
  lemma Lz4WithinDeclaredSize(codecs: Codecs, e: Entry, data: Bytes)
    requires Lz4Bounded(codecs) && e.compressionType == 2
    requires Decompress(codecs, e, data).Ok?
    ensures |Decompress(codecs, e, data).value| <= e.uncompressedSize
  {
    assert codecs.lz4Block(data, e.uncompressedSize).Some?;
  }

  // ---------------------------------------------------------------------
  // Extracting one entry
  // ---------------------------------------------------------------------

  /**
   * Entry `i`'s name: from the filename table with `\` turned into `/`
   * (failing when the table is too short or the name is not UTF-8), or,
   * without a table, `join(source_filename, str(i))`.
   */
  function ResolveName(names: Option<seq<Bytes>>, sourceName: Bytes, i: nat, isUtf8: Bytes -> bool): (r: Result<Bytes>)
    ensures r.Ok? && names.Some? ==> BACKSLASH !in r.value
  {
    match names
    case Some(table) =>
      if i >= |table| then Err(MissingName(i))
      else
        var name := Replace(table[i], BACKSLASH, SLASH);
        if isUtf8(name) then Ok(name) else Err(BadUtf8(i))
    case None => Ok(JoinPath(sourceName, DecimalText(i)))
  }

  /**
   * With a table, a name resolves exactly when the table reaches index `i`
   * and the name decodes; it is then the table's name with every backslash
   * turned into a slash.  Without a table, entry `i` lands in a directory
   * named after the archive, under its decimal index.
   */
  lemma ResolveNameOutcome(names: Option<seq<Bytes>>, args: Args, cwd: Path, i: nat, isUtf8: Bytes -> bool)
    ensures names.Some? ==>
      && (ResolveName(names, args.sourceName, i, isUtf8).Ok?
          <==> i < |names.value| && isUtf8(Replace(names.value[i], BACKSLASH, SLASH)))
      && (ResolveName(names, args.sourceName, i, isUtf8) == Err(MissingName(i)) <==> i >= |names.value|)
      && (ResolveName(names, args.sourceName, i, isUtf8).Ok? ==>
            var name := ResolveName(names, args.sourceName, i, isUtf8).value;
            |name| == |names.value[i]|
            && forall k :: 0 <= k < |name| ==>
                 name[k] == if names.value[i][k] == BACKSLASH then SLASH else names.value[i][k])
    ensures names.None? ==>
      && ResolveName(names, args.sourceName, i, isUtf8).Ok?
      && Abspath(cwd, JoinPath(args.destination, ResolveName(names, args.sourceName, i, isUtf8).value))
         == Abspath(cwd, JoinPath(args.destination, args.sourceName)) + [DecimalText(i)]
  {
    if names.None? {
      SyntheticPath(cwd, args.destination, args.sourceName, i);
    }
  }

  /** Without a table, two entries never share a destination. */
  lemma SyntheticDestinationsDistinct(args: Args, cwd: Path, i: nat, j: nat, isUtf8: Bytes -> bool)
    requires i != j
    ensures Abspath(cwd, JoinPath(args.destination, ResolveName(None, args.sourceName, i, isUtf8).value))
         != Abspath(cwd, JoinPath(args.destination, ResolveName(None, args.sourceName, j, isUtf8).value))
  {
    SyntheticPathsDistinct(cwd, args.destination, args.sourceName, i, j);
  }

  /** `filepath = os.path.join(DESTINATION, filename)`. */
  function EntryPath(names: Option<seq<Bytes>>, i: nat, args: Args, isUtf8: Bytes -> bool): Result<Bytes>
  {
    match ResolveName(names, args.sourceName, i, isUtf8)
    case Err(e) => Err(e)
    case Ok(name) => Ok(JoinPath(args.destination, name))
  }

  /**
   * Entry `i` is skipped: `force` is off and `os.path.exists` finds its
   * path text, as written, on disk.
   */
  predicate Skipped(names: Option<seq<Bytes>>, i: nat, args: Args, cwd: Path, isUtf8: Bytes -> bool, t: Tree)
  {
    EntryPath(names, i, args, isUtf8).Ok? && !args.force
    && PathExists(t, cwd, EntryPath(names, i, args, isUtf8).value)
  }

  /** Entry `i`'s name resolves and something is present where its path resolves to. */
  predicate InPlace(names: Option<seq<Bytes>>, i: nat, args: Args, cwd: Path, isUtf8: Bytes -> bool, t: Tree)
  {
    EntryPath(names, i, args, isUtf8).Ok? && Abspath(cwd, EntryPath(names, i, args, isUtf8).value) in t
  }

  /**
   * Every path the first `n` entries resolve to is a direct name: no `..`
   * component and a proper last component.
   */
  predicate PathsDirect(names: Option<seq<Bytes>>, n: nat, args: Args, isUtf8: Bytes -> bool)
  {
    forall k :: 0 <= k < n && EntryPath(names, k, args, isUtf8).Ok? ==> DirectName(EntryPath(names, k, args, isUtf8).value)
  }

  /** The first `n` names of the filename table, separators turned to `/`, are direct names. */
  predicate DirectNames(names: seq<Bytes>, n: nat)
  {
    forall k :: 0 <= k < n && k < |names| ==> DirectName(Replace(names[k], BACKSLASH, SLASH))
  }

  /** Under a destination that never climbs, direct table names give direct paths. */
  lemma NamesGiveDirectPaths(names: seq<Bytes>, n: nat, args: Args, isUtf8: Bytes -> bool)
    requires ClimbFree(args.destination) && DirectNames(names, n)
    ensures PathsDirect(Some(names), n, args, isUtf8)
  {
    forall k | 0 <= k < n && EntryPath(Some(names), k, args, isUtf8).Ok?
      ensures DirectName(EntryPath(Some(names), k, args, isUtf8).value)
    {
      JoinDirect(args.destination, Replace(names[k], BACKSLASH, SLASH));
    }
  }

  /**
   * Where the path is a direct name, `os.path.exists` on its text agrees
   * with the resolved path being present, so an entry in place is skipped.
   */
  lemma InPlaceSkipped(names: Option<seq<Bytes>>, i: nat, args: Args, cwd: Path, isUtf8: Bytes -> bool, t: Tree)
    requires WellFormed(t) && !args.force && InPlace(names, i, args, cwd, isUtf8, t)
    requires DirectName(EntryPath(names, i, args, isUtf8).value)
    ensures Skipped(names, i, args, cwd, isUtf8, t)
  {
    PathExistsDirect(t, cwd, EntryPath(names, i, args, isUtf8).value);
  }

  /** A library call's outcome as a pass result. */
  function Commit(r: Result<Tree>, t: Tree): Run<()>
  {
    match r
    case Ok(t') => Run(Ok(()), t')
    case Err(e) => Run(Err(e), t)
  }

  /**
   * One turn of the extraction loop: resolve the name, skip an existing
   * destination unless forced, read the entry's bytes, refuse any
   * encryption, decompress, and save.
   */
  function ExtractEntrySpec(content: Bytes, e: Entry, names: Option<seq<Bytes>>, i: nat, args: Args,
                            cwd: Path, codecs: Codecs, t: Tree): Run<()>
  {
    match EntryPath(names, i, args, codecs.isUtf8)
    case Err(err) => Run(Err(err), t)
    case Ok(filepath) =>
      var dest := Abspath(cwd, filepath);
      if !args.force && PathExists(t, cwd, filepath) then Run(Ok(()), t)
      else if e.encryptionType != 0 then Run(Err(UnsupportedEncryption(e.encryptionType)), t)
      else match Decompress(codecs, e, ReadAt(content, e.dataOffset, e.dataSize))
        case Err(err) => Run(Err(err), t)
        case Ok(data) => Commit(SaveSpec(t, data, dest, args.force), t)
  }

  /**
   * A skipped entry succeeds with the filesystem unchanged, whatever the
   * archive holds and whatever its codes say.
   */
  lemma SkipLeavesTree(content: Bytes, e: Entry, names: Option<seq<Bytes>>, i: nat, args: Args,
                       cwd: Path, codecs: Codecs, t: Tree)
    requires Skipped(names, i, args, cwd, codecs.isUtf8, t)
    ensures ExtractEntrySpec(content, e, names, i, args, cwd, codecs, t) == Run(Ok(()), t)
  {
  }

  /**
   * An encrypted entry that is not skipped fails with the filesystem
   * unchanged, before its compression code is looked at.
   */
  lemma EncryptionCheckedFirst(content: Bytes, e: Entry, names: Option<seq<Bytes>>, i: nat, args: Args,
                               cwd: Path, codecs: Codecs, t: Tree)
    requires EntryPath(names, i, args, codecs.isUtf8).Ok?
    requires !Skipped(names, i, args, cwd, codecs.isUtf8, t)
    requires e.encryptionType != 0
    ensures ExtractEntrySpec(content, e, names, i, args, cwd, codecs, t)
         == Run(Err(UnsupportedEncryption(e.encryptionType)), t)
  {
  }

  /** An unknown compression code fails with the filesystem unchanged. */
  lemma UnknownCompressionFails(content: Bytes, e: Entry, names: Option<seq<Bytes>>, i: nat, args: Args,
                                cwd: Path, codecs: Codecs, t: Tree)
    requires EntryPath(names, i, args, codecs.isUtf8).Ok?
    requires !Skipped(names, i, args, cwd, codecs.isUtf8, t)
    requires e.encryptionType == 0 && e.compressionType > 3
    ensures ExtractEntrySpec(content, e, names, i, args, cwd, codecs, t)
         == Run(Err(UnsupportedCompression(e.compressionType)), t)
  {
  }

  /**
   * An extracted entry lands at its destination holding the decompressed
   * bytes; with compression 0 those are the bytes `read(data_size)` returns
   * after seeking to `data_offset`.
   */
  lemma EntrySaved(content: Bytes, e: Entry, names: Option<seq<Bytes>>, i: nat, args: Args,
                   cwd: Path, codecs: Codecs, t: Tree)
    requires WellFormed(t)
    requires !Skipped(names, i, args, cwd, codecs.isUtf8, t)
    requires ExtractEntrySpec(content, e, names, i, args, cwd, codecs, t).out.Ok?
    ensures EntryPath(names, i, args, codecs.isUtf8).Ok? && e.encryptionType == 0
    ensures var dest := Abspath(cwd, EntryPath(names, i, args, codecs.isUtf8).value);
      var raw := ReadAt(content, e.dataOffset, e.dataSize);
      var t' := ExtractEntrySpec(content, e, names, i, args, cwd, codecs, t).tree;
      && Decompress(codecs, e, raw).Ok?
      && dest in t' && t'[dest] == File(Decompress(codecs, e, raw).value)
      && (e.compressionType == 0 ==> t'[dest] == File(raw))
  {
    var dest := Abspath(cwd, EntryPath(names, i, args, codecs.isUtf8).value);
    var raw := ReadAt(content, e.dataOffset, e.dataSize);
    SaveEffect(t, Decompress(codecs, e, raw).value, dest, args.force);
  }

  /** One entry keeps the filesystem well formed, whatever its outcome. */
  lemma EntryPreservesWellFormed(content: Bytes, e: Entry, names: Option<seq<Bytes>>, i: nat, args: Args,
                                 cwd: Path, codecs: Codecs, t: Tree)
    requires WellFormed(t)
    ensures WellFormed(ExtractEntrySpec(content, e, names, i, args, cwd, codecs, t).tree)
  {
    if EntryPath(names, i, args, codecs.isUtf8).Ok? && !Skipped(names, i, args, cwd, codecs.isUtf8, t)
       && e.encryptionType == 0
    {
      var dest := Abspath(cwd, EntryPath(names, i, args, codecs.isUtf8).value);
      var raw := ReadAt(content, e.dataOffset, e.dataSize);
      if Decompress(codecs, e, raw).Ok? && SaveSpec(t, Decompress(codecs, e, raw).value, dest, args.force).Ok? {
        SavePreservesWellFormed(t, Decompress(codecs, e, raw).value, dest, args.force);
      }
    }
  }

  /** Without `force` one entry only adds, and on success its destination exists. */
  lemma EntryWithoutForceExtends(content: Bytes, e: Entry, names: Option<seq<Bytes>>, i: nat, args: Args,
                                 cwd: Path, codecs: Codecs, t: Tree)
    requires !args.force
    ensures Extends(t, ExtractEntrySpec(content, e, names, i, args, cwd, codecs, t).tree)
    ensures ExtractEntrySpec(content, e, names, i, args, cwd, codecs, t).out.Ok? ==>
      && EntryPath(names, i, args, codecs.isUtf8).Ok?
      && Abspath(cwd, EntryPath(names, i, args, codecs.isUtf8).value)
         in ExtractEntrySpec(content, e, names, i, args, cwd, codecs, t).tree
  {
    if Skipped(names, i, args, cwd, codecs.isUtf8, t) {
      PathExistsResolves(t, cwd, EntryPath(names, i, args, codecs.isUtf8).value);
    } else if EntryPath(names, i, args, codecs.isUtf8).Ok? && e.encryptionType == 0 {
      var dest := Abspath(cwd, EntryPath(names, i, args, codecs.isUtf8).value);
      var raw := ReadAt(content, e.dataOffset, e.dataSize);
      if Decompress(codecs, e, raw).Ok? && SaveSpec(t, Decompress(codecs, e, raw).value, dest, false).Ok? {
        SaveWithoutForceExtends(t, Decompress(codecs, e, raw).value, dest);
      }
    }
  }

  // ---------------------------------------------------------------------
  // The extraction loop and the whole decode
  // ---------------------------------------------------------------------

  /** Entries `i ..` in order; the first failure aborts the rest. */
  function ExtractFrom(content: Bytes, es: seq<Entry>, names: Option<seq<Bytes>>, i: nat, args: Args,
                       cwd: Path, codecs: Codecs, t: Tree): Run<()>
    requires i <= |es|
    decreases |es| - i
  {
    if i == |es| then Run(Ok(()), t)
    else
      var step := ExtractEntrySpec(content, es[i], names, i, args, cwd, codecs, t);
      if step.out.Err? then step else ExtractFrom(content, es, names, i + 1, args, cwd, codecs, step.tree)
  }

  /** A successful pass succeeded on its first entry and went on from there. */
  lemma ExtractFromNext(content: Bytes, es: seq<Entry>, names: Option<seq<Bytes>>, i: nat, args: Args,
                        cwd: Path, codecs: Codecs, t: Tree)
    requires i < |es| && ExtractFrom(content, es, names, i, args, cwd, codecs, t).out.Ok?
    ensures var step := ExtractEntrySpec(content, es[i], names, i, args, cwd, codecs, t);
      && step.out.Ok?
      && EntryPath(names, i, args, codecs.isUtf8).Ok?
      && ExtractFrom(content, es, names, i, args, cwd, codecs, t)
         == ExtractFrom(content, es, names, i + 1, args, cwd, codecs, step.tree)
  {
  }

  /** A successful entry had its name resolved. */
  lemma EntryOkResolves(content: Bytes, e: Entry, names: Option<seq<Bytes>>, i: nat, args: Args,
                        cwd: Path, codecs: Codecs, t: Tree)
    requires ExtractEntrySpec(content, e, names, i, args, cwd, codecs, t).out.Ok?
    ensures EntryPath(names, i, args, codecs.isUtf8).Ok?
  {
  }

  /** A successful pass resolved the name of entry `k`, for any `k` it went through. */
  lemma {:induction false} ExtractFromResolves(content: Bytes, es: seq<Entry>, names: Option<seq<Bytes>>,
                                               i: nat, k: nat, args: Args, cwd: Path, codecs: Codecs, t: Tree)
    requires i <= k < |es|
    requires ExtractFrom(content, es, names, i, args, cwd, codecs, t).out.Ok?
    ensures EntryPath(names, k, args, codecs.isUtf8).Ok?
  {
    if EntryPath(names, k, args, codecs.isUtf8).Err? {
      UnresolvedNameStops(content, es, names, i, k, args, cwd, codecs, t);
    }
  }

  /** A name that cannot be resolved stops any pass that reaches it. */
  lemma {:induction false} UnresolvedNameStops(content: Bytes, es: seq<Entry>, names: Option<seq<Bytes>>,
                                               i: nat, k: nat, args: Args, cwd: Path, codecs: Codecs, t: Tree)
    requires i <= k < |es| && EntryPath(names, k, args, codecs.isUtf8).Err?
    ensures ExtractFrom(content, es, names, i, args, cwd, codecs, t).out.Err?
    decreases k - i
  {
    var step := ExtractEntrySpec(content, es[i], names, i, args, cwd, codecs, t);
    if step.out.Ok? && i < k {
      UnresolvedNameStops(content, es, names, i + 1, k, args, cwd, codecs, step.tree);
    }
  }

  /** Every successful pass resolved the name of every entry it went through. */
  lemma ExtractFromResolvesAll(content: Bytes, es: seq<Entry>, names: Option<seq<Bytes>>,
                               i: nat, args: Args, cwd: Path, codecs: Codecs, t: Tree)
    requires i <= |es|
    requires ExtractFrom(content, es, names, i, args, cwd, codecs, t).out.Ok?
    ensures forall k :: i <= k < |es| ==> EntryPath(names, k, args, codecs.isUtf8).Ok?
  {
    forall k | i <= k < |es| ensures EntryPath(names, k, args, codecs.isUtf8).Ok? {
      ExtractFromResolves(content, es, names, i, k, args, cwd, codecs, t);
    }
  }

  /** The loop keeps the filesystem well formed, whatever its outcome. */
  lemma {:induction false} ExtractFromPreservesWellFormed(content: Bytes, es: seq<Entry>, names: Option<seq<Bytes>>,
                                                          i: nat, args: Args, cwd: Path, codecs: Codecs, t: Tree)
    requires i <= |es| && WellFormed(t)
    ensures WellFormed(ExtractFrom(content, es, names, i, args, cwd, codecs, t).tree)
    decreases |es| - i
  {
    if i < |es| {
      EntryPreservesWellFormed(content, es[i], names, i, args, cwd, codecs, t);
      var step := ExtractEntrySpec(content, es[i], names, i, args, cwd, codecs, t);
      if step.out.Ok? {
        ExtractFromPreservesWellFormed(content, es, names, i + 1, args, cwd, codecs, step.tree);
      }
    }
  }

  /** Without `force` the loop only adds, whatever its outcome. */
  lemma {:induction false} ExtractFromWithoutForceExtends(content: Bytes, es: seq<Entry>, names: Option<seq<Bytes>>,
                                                          i: nat, args: Args, cwd: Path, codecs: Codecs, t: Tree)
    requires i <= |es| && !args.force
    ensures Extends(t, ExtractFrom(content, es, names, i, args, cwd, codecs, t).tree)
    decreases |es| - i
  {
    if i < |es| {
      var step := ExtractEntrySpec(content, es[i], names, i, args, cwd, codecs, t);
      EntryWithoutForceExtends(content, es[i], names, i, args, cwd, codecs, t);
      if step.out.Ok? {
        assert ExtractFrom(content, es, names, i, args, cwd, codecs, t)
            == ExtractFrom(content, es, names, i + 1, args, cwd, codecs, step.tree);
        ExtractFromWithoutForceExtends(content, es, names, i + 1, args, cwd, codecs, step.tree);
      } else {
        assert ExtractFrom(content, es, names, i, args, cwd, codecs, t) == step;
      }
    }
  }

  /**
   * Without `force`, after a successful pass something is present where
   * every entry it went through resolves to.
   */
  lemma {:induction false} ExtractFromLeavesDestinations(content: Bytes, es: seq<Entry>, names: Option<seq<Bytes>>,
                                                         i: nat, args: Args, cwd: Path, codecs: Codecs, t: Tree)
    requires i <= |es| && !args.force
    requires ExtractFrom(content, es, names, i, args, cwd, codecs, t).out.Ok?
    ensures forall k :: i <= k < |es| ==>
      InPlace(names, k, args, cwd, codecs.isUtf8, ExtractFrom(content, es, names, i, args, cwd, codecs, t).tree)
    decreases |es| - i
  {
    if i < |es| {
      var step := ExtractEntrySpec(content, es[i], names, i, args, cwd, codecs, t);
      EntryWithoutForceExtends(content, es[i], names, i, args, cwd, codecs, t);
      var rest := ExtractFrom(content, es, names, i + 1, args, cwd, codecs, step.tree);
      assert ExtractFrom(content, es, names, i, args, cwd, codecs, t) == rest;
      ExtractFromLeavesDestinations(content, es, names, i + 1, args, cwd, codecs, step.tree);
      ExtractFromWithoutForceExtends(content, es, names, i + 1, args, cwd, codecs, step.tree);
      forall k | i <= k < |es| ensures InPlace(names, k, args, cwd, codecs.isUtf8, rest.tree) {
        if k == i {
          assert Abspath(cwd, EntryPath(names, i, args, codecs.isUtf8).value) in step.tree;
        }
      }
    }
  }

  /** When every remaining entry is skipped, the loop changes nothing. */
  lemma {:induction false} ExtractFromSkipsAll(content: Bytes, es: seq<Entry>, names: Option<seq<Bytes>>,
                                               i: nat, args: Args, cwd: Path, codecs: Codecs, t: Tree)
    requires i <= |es|
    requires forall k :: i <= k < |es| ==> Skipped(names, k, args, cwd, codecs.isUtf8, t)
    ensures ExtractFrom(content, es, names, i, args, cwd, codecs, t) == Run(Ok(()), t)
    decreases |es| - i
  {
    if i < |es| {
      SkipLeavesTree(content, es[i], names, i, args, cwd, codecs, t);
      ExtractFromSkipsAll(content, es, names, i + 1, args, cwd, codecs, t);
    }
  }

  /** Where the filename table is probed: right after the entry table. */
  function NamesOffset(h: ArchiveHeader): nat
  {
    h.tableOffset + ENTRY_SIZE * h.entryCount
  }

  /**
   * `decode`: the header, the entry table, the filename table right after
   * it, and then every entry in order; the first error aborts the rest.
   */
  function DecodeSpec(content: Bytes, offset: nat, args: Args, cwd: Path, codecs: Codecs, t: Tree): Run<()>
  {
    match ExtractHeaderSpec(content, offset)
    case Err(e) => Run(Err(e), t)
    case Ok(h) =>
      match ReadTable(content, h.tableOffset, h.entryCount)
      case Err(e) => Run(Err(e), t)
      case Ok(es) =>
        var probe := Nxfn.DecodeSpec(content, NamesOffset(h), args, cwd, codecs.headerJson, t);
        match probe.out
        case Err(e) => Run(Err(e), probe.tree)
        case Ok(names) => ExtractFrom(content, es, Some(names), 0, args, cwd, codecs, probe.tree)
  }

  /**
   * A successful decode needs the whole header, the whole entry table, a
   * 16-byte filename header right after the table, and at least as many
   * names in the blob (NUL count plus one) as there are entries.
   */
  lemma DecodeRequirements(content: Bytes, offset: nat, args: Args, cwd: Path, codecs: Codecs, t: Tree)
    requires DecodeSpec(content, offset, args, cwd, codecs, t).out.Ok?
    ensures offset + HEADER_SIZE <= |content|
    ensures var h := ExtractHeaderSpec(content, offset).value;
      && (h.entryCount == 0 || h.tableOffset + ENTRY_SIZE * h.entryCount <= |content|)
      && NamesOffset(h) + Nxfn.HEADER_SIZE <= |content|
      && h.entryCount <= Count(Nxfn.Blob(content, NamesOffset(h)), NUL) + 1
  {
    DecodeStagesOk(content, offset, args, cwd, codecs, t);
    ExtractHeaderOutcome(content, offset);
    var h := ExtractHeaderSpec(content, offset).value;
    TableLayout(content, h.tableOffset, h.entryCount);
    var es := ReadTable(content, h.tableOffset, h.entryCount).value;
    var probe := Nxfn.DecodeSpec(content, NamesOffset(h), args, cwd, codecs.headerJson, t);
    Nxfn.DecodedNames(content, NamesOffset(h), args, cwd, codecs.headerJson, t);
    Nxfn.ExtractHeaderOutcome(content, NamesOffset(h));
    DecodeStages(content, offset, args, cwd, codecs, t, h, es, probe.out.value);
    NamesCoverEntries(content, es, probe.out.value, args, cwd, codecs, probe.tree);
  }

  /** Each stage before the entry loop of a successful decode succeeds. */
  lemma DecodeStagesOk(content: Bytes, offset: nat, args: Args, cwd: Path, codecs: Codecs, t: Tree)
    requires DecodeSpec(content, offset, args, cwd, codecs, t).out.Ok?
    ensures ExtractHeaderSpec(content, offset).Ok?
    ensures var h := ExtractHeaderSpec(content, offset).value;
      && ReadTable(content, h.tableOffset, h.entryCount).Ok?
      && Nxfn.DecodeSpec(content, NamesOffset(h), args, cwd, codecs.headerJson, t).out.Ok?
  {
  }

  /** A loop over all the entries that succeeds found a name for each of them. */
  lemma NamesCoverEntries(content: Bytes, es: seq<Entry>, names: seq<Bytes>,
                          args: Args, cwd: Path, codecs: Codecs, t: Tree)
    requires ExtractFrom(content, es, Some(names), 0, args, cwd, codecs, t).out.Ok?
    ensures |es| <= |names|
  {
    if |es| > 0 {
      ExtractFromResolves(content, es, Some(names), 0, |es| - 1, args, cwd, codecs, t);
      assert ResolveName(Some(names), args.sourceName, |es| - 1, codecs.isUtf8).Ok?;
    }
  }

  /** A decode, whatever its outcome, leaves a well-formed tree well formed. */
  lemma DecodePreservesWellFormed(content: Bytes, offset: nat, args: Args, cwd: Path, codecs: Codecs, t: Tree)
    requires WellFormed(t)
    ensures WellFormed(DecodeSpec(content, offset, args, cwd, codecs, t).tree)
  {
    if ExtractHeaderSpec(content, offset).Ok? {
      var h := ExtractHeaderSpec(content, offset).value;
      if ReadTable(content, h.tableOffset, h.entryCount).Ok? {
        var es := ReadTable(content, h.tableOffset, h.entryCount).value;
        Nxfn.DecodePreservesWellFormed(content, NamesOffset(h), args, cwd, codecs.headerJson, t);
        var probe := Nxfn.DecodeSpec(content, NamesOffset(h), args, cwd, codecs.headerJson, t);
        if probe.out.Ok? {
          ExtractFromPreservesWellFormed(content, es, Some(probe.out.value), 0, args, cwd, codecs, probe.tree);
        }
      }
    }
  }

  /** Without `force` a decode never changes or removes anything already on disk. */
  lemma DecodeWithoutForceExtends(content: Bytes, offset: nat, args: Args, cwd: Path, codecs: Codecs, t: Tree)
    requires !args.force
    ensures Extends(t, DecodeSpec(content, offset, args, cwd, codecs, t).tree)
  {
    if ExtractHeaderSpec(content, offset).Ok? {
      var h := ExtractHeaderSpec(content, offset).value;
      if ReadTable(content, h.tableOffset, h.entryCount).Ok? {
        var es := ReadTable(content, h.tableOffset, h.entryCount).value;
        Nxfn.DecodeWithoutForceExtends(content, NamesOffset(h), args, cwd, codecs.headerJson, t);
        var probe := Nxfn.DecodeSpec(content, NamesOffset(h), args, cwd, codecs.headerJson, t);
        if probe.out.Ok? {
          ExtractFromWithoutForceExtends(content, es, Some(probe.out.value), 0, args, cwd, codecs, probe.tree);
        }
      }
    }
  }

  /**
   * Without `force`, running the loop again over what it left behind
   * changes nothing, provided every entry path is a direct name: only then
   * does `os.path.exists` find each file where the save put it.
   */
  lemma ExtractFromRepeat(content: Bytes, es: seq<Entry>, names: Option<seq<Bytes>>,
                          args: Args, cwd: Path, codecs: Codecs, t: Tree)
    requires WellFormed(t) && !args.force && PathsDirect(names, |es|, args, codecs.isUtf8)
    requires ExtractFrom(content, es, names, 0, args, cwd, codecs, t).out.Ok?
    ensures var t1 := ExtractFrom(content, es, names, 0, args, cwd, codecs, t).tree;
      ExtractFrom(content, es, names, 0, args, cwd, codecs, t1) == Run(Ok(()), t1)
  {
    var t1 := ExtractFrom(content, es, names, 0, args, cwd, codecs, t).tree;
    ExtractFromLeavesDestinations(content, es, names, 0, args, cwd, codecs, t);
    ExtractFromPreservesWellFormed(content, es, names, 0, args, cwd, codecs, t);
    forall k | 0 <= k < |es| ensures Skipped(names, k, args, cwd, codecs.isUtf8, t1) {
      InPlaceSkipped(names, k, args, cwd, codecs.isUtf8, t1);
    }
    ExtractFromSkipsAll(content, es, names, 0, args, cwd, codecs, t1);
  }

  /**
   * A table name ending in a backslash defeats the skip: `a\` becomes the
   * text `a/`, which the save writes as the file `a`, and on the next run
   * `os.path.exists('a/')` is false over that file, so the save refuses to
   * overwrite it and the second run fails.
   */
  lemma TrailingSeparatorRerunFails(codecs: Codecs)
    requires codecs.isUtf8([97, SLASH])
    ensures var names, args := Some([[97, BACKSLASH]]), Args([], [], false);
      var es := [Entry(0, 0, 0, 0, 0, 0, 0, 0)];
      var t0: Tree := map[[] := Dir];
      var first := ExtractFrom([], es, names, 0, args, [], codecs, t0);
      && first == Run(Ok(()), t0[[[97]] := File([])])
      && ExtractFrom([], es, names, 0, args, [], codecs, first.tree) == Run(Err(FileExists([[97]])), first.tree)
  {
    var names, args := Some([[97, BACKSLASH]]), Args([], [], false);
    var text: Bytes := [97, SLASH];
    assert Replace([97, BACKSLASH], BACKSLASH, SLASH) == text;
    assert ResolveName(names, [], 0, codecs.isUtf8) == Ok(text);
    assert JoinPath([], text) == text;
    assert EntryPath(names, 0, args, codecs.isUtf8) == Ok(text);
    var t0: Tree := map[[] := Dir];
    var t1 := t0[[[97]] := File([])];
    TrailingSlashText(t0, t1);
    assert SaveSpec(t0, [], [[97]], false) == Ok(t1);
  }

  /** The text `a/` resolves to `a`, yet is not found over a file `a`, nor where there is no `a`. */
  lemma TrailingSlashText(t0: Tree, t1: Tree)
    requires t0 == map[[] := Dir] && t1 == t0[[[97]] := File([])]
    ensures Abspath([], [97, SLASH]) == [[97]]
    ensures !PathExists(t0, [], [97, SLASH]) && !PathExists(t1, [], [97, SLASH])
  {
    var name: Bytes := [97];
    assert [97, SLASH] == name + [SLASH] + [];
    SplitFree(name, SLASH);
    SplitAround(name, SLASH, []);
    assert Lookup(t0, [], Split([97, SLASH], SLASH)) == None;
    var root: Path := [];
    assert root + [name] == [name];
    TrailingSlashOverFile(t1, root, name);
  }

  /** A pass that returns nothing has only one way to succeed. */
  lemma OnlyOneSuccess(r: Result<()>)
    requires r.Ok?
    ensures r == Ok(())
  {
    match r {
      case Ok(u) =>
        match u {
          case () =>
        }
    }
  }

  /** A decode runs the loop over the names the filename table yields. */
  lemma DecodeStages(content: Bytes, offset: nat, args: Args, cwd: Path, codecs: Codecs, t: Tree,
                     h: ArchiveHeader, es: seq<Entry>, names: seq<Bytes>)
    requires ExtractHeaderSpec(content, offset) == Ok(h)
    requires ReadTable(content, h.tableOffset, h.entryCount) == Ok(es)
    requires Nxfn.DecodeSpec(content, NamesOffset(h), args, cwd, codecs.headerJson, t).out == Ok(names)
    ensures DecodeSpec(content, offset, args, cwd, codecs, t)
         == ExtractFrom(content, es, Some(names), 0, args, cwd, codecs,
                        Nxfn.DecodeSpec(content, NamesOffset(h), args, cwd, codecs.headerJson, t).tree)
  {
  }

  /**
   * The names the archive's filename table gives its entries are direct
   * names, whatever the filesystem.
   */
  predicate TableNamesDirect(content: Bytes, offset: nat)
  {
    match ExtractHeaderSpec(content, offset)
    case Err(_) => true
    case Ok(h) =>
      Nxfn.ExtractHeaderSpec(content, NamesOffset(h)).Ok? ==>
        DirectNames(Split(Nxfn.Blob(content, NamesOffset(h)), NUL), h.entryCount)
  }

  /**
   * When the table names are direct names and the destination never
   * climbs, every path the entries of a successful decode resolve to is a
   * direct name.
   */
  lemma ProbedPathsDirect(content: Bytes, offset: nat, args: Args, cwd: Path, codecs: Codecs, t: Tree)
    requires ClimbFree(args.destination) && TableNamesDirect(content, offset)
    requires DecodeSpec(content, offset, args, cwd, codecs, t).out.Ok?
    ensures var h := ExtractHeaderSpec(content, offset).value;
      var probe := Nxfn.DecodeSpec(content, NamesOffset(h), args, cwd, codecs.headerJson, t);
      && probe.out.Ok?
      && PathsDirect(Some(probe.out.value), h.entryCount, args, codecs.isUtf8)
  {
    var h := ExtractHeaderSpec(content, offset).value;
    var at := NamesOffset(h);
    Nxfn.DecodedNames(content, at, args, cwd, codecs.headerJson, t);
    var names := Nxfn.DecodeSpec(content, at, args, cwd, codecs.headerJson, t).out.value;
    NamesGiveDirectPaths(names, h.entryCount, args, codecs.isUtf8);
  }

  /**
   * Without `force`, unpacking the same archive again over what a
   * successful unpack left behind changes nothing and succeeds: every
   * dump and every entry destination exists and is skipped. This needs the
   * destination and the table names to be direct names; see
   * `TrailingSeparatorRerunFails` for a name where it fails.
   */
  lemma DecodeIdempotent(content: Bytes, offset: nat, args: Args, cwd: Path, codecs: Codecs, t: Tree)
    requires WellFormed(t) && !args.force
    requires ClimbFree(args.destination) && TableNamesDirect(content, offset)
    requires DecodeSpec(content, offset, args, cwd, codecs, t).out.Ok?
    ensures var first := DecodeSpec(content, offset, args, cwd, codecs, t);
      DecodeSpec(content, offset, args, cwd, codecs, first.tree) == first
  {
    var h := ExtractHeaderSpec(content, offset).value;
    var es := ReadTable(content, h.tableOffset, h.entryCount).value;
    var at := NamesOffset(h);
    var probe := Nxfn.DecodeSpec(content, at, args, cwd, codecs.headerJson, t);
    var names := probe.out.value;
    DecodeStages(content, offset, args, cwd, codecs, t, h, es, names);
    var t1 := ExtractFrom(content, es, Some(names), 0, args, cwd, codecs, probe.tree).tree;
    assert Nxfn.DecodeSpec(content, at, args, cwd, codecs.headerJson, t1) == Run(Ok(names), t1) by {
      Nxfn.DecodePreservesWellFormed(content, at, args, cwd, codecs.headerJson, t);
      ExtractFromWithoutForceExtends(content, es, Some(names), 0, args, cwd, codecs, probe.tree);
      ExtractFromPreservesWellFormed(content, es, Some(names), 0, args, cwd, codecs, probe.tree);
      Nxfn.DecodeRepeat(content, at, args, cwd, codecs.headerJson, t, t1);
    }
    Nxfn.DecodePreservesWellFormed(content, at, args, cwd, codecs.headerJson, t);
    ProbedPathsDirect(content, offset, args, cwd, codecs, t);
    ExtractFromRepeat(content, es, Some(names), args, cwd, codecs, probe.tree);
    DecodeStages(content, offset, args, cwd, codecs, t1, h, es, names);
    OnlyOneSuccess(DecodeSpec(content, offset, args, cwd, codecs, t).out);
  }

  /** The handler for an NXPK archive starting at `offset` in `file`. */
  class NxpkHandler {
    const file: ArchiveFile
    const offset: nat
    var header: Option<ArchiveHeader>
    var tableEntrySize: nat
    var tableSize: nat

    constructor (file: ArchiveFile, offset: nat)
      ensures this.file == file && this.offset == offset
      ensures header == None && tableEntrySize == 0 && tableSize == 0
    {
      this.file := file;
      this.offset := offset;
      header := None;
      tableEntrySize := 0;
      tableSize := 0;
    }

    /** `is_compatible`, inherited: the four bytes at the offset start with `NXPK`. */
    method IsCompatible() returns (ok: bool)
      modifies file
      ensures ok == CheckSignature(ReadAt(file.content, offset, 4))
    {
      ok := FormatHandler.IsCompatible(file, offset, CheckSignature);
    }

    /** `extract_header`. */
    method ExtractHeader() returns (r: Result<ArchiveHeader>)
      modifies file
      ensures r == ExtractHeaderSpec(file.content, offset)
    {
      var headerSize := HEADER_SIZE;
      file.Seek(offset);
      var buf := file.Read(headerSize);
      if |buf| < headerSize {
        return Err(TruncatedHeader(headerSize, |buf|));
      }
      r := Ok(DecodeHeader(buf));
    }

    /** `read_entry(entry_offset)`: reads `_table_entry_size` bytes there. */
    method ReadEntry(entryOffset: nat) returns (r: Result<Entry>)
      requires tableEntrySize == ENTRY_SIZE
      modifies file
      ensures r == ReadEntrySpec(file.content, entryOffset)
    {
      file.Seek(entryOffset);
      var buf := file.Read(tableEntrySize);
      if |buf| < ENTRY_SIZE {
        return Err(TruncatedEntry(entryOffset, |buf|));
      }
      r := Ok(DecodeEntry(buf));
    }

    /**
     * The indexing loop of `decode`: one record per 28-byte step from
     * `table_offset` up to `table_offset + table_size`.
     */
    method IndexEntries() returns (r: Result<map<nat, Entry>>)
      requires header.Some? && tableEntrySize == ENTRY_SIZE
      requires tableSize == ENTRY_SIZE * header.value.entryCount
      modifies file
      ensures r.Err? ==> ReadTable(file.content, header.value.tableOffset, header.value.entryCount) == Err(r.error)
      ensures r.Ok? ==>
        && ReadTable(file.content, header.value.tableOffset, header.value.entryCount).Ok?
        && r.value == Indexed(ReadTable(file.content, header.value.tableOffset, header.value.entryCount).value)
    {
      var h := header.value;
      var entryTable: map<nat, Entry> := map[];
      var entryIndex := 0;
      var entryOffset := h.tableOffset;
      while entryOffset < tableSize + h.tableOffset
        invariant entryIndex <= h.entryCount
        invariant entryOffset == h.tableOffset + ENTRY_SIZE * entryIndex
        invariant ReadTable(file.content, h.tableOffset, entryIndex).Ok?
        invariant |ReadTable(file.content, h.tableOffset, entryIndex).value| == entryIndex
        invariant entryTable == Indexed(ReadTable(file.content, h.tableOffset, entryIndex).value)
        decreases tableSize + h.tableOffset - entryOffset
      {
        var tableEntry := ReadEntry(entryOffset);
        if tableEntry.Err? {
          TableErrorPersists(file.content, h.tableOffset, entryIndex + 1, h.entryCount);
          return Err(tableEntry.error);
        }
        ghost var es := ReadTable(file.content, h.tableOffset, entryIndex).value;
        assert ReadTable(file.content, h.tableOffset, entryIndex + 1) == Ok(es + [tableEntry.value]);
        entryTable := entryTable[entryIndex := tableEntry.value];
        IndexedSnoc(es, tableEntry.value);
        entryIndex := entryIndex + 1;
        entryOffset := entryOffset + tableEntrySize;
        assert ReadTable(file.content, h.tableOffset, entryIndex) == Ok(es + [tableEntry.value]);
      }
      r := Ok(entryTable);
    }

    /** `decode_nxfn(offset, args)`: a fresh NXFN handler on the same file. */
    method DecodeNxfn(disk: Disk, at: nat, args: Args, codecs: Codecs) returns (r: Result<seq<Bytes>>)
      requires disk.Valid()
      modifies file, disk
      ensures disk.Valid()
      ensures Run(r, disk.tree) == Nxfn.DecodeSpec(file.content, at, args, disk.cwd, codecs.headerJson, old(disk.tree))
    {
      var nxfn := new Nxfn.NxfnHandler(file, at);
      r := nxfn.Decode(disk, args, codecs.headerJson);
    }

    /** One turn of the extraction loop of `decode`. */
    method ExtractEntry(disk: Disk, entry: Entry, names: Option<seq<Bytes>>, i: nat, args: Args, codecs: Codecs)
      returns (r: Result<()>)
      requires disk.Valid()
      modifies file, disk
      ensures disk.Valid()
      ensures Run(r, disk.tree) == ExtractEntrySpec(file.content, entry, names, i, args, disk.cwd, codecs, old(disk.tree))
      ensures Skipped(names, i, args, disk.cwd, codecs.isUtf8, old(disk.tree)) ==> file.pos == old(file.pos)
    {
      var filename: Bytes;
      if names.Some? {
        if i >= |names.value| {
          return Err(MissingName(i));
        }
        filename := Replace(names.value[i], BACKSLASH, SLASH);
        if !codecs.isUtf8(filename) {
          return Err(BadUtf8(i));
        }
      } else {
        filename := JoinPath(args.sourceName, DecimalText(i));
      }
      var filepath := JoinPath(args.destination, filename);
      if !args.force && disk.Exists(filepath) {
        return Ok(());
      }
      file.Seek(entry.dataOffset);
      var data := file.Read(entry.dataSize);
      match entry.encryptionType {
        case 0 =>
        case _ => return Err(UnsupportedEncryption(entry.encryptionType));
      }
      match entry.compressionType {
        case 0 =>
        case 1 =>
          var out := codecs.zlib(data);
          if out.None? {
            return Err(CorruptStream(1));
          }
          data := out.value;
        case 2 =>
          var out := codecs.lz4Block(data, entry.uncompressedSize);
          if out.None? {
            return Err(CorruptStream(2));
          }
          data := out.value;
        case 3 =>
          var out := codecs.zstd(data);
          if out.None? {
            return Err(CorruptStream(3));
          }
          data := out.value;
        case _ => return Err(UnsupportedCompression(entry.compressionType));
      }
      r := SaveBinary(disk, data, filepath, args.force);
    }

    /**
     * The extraction loop of `decode`: the indexed entries in order, the
     * first failure ending the loop.
     */
    method ExtractAll(disk: Disk, entryTable: map<nat, Entry>, ghost es: seq<Entry>, names: Option<seq<Bytes>>,
                      args: Args, codecs: Codecs) returns (r: Result<()>)
      requires disk.Valid() && entryTable == Indexed(es)
      modifies file, disk
      ensures disk.Valid()
      ensures Run(r, disk.tree) == ExtractFrom(file.content, es, names, 0, args, disk.cwd, codecs, old(disk.tree))
    {
      IndexedSize(es);
      var i := 0;
      while i < |entryTable|
        invariant disk.Valid()
        invariant 0 <= i <= |es|
        invariant ExtractFrom(file.content, es, names, i, args, disk.cwd, codecs, disk.tree)
               == ExtractFrom(file.content, es, names, 0, args, disk.cwd, codecs, old(disk.tree))
      {
        var step := ExtractEntry(disk, entryTable[i], names, i, args, codecs);
        if step.Err? {
          return step;
        }
        i := i + 1;
      }
      r := Ok(());
    }

    /** `decode(args)`. */
    method Decode(disk: Disk, args: Args, codecs: Codecs) returns (r: Result<()>)
      requires disk.Valid()
      modifies this, file, disk
      ensures disk.Valid()
      ensures Run(r, disk.tree) == DecodeSpec(file.content, offset, args, disk.cwd, codecs, old(disk.tree))
      ensures header == match ExtractHeaderSpec(file.content, offset)
                        case Ok(h) => Some(h)
                        case Err(_) => old(header)
      ensures ExtractHeaderSpec(file.content, offset).Ok? ==>
        tableEntrySize == ENTRY_SIZE && tableSize == ENTRY_SIZE * header.value.entryCount
    {
      var extracted := ExtractHeader();
      if extracted.Err? {
        return Err(extracted.error);
      }
      header := Some(extracted.value);
      var h := extracted.value;
      tableEntrySize := ENTRY_SIZE;
      tableSize := tableEntrySize * h.entryCount;
      var indexed := IndexEntries();
      if indexed.Err? {
        return Err(indexed.error);
      }
      var entryTable := indexed.value;
      ghost var es := ReadTable(file.content, h.tableOffset, h.entryCount).value;
      assert h.tableOffset + tableSize == NamesOffset(h);
      var nxfn := DecodeNxfn(disk, h.tableOffset + tableSize, args, codecs);
      if nxfn.Err? {
        return Err(nxfn.error);
      }
      DecodeStages(file.content, offset, args, disk.cwd, codecs, old(disk.tree), h, es, nxfn.value);
      r := ExtractAll(disk, entryTable, es, Some(nxfn.value), args, codecs);
    }
  }
}
