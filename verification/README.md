# NXPK / NXFN archive decoder (once-crunch)

once-crunch unpacks NeoX game packages (`.npk`). An NXPK archive has three parts:

- a 24-byte little-endian header (`<IIHHBBHII`: magic, entry count, six reserved fields, table offset);
- a table of 28-byte entry records (`<IIIIIIHH`: checksum, data offset, data size, uncompressed size, two CRCs, compression code, encryption code) at the table offset;
- an embedded NXFN filename table directly after the entry table. It has a 16-byte header (`<IIII`) and a blob of `data_size` bytes holding NUL-separated names.

Decoding has these steps:

1. Read the header.
2. Index the entry table.
3. Decode the filename table. This dumps its header as JSON and its raw blob next to the outputs.
4. Extract every entry in order. Each entry's name has `\` turned into `/`. The entry is skipped when its destination exists and `force` is off. Any encryption is refused. Compression code 0 means stored, 1 zlib, 2 LZ4 block, 3 zstd. The result is saved through the shared writer.

The writer (`save_binary` / `save_json`) works like this:

- A directory in the way is removed only with `force`.
- An existing file is replaced only with `force`.
- The parent directories are created, then the file is written.

The model is split by module:

- `Bytes`: byte strings and little-endian fields.
- `Paths`: `os.path.join` and lexical `os.path.abspath` on byte paths.
- `FileSystem`: the host filesystem as a map from resolved paths to `Dir | File(bytes)`. It has a `Disk` class whose methods apply `rmtree`, `remove`, `makedirs` and open-and-write, and answer `os.path.exists`.
- `Streams`: the archive as a seekable read-only file.
- `FormatHandler`: the signature probe and the writers.
- `Nxfn`: the filename table handler.
- `Nxpk`: the archive handler.

Each stateful operation is a method. The handlers' operations are methods on `NxfnHandler` and `NxpkHandler`. The filesystem calls are methods on `Disk`. The shared writers `SaveBinary` and `SaveJson` and the probe `IsCompatible` are module-level methods in `FormatHandler` that take the disk or the file as a parameter. Each method's `ensures` ties the result and the new filesystem to a specification function of the old state (`SaveSpec`, `Nxfn.DecodeSpec`, `ExtractEntrySpec`, `Nxpk.DecodeSpec`). Lemmas then prove what the code promises about those functions.

The model follows the code as written:

- Any error aborts the whole decode, with the filesystem as it was at that point, and the remaining entries are not extracted. The code raises in each of these cases:
  - an unsupported encryption or compression code;
  - a decompressor failure;
  - a missing name;
  - a name that is not UTF-8;
  - a refused save.
- `decode_nxfn` always returns a list (NXFNFormatHandler.py:44). So the NXPK decoder always names entries from the table, and the synthetic `source/i` names at NXPKFormatHandler.py:58-60 are never used. `ResolveName` takes an optional table, so both branches are modelled and proved.
- A missing or short filename table is not detected as "absent". Fewer than 16 bytes after the entry table abort the decode. Any 16 bytes there are read as an NXFN header, whatever they hold.
- The existence tests (NXPKFormatHandler.py:63, NXFNFormatHandler.py:25,27,37,39) are `os.path.exists` on the path text as written, not on its `abspath`. `FileSystem.PathExists` models this as the lookup `stat` performs. Each component is looked up in the directory reached so far, so `..`, `.` and an empty component after a file fail. A trailing `/` also fails after a file. The writers act on the `abspath`. The two tests agree whenever the text has no `..` and does not end in `/`, `.` or an empty component in a well-formed tree (`FileSystem.PathExistsDirect`). They can disagree otherwise. For example, a table name `a\` becomes the text `a/`, and the entry is saved as the file `a`. A second run without force then does not skip it, and the save refuses to overwrite it (`Nxpk.TrailingSeparatorRerunFails`).
- On the `Disk` class, `Resolve` is `os.path.abspath` (`Paths.Abspath` from the working directory), `Exists` is `os.path.exists` (`FileSystem.PathExists`), and `IsDir` and `IsFile` are `os.path.isdir` and `os.path.isfile` on a resolved path. `Nxpk.EntryPath` is the `os.path.join(args.DESTINATION, filename)` of NXPKFormatHandler.py:61. `Nxfn.HeaderFile` and `Nxfn.DataFile` are the joins of NXFNFormatHandler.py:24 and :36. All of them are built on `Paths.JoinPath`.

## Model

| member | source | states |
|---|---|---|
| Bytes.U32 | once-crunch/formats/NXPKFormatHandler.py:116 | a `<I` field is below 2^32 |
| Bytes.LE32 | once-crunch/formats/NXPKFormatHandler.py:116 | the four bytes of a u32 decode back to it (`<I` layout) |
| Bytes.LE32OfU32 | once-crunch/formats/NXPKFormatHandler.py:132 | re-encoding a decoded `<I` field gives back its four bytes |
| Bytes.LE16OfU16 | once-crunch/formats/NXPKFormatHandler.py:132 | re-encoding a decoded `<H` field gives back its two bytes |
| Bytes.ReadAt | once-crunch/formats/FormatHandler.py:39-40 | `seek` then `read(n)` gives the next `n` bytes, fewer near the end, none past it |
| Bytes.Split | once-crunch/formats/NXFNFormatHandler.py:44 | `split(b'\0')` always yields at least one segment |
| Bytes.JoinSplit | once-crunch/formats/NXFNFormatHandler.py:44 | joining the segments with NUL rebuilds the blob exactly |
| Bytes.SplitSegmentsFree | once-crunch/formats/NXFNFormatHandler.py:44 | no segment contains NUL |
| Bytes.SplitSegmentCount | once-crunch/formats/NXFNFormatHandler.py:44 | there is one more segment than NULs |
| Bytes.SplitJoin | once-crunch/formats/NXFNFormatHandler.py:44 | splitting a join of NUL-free names gives the names back |
| Bytes.Replace | once-crunch/formats/NXPKFormatHandler.py:53 | `replace(b'\\', b'/')` keeps the length, maps every backslash to a slash, leaves no backslash |
| Paths.Abspath | once-crunch/formats/FormatHandler.py:58 | resolving against a valid working directory gives a valid path |
| Paths.JoinThenResolve | once-crunch/formats/NXPKFormatHandler.py:61 | resolving `join(a, b)` is resolving `b` from where `a` leads |
| Paths.JoinPath | once-crunch/formats/NXPKFormatHandler.py:61 | `os.path.join(a, b)` is `b` when `b` is absolute; otherwise it starts with `a`, ends with `b`, and adds at most one `/` between them |
| Paths.JoinName | once-crunch/formats/NXFNFormatHandler.py:24 | joining a plain name adds exactly one component |
| Paths.JoinStaysBelow | once-crunch/formats/NXPKFormatHandler.py:61 | a relative name without `..` resolves inside the destination |
| Paths.JoinDirect | once-crunch/formats/NXPKFormatHandler.py:61 | a direct name (no `..`, last component a plain name) joined to a directory without `..` is still a direct name |
| Paths.DecimalText | once-crunch/formats/NXPKFormatHandler.py:58-60 | `str(i)` is non-empty decimal digits, one digit exactly below 10 |
| Paths.DecimalTextInjective | once-crunch/formats/NXPKFormatHandler.py:58-60 | distinct indices have distinct texts |
| Paths.SyntheticPath | once-crunch/formats/NXPKFormatHandler.py:58-61 | `join(DEST, join(source, str(i)))` resolves to the source's directory plus the index |
| Paths.SyntheticPathsDistinct | once-crunch/formats/NXPKFormatHandler.py:58-61 | distinct indices never share a synthetic destination |
| FileSystem.RemoveSubtree | once-crunch/formats/FormatHandler.py:61 | `rmtree` removes exactly the path and everything below it; the rest is unchanged |
| FileSystem.RemoveSpec | once-crunch/formats/NXFNFormatHandler.py:26 | `os.remove` succeeds iff the path is a file; it then removes just that path; every other path keeps its contents; otherwise IsADirectory for a directory and FileNotFound for a missing path |
| FileSystem.WriteSpec | once-crunch/formats/FormatHandler.py:67-68 | opening for writing succeeds iff the path is not the root, not a directory, and its parent is a directory; the path then holds exactly the data, no other path appears or disappears, and every other path keeps its contents |
| FileSystem.LookupFollowsWalk | once-crunch/formats/NXPKFormatHandler.py:63 | a lookup that succeeds ends at the path lexical normalisation gives, and that path is present |
| FileSystem.PathExistsResolves | once-crunch/formats/NXPKFormatHandler.py:63 | whatever `os.path.exists` finds on a text is present at its `abspath` |
| FileSystem.PathExistsDirect | once-crunch/formats/NXPKFormatHandler.py:63 | for a direct name in a well-formed tree, `os.path.exists` on the text holds iff its `abspath` is present |
| FileSystem.TrailingSlashOverFile | once-crunch/formats/NXPKFormatHandler.py:63 | over a regular file `a`, the text `a/` resolves to `a` but `os.path.exists` does not find it |
| FileSystem.MakeDirsOutcome | once-crunch/formats/FormatHandler.py:66 | `makedirs(exist_ok=True)` (`MakeDirsSpec`) succeeds iff no prefix is a file; it then only adds directories, one per missing prefix. The error is FileExists for the path itself exactly when the path is a file with no file above it; otherwise NotADirectory, below the file in the way |
| FileSystem.MakeDirsWellFormed | once-crunch/formats/FormatHandler.py:66 | makedirs keeps the tree a tree |
| FileSystem.RemoveSubtreeWellFormed | once-crunch/formats/FormatHandler.py:61 | rmtree below the root keeps the tree a tree |
| FileSystem.RemoveWellFormed | once-crunch/formats/NXFNFormatHandler.py:26 | `os.remove` keeps the tree a tree |
| FileSystem.WriteWellFormed | once-crunch/formats/FormatHandler.py:67-68 | a write keeps the tree a tree |
| FileSystem.Disk.RemoveTree | once-crunch/formats/FormatHandler.py:61 | the new tree is the old one without the subtree |
| FileSystem.Disk.Remove | once-crunch/formats/NXFNFormatHandler.py:26 | applies `os.remove`'s effect, or fails with the tree unchanged |
| FileSystem.Disk.MakeDirs | once-crunch/formats/FormatHandler.py:66 | applies makedirs' effect, or fails with the tree unchanged |
| FileSystem.Disk.Write | once-crunch/formats/FormatHandler.py:67-68 | applies the write, or fails with the tree unchanged |
| Streams.ArchiveFile.Seek | once-crunch/formats/NXPKFormatHandler.py:70 | the position becomes the target |
| Streams.ArchiveFile.Read | once-crunch/formats/NXPKFormatHandler.py:71 | returns the bytes at the position (short at the end) and moves past them |
| FormatHandler.IsCompatible | once-crunch/formats/FormatHandler.py:38-41 | the answer is the signature test on the 4 bytes at the offset |
| FormatHandler.PlaceOutcome | once-crunch/formats/FormatHandler.py:66-68 | makedirs then write succeeds iff no ancestor is a file; `dest` then holds the data |
| FormatHandler.SaveSucceedsIff | once-crunch/formats/FormatHandler.py:57-68 | save succeeds iff `dest` is not the root, is absent or forced, and no existing ancestor is a file; so without force an existing file or directory always fails |
| FormatHandler.SaveEffect | once-crunch/formats/FormatHandler.py:59-68 | on success `dest` holds exactly the data; its ancestors are directories; every unrelated entry is unchanged; new entries are ancestors of `dest`; nothing lies below `dest` |
| FormatHandler.SavePreservesWellFormed | once-crunch/formats/FormatHandler.py:57-68 | a successful save keeps the tree a tree |
| FormatHandler.SaveWithoutForceExtends | once-crunch/formats/FormatHandler.py:59-68 | without force a successful save only adds entries, and `dest` exists afterwards |
| FormatHandler.SaveReplacesDirectory | once-crunch/formats/FormatHandler.py:59-61 | with force a directory at `dest` is replaced, subtree and all, by the file |
| FormatHandler.SaveOverRemovedFile | once-crunch/formats/FormatHandler.py:64-68 | with force, saving (`SaveSpec`) over a file just removed puts the new data in its place and changes nothing else |
| FormatHandler.SaveBinary | once-crunch/formats/FormatHandler.py:57-68 | the step-by-step isdir/rmtree/isfile/makedirs/write leaves exactly `SaveSpec`'s outcome; on error the tree is unchanged |
| FormatHandler.SaveJson | once-crunch/formats/FormatHandler.py:43-55 | the same policy as `SaveBinary`, applied to the serialised value |
| Nxfn.DecodeHeader | once-crunch/formats/NXFNFormatHandler.py:55 | every `<IIII` field fits in 32 bits |
| Nxfn.HeaderRoundTrip | once-crunch/formats/NXFNFormatHandler.py:55-61 | decoding an encoded header gives back every field |
| Nxfn.HeaderBytesRoundTrip | once-crunch/formats/NXFNFormatHandler.py:55 | encoding a decoded header gives back its 16 bytes |
| Nxfn.CheckSignature | once-crunch/formats/NXFNFormatHandler.py:17-18 | `startswith(b'NXFN')` holds iff there are at least 4 bytes and the little-endian magic field is 0x4E46584E |
| Nxfn.ExtractHeaderOutcome | once-crunch/formats/NXFNFormatHandler.py:49-61 | the header is read iff 16 bytes follow the offset, whatever they hold; it is their decoding; otherwise TruncatedHeader |
| Nxfn.DumpPolicy | once-crunch/formats/NXFNFormatHandler.py:24-31 | for `DumpSpec`: a dump text `os.path.exists` finds is left alone without force; with force a file is rewritten and a directory is an error; a dump it does not find is saved |
| Nxfn.DumpWithoutForceExtends | once-crunch/formats/NXFNFormatHandler.py:25-31 | without force a dump only adds, and the dump exists afterwards |
| Nxfn.DumpPreservesWellFormed | once-crunch/formats/NXFNFormatHandler.py:24-31 | a dump keeps the tree a tree |
| Nxfn.DumpOutcome | once-crunch/formats/NXFNFormatHandler.py:36-43 | after a dump the file exists; it holds the data if it was missing or forced, and is untouched otherwise |
| Nxfn.DumpLeavesOthers | once-crunch/formats/NXFNFormatHandler.py:36-43 | a dump changes nothing at a path neither above nor below it |
| Nxfn.DumpPathsDistinct | once-crunch/formats/NXFNFormatHandler.py:24-36 | both dumps are direct children of the destination |
| Nxfn.DumpNamesDirect | once-crunch/formats/NXFNFormatHandler.py:24-36 | `__nxfn_header.json` and `__nxfn_data.bin` are direct names, so `os.path.exists` agrees with `abspath` on them below a destination without `..` |
| Nxfn.DecodedNames | once-crunch/formats/NXFNFormatHandler.py:33-44 | the returned names joined by NUL are the `data_size` bytes after the header; no name has NUL; names = NULs + 1 |
| Nxfn.DataDumpHoldsBlob | once-crunch/formats/NXFNFormatHandler.py:33-43 | after decoding, `__nxfn_data.bin` exists and holds the raw blob when written, and is untouched otherwise |
| Nxfn.DecodeWithoutForceExtends | once-crunch/formats/NXFNFormatHandler.py:20-44 | without force decoding never changes or removes existing entries |
| Nxfn.DecodePreservesWellFormed | once-crunch/formats/NXFNFormatHandler.py:20-44 | decoding keeps the tree a tree |
| Nxfn.DecodeLeavesDumps | once-crunch/formats/NXFNFormatHandler.py:24-43 | after a successful decode both dumps exist |
| Nxfn.DecodeSkipsExistingDumps | once-crunch/formats/NXFNFormatHandler.py:24-44 | without force and when `os.path.exists` finds both dump texts, decoding only returns the names |
| Nxfn.DecodeRepeat | once-crunch/formats/NXFNFormatHandler.py:20-44 | without force and with a destination free of `..`, decoding again (`Nxfn.DecodeSpec`) over anything that kept the first result changes nothing and returns the same names |
| Nxfn.NxfnHandler.IsCompatible | once-crunch/formats/NXFNFormatHandler.py:63-66 | the answer is `check_signature` of the 4 bytes at the offset |
| Nxfn.NxfnHandler.ExtractHeader | once-crunch/formats/NXFNFormatHandler.py:49-61 | returns `ExtractHeaderSpec` of the file at the offset |
| Nxfn.NxfnHandler.Decode | once-crunch/formats/NXFNFormatHandler.py:20-44 | result and filesystem are `Nxfn.DecodeSpec`'s; `_header` is set when the header was read |
| Nxfn.NxfnHandler.DumpHeader | once-crunch/formats/NXFNFormatHandler.py:24-31 | the exists/remove/exists/`save_json` steps leave exactly `DumpSpec`'s outcome for the header; on error the tree is unchanged |
| Nxfn.NxfnHandler.DumpData | once-crunch/formats/NXFNFormatHandler.py:36-43 | the exists/remove/exists/`save_binary` steps leave exactly `DumpSpec`'s outcome for the blob; on error the tree is unchanged |
| Nxpk.DecodeHeader | once-crunch/formats/NXPKFormatHandler.py:116 | every `<IIHHBBHII` field fits its width |
| Nxpk.HeaderRoundTrip | once-crunch/formats/NXPKFormatHandler.py:116-127 | decoding an encoded header gives back all nine fields |
| Nxpk.HeaderBytesRoundTrip | once-crunch/formats/NXPKFormatHandler.py:116 | encoding a decoded header gives back its 24 bytes |
| Nxpk.CheckSignature | once-crunch/formats/NXPKFormatHandler.py:25-26 | `startswith(b'NXPK')` holds iff there are at least 4 bytes and the little-endian magic field is 0x4B50584E |
| Nxpk.ExtractHeaderOutcome | once-crunch/formats/NXPKFormatHandler.py:110-127 | the header is read iff 24 bytes follow the offset, whatever they hold; it is their decoding; otherwise TruncatedHeader |
| Nxpk.DecodeEntry | once-crunch/formats/NXPKFormatHandler.py:132 | every `<IIIIIIHH` field fits its width |
| Nxpk.EntryRoundTrip | once-crunch/formats/NXPKFormatHandler.py:132-142 | decoding an encoded record gives back all eight fields |
| Nxpk.EntryBytesRoundTrip | once-crunch/formats/NXPKFormatHandler.py:132 | encoding a decoded record gives back its 28 bytes |
| Nxpk.ReadEntrySpec | once-crunch/formats/NXPKFormatHandler.py:129-142 | a record is read iff 28 bytes follow its offset; otherwise TruncatedEntry with the offset and the number of bytes that were there |
| Nxpk.ReadTable | once-crunch/formats/NXPKFormatHandler.py:42-45 | a table that is read holds exactly `table_entry_count` records |
| Nxpk.TableLayout | once-crunch/formats/NXPKFormatHandler.py:42-45 | the table is read iff its last record fits; it then has `table_entry_count` records, record k decoded from the 28 bytes at `table_offset + 28k`; otherwise TruncatedEntry |
| Nxpk.TableErrorPersists | once-crunch/formats/NXPKFormatHandler.py:42-43 | the first record that cannot be unpacked decides the error |
| Nxpk.Indexed | once-crunch/formats/NXPKFormatHandler.py:44 | `entry_table` has keys exactly `0..n-1`, key k holding record k |
| Nxpk.IndexedSnoc | once-crunch/formats/NXPKFormatHandler.py:44-45 | recording one more entry adds one key |
| Nxpk.IndexedSize | once-crunch/formats/NXPKFormatHandler.py:49 | `len(entry_table)` is the number of records |
| Nxpk.Decompress | once-crunch/formats/NXPKFormatHandler.py:77-87 | code 0 gives the bytes unchanged; a code above 3 is UnsupportedCompression; a failure of codes 1-3 is CorruptStream for that code |
| Nxpk.Lz4WithinDeclaredSize | once-crunch/formats/NXPKFormatHandler.py:82-83 | an LZ4 entry decompresses to at most its `uncompressed_data_size` |
| Nxpk.ResolveName | once-crunch/formats/NXPKFormatHandler.py:50-53 | a name taken from the table has no backslash |
| Nxpk.ResolveNameOutcome | once-crunch/formats/NXPKFormatHandler.py:50-61 | with a table: resolves iff index in range and UTF-8; MissingName iff out of range; the name is the table's with `\`→`/`. Without one: resolves to the archive's directory plus the index |
| Nxpk.NamesGiveDirectPaths | once-crunch/formats/NXPKFormatHandler.py:53-61 | table names that are direct names, joined to a destination without `..`, give direct entry paths |
| Nxpk.InPlaceSkipped | once-crunch/formats/NXPKFormatHandler.py:61-63 | without force, an entry whose direct path is present is skipped by `os.path.exists` |
| Nxpk.SyntheticDestinationsDistinct | once-crunch/formats/NXPKFormatHandler.py:58-61 | synthetic destinations of distinct entries differ |
| Nxpk.SkipLeavesTree | once-crunch/formats/NXPKFormatHandler.py:63-66 | when `os.path.exists` finds the path text without force, `ExtractEntrySpec` succeeds with the filesystem unchanged, whatever the archive and codes hold |
| Nxpk.EncryptionCheckedFirst | once-crunch/formats/NXPKFormatHandler.py:72-77 | a nonzero encryption code fails with the tree unchanged, before any decompression |
| Nxpk.UnknownCompressionFails | once-crunch/formats/NXPKFormatHandler.py:86-87 | a compression code above 3 fails with the tree unchanged |
| Nxpk.EntrySaved | once-crunch/formats/NXPKFormatHandler.py:69-88 | an extracted entry that was not skipped was unencrypted; its destination holds the decompressed bytes; with code 0 exactly the bytes `read(data_size)` returns at `data_offset` |
| Nxpk.EntryOkResolves | once-crunch/formats/NXPKFormatHandler.py:50-61 | a successful entry had its name resolved |
| Nxpk.EntryPreservesWellFormed | once-crunch/formats/NXPKFormatHandler.py:49-88 | one entry keeps the tree a tree |
| Nxpk.EntryWithoutForceExtends | once-crunch/formats/NXPKFormatHandler.py:63-88 | without force an entry only adds, and on success its destination exists |
| Nxpk.ExtractFromResolvesAll | once-crunch/formats/NXPKFormatHandler.py:49-61 | a successful loop resolved every entry's name |
| Nxpk.ExtractFromResolves | once-crunch/formats/NXPKFormatHandler.py:49-61 | a successful loop (`ExtractFrom`) resolved the name of each entry it reached |
| Nxpk.UnresolvedNameStops | once-crunch/formats/NXPKFormatHandler.py:49-53 | a name that cannot be resolved (missing or not UTF-8) makes every pass that reaches it fail |
| Nxpk.ExtractFromPreservesWellFormed | once-crunch/formats/NXPKFormatHandler.py:49-88 | the loop keeps the tree a tree |
| Nxpk.ExtractFromWithoutForceExtends | once-crunch/formats/NXPKFormatHandler.py:49-88 | without force the loop never changes or removes existing entries |
| Nxpk.ExtractFromLeavesDestinations | once-crunch/formats/NXPKFormatHandler.py:49-88 | without force, after a successful loop (`ExtractFrom`) every entry's resolved destination is present |
| Nxpk.ExtractFromSkipsAll | once-crunch/formats/NXPKFormatHandler.py:63-66 | when `os.path.exists` finds every entry's path text without force, the loop changes nothing |
| Nxpk.ExtractFromRepeat | once-crunch/formats/NXPKFormatHandler.py:49-88 | without force and with direct entry paths, running the loop again over its own result succeeds and changes nothing |
| Nxpk.TrailingSeparatorRerunFails | once-crunch/formats/NXPKFormatHandler.py:53-63 | a table name `a\` is saved as the file `a` on the first run; without force the second run does not skip it and fails with FileExists |
| Nxpk.DecodeRequirements | once-crunch/formats/NXPKFormatHandler.py:31-53 | success needs the full header, the full table, 16 bytes after the table, and at least as many names as entries |
| Nxpk.DecodePreservesWellFormed | once-crunch/formats/NXPKFormatHandler.py:28-88 | a decode keeps the tree a tree, whatever its outcome |
| Nxpk.DecodeWithoutForceExtends | once-crunch/formats/NXPKFormatHandler.py:28-88 | without force a decode never changes or removes anything already on disk |
| Nxpk.ProbedPathsDirect | once-crunch/formats/NXPKFormatHandler.py:47-61 | with direct table names and a destination without `..`, every entry path of a successful decode is a direct name |
| Nxpk.DecodeIdempotent | once-crunch/formats/NXPKFormatHandler.py:28-88 | without force, with a destination free of `..` and direct table names, a second decode (`Nxpk.DecodeSpec`) over a successful first one returns the same result and changes nothing |
| Nxpk.NxpkHandler.IsCompatible | once-crunch/formats/FormatHandler.py:38-41 | the answer is `NXPK` signature test on the 4 bytes at the offset |
| Nxpk.NxpkHandler.ExtractHeader | once-crunch/formats/NXPKFormatHandler.py:110-127 | returns `ExtractHeaderSpec` of the file at the offset |
| Nxpk.NxpkHandler.ReadEntry | once-crunch/formats/NXPKFormatHandler.py:129-142 | returns `ReadEntrySpec` of the file at the entry offset |
| Nxpk.NxpkHandler.IndexEntries | once-crunch/formats/NXPKFormatHandler.py:39-46 | the `range(table_offset, table_offset + table_size, 28)` loop yields `Indexed` of the table, or the table's error |
| Nxpk.NxpkHandler.DecodeNxfn | once-crunch/formats/NXPKFormatHandler.py:106-108 | result and filesystem are the NXFN decode's at the given offset |
| Nxpk.NxpkHandler.ExtractAll | once-crunch/formats/NXPKFormatHandler.py:49-88 | the entry loop leaves exactly the result and filesystem `ExtractFrom` gives from the first entry |
| Nxpk.NxpkHandler.ExtractEntry | once-crunch/formats/NXPKFormatHandler.py:50-88 | result and filesystem are `ExtractEntrySpec`'s, with the skip decided by `os.path.exists` on the path text; a skipped entry leaves the file position unread |
| Nxpk.NxpkHandler.Decode | once-crunch/formats/NXPKFormatHandler.py:28-88 | result and filesystem are `Nxpk.DecodeSpec`'s; when the header was read, `_header` is set, `_table_entry_size` is 28 and `_table_size` is 28 times the entry count |

## Left out

- zlib, lz4.block and zstd are foreign libraries. They are abstract partial functions in `Codecs`; only the dispatch around them is modelled.
- UTF-8 decoding of names is an abstract test in `Codecs`. Paths stay byte strings after it.
- `json.dumps` of the NXFN header is an abstract serialiser. Only the write policy is modelled.
- The PVR to PNG conversion and recolouring after each entry (NXPKFormatHandler.py:89-103) run external tools, so they are left out. As written, `pvr2png` returns a single value where a pair is unpacked (imgtools.py:23).
- The CLI layers are not part of this model: unpack.py, `__main__.py`, logging and progress output.
- Stripping the directory from the archive's path (NXPKFormatHandler.py:29) is not modelled. The stripped name is an input.
- Checksums and CRCs are decoded but never verified, so nothing is stated about them.
- Paths are resolved lexically where the code calls `os.path.abspath`, and by lookup where it calls `os.path.exists`. Symlinks, permissions and I/O errors other than those the writers' policy raises are not modelled.
- FormatHandler.SaveSpec: saving to the filesystem root is modelled as an error with the tree unchanged. With `force`, the real `rmtree('/')` would delete entries before failing.
- Nxpk.Lz4WithinDeclaredSize: relies on the LZ4 library never returning more than the size it is given (`Lz4Bounded`). The model does not check this itself.
- Nxpk.DecodeIdempotent: holds only for a destination without `..` and table names that are direct names. For other names a second run can fail instead of skipping; `Nxpk.TrailingSeparatorRerunFails` shows one such name.
- Nxpk.ExtractFromRepeat: holds only when every entry path is a direct name, for the same reason.
- Nxfn.DecodeRepeat: holds only for a destination without `..`, for the same reason.
- Nxpk.ExtractFromLeavesDestinations: states that each resolved destination is present, not that a second run will skip it; `Nxpk.InPlaceSkipped` gives the skip for direct names.
