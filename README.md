# ViaBedrock core, modelled in Dafny

ViaBedrock lets a Minecraft Java Edition client join a Bedrock Edition
server. It translates packets both ways, re-encodes world data and converts
the server's resource packs into Java resource packs. This project models
the translation core and proves properties of the model:

- **Resource pack reception** (`ResourcePacks`, `PackPipeline`, `ContentStore`,
  `LangFile`, `Utf8`).
  - The pack arrives in fixed-size chunks, which are copied into a buffer
    while a bitmap records which have come. The last chunk triggers decoding.
  - Decoding runs a SHA-256 check, a zip read, stripping of a top-level
    directory, decryption of `contents.json` and of every keyed file, and
    the manifest checks.
  - The decoded files sit in a content store that reads and writes strings,
    lines and `.lang` tables.
- **Resource pack rewriting** (`PackRewriter`).
  - Bedrock glyph sheets become Java bitmap font providers.
  - UI textures become map item models with custom model data.
  - The Java `pack.mcmeta` is written last.
- **World packets** (`WorldRules`). The rules of the block-change,
  level-chunk, sub-chunk, sub-chunk-blocks, chunk-radius and set-time
  handlers:
  - layer checks;
  - block-to-section coordinates;
  - the packed 64-bit section key;
  - blob concatenation and blob counts;
  - the chunk request plan;
  - biome palette resolution;
  - grouping of block changes per section;
  - the time of day.
- **Entities** (`EntityModel`, `ClientPlayer`, `EntityUtil`).
  - An entity's state and its entity-data updates.
  - The client player's position, teleport confirmation and authoritative
    input.
  - The actor flag word.
- **Containers and forms** (`InventoryContainer`, `FormLayout`,
  `NewFormContainer`).
  - The player inventory's Java window layout and hotbar selection.
  - The chest-style container that shows a Bedrock form to the Java client:
    first-fit layout, paging, clicks and the single form response.
- **Utilities** (`StringUtil`, `BlobCache`): invisible strings carrying
  numbers, quoting of geometry names, identifier sanitising, and the
  in-memory blob cache.

`JavaLang`, `JavaStrings` and `Wrappers` hold Java's own semantics, stated
explicitly:

- 32- and 64-bit wrap-around;
- truncating `/` and `%`;
- arithmetic shifts;
- `System.arraycopy`;
- `String.split`, `trim`, `indexOf`, `replace` and `join`;
- `Option` and `Result` for `null` and for thrown exceptions.

`MathUtil` holds the `clamp` helper the source imports.

Libraries the core calls are parameters of the model, as values of function
type (`Codecs`): SHA-256, zip, AES/CFB8, Gson, ImageIO, `hashCode`, the item
mappings.

All source paths below are relative to `src/main/java/net/raphimc/viabedrock/`
of the repository; the table cites them in full.

## Model

| member | source | states |
|---|---|---|
| ResourcePacks.ChunkCount | src/main/java/net/raphimc/viabedrock/api/model/ResourcePack.java:179 | the chunk count is the least n with n chunks covering the length: `maxChunkSize * n >= length` and n - 1 chunks fall short |
| ResourcePacks.BitmapSize | src/main/java/net/raphimc/viabedrock/api/model/ResourcePack.java:179 | the bitmap length is the chunk count for a positive chunk size; for a zero or negative size the allocation succeeds (with length 0) exactly when the pack is empty or shorter than one chunk |
| ResourcePacks.BitmapCoversBuffer | src/main/java/net/raphimc/viabedrock/api/model/ResourcePack.java:179 | every bitmap entry stands for a chunk that starts inside the buffer, and the chunks together cover it |
| ResourcePacks.CountTrueFull | src/main/java/net/raphimc/viabedrock/api/model/ResourcePack.java:293-300 | the count of received chunks reaches the bitmap length exactly when every entry is set |
| ResourcePacks.CountTrueMark | src/main/java/net/raphimc/viabedrock/api/model/ResourcePack.java:102 | marking an unmarked chunk raises the received count by exactly one |
| ResourcePacks.ResourcePack.constructor | src/main/java/net/raphimc/viabedrock/api/model/ResourcePack.java:78-88 | once the buffer of `size` bytes is allocated: a zeroed buffer of that length, the given identity and content key, no chunk size, bitmap, content or hash |
| ResourcePacks.ResourcePack.Create | src/main/java/net/raphimc/viabedrock/api/model/ResourcePack.java:78-88 | `new byte[(int) compressedSize]` throws exactly when the 32-bit truncation of the long is negative; otherwise a fresh valid pack whose buffer has that many bytes |
| ResourcePacks.ResourcePack.SetHash | src/main/java/net/raphimc/viabedrock/api/model/ResourcePack.java:148-150 | sets the expected hash and nothing else |
| ResourcePacks.ResourcePack.SetContentKey | src/main/java/net/raphimc/viabedrock/api/model/ResourcePack.java:128-130 | sets the content key and nothing else |
| ResourcePacks.ResourcePack.SetCompressedDataLength | src/main/java/net/raphimc/viabedrock/api/model/ResourcePack.java:176-180 | a negative length throws before anything changes; otherwise a fresh zeroed buffer of exactly `length` bytes and the new chunk size, then either a fresh all-false bitmap of `BitmapSize` entries or, when that allocation throws, the old bitmap and an error |
| ResourcePacks.ResourcePack.HasReceivedAllChunks | src/main/java/net/raphimc/viabedrock/api/model/ResourcePack.java:293-300 | true iff every bitmap entry is set, iff the received count equals the bitmap length |
| ResourcePacks.ResourcePack.Content | src/main/java/net/raphimc/viabedrock/api/model/ResourcePack.java:182-188 | the store is returned exactly when the pack is decompressed (buffer dropped); otherwise the `IllegalStateException` case |
| ResourcePacks.ResourcePack.ProcessDataChunk | src/main/java/net/raphimc/viabedrock/api/model/ResourcePack.java:90-110 | an index outside the bitmap (or no bitmap) throws and changes nothing; a duplicate chunk or one ending past the buffer changes nothing and returns false; an end that wraps negative as a Java `int` passes the check and the copy fails; an accepted chunk is copied at `chunkIndex * maxChunkSize` and marked, and the chunk that completes the bitmap decodes the pack |
| ResourcePacks.ResourcePack.StoreChunk | src/main/java/net/raphimc/viabedrock/api/model/ResourcePack.java:101-102 | the buffer is overwritten at the offset with the chunk, only that bitmap entry changes, and the received count grows by one |
| ResourcePacks.ResourcePack.DecompressAndDecrypt | src/main/java/net/raphimc/viabedrock/api/model/ResourcePack.java:190-291 | result, warnings, whether the buffer is dropped and the new content all equal those of `PackPipeline.Decode` on the old buffer |
| ResourcePacks.ResourcePack.FinishDecoding | src/main/java/net/raphimc/viabedrock/api/model/ResourcePack.java:214-290 | the files, warnings and result after the zip loop are `PackPipeline.AfterExtraction` of the extracted files |
| ResourcePacks.ResourcePack.DecryptWithContentKey | src/main/java/net/raphimc/viabedrock/api/model/ResourcePack.java:221-268 | the files, warnings and result of the decryption stage are `PackPipeline.DecryptStage`, whose directory is read element by element |
| ResourcePacks.ResourcePack.CheckManifest | src/main/java/net/raphimc/viabedrock/api/model/ResourcePack.java:270-290 | the manifest checks return `PackPipeline.ManifestVerdict` |
| ResourcePacks.ResourcePack.PutEntries | src/main/java/net/raphimc/viabedrock/api/model/ResourcePack.java:205-211 | the zip loop leaves the store holding `ZipFiles(entries)` |
| ResourcePacks.ResourcePack.StripTopDirectory | src/main/java/net/raphimc/viabedrock/api/model/ResourcePack.java:214-219 | the strip loop leaves `StripAll` of the files in the given key order |
| ResourcePacks.ResourcePack.DecryptListed | src/main/java/net/raphimc/viabedrock/api/model/ResourcePack.java:247-267 | the directory loop's files, warnings and error are `DecryptAll` of the old files |
| ResourcePacks.ResourcePack.DecryptElement | src/main/java/net/raphimc/viabedrock/api/model/ResourcePack.java:248-266 | one directory element, well-formed or not: the new files, warnings and error are `DecryptEntry` of the old state |
| ResourcePacks.ChunkOffsetBound | src/main/java/net/raphimc/viabedrock/api/model/ResourcePack.java:96-97 | a chunk index inside the bitmap starts strictly inside the buffer |
| PackPipeline.ZipFilesNames | src/main/java/net/raphimc/viabedrock/api/model/ResourcePack.java:205-211 | a path is in the extracted map iff some zip entry has that name |
| PackPipeline.ZipFilesLastWins | src/main/java/net/raphimc/viabedrock/api/model/ResourcePack.java:209 | the bytes kept for a name are those of its last entry |
| PackPipeline.StripPath | src/main/java/net/raphimc/viabedrock/api/model/ResourcePack.java:216 | a path without '/' is kept; otherwise the result is the part after the first '/' |
| PackPipeline.MoveStep | src/main/java/net/raphimc/viabedrock/api/model/ResourcePack.java:217 | one `put(newPath, remove(path))` step carries the old bytes under the new name |
| PackPipeline.StripAllClean | src/main/java/net/raphimc/viabedrock/api/model/ResourcePack.java:214-219 | when no two paths strip alike and no stripped name is another path, every file is kept under its stripped name and nothing else appears |
| PackPipeline.TopLevelStrippedClean | src/main/java/net/raphimc/viabedrock/api/model/ResourcePack.java:214-219 | with a key order that lists each path once, as a `HashSet` does, and no root manifest, stripping keeps every file under its stripped name and adds nothing |
| PackPipeline.ContentIdBytes | src/main/java/net/raphimc/viabedrock/api/model/ResourcePack.java:225-239 | reading succeeds iff the magic at bytes 4..8 matches and the length-prefixed id at offset 16 fits; the id read is those bytes; a wrong magic is `MagicMismatch` |
| PackPipeline.Ciphertext | src/main/java/net/raphimc/viabedrock/api/model/ResourcePack.java:240-242 | the ciphertext is everything from offset 256; a shorter file fails |
| PackPipeline.ContentsFileRoundTrip | src/main/java/net/raphimc/viabedrock/api/model/ResourcePack.java:225-242 | a `contents.json` laid out with a version, the magic, an id and a ciphertext reads back that id and that ciphertext |
| PackPipeline.Iv | src/main/java/net/raphimc/viabedrock/api/model/ResourcePack.java:224 | the IV is the first 16 key bytes, zero-padded |
| PackPipeline.DecryptEntry | src/main/java/net/raphimc/viabedrock/api/model/ResourcePack.java:248-266 | one directory element never adds or drops a path |
| PackPipeline.DecryptAll | src/main/java/net/raphimc/viabedrock/api/model/ResourcePack.java:247-267 | the directory loop keeps the set of paths |
| PackPipeline.DecryptAllLeaves | src/main/java/net/raphimc/viabedrock/api/model/ResourcePack.java:252-261 | a file that no keyed element lists, or an exempt one (`manifest.json`, `pack_icon.png`, `README.txt`), is never changed |
| PackPipeline.DecryptAllOnce | src/main/java/net/raphimc/viabedrock/api/model/ResourcePack.java:263-266 | a file listed once with a key ends as the AES/CFB8 decryption of its own bytes under that key's ISO-8859-1 bytes and IV |
| PackPipeline.MissingPaths | src/main/java/net/raphimc/viabedrock/api/model/ResourcePack.java:252-255 | at most one warning per directory element |
| PackPipeline.DecryptAllWarnings | src/main/java/net/raphimc/viabedrock/api/model/ResourcePack.java:252-255 | the warnings of a completed loop are exactly the keyed elements whose path is missing, in order |
| PackPipeline.DecryptAllStops | src/main/java/net/raphimc/viabedrock/api/model/ResourcePack.java:265 | once a key is refused the loop changes nothing more |
| PackPipeline.DecryptAllMalformed | src/main/java/net/raphimc/viabedrock/api/model/ResourcePack.java:248-251 | an element that is not an object or whose key or path is not a string throws: the loop ends with the state reached before it and that failure |
| PackPipeline.ManifestVerdict | src/main/java/net/raphimc/viabedrock/api/model/ResourcePack.java:270-290 | accepted iff the manifest is readable, format version 1 or 2, its UUID parses to the pack id, and its components joined by '.' are the announced version (an empty list fails) |
| PackPipeline.AcceptedVersionSplits | src/main/java/net/raphimc/viabedrock/api/model/ResourcePack.java:281-289 | for an accepted manifest with dot-free components the announced version splits back into them |
| PackPipeline.JoinVersion | src/main/java/net/raphimc/viabedrock/api/model/ResourcePack.java:282-286 | the append-then-delete loop yields `Join(".", parts)`, and an empty list is an error |
| PackPipeline.ManifestOf | src/main/java/net/raphimc/viabedrock/api/model/ResourcePack.java:271 | a pack without `manifest.json` has no manifest |
| PackPipeline.DecryptStage | src/main/java/net/raphimc/viabedrock/api/model/ResourcePack.java:221-268 | no key: nothing happens; a key AES refuses: `InvalidKey` before anything changes; no `contents.json`: an error; success implies `contents.json` was present |
| PackPipeline.AfterExtraction | src/main/java/net/raphimc/viabedrock/api/model/ResourcePack.java:214-290 | with no content key and validation off nothing after the zip read can fail |
| PackPipeline.Decode | src/main/java/net/raphimc/viabedrock/api/model/ResourcePack.java:190-291 | a hash mismatch throws before anything is made; the pack counts as decompressed iff the hash matched and the zip read succeeded; a pack left compressed always reports an error |
| ContentStore.LangLines | src/main/java/net/raphimc/viabedrock/api/model/ResourcePack.java:348-351 | one `key=value` line per key, in the map's iteration order |
| ContentStore.Content.constructor | src/main/java/net/raphimc/viabedrock/api/model/ResourcePack.java:302-304 | an empty store with an empty lang cache |
| ContentStore.Content.Put | src/main/java/net/raphimc/viabedrock/api/model/ResourcePack.java:302 | `HashMap.put`: the file is replaced and the old bytes, if any, are returned; the cache is untouched |
| ContentStore.Content.Remove | src/main/java/net/raphimc/viabedrock/api/model/ResourcePack.java:302 | `HashMap.remove`: the file is dropped and the old bytes, if any, are returned |
| ContentStore.Content.GetString | src/main/java/net/raphimc/viabedrock/api/model/ResourcePack.java:306-313 | a string iff the file exists (`null` otherwise), no longer than its bytes |
| ContentStore.Content.GetLines | src/main/java/net/raphimc/viabedrock/api/model/ResourcePack.java:319-326 | lines iff the file exists; no line holds a newline; a text without newline is one line |
| ContentStore.Content.PutString | src/main/java/net/raphimc/viabedrock/api/model/ResourcePack.java:315-317 | stores the UTF-8 bytes, returns whether a file was replaced, and reads back as the same string |
| ContentStore.Content.PutLines | src/main/java/net/raphimc/viabedrock/api/model/ResourcePack.java:328-330 | stores the lines joined with the two-character text backslash-n; returns whether a file was replaced |
| ContentStore.Content.GetLang | src/main/java/net/raphimc/viabedrock/api/model/ResourcePack.java:332-343 | a cached table is returned unchanged; a missing file fails and caches nothing; otherwise parsing succeeds iff no line is malformed, a success is the parsed table and is cached, and a failure names the first malformed line and caches nothing |
| ContentStore.Content.PutLang | src/main/java/net/raphimc/viabedrock/api/model/ResourcePack.java:345-353 | caches the table as given and stores its `key=value` lines |
| ContentStore.PutLangThenGetLang | src/main/java/net/raphimc/viabedrock/api/model/ResourcePack.java:332-353 | `getLang` right after `putLang` returns the table that was put |
| ContentStore.LinesReadBackAsOne | src/main/java/net/raphimc/viabedrock/api/model/ResourcePack.java:319-330 | lines written by `putLines` read back by `getLines` as a single line (the separators differ) |
| ContentStore.TwoLinesDoNotRoundTrip | src/main/java/net/raphimc/viabedrock/api/model/ResourcePack.java:319-330 | `["a", "b"]` written and read back is not `["a", "b"]` |
| ContentStore.SingleEntryLangRoundTrip | src/main/java/net/raphimc/viabedrock/api/model/ResourcePack.java:332-353 | a one-entry table written by `putLang` and re-parsed from the file gives the table back |
| LangFile.StripComment | src/main/java/net/raphimc/viabedrock/api/model/ResourcePack.java:338 | the line is cut at its first `##`; the result has no `##` and is cut iff the line has one |
| LangFile.Candidate | src/main/java/net/raphimc/viabedrock/api/model/ResourcePack.java:336-337 | a line passes the filters iff it does not start with `##` and holds '=' |
| LangFile.EntryAsWritten | src/main/java/net/raphimc/viabedrock/api/model/ResourcePack.java:336-341 | a line fails exactly when it is malformed (its only '=' is inside the comment) |
| LangFile.Entry | src/main/java/net/raphimc/viabedrock/api/model/ResourcePack.java:336-341 | a line yields a pair iff it passes the filters and is not malformed; the key holds no '='; key, '=' and value rebuild the trimmed text |
| LangFile.EntryAgrees | src/main/java/net/raphimc/viabedrock/api/model/ResourcePack.java:336-341 | the source's per-line handling is the corrected one except on malformed lines |
| LangFile.CollectOrFailOk | src/main/java/net/raphimc/viabedrock/api/model/ResourcePack.java:341 | collecting stops at the first failure, and otherwise is the plain collection |
| LangFile.CollectOrFailFirst | src/main/java/net/raphimc/viabedrock/api/model/ResourcePack.java:341 | a failed collection fails with the error of its first failing line |
| LangFile.AsWrittenAgrees | src/main/java/net/raphimc/viabedrock/api/model/ResourcePack.java:332-343 | the source's `getLang` succeeds iff no line is malformed, and then equals the corrected parse |
| LangFile.AsWrittenFailsFirst | src/main/java/net/raphimc/viabedrock/api/model/ResourcePack.java:336-341 | the source's `getLang` throws on the first malformed line |
| LangFile.CommentedEqualsCrashes | src/main/java/net/raphimc/viabedrock/api/model/ResourcePack.java:338-341 | `title ## note=1` makes the source's `getLang` fail |
| MapBuilding.CollectKeys | src/main/java/net/raphimc/viabedrock/api/model/ResourcePack.java:341 | a key is collected iff some entry holds it |
| MapBuilding.CollectLastWins | src/main/java/net/raphimc/viabedrock/api/model/ResourcePack.java:341 | the merge `(o, n) -> n` keeps the value of the last entry for a key |
| LangFile.ParseLangKeys | src/main/java/net/raphimc/viabedrock/api/model/ResourcePack.java:332-343 | a key is in the table iff some line holds a pair for it |
| LangFile.ParseLangLastWins | src/main/java/net/raphimc/viabedrock/api/model/ResourcePack.java:332-343 | a key's value is the one of the last line holding it |
| LangFile.FormatLine | src/main/java/net/raphimc/viabedrock/api/model/ResourcePack.java:350 | the written line is the key, '=', then the value |
| LangFile.EntryFormatLine | src/main/java/net/raphimc/viabedrock/api/model/ResourcePack.java:336-350 | a written line reads back as its pair when the key has no '=', no `##` appears and the ends are not whitespace |
| StringUtil.ByteAt | src/main/java/net/raphimc/viabedrock/api/util/StringUtil.java:47-50 | the char stored at step k is the k-th lowest byte of the long, a value below 256 |
| StringUtil.EncodedLong | src/main/java/net/raphimc/viabedrock/api/util/StringUtil.java:44-55 | eight chars: four pairs of a section sign and a byte char, lowest byte first |
| StringUtil.EncodeLong | src/main/java/net/raphimc/viabedrock/api/util/StringUtil.java:44-55 | the two loops build exactly `EncodedLong(bits)` |
| StringUtil.EncodedUuid | src/main/java/net/raphimc/viabedrock/api/util/StringUtil.java:34-36 | 16 chars: the most significant half's encoding, then the least significant half's |
| StringUtil.EncodedLongCarriesLow32 | src/main/java/net/raphimc/viabedrock/api/util/StringUtil.java:44-55 | reading the eight chars back gives the low 32 bits of the long, and only those |
| StringUtil.EncodedUuidCarries | src/main/java/net/raphimc/viabedrock/api/util/StringUtil.java:34-36 | each half of a UUID's string carries the low 32 bits of that half |
| StringUtil.SafeChar | src/main/java/net/raphimc/viabedrock/api/util/StringUtil.java:57-60 | a sanitised char is never ':' and is either '_' or a valid value char |
| StringUtil.MakeIdentifierValueSafe | src/main/java/net/raphimc/viabedrock/api/util/StringUtil.java:57-60 | same length, no ':' left, each char sanitised in place |
| StringUtil.MakeIdentifierValueSafeIdempotent | src/main/java/net/raphimc/viabedrock/api/util/StringUtil.java:57-60 | sanitising twice is sanitising once |
| StringUtil.WordRun | src/main/java/net/raphimc/viabedrock/api/util/StringUtil.java:63 | the longest run of `\w` chars from a position |
| StringUtil.MatchAt | src/main/java/net/raphimc/viabedrock/api/util/StringUtil.java:63 | a match at a position ends after it, within the input |
| StringUtil.AddQuote | src/main/java/net/raphimc/viabedrock/api/util/StringUtil.java:62-74 | the matcher loop produces `QuoteFrom(input, 0)` |
| StringUtil.Unquote | src/main/java/net/raphimc/viabedrock/api/util/StringUtil.java:69 | removing quotes never lengthens a text |
| StringUtil.UnquoteAppend | src/main/java/net/raphimc/viabedrock/api/util/StringUtil.java:69 | removing quotes distributes over concatenation |
| StringUtil.QuoteFromUnquotes | src/main/java/net/raphimc/viabedrock/api/util/StringUtil.java:62-74 | on quote-free input, `addQuote` only inserts quotes: removing them gives the input back |
| StringUtil.QuoteFromNoMatch | src/main/java/net/raphimc/viabedrock/api/util/StringUtil.java:62-74 | input with no match comes back unchanged |
| StringUtil.QuoteFromMatched | src/main/java/net/raphimc/viabedrock/api/util/StringUtil.java:67-70 | a match is copied between single quotes and scanning resumes at its end |
| StringUtil.QuoteFromUnmatched | src/main/java/net/raphimc/viabedrock/api/util/StringUtil.java:67-72 | a position without a match is copied as is |
| StringUtil.GeometryTokenMatches | src/main/java/net/raphimc/viabedrock/api/util/StringUtil.java:63 | in `a geometry.cube` the pattern matches at 2 up to 15 and not at 0 or 1 |
| StringUtil.QuotesGeometryToken | src/main/java/net/raphimc/viabedrock/api/util/StringUtil.java:62-74 | `a geometry.cube` becomes `a 'geometry.cube'` |
| EntityUtil.Index | src/main/java/net/raphimc/viabedrock/api/util/EntityUtil.java:31 | `i & 0x3f` is below 64 |
| EntityUtil.IndexIdentity | src/main/java/net/raphimc/viabedrock/api/util/EntityUtil.java:30-31 | over the loop range the mask is the identity |
| EntityUtil.FlagsBelowMember | src/main/java/net/raphimc/viabedrock/api/util/EntityUtil.java:30-37 | a flag is found among the first n positions iff its bit is set and the table maps that position to it |
| EntityUtil.ActorFlagsMember | src/main/java/net/raphimc/viabedrock/api/util/EntityUtil.java:27-40 | a flag is in the result iff some set bit maps to it |
| EntityUtil.ActorFlagsZero | src/main/java/net/raphimc/viabedrock/api/util/EntityUtil.java:27-40 | a zero word carries no flag |
| EntityUtil.ActorFlagsMonotone | src/main/java/net/raphimc/viabedrock/api/util/EntityUtil.java:27-40 | more bits set carry at least the same flags |
| EntityUtil.GetActorFlags | src/main/java/net/raphimc/viabedrock/api/util/EntityUtil.java:27-40 | the 64-step loop returns `ActorFlags(value)` |
| BlobCache.ReplayKeys | src/main/java/net/raphimc/viabedrock/protocol/providers/impl/InMemoryBlobCacheProvider.java:27-32 | a hash is in the table iff some addition used it |
| BlobCache.ReplayLastWins | src/main/java/net/raphimc/viabedrock/protocol/providers/impl/InMemoryBlobCacheProvider.java:30-32 | the table keeps the last blob added under each hash |
| BlobCache.InMemoryBlobCache.constructor | src/main/java/net/raphimc/viabedrock/protocol/providers/impl/InMemoryBlobCacheProvider.java:27 | the cache starts empty |
| BlobCache.InMemoryBlobCache.AddBlob | src/main/java/net/raphimc/viabedrock/protocol/providers/impl/InMemoryBlobCacheProvider.java:29-32 | stores the blob, returns the blob it replaced (`null` for a new hash), and leaves every other hash alone |
| BlobCache.InMemoryBlobCache.HasBlob | src/main/java/net/raphimc/viabedrock/protocol/providers/impl/InMemoryBlobCacheProvider.java:34-37 | true iff `getBlob` finds a blob |
| BlobCache.InMemoryBlobCache.GetBlob | src/main/java/net/raphimc/viabedrock/protocol/providers/impl/InMemoryBlobCacheProvider.java:39-42 | the stored blob, or `null` when none is stored |
| BlobCache.HasBlobIffAdded | src/main/java/net/raphimc/viabedrock/protocol/providers/impl/InMemoryBlobCacheProvider.java:29-37 | `hasBlob(h)` holds iff some `addBlob(h, _)` happened |
| BlobCache.GetBlobIsLastAdded | src/main/java/net/raphimc/viabedrock/protocol/providers/impl/InMemoryBlobCacheProvider.java:29-42 | `getBlob(h)` is the blob of the last `addBlob(h, _)` |
| InventoryContainer.JavaSlot | src/main/java/net/raphimc/viabedrock/api/model/container/player/InventoryContainer.java:83-90 | slots below 9 map to Java slots 36 + slot; the rest go to the base container |
| InventoryContainer.JavaLayout | src/main/java/net/raphimc/viabedrock/api/model/container/player/InventoryContainer.java:53-70 | the Java window has 46 slots |
| InventoryContainer.JavaLayoutSlots | src/main/java/net/raphimc/viabedrock/api/model/container/player/InventoryContainer.java:53-70 | slot 0 empty, 1..4 the HUD's 28..31, 5..8 armor, 9..35 main inventory, 36..44 hotbar, 45 offhand |
| InventoryContainer.JavaSlotMatchesLayout | src/main/java/net/raphimc/viabedrock/api/model/container/player/InventoryContainer.java:53-90 | `javaSlot` of a hotbar slot points at that item in the Java window |
| InventoryContainer.GetJavaItems | src/main/java/net/raphimc/viabedrock/api/model/container/player/InventoryContainer.java:53-70 | the array copies and the HUD loop produce `JavaLayout` |
| InventoryContainer.ResizedShape | src/main/java/net/raphimc/viabedrock/api/model/container/player/InventoryContainer.java:72-81 | the array passed on has the container size, keeps the leading items and pads with empties |
| InventoryContainer.SetItems | src/main/java/net/raphimc/viabedrock/api/model/container/player/InventoryContainer.java:72-81 | passes `Resized(items)`: the items themselves when the count is right |
| InventoryContainer.SelectionPackets | src/main/java/net/raphimc/viabedrock/api/model/container/player/InventoryContainer.java:120-134 | an interact packet iff the held item changed, then a mob-equipment packet with the new item and the selected slot twice |
| InventoryContainer.Inventory.constructor | src/main/java/net/raphimc/viabedrock/api/model/container/player/InventoryContainer.java:42-46 | 36 empty slots, slot 0 selected |
| InventoryContainer.Inventory.GetItem | src/main/java/net/raphimc/viabedrock/api/model/container/player/InventoryContainer.java:104-105 | the item in the slot |
| InventoryContainer.Inventory.SetSelectedHotbarSlot | src/main/java/net/raphimc/viabedrock/api/model/container/player/InventoryContainer.java:103-108 | selects the slot, keeps the items, and emits the packets for the old and new held item |
| InventoryContainer.Inventory.OnSlotChanged | src/main/java/net/raphimc/viabedrock/api/model/container/player/InventoryContainer.java:110-118 | only a change to the selected slot emits packets |
| EntityModel.AppliedKeys | src/main/java/net/raphimc/viabedrock/api/model/entity/Entity.java:91-104 | after an update an id is in the map iff it was before or some entry with a known id carries it |
| EntityModel.AppliedLastWins | src/main/java/net/raphimc/viabedrock/api/model/entity/Entity.java:92-98 | the last entry carrying an id is the one stored under it |
| EntityModel.AppliedUntouched | src/main/java/net/raphimc/viabedrock/api/model/entity/Entity.java:92-98 | an id no entry carries keeps its old entry, or stays absent |
| EntityModel.Entity.constructor | src/main/java/net/raphimc/viabedrock/api/model/entity/Entity.java:48-66 | the ids as given; no position, zero rotation, not on ground, empty entity data, no name, age 0, no boss bar |
| EntityModel.Entity.Tick | src/main/java/net/raphimc/viabedrock/api/model/entity/Entity.java:68-70 | the age grows by one in 32-bit arithmetic, so `Integer.MAX_VALUE` wraps to `Integer.MIN_VALUE` |
| EntityModel.Entity.Remove | src/main/java/net/raphimc/viabedrock/api/model/entity/Entity.java:72-80 | the boss bar flag is cleared and a boss-bar removal is sent iff there was one |
| EntityModel.Entity.UpdateEntityData | src/main/java/net/raphimc/viabedrock/api/model/entity/Entity.java:91-104 | the map becomes `Applied` of the entries; the ids reported unknown are exactly the entries' ids with no `ActorDataIDs` value |
| EntityModel.Entity.SetPosition | src/main/java/net/raphimc/viabedrock/api/model/entity/Entity.java:134-136 | sets the position |
| EntityModel.Entity.SetRotation | src/main/java/net/raphimc/viabedrock/api/model/entity/Entity.java:142-144 | sets the rotation |
| EntityModel.Entity.SetOnGround | src/main/java/net/raphimc/viabedrock/api/model/entity/Entity.java:150-152 | sets the on-ground flag |
| EntityModel.Entity.SetName | src/main/java/net/raphimc/viabedrock/api/model/entity/Entity.java:162-164 | sets the name |
| EntityModel.Entity.SetHasBossBar | src/main/java/net/raphimc/viabedrock/api/model/entity/Entity.java:174-176 | sets the boss-bar flag |
| EntityModel.RemoveTwice | src/main/java/net/raphimc/viabedrock/api/model/entity/Entity.java:72-80 | a second `remove` sends nothing |
| ClientPlayer.TeleportId | src/main/java/net/raphimc/viabedrock/api/model/entity/ClientPlayerEntity.java:127 | the n-th id handed out is n + 1 until the counter wraps |
| ClientPlayer.TeleportIdsIncrease | src/main/java/net/raphimc/viabedrock/api/model/entity/ClientPlayerEntity.java:127 | before the wrap every id is positive and later ids are larger |
| ClientPlayer.TeleportIdWraps | src/main/java/net/raphimc/viabedrock/api/model/entity/ClientPlayerEntity.java:127 | the id after `Integer.MAX_VALUE` is `Integer.MIN_VALUE` |
| ClientPlayer.DiffersIffChanged | src/main/java/net/raphimc/viabedrock/api/model/entity/ClientPlayerEntity.java:508-516 | the last check of `preMove` holds iff applying the move changes position, rotation or on-ground flag |
| ClientPlayer.AuthFlags | src/main/java/net/raphimc/viabedrock/api/model/entity/ClientPlayerEntity.java:164-177 | the sent flags include the queued ones, the movement ones and `BlockBreakingDelayEnabled`; `Sneaking` and `Sprinting` are set iff queued or the player sneaks or sprints |
| ClientPlayer.ClientPlayerEntity.constructor | src/main/java/net/raphimc/viabedrock/api/model/entity/ClientPlayerEntity.java:48-81 | the teleport counter starts at 1 with nothing pending, nothing spawned or waiting, and no queued input |
| ClientPlayer.ClientPlayerEntity.WritePlayerPosition | src/main/java/net/raphimc/viabedrock/api/model/entity/ClientPlayerEntity.java:126-136 | the next id becomes pending and is written negated for a fake teleport, in 32-bit arithmetic |
| ClientPlayer.ClientPlayerEntity.SendPlayerPosition | src/main/java/net/raphimc/viabedrock/api/model/entity/ClientPlayerEntity.java:120-124 | a fake teleport: the next id becomes pending and the packet carries its negation |
| ClientPlayer.ClientPlayerEntity.ConfirmTeleport | src/main/java/net/raphimc/viabedrock/api/model/entity/ClientPlayerEntity.java:289-304 | a negative id clears the pending id iff it is the pending id negated; a non-negative id sends a handled-teleport action or queues the `HandledTeleport` flag, depending on the movement mode |
| ClientPlayer.PreMoveStep | src/main/java/net/raphimc/viabedrock/api/model/entity/ClientPlayerEntity.java:465-517 | a move that passes sends nothing and starts no wait; a wait starts only with a position packet that keeps the rotation; while a wait is on nothing is sent |
| ClientPlayer.PreMoveStepBranches | src/main/java/net/raphimc/viabedrock/api/model/entity/ClientPlayerEntity.java:465-517 | the decision of `preMove` branch by branch: a move passes iff no sync is pending, no unloaded section is involved, the player is spawned and the move changes the state; each other branch sets the sync flags and sends back the position as the source does |
| ClientPlayer.ClientPlayerEntity.PreMove | src/main/java/net/raphimc/viabedrock/api/model/entity/ClientPlayerEntity.java:465-517 | every branch, with its sync flags, the position packet it sends back and the teleport id that packet takes: waiting for sync (cleared by a full move once nothing is pending), in an unloaded chunk, leaving one, moving into one, not spawned or changing dimension (the position is sent back whenever it would change); a move passes iff none of those applies and it changes the state, and then nothing is sent |
| ClientPlayer.ClientPlayerEntity.UpdatePlayerPosition | src/main/java/net/raphimc/viabedrock/api/model/entity/ClientPlayerEntity.java:210-287 | a move that `preMove` refuses is cancelled and leaves the sync flags, the position packet and the teleport id as `preMove` does; an accepted one updates the position, rotation and on-ground flag given, sends a start-jump action when the jump test says so, and is forwarded only in client-authoritative mode; the other fields are kept |
| ClientPlayer.ClientPlayerEntity.SetPosition | src/main/java/net/raphimc/viabedrock/api/model/entity/ClientPlayerEntity.java:314-318 | a teleport sets the position and forgets the previous position |
| ClientPlayer.ClientPlayerEntity.SendPlayerAuthInput | src/main/java/net/raphimc/viabedrock/api/model/entity/ClientPlayerEntity.java:154-198 | the packet carries `AuthFlags` and the age; afterwards the queue is empty and the previous position is the current one |
| ClientPlayer.ClientPlayerEntity.Tick | src/main/java/net/raphimc/viabedrock/api/model/entity/ClientPlayerEntity.java:84-90 | the age grows by one, and an auth input is sent iff the mode is not client-authoritative, the player has spawned and is alive |
| ClientPlayer.ClientPlayerEntity.SetInitiallySpawned | src/main/java/net/raphimc/viabedrock/api/model/entity/ClientPlayerEntity.java:362-364 | marks the player spawned |
| ClientPlayer.ClientPlayerEntity.SetChangingDimension | src/main/java/net/raphimc/viabedrock/api/model/entity/ClientPlayerEntity.java:370-372 | sets the dimension-change flag |
| ClientPlayer.ClientPlayerEntity.SetSneaking | src/main/java/net/raphimc/viabedrock/api/model/entity/ClientPlayerEntity.java:378-380 | sets the sneaking flag |
| ClientPlayer.ClientPlayerEntity.SetSprinting | src/main/java/net/raphimc/viabedrock/api/model/entity/ClientPlayerEntity.java:386-388 | sets the sprinting flag |
| ClientPlayer.ClientPlayerEntity.AddAuthInputData | src/main/java/net/raphimc/viabedrock/api/model/entity/ClientPlayerEntity.java:306-312 | adds the flags to the queue |
| ClientPlayer.SyncRoundTrip | src/main/java/net/raphimc/viabedrock/api/model/entity/ClientPlayerEntity.java:120-136 | confirming the id a fake teleport sent clears the pending id, while the counter has not wrapped |
| FormLayout.FitFromSpec | src/main/java/net/raphimc/viabedrock/api/model/container/fake/NewFormContainer.java:391-412 | the scan from a position finds a free in-bounds rectangle and none earlier in row-major order |
| FormLayout.FirstFitSpec | src/main/java/net/raphimc/viabedrock/api/model/container/fake/NewFormContainer.java:386-412 | `findBestSlot`'s scan yields the first free rectangle in row-major order, or none when no rectangle fits |
| FormLayout.FirstFitEmptyPage | src/main/java/net/raphimc/viabedrock/api/model/container/fake/NewFormContainer.java:386-412 | an empty page takes any rectangle that fits the grid at its top left corner |
| FormLayout.RowCells | src/main/java/net/raphimc/viabedrock/api/model/container/fake/NewFormContainer.java:419-424 | one row of a rectangle lists the slots `y * 9 + x` left to right |
| FormLayout.CellsMember | src/main/java/net/raphimc/viabedrock/api/model/container/fake/NewFormContainer.java:418-428 | a slot is in a rectangle's list iff it is the slot of one of its cells |
| FormLayout.CellsContain | src/main/java/net/raphimc/viabedrock/api/model/container/fake/NewFormContainer.java:418-428 | each cell of a rectangle is in its list |
| FormLayout.Entry | src/main/java/net/raphimc/viabedrock/api/model/container/fake/NewFormContainer.java:415-430 | an item-map entry is the page the item was placed on, then its slots |
| FormLayout.EntryAsWritten | src/main/java/net/raphimc/viabedrock/api/model/container/fake/NewFormContainer.java:415-416 | the entry as written starts with `totalPage` |
| FormLayout.Lookup | src/main/java/net/raphimc/viabedrock/api/model/container/fake/NewFormContainer.java:103-122 | the first entry on the current page whose slots hold the clicked slot, or -1 |
| FormLayout.LookupAsWritten | src/main/java/net/raphimc/viabedrock/api/model/container/fake/NewFormContainer.java:103-122 | the loop as written also matches when the clicked slot equals the page number |
| FormLayout.LookupsAgree | src/main/java/net/raphimc/viabedrock/api/model/container/fake/NewFormContainer.java:103-122 | the two lookups agree whenever the slot differs from the page number |
| FormLayout.LookupAsWrittenHitsPageNumber | src/main/java/net/raphimc/viabedrock/api/model/container/fake/NewFormContainer.java:103-122 | slot 3 on page 3 finds the entry not covering slot 3 |
| FormLayout.EntryHits | src/main/java/net/raphimc/viabedrock/api/model/container/fake/NewFormContainer.java:415-430 | a click on a placed cell hits the item's entry |
| FormLayout.LookupAppended | src/main/java/net/raphimc/viabedrock/api/model/container/fake/NewFormContainer.java:103-122 | an entry appended after entries the click misses is the one found |
| FormLayout.ClickFindsPlacedItem | src/main/java/net/raphimc/viabedrock/api/model/container/fake/NewFormContainer.java:103-122 | a placed item is found by a click on any of its cells on its page |
| FormLayout.EntryAsWrittenUnreachable | src/main/java/net/raphimc/viabedrock/api/model/container/fake/NewFormContainer.java:415-416 | an item placed on page 0 while a later page exists cannot be clicked as written, and can with the page recorded |
| FormLayout.ShapeName | src/main/java/net/raphimc/viabedrock/api/model/container/fake/NewFormContainer.java:452-484 | the texture name of a cell, measured from the rectangle's own top left cell |
| FormLayout.ShapeNamesOfTile | src/main/java/net/raphimc/viabedrock/api/model/container/fake/NewFormContainer.java:452-484 | the nine cells of a 3x3 tile get the nine edge and corner names, wherever the tile sits |
| FormLayout.ShapeNamesOfButton | src/main/java/net/raphimc/viabedrock/api/model/container/fake/NewFormContainer.java:452-484 | a one-row button starts with `start_button`, ends with `end_button` and is `middle_button` between |
| FormLayout.IdentifierBasedSlotMisnamesShiftedTile | src/main/java/net/raphimc/viabedrock/api/model/container/fake/NewFormContainer.java:452-484 | as written, the top left cell of a tile at column 3 is named `upper_slot` instead of `upper_left_slot` |
| FormLayout.ShapeNameAtOrigin | src/main/java/net/raphimc/viabedrock/api/model/container/fake/NewFormContainer.java:452-484 | at the grid's top left corner both namings agree |
| MathUtil.Clamp | src/main/java/net/raphimc/viabedrock/api/model/container/fake/NewFormContainer.java:153 | the result lies in the range when the range is non-empty, is the value when the value is in it, and is the minimum below it |
| FormLayout.CycleSelection | src/main/java/net/raphimc/viabedrock/api/model/container/fake/NewFormContainer.java:150-179 | only buttons 0 and 1 change a dropdown or step slider, and the new selection is a valid option |
| FormLayout.CycleSelectionSteps | src/main/java/net/raphimc/viabedrock/api/model/container/fake/NewFormContainer.java:150-179 | on a valid selection button 0 moves forward and button 1 back, wrapping; an unset selection goes to option 0 |
| FormLayout.CycleSelectionInverse | src/main/java/net/raphimc/viabedrock/api/model/container/fake/NewFormContainer.java:150-179 | forward then back returns to the selection |
| FormLayout.PageView | src/main/java/net/raphimc/viabedrock/api/model/container/fake/NewFormContainer.java:312-332 | a page shows 54 slots |
| FormLayout.PageViewSlots | src/main/java/net/raphimc/viabedrock/api/model/container/fake/NewFormContainer.java:312-332 | "Last Page" iff a page before exists, "Next Page" iff a page after exists, "Submit" on custom forms, the grid cells elsewhere |
| FormLayout.Retry | src/main/java/net/raphimc/viabedrock/api/model/container/fake/NewFormContainer.java:443-445 | a retry on a fresh page carries the same request |
| FormLayout.RetryAsWritten | src/main/java/net/raphimc/viabedrock/api/model/container/fake/NewFormContainer.java:381-383 | the retry as written keeps name and size but drops the image path and description |
| FormLayout.RetryAsWrittenDropsImage | src/main/java/net/raphimc/viabedrock/api/model/container/fake/NewFormContainer.java:443-445 | a request with an image is changed by the retry as written |
| FormLayout.Utf16Length | src/main/java/net/raphimc/viabedrock/api/model/container/fake/NewFormContainer.java:214 | `String.length()` counts between one and two code units per character |
| FormLayout.TextRequests | src/main/java/net/raphimc/viabedrock/api/model/container/fake/NewFormContainer.java:213-216 | a non-blank text gives one block nine wide and 1 to 4 rows high |
| FormLayout.ModalRequestsAsWrittenHideButton2 | src/main/java/net/raphimc/viabedrock/api/model/container/fake/NewFormContainer.java:212-219 | as written the second button is never laid out; the intended requests include it |
| FormLayout.ModalRequests | src/main/java/net/raphimc/viabedrock/api/model/container/fake/NewFormContainer.java:212-219 | a modal form lays out its text, then one row for the first button and one for the second |
| FormLayout.ButtonRequest | src/main/java/net/raphimc/viabedrock/api/model/container/fake/NewFormContainer.java:226-237 | a `grid_tile` or `big_button` label is a 3x3 tile with its image; any other button is a 9x1 row without image |
| FormLayout.OptionLines | src/main/java/net/raphimc/viabedrock/api/model/container/fake/NewFormContainer.java:253-260 | one lore line per option |
| FormLayout.ElementRequest | src/main/java/net/raphimc/viabedrock/api/model/container/fake/NewFormContainer.java:240-300 | every element is one row high without image, three wide for a checkbox and nine otherwise |
| FormLayout.Requests | src/main/java/net/raphimc/viabedrock/api/model/container/fake/NewFormContainer.java:208-307 | one request per custom-form element; every request fits the grid |
| FormLayout.ClickElement | src/main/java/net/raphimc/viabedrock/api/model/container/fake/NewFormContainer.java:143-199 | a checkbox toggles on button 0 only; dropdowns and sliders react to buttons 0 and 1; labels and text fields are unchanged |
| FormLayout.CheckboxToggleTwice | src/main/java/net/raphimc/viabedrock/api/model/container/fake/NewFormContainer.java:146-149 | two left clicks restore a checkbox |
| FormLayout.DropdownForwardBack | src/main/java/net/raphimc/viabedrock/api/model/container/fake/NewFormContainer.java:150-161 | a dropdown clicked forward then back is unchanged |
| NewFormContainer.ResponsesSnoc | src/main/java/net/raphimc/viabedrock/api/model/container/fake/NewFormContainer.java:491-506 | an event adds one to the response count iff it is a response |
| NewFormContainer.PlacedCell | src/main/java/net/raphimc/viabedrock/api/model/container/fake/NewFormContainer.java:418-441 | a placed cell holds a frame or the image icon, with the request's name and description |
| NewFormContainer.FormContainer.PageOf | src/main/java/net/raphimc/viabedrock/api/model/container/fake/NewFormContainer.java:62 | a page of the three-dimensional grid read as rows of columns |
| NewFormContainer.FormContainer.Init | src/main/java/net/raphimc/viabedrock/api/model/container/fake/NewFormContainer.java:55-73 | an empty grid of 256 pages, an empty item map, page 0 of 0, no response sent |
| NewFormContainer.FormContainer.SpaceAvailable | src/main/java/net/raphimc/viabedrock/api/model/container/fake/NewFormContainer.java:393-402 | the inner loops decide `Free` of the rectangle |
| NewFormContainer.FormContainer.ScanPage | src/main/java/net/raphimc/viabedrock/api/model/container/fake/NewFormContainer.java:387-412 | the outer loops find `FirstFit` |
| NewFormContainer.FormContainer.FillFrames | src/main/java/net/raphimc/viabedrock/api/model/container/fake/NewFormContainer.java:418-428 | the frame loops return the rectangle's slots and fill exactly its cells |
| NewFormContainer.FormContainer.FindBestSlot | src/main/java/net/raphimc/viabedrock/api/model/container/fake/NewFormContainer.java:386-449 | the item lands at the first fit of the page, or on a newly opened page when none fits there; the item map gains its entry and only its cells change |
| NewFormContainer.FormContainer.Place | src/main/java/net/raphimc/viabedrock/api/model/container/fake/NewFormContainer.java:414-448 | the entry is appended; an image is put at the centre; an image path with no last segment fails |
| NewFormContainer.FormContainer.UpdatePage | src/main/java/net/raphimc/viabedrock/api/model/container/fake/NewFormContainer.java:312-332 | the shown items are `PageView` of the current page |
| NewFormContainer.FormContainer.UpdateFormItems | src/main/java/net/raphimc/viabedrock/api/model/container/fake/NewFormContainer.java:208-310 | one item-map entry per request of the form, and the shown items are the current page's view |
| NewFormContainer.FormContainer.SendModalFormResponse | src/main/java/net/raphimc/viabedrock/api/model/container/fake/NewFormContainer.java:491-506 | the response is sent only if none was sent before |
| NewFormContainer.FormContainer.Close | src/main/java/net/raphimc/viabedrock/api/model/container/fake/NewFormContainer.java:75-79 | a response that the form was answered (if none yet), then the base close |
| NewFormContainer.FormContainer.OnClosed | src/main/java/net/raphimc/viabedrock/api/model/container/fake/NewFormContainer.java:486-489 | a response that the user closed the form, if none yet |
| NewFormContainer.FormContainer.HandleClick | src/main/java/net/raphimc/viabedrock/api/model/container/fake/NewFormContainer.java:81-206 | non-pickup clicks change nothing; the navigation slots change page; submit closes a custom form; a click found by `Lookup` closes an action form, updates a custom element, or picks a modal button by row |
| NewFormContainer.FormContainer.ClickItem | src/main/java/net/raphimc/viabedrock/api/model/container/fake/NewFormContainer.java:98-206 | a click that is not a control click: no item under the slot changes nothing; otherwise the action form closes with that button, a custom element is clicked, or a modal button is picked by row |
| NewFormContainer.FormContainer.ClickModal | src/main/java/net/raphimc/viabedrock/api/model/container/fake/NewFormContainer.java:127-137 | row 0 picks button 0, row 1 button 1, and either closes the form |
| NewFormContainer.FormContainer.ClickCustom | src/main/java/net/raphimc/viabedrock/api/model/container/fake/NewFormContainer.java:142-202 | an index past the elements returns false; an index equal to their count fails; otherwise the element becomes `ClickElement` of it, and a text field opens the editor |
| NewFormContainer.FormContainer.FindClicked | src/main/java/net/raphimc/viabedrock/api/model/container/fake/NewFormContainer.java:98-122 | the item-map loop returns `Lookup` |
| NewFormContainer.Open | src/main/java/net/raphimc/viabedrock/api/model/container/fake/NewFormContainer.java:66-73 | a fresh container on page 0 with one item-map entry per request |
| NewFormContainer.AtMostOneResponse | src/main/java/net/raphimc/viabedrock/api/model/container/fake/NewFormContainer.java:491-506 | a container sends at most one form response |
| WorldRules.BlockChange | src/main/java/net/raphimc/viabedrock/protocol/packets/WorldPackets.java:74-98 | a layer other than 0 or 1 cancels the packet; otherwise it is cancelled exactly when the tracker's remapping gives nothing |
| WorldRules.BlockChangeAccepted | src/main/java/net/raphimc/viabedrock/protocol/packets/WorldPackets.java:74-98 | a change that is not cancelled came from layer 0 or 1 and carries the remapped block state |
| WorldRules.SplitCoordinate | src/main/java/net/raphimc/viabedrock/protocol/packets/WorldPackets.java:388-389 | the section coordinate (arithmetic shift by 4) and the relative one (low four bits) recompose the block coordinate, with the relative one in 0..15 |
| WorldRules.SplitCoordinateUnique | src/main/java/net/raphimc/viabedrock/protocol/packets/WorldPackets.java:388-389 | the split is the only section and relative pair that recomposes the coordinate |
| WorldRules.SectionKeyFields | src/main/java/net/raphimc/viabedrock/protocol/packets/WorldPackets.java:397-399 | the packed section key holds x's low 22 bits at bit 42, z's low 22 bits at bit 20, y's low 12 bits at bit 0, and zeros between |
| WorldRules.SectionKeyRoundTrip | src/main/java/net/raphimc/viabedrock/protocol/packets/WorldPackets.java:397-399 | sign-extending readers recover x, y and z from the key for every coordinate in the packed ranges |
| WorldRules.CombineChunkData | src/main/java/net/raphimc/viabedrock/protocol/packets/WorldPackets.java:264-267 | the combined array is the blob followed by the packet data |
| WorldRules.CombineSubChunkData | src/main/java/net/raphimc/viabedrock/protocol/packets/WorldPackets.java:340-344 | the combined bytes are the blob followed by the sub-chunk data |
| WorldRules.ExpectedBlobCount | src/main/java/net/raphimc/viabedrock/protocol/packets/WorldPackets.java:258 | a negative section count expects one blob, otherwise one more than the section count |
| WorldRules.CheckBlobCount | src/main/java/net/raphimc/viabedrock/protocol/packets/WorldPackets.java:256-262 | the blob count is accepted exactly when it equals the expected count, and the error names both counts |
| WorldRules.MaxSectionCountRejected | src/main/java/net/raphimc/viabedrock/protocol/packets/WorldPackets.java:258-262 | a section count of the largest int wraps the expected count and every blob count is refused |
| WorldRules.LevelChunk | src/main/java/net/raphimc/viabedrock/protocol/packets/WorldPackets.java:169-202 | a section count below -2 ignores the packet; otherwise the request count follows -2, -1 and a previously requesting chunk, sections are created for it, and sub-chunks are requested exactly when that count is positive |
| WorldRules.LevelChunkFitsInt | src/main/java/net/raphimc/viabedrock/protocol/packets/WorldPackets.java:174-202 | the plan's sums stay within Java's int |
| WorldRules.LevelChunkRequestInWorld | src/main/java/net/raphimc/viabedrock/protocol/packets/WorldPackets.java:202 | a request starts at the bottom section and ends above it and within the world |
| WorldRules.ResolvedBiomes | src/main/java/net/raphimc/viabedrock/protocol/packets/WorldPackets.java:222-231 | one palette per section, or the missing-first-palette error |
| WorldRules.LastExplicit | src/main/java/net/raphimc/viabedrock/protocol/packets/WorldPackets.java:222-231 | the index of the last explicit palette at or before a section, with none after it |
| WorldRules.ResolvedBiomesSpec | src/main/java/net/raphimc/viabedrock/protocol/packets/WorldPackets.java:222-231 | resolution succeeds exactly when the first palette is explicit, and each section then gets the nearest explicit palette at or before it |
| WorldRules.ResolveBiomePalettes | src/main/java/net/raphimc/viabedrock/protocol/packets/WorldPackets.java:222-231 | the palette loop computes the resolution |
| WorldRules.GroupedSpec | src/main/java/net/raphimc/viabedrock/protocol/packets/WorldPackets.java:378-392 | a section has an entry in the grouping exactly when it has records, and the entry is its records in order |
| WorldRules.ChangesInSection | src/main/java/net/raphimc/viabedrock/protocol/packets/WorldPackets.java:388-390 | every record lies inside its section at the block's position |
| WorldRules.GroupBlockChanges | src/main/java/net/raphimc/viabedrock/protocol/packets/WorldPackets.java:378-392 | the nested loops group the accepted changes of every layer by section and collect their block entities by position |
| WorldRules.GroupLayer | src/main/java/net/raphimc/viabedrock/protocol/packets/WorldPackets.java:378-390 | the inner loop over one layer extends the grouping and the entity map by exactly that layer's accepted changes |
| WorldRules.MultiBlockChanges | src/main/java/net/raphimc/viabedrock/protocol/packets/WorldPackets.java:394-405 | every section with changes is sent with its packed key and its records, and every packet sent is such a section's |
| WorldRules.MultiBlockChangesExact | src/main/java/net/raphimc/viabedrock/protocol/packets/WorldPackets.java:394-405 | with every section in the key's ranges, each packet unpacks to a section with changes and carries exactly that section's records |
| WorldRules.TimeOfDay | src/main/java/net/raphimc/viabedrock/protocol/packets/WorldPackets.java:476 | the time of day is congruent to the game time modulo 24000, non-negative for a non-negative game time and non-positive otherwise |
| WorldRules.TimeOfDayPeriodic | src/main/java/net/raphimc/viabedrock/protocol/packets/WorldPackets.java:476 | a day later it is the same time of day |
| WorldRules.ViewRadius | src/main/java/net/raphimc/viabedrock/protocol/packets/WorldPackets.java:447 | the radius in chunks is the radius in blocks divided by 16, rounded down |
| PackRewriter.AsciiLower | src/main/java/net/raphimc/viabedrock/protocol/rewriter/ResourcePackRewriter.java:178 | the lower-cased name has the same length, and exactly its ASCII capitals are replaced by small letters |
| PackRewriter.LowerPageName | src/main/java/net/raphimc/viabedrock/protocol/rewriter/ResourcePackRewriter.java:172-178 | the lower-cased page name is `glyph_` with the page number's two lower-case hex digits and `.png` |
| PackRewriter.LowerHexDigitInjective | src/main/java/net/raphimc/viabedrock/protocol/rewriter/ResourcePackRewriter.java:178 | distinct digits have distinct lower-case hex characters |
| PackRewriter.ProviderFileInjective | src/main/java/net/raphimc/viabedrock/protocol/rewriter/ResourcePackRewriter.java:185-194 | distinct pages have distinct provider file names |
| PackRewriter.UpperHexDigitInjective | src/main/java/net/raphimc/viabedrock/protocol/rewriter/ResourcePackRewriter.java:172 | distinct digits have distinct upper-case hex characters |
| PackRewriter.BedrockPagePathDigits | src/main/java/net/raphimc/viabedrock/protocol/rewriter/ResourcePackRewriter.java:172-173 | the Bedrock sheet path carries the page number's two upper-case hex digits at positions 11 and 12 |
| PackRewriter.BedrockPagePathInjective | src/main/java/net/raphimc/viabedrock/protocol/rewriter/ResourcePackRewriter.java:172-173 | distinct pages read distinct Bedrock sheets |
| PackRewriter.GlyphCharDecode | src/main/java/net/raphimc/viabedrock/protocol/rewriter/ResourcePackRewriter.java:199-204 | a glyph character's high byte is the page, and its low byte's two hex digits are the row and the column |
| PackRewriter.GlyphTable | src/main/java/net/raphimc/viabedrock/protocol/rewriter/ResourcePackRewriter.java:197-206 | the character table has 16 rows of 16 characters |
| PackRewriter.GlyphTableCovers | src/main/java/net/raphimc/viabedrock/protocol/rewriter/ResourcePackRewriter.java:197-206 | every code unit of the page appears in the table exactly once, at the row and column its low byte names |
| PackRewriter.BuildChars | src/main/java/net/raphimc/viabedrock/protocol/rewriter/ResourcePackRewriter.java:197-206 | the nested loops build the character table |
| PackRewriter.WithoutFirst | src/main/java/net/raphimc/viabedrock/protocol/rewriter/ResourcePackRewriter.java:184-189 | removing the first provider with a file drops at most one provider |
| PackRewriter.WithoutFirstLength | src/main/java/net/raphimc/viabedrock/protocol/rewriter/ResourcePackRewriter.java:184-189 | a provider is dropped exactly when one has that file |
| PackRewriter.WithoutFirstSubset | src/main/java/net/raphimc/viabedrock/protocol/rewriter/ResourcePackRewriter.java:184-189 | the providers left are among the ones before |
| PackRewriter.WithoutFirstDistinct | src/main/java/net/raphimc/viabedrock/protocol/rewriter/ResourcePackRewriter.java:184-189 | on providers with distinct files the removal leaves none with that file and keeps them distinct |
| PackRewriter.RemoveFirstProvider | src/main/java/net/raphimc/viabedrock/protocol/rewriter/ResourcePackRewriter.java:184-189 | the provider loop removes the first provider with the file |
| PackRewriter.WithoutFirstSkips | src/main/java/net/raphimc/viabedrock/protocol/rewriter/ResourcePackRewriter.java:184-189 | past providers with other files, the first match is cut out and the rest kept in order; with no match nothing changes |
| PackRewriter.PageProvider | src/main/java/net/raphimc/viabedrock/protocol/rewriter/ResourcePackRewriter.java:182-196 | the new provider names the page's file, its height is the image height divided by 16, and its ascent is half the height plus 5 |
| PackRewriter.ConvertGlyphSheets | src/main/java/net/raphimc/viabedrock/protocol/rewriter/ResourcePackRewriter.java:155-213 | the files and the outcome after conversion are those of the glyph-sheet specification, and the lang cache is kept |
| PackRewriter.ConvertGlyphPages | src/main/java/net/raphimc/viabedrock/protocol/rewriter/ResourcePackRewriter.java:171-212 | the page loop and the final write of `default.json` leave the files and the outcome of the page-loop specification, and the lang cache is kept |
| PackRewriter.ConvertGlyphPageRange | src/main/java/net/raphimc/viabedrock/protocol/rewriter/ResourcePackRewriter.java:171-207 | the page loop leaves the files, providers and failure that `GlyphPages` gives for all pages below the limit, and keeps the lang cache |
| PackRewriter.FinishGlyphSheets | src/main/java/net/raphimc/viabedrock/protocol/rewriter/ResourcePackRewriter.java:208-212 | after the loop: a failed page is reported, an empty provider list writes nothing, otherwise `default.json` is written with the providers |
| PackRewriter.ConvertGlyphPage | src/main/java/net/raphimc/viabedrock/protocol/rewriter/ResourcePackRewriter.java:172-206 | one loop iteration advances the page-loop specification by one page |
| PackRewriter.FailedStays | src/main/java/net/raphimc/viabedrock/protocol/rewriter/ResourcePackRewriter.java:171-207 | once a page fails, the later pages change nothing |
| PackRewriter.LastPageIgnored | src/main/java/net/raphimc/viabedrock/protocol/rewriter/ResourcePackRewriter.java:171 | the loop stops before page 0xFF, so its sheet never matters |
| PackRewriter.GlyphPagesAgree | src/main/java/net/raphimc/viabedrock/protocol/rewriter/ResourcePackRewriter.java:171-179 | a page reads only its own sheet: two packs with the same sheets for the first n pages convert them identically |
| PackRewriter.GlyphPagesDistinct | src/main/java/net/raphimc/viabedrock/protocol/rewriter/ResourcePackRewriter.java:184-196 | the providers keep distinct files across the pages |
| PackRewriter.GlyphPageConverted | src/main/java/net/raphimc/viabedrock/protocol/rewriter/ResourcePackRewriter.java:174-206 | a present, readable sheet writes its image under the Java path and appends its provider, whose characters are the page's table |
| PackRewriter.NoSheetsNoChange | src/main/java/net/raphimc/viabedrock/protocol/rewriter/ResourcePackRewriter.java:174-176 | pages without sheets change nothing |
| PackRewriter.NoSheetsNoDefaults | src/main/java/net/raphimc/viabedrock/protocol/rewriter/ResourcePackRewriter.java:208-212 | with no sheets and no existing defaults file, no font file is written |
| PackRewriter.ReplaceAllKeepsHead | src/main/java/net/raphimc/viabedrock/protocol/rewriter/ResourcePackRewriter.java:67 | removing the extensions keeps the first character of a path that does not start with them |
| PackRewriter.SplitNotEmpty | src/main/java/net/raphimc/viabedrock/protocol/rewriter/ResourcePackRewriter.java:72-73 | splitting a path that does not start with the separator yields a last part to take |
| PackRewriter.JavaAbs | src/main/java/net/raphimc/viabedrock/protocol/rewriter/ResourcePackRewriter.java:79 | `Math.abs` is the absolute value except on the smallest int, which it returns unchanged |
| PackRewriter.ModelDataPositive | src/main/java/net/raphimc/viabedrock/protocol/rewriter/ResourcePackRewriter.java:79 | the model data is positive exactly when the hash is none of the smallest int, the largest int and its negation, and those give the wrapped values |
| PackRewriter.Digits | src/main/java/net/raphimc/viabedrock/protocol/rewriter/ResourcePackRewriter.java:80 | the decimal digits are a non-empty run of digit characters |
| PackRewriter.DecimalString | src/main/java/net/raphimc/viabedrock/protocol/rewriter/ResourcePackRewriter.java:80 | the decimal form is never empty |
| PackRewriter.DigitsRoundTrip | src/main/java/net/raphimc/viabedrock/protocol/rewriter/ResourcePackRewriter.java:80 | reading the decimal digits back gives the number |
| PackRewriter.Candidates | src/main/java/net/raphimc/viabedrock/protocol/rewriter/ResourcePackRewriter.java:61-89 | one candidate per entry, in iteration order, each the entry's conversion |
| PackRewriter.SomesMember | src/main/java/net/raphimc/viabedrock/protocol/rewriter/ResourcePackRewriter.java:61-89 | a value is kept exactly when some candidate holds it |
| PackRewriter.UiTexturesAreSomes | src/main/java/net/raphimc/viabedrock/protocol/rewriter/ResourcePackRewriter.java:61-89 | the converted textures are the candidates that qualify, in order |
| PackRewriter.UiTexturesFilter | src/main/java/net/raphimc/viabedrock/protocol/rewriter/ResourcePackRewriter.java:61-89 | a texture is converted exactly when some entry converts to it |
| PackRewriter.FirstUnreadableSpec | src/main/java/net/raphimc/viabedrock/protocol/rewriter/ResourcePackRewriter.java:61-70 | the loop throws exactly when some `textures/ui` image is unreadable, and on the first one in iteration order |
| PackRewriter.QualifyingTextureConverted | src/main/java/net/raphimc/viabedrock/protocol/rewriter/ResourcePackRewriter.java:58-95 | when the order lists every entry, every qualifying UI image is converted and its item model, naming its own item, is among the Java files |
| PackRewriter.TextureFilesModel | src/main/java/net/raphimc/viabedrock/protocol/rewriter/ResourcePackRewriter.java:81-82 | every converted texture has its item model written |
| PackRewriter.UiTextureQualifies | src/main/java/net/raphimc/viabedrock/protocol/rewriter/ResourcePackRewriter.java:63-80 | a converted texture comes from a `textures/ui` PNG or JPEG of at least 256 pixels with no sibling `.json`, with the hash-derived model data and a name starting with the simple name |
| PackRewriter.InsertMultiset | src/main/java/net/raphimc/viabedrock/protocol/rewriter/ResourcePackRewriter.java:91 | insertion adds exactly the element |
| PackRewriter.InsertAscending | src/main/java/net/raphimc/viabedrock/protocol/rewriter/ResourcePackRewriter.java:91 | insertion keeps a sequence ascending |
| PackRewriter.SortSpec | src/main/java/net/raphimc/viabedrock/protocol/rewriter/ResourcePackRewriter.java:91 | the sorted keys are ascending and a permutation of the keys |
| PackRewriter.Overrides | src/main/java/net/raphimc/viabedrock/protocol/rewriter/ResourcePackRewriter.java:114-121 | one override per sorted key, carrying that key as its custom model data |
| PackRewriter.PutItemToPath | src/main/java/net/raphimc/viabedrock/protocol/rewriter/ResourcePackRewriter.java:97-128 | `map.json` is written with the overrides, and nothing else changes |
| PackRewriter.Keys | src/main/java/net/raphimc/viabedrock/protocol/rewriter/ResourcePackRewriter.java:85 | one key per converted texture, its model data |
| PackRewriter.Names | src/main/java/net/raphimc/viabedrock/protocol/rewriter/ResourcePackRewriter.java:86 | every converted texture's model data is named |
| PackRewriter.SortedKeysNamed | src/main/java/net/raphimc/viabedrock/protocol/rewriter/ResourcePackRewriter.java:85-93 | every sorted key has a name |
| PackRewriter.NamesEmpty | src/main/java/net/raphimc/viabedrock/protocol/rewriter/ResourcePackRewriter.java:92 | the name map is empty exactly when nothing was converted |
| PackRewriter.OverridesAscending | src/main/java/net/raphimc/viabedrock/protocol/rewriter/ResourcePackRewriter.java:91-121 | the overrides list every texture's model data once per texture, in ascending order |
| PackRewriter.TexturesSnoc | src/main/java/net/raphimc/viabedrock/protocol/rewriter/ResourcePackRewriter.java:82-86 | converting one more texture appends its key, names it and writes its image and item model |
| PackRewriter.ConvertUITextures | src/main/java/net/raphimc/viabedrock/protocol/rewriter/ResourcePackRewriter.java:58-95 | an image ImageIO throws on fails the conversion with the first such entry in iteration order; otherwise the files after the loop are those of the UI-texture specification; the lang cache is kept |
| PackRewriter.ConvertUiEntries | src/main/java/net/raphimc/viabedrock/protocol/rewriter/ResourcePackRewriter.java:61-89 | the entry loop ends with the first unreadable image, or with the images, item models, keys and names of every converted texture |
| PackRewriter.UiTextureStep | src/main/java/net/raphimc/viabedrock/protocol/rewriter/ResourcePackRewriter.java:62-80 | one loop step reports whether ImageIO throws on the entry and converts it exactly as the specification does |
| PackRewriter.PacksSnoc | src/main/java/net/raphimc/viabedrock/protocol/rewriter/ResourcePackRewriter.java:37-41 | each pack converts its glyph sheets and then its UI textures, and a glyph failure stops the conversion |
| PackRewriter.BedrockToJava | src/main/java/net/raphimc/viabedrock/protocol/rewriter/ResourcePackRewriter.java:34-46 | the packs are converted bottom to top into a new content and `pack.mcmeta` is written last, or the first failure is returned |
| PackRewriter.ConvertPacks | src/main/java/net/raphimc/viabedrock/protocol/rewriter/ResourcePackRewriter.java:37-41 | the loop over the packs leaves the files of the bottom-to-top conversion, or stops with its first failure |
| PackRewriter.ConvertPack | src/main/java/net/raphimc/viabedrock/protocol/rewriter/ResourcePackRewriter.java:38-39 | one pack converts its glyph sheets, then, when they succeed, its UI textures |
| PackRewriter.PacksFailedStays | src/main/java/net/raphimc/viabedrock/protocol/rewriter/ResourcePackRewriter.java:37-41 | once a pack fails, the later packs change nothing |
| Utf8.Encode | src/main/java/net/raphimc/viabedrock/api/model/ResourcePack.java:316 | `getBytes(UTF_8)` takes one to four bytes per character |
| Utf8.Decode | src/main/java/net/raphimc/viabedrock/api/model/ResourcePack.java:312 | `new String(bytes, UTF_8)` yields at most one character per byte |
| Utf8.DecodeFirstSound | src/main/java/net/raphimc/viabedrock/api/model/ResourcePack.java:312 | a decoded character other than U+FFFD comes from exactly its own UTF-8 encoding |
| Utf8.EncodeDecode | src/main/java/net/raphimc/viabedrock/api/model/ResourcePack.java:312-316 | bytes that decode without U+FFFD are well-formed UTF-8: re-encoding the text gives them back |
| Utf8.TruncatedFormOneReplacement | src/main/java/net/raphimc/viabedrock/api/model/ResourcePack.java:312 | a truncated three-byte form followed by ASCII decodes to one U+FFFD and the ASCII character, as the JDK replaces a maximal malformed subpart |
| Utf8.DecodeEncode | src/main/java/net/raphimc/viabedrock/api/model/ResourcePack.java:312-316 | a string written with `putString` reads back unchanged with `getString` |
| Utf8.Latin1 | src/main/java/net/raphimc/viabedrock/api/model/ResourcePack.java:223 | `getBytes(ISO_8859_1)` maps each character below 256 to its own byte and any other to `?` |
| JavaStrings.Trim | src/main/java/net/raphimc/viabedrock/api/model/ResourcePack.java:339 | `String.trim` removes exactly the leading and trailing characters at or below the space and keeps the middle |
| JavaStrings.SplitFirst | src/main/java/net/raphimc/viabedrock/api/model/ResourcePack.java:340 | `split("=", 2)` gives the whole line when there is no `=`, otherwise the parts before and after the first one |
| JavaStrings.Split | src/main/java/net/raphimc/viabedrock/api/model/ResourcePack.java:325 | the parts of `split` contain no separator, and a line without one is its own only part |
| JavaStrings.SplitJoin | src/main/java/net/raphimc/viabedrock/api/model/ResourcePack.java:325-329 | splitting what was joined with a one-character separator returns the parts when the last is not empty |
| JavaStrings.ReplaceAllAbsent | src/main/java/net/raphimc/viabedrock/protocol/rewriter/ResourcePackRewriter.java:67 | `replace` leaves a string without the target unchanged |
| JavaLang.Rem | src/main/java/net/raphimc/viabedrock/protocol/packets/WorldPackets.java:476 | Java's `%` truncates: the remainder has the dividend's sign and is smaller than the divisor in magnitude |
| JavaLang.Shr | src/main/java/net/raphimc/viabedrock/protocol/packets/WorldPackets.java:388 | `>>` by k is division by 2^k rounded down |
| JavaLang.LowBits | src/main/java/net/raphimc/viabedrock/protocol/packets/WorldPackets.java:389 | masking the low k bits gives the non-negative remainder beside `>>` |
| JavaLang.ArrayCopy | src/main/java/net/raphimc/viabedrock/api/model/ResourcePack.java:101 | `System.arraycopy` overwrites the destination range with the source range and keeps the rest |

## Left out

- Logging, `System.out` and the kick messages: a kick is an error value, a log line is not modelled.
- Asynchrony: the blob cache's futures and the concurrency of its map are left out; `getBlob` answers at once.
- Floating point: player movement, jumping and rotation are parameters or abstract values; slider steps are not modelled.
- JSON fields and images: Gson, ImageIO, SHA-256, zip, AES/CFB8, `UUID.fromString` and `hashCode` are `Codecs` parameters, so `getJson`, `putJson`, `getImage`, `putImage`, `getSortedJson` and `toZip` are not members of their own.
- `Codecs.encodeJson` folds in the UTF-8 step, and image write errors are not modelled.
- Hash-map iteration order is a parameter (`orders`, `keyOrder`); the model proves what holds for every order.
- `ProtocolConstants.JAVA_PACK_VERSION` is a parameter (`packFormat`).
- `ChunkTracker`, `PlayerEntity`, `BlockStateRewriter` and the item mappings are not part of this model: the tracker's remapping and `createChunk` are parameters, and `createChunk` may return nothing.
- `MathUtil` is not part of this model; `MathUtil.Clamp` takes its arguments as value, minimum and maximum and checks the minimum first.
- `SubChunkResults` is not part of this model, so the result dispatch and the dimension check of `SUB_CHUNK` are left out; only its blob concatenation is modelled.
- The chunk section parsing inside `LEVEL_CHUNK`'s data consumer is left out, apart from the biome palette rule.
- The `BLOCK_ENTITY_DATA` handler and the plain pass-through of `CHUNK_RADIUS_UPDATED` are left out.
- WorldRules.GroupBlockChanges takes any number of layers; the packet carries two.
- `ClientPlayerEntity`: `sendInteractPacketToServer`, `sendMovePlayerPacketToServer`, the contents of `sendPlayerActionPacketToServer`, `updateJavaGameMode` and `translateAttribute` are left out.
- ClientPlayer.ClientPlayerEntity.PreMove requires a position: the source dereferences it and would throw.
- `Entity.translateEntityData` is not modelled: the base class refuses every entry. `setName` takes a non-null name.
- The base `Container` class is not part of this model: `InventoryContainer.JavaSlot` covers the slots the player inventory maps itself, and armour lists longer than four slots are not modelled.
- `StringUtil.toDecimal` formats floating point and is left out.
- Item names, lore and the `hashCode`-derived model data of form items are not modelled, nor the text editor beyond the event that opens it.
- NewFormContainer.FormContainer.ClickCustom: an index equal to the element count fails, as the source's list access throws.
- FormLayout.FirstFitSpec: when every one of the 256 pages is full the model reports exhaustion and keeps `totalPage`, while the source raises `totalPage` to 256 and then throws.
- ResourcePacks.ChunkCount: the source's float division and ceiling is modelled as an exact integer ceiling.
- ContentStore.Content.GetLines splits on the newline character, while `PutLines` joins with the two-character text backslash-n, so only one-line contents round-trip.
- PackPipeline.Decode: a failure after zip extraction leaves the content partly filled; `content()` then returns that partly filled store.
- PackRewriter.LastPageIgnored: the glyph loop stops before page 0xFF; the model follows the code and states this as a property.
- PackRewriter.ModelDataPositive: the model data overflows for three hash values; this is stated as a property rather than corrected, as the source gives no intended value.
- NewFormContainer.PlacedCell: names the cell with `ShapeName`, relative to the rectangle's own corner, not with the absolute positions the source uses (see Findings).
- NewFormContainer.FormContainer.FillFrames: fills the frames with the corrected `ShapeName` naming, not the source's absolute naming (see Findings).
- NewFormContainer.FormContainer.FindBestSlot: the retry on a fresh page carries the whole request (`Retry`), not the source's rebuilt request without image and description, and the entry records the placement page, not `totalPage` (see Findings).
- NewFormContainer.FormContainer.Place: the item-map entry records the page the item was placed on, not `totalPage` (see Findings).
- NewFormContainer.FormContainer.UpdateFormItems: lays out the corrected requests (`Requests`, with `button2` in a modal form) and places them with the corrected placement, not the source's (see Findings).
- FormLayout.Requests: a modal form lays out `button1` and `button2`, not `button1` twice as the source does (see Findings).
- NewFormContainer.FormContainer.FindClicked: looks a click up with `Lookup`, comparing only the entry's slots, not also its page number as the source does (see Findings).
- NewFormContainer.FormContainer.ClickItem: dispatches on the corrected `Lookup`, not the source's lookup (see Findings).
- NewFormContainer.FormContainer.HandleClick: dispatches on the corrected `Lookup` and lays out the corrected requests, not the source's (see Findings).
- NewFormContainer.Open: builds the container with the corrected requests and placement, not the source's (see Findings).
- Utf8.DecodeEncode: a Dafny string is a sequence of Unicode scalar values, so a Java string holding an unpaired surrogate, which `getBytes` turns into `?`, is not modelled, and a supplementary character is one element rather than two UTF-16 code units.
- ContentStore.Content.PutString: strings are sequences of Unicode scalar values, so the round trip is stated only for strings without unpaired surrogates.
- ResourcePacks.BitmapSize: `MathUtil` is not part of this model; `MathUtil.ceil` is taken to be the ceiling, and the rounding of `(float) length` above 2^24 is not modelled.
- ResourcePacks.ResourcePack.SetCompressedDataLength: an allocation the runtime refuses for its size (`OutOfMemoryError`) is not modelled.
- ResourcePacks.ResourcePack.ProcessDataChunk requires the pack to be valid (after `setCompressedDataLength` succeeded, or with no bitmap yet) and the chunk to be shorter than 2^31 bytes, as a Java array is; a pack whose bitmap allocation failed after an earlier bitmap existed is not covered.
- PackRewriter.ConvertUITextures: when ImageIO throws, the files written for earlier entries are left as they are; the model does not state them.
- PackPipeline.ManifestOf reads the whole manifest before any check, so a manifest with an unsupported `format_version` and no `header` is reported as unreadable, where the source reports the format version first; only the error differs.
- StringUtil.MatchAt follows `Pattern` in Java 19 and later, where `\b` is ASCII; on Java 17 and 18 a name next to a non-ASCII letter or digit does not match.
- Glyph characters are UTF-16 code units, and `toLowerCase` is applied to ASCII only (the page names are ASCII).

## Findings

| source | as written | input that shows it | evidently intended | confidence | as-written member | corrected member |
|---|---|---|---|---|---|---|
| src/main/java/net/raphimc/viabedrock/api/model/ResourcePack.java:336-341 | a line is cut at `##` after the filter that requires '=', so `split("=", 2)[1]` can be out of bounds | the line `title ## note=1` | the comment is removed before the '=' test, so the line is skipped | not executed | LangFile.CommentedEqualsCrashes | LangFile.AsWrittenAgrees |
| src/main/java/net/raphimc/viabedrock/api/model/container/fake/NewFormContainer.java:415-416 | the item map records `totalPage` instead of the page the item was placed on | an item placed on page 0 after a later page was opened | the page used for placement is recorded | not executed | FormLayout.EntryAsWrittenUnreachable | FormLayout.ClickFindsPlacedItem |
| src/main/java/net/raphimc/viabedrock/api/model/container/fake/NewFormContainer.java:443-445 | a retry on a new page rebuilds the request without its image path and description | any button request with an image that does not fit on the current page | the retry carries the same request | not executed | FormLayout.RetryAsWrittenDropsImage | FormLayout.Retry |
| src/main/java/net/raphimc/viabedrock/api/model/container/fake/NewFormContainer.java:452-484 | slot names are computed from absolute grid positions, not from the rectangle's own corner | a 3x3 tile whose top left cell is at column 3 | names relative to the rectangle's top left cell | not executed | FormLayout.IdentifierBasedSlotMisnamesShiftedTile | FormLayout.ShapeNamesOfTile |
| src/main/java/net/raphimc/viabedrock/api/model/container/fake/NewFormContainer.java:103-122 | the click lookup compares the clicked slot with the entry's page number as well as its slots | slot 3 clicked on page 3 | only the entry's slots are compared | not executed | FormLayout.LookupAsWrittenHitsPageNumber | FormLayout.LookupsAgree |
| src/main/java/net/raphimc/viabedrock/api/model/container/fake/NewFormContainer.java:212-219 | a modal form lays out `button1` twice and never `button2` | any modal form | the second button is laid out | not executed | FormLayout.ModalRequestsAsWrittenHideButton2 | FormLayout.ModalRequests |
