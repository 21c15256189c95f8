# kong-zstd: the dictionary registry and the one-shot entry points

kong-zstd is a small C layer that a Go program calls through cgo. It sits
in front of the zstd library and does two things this project models.

- **The dictionary registry** (`registry.dfy`, module `Registry`). There are
  two parallel static tables, `globalCDicts` (encode handles) and
  `globalDDicts` (decode handles). Each has 10 `(name, handle)` slots and a
  `len`.
  - `AddDict` appends one slot to each table after a capacity guard.
  - `load_cdict` and `load_ddict` look a name up, first match wins.
  - `ReleaseDict` frees the handles.
  - The class `Registry.Registry` holds the two tables as arrays plus their
    two counts. Its invariant `Valid` says three things: the counts are
    equal and at most `dictLen` (10); slots at and above the count hold the
    zero entry; and both tables carry the same key in each filled slot.
  - A name is the bytes of a Go string (`seq<byte>`, NUL being 0). The C
    key test (`key.n == dict.n` and `strcmp`) becomes `KeyMatches`: two
    names match when they have the same byte count and the same bytes up to
    the first NUL (`CString`).
- **The four entry points** (`engine.dfy`, module `Engine`): `Compress`,
  `Decompress`, `CompressWithDict` and `DecompressWithDict`.
  - Each runs against an abstract zstd (`zstd.dfy`, module `Zstd`). Every
    library call is a function value in the `Codec` record, and `Libc` says
    whether `malloc` succeeds. Every statement therefore holds whatever the
    library returns.
  - The `{NULL, -1}` sentinel becomes `Outcome.Failed`. A `*_orDie` exit
    becomes `Outcome.Exited(code)`.
  - Each method also returns the trace of library calls it made (`Step`). So
    the order of the checks can be stated, and so can what the call leaves
    allocated: `Live` counts buffers and contexts, and `Leaked` counts what
    the caller is not handed.
  - Each method is proved equal to a function (`CompressRun` and so on)
    whose contract says which condition fails the call, in what order the
    checks run, and what size a success reports.
  - The `*Leaks` lemmas state exactly what each failure path leaves
    allocated. The source leaks on several paths: `cBuff` in `Compress`;
    `cctx` and `cBuff` in `CompressWithDict`; `rBuff` in `Decompress` and
    `DecompressWithDict`. The lemmas state these leaks rather than hide them.
- **Frame header fields.** `frameContentSize` stands for the
  Frame_Content_Size field of the Zstandard frame header, and
  `dictIdFromFrame` for its Dictionary_ID field (sections 3.1.1.1.4 and
  3.1.1.1.3 of RFC 8878).
- `Decompress` and `DecompressWithDict` have no streaming fallback: an
  unknown content size fails with `{NULL, -1}` (kong_zstd.c:105-109,
  209-213), as `DecompressRun` and `DecompressWithDictRun` state.
  `StreamDecompress` and `StreamDecompressWithDict` are declared
  (kong_zstd.h:89, 93) but have no body.

## Model

| member | source | states |
|---|---|---|
| Registry.CString | kong_zstd.h:331 | the part of a key that `strcmp` compares: a prefix of the key with no NUL in it, ending just before the key's first NUL when there is one |
| Registry.CStringsAgree | kong_zstd.h:331 | for two names of one byte count, `strcmp` sees them equal exactly when they agree at every position that no earlier NUL hides |
| Registry.KeyMatches | kong_zstd.h:331 | the slot test `key.n == dict.n && strcmp(...) == 0`: the same byte count, and equal bytes at every position before the key's first NUL |
| Registry.KeyMatchesIsEquality | kong_zstd.h:331 | for a query without an embedded NUL, the length-and-`strcmp` test matches exactly the equal key |
| Registry.EmbeddedNulMatches | kong_zstd.h:331 | two different keys of equal length that agree up to an embedded NUL still match |
| Registry.FirstMatch | kong_zstd.h:329-335 | the scan returns the lowest matching slot index; it returns no index exactly when no slot matches |
| Registry.LookupIndex | kong_zstd.h:321-338 | the lookup finds nothing for an empty name; otherwise it finds the lowest slot below `len` whose key matches; it finds nothing iff the name is empty or no slot matches |
| Registry.AppendedNameFound | kong_zstd.h:329-335 | once a slot for a new non-empty name is appended, the lookup finds that slot and returns its handle |
| Registry.AppendKeepsFound | kong_zstd.c:27-45 | `AddDict` does not refuse a duplicate name, and adding one never changes the slot an existing name resolves to: the later slot is unreachable |
| Registry.AppendOtherKeepsMissing | kong_zstd.c:43-44 | adding a slot under another name does not make a missing name findable |
| Registry.SameKeysSameSlot | kong_zstd.h:321-374 | tables with the same keys slot by slot give the same lookup result for every name, so `load_cdict` and `load_ddict` agree |
| Registry.AddedNameLoads | kong_zstd.c:40-44 | after both tables get a slot for a new non-empty name, `load_cdict` returns the new encode handle and `load_ddict` returns the new decode handle |
| Registry.Registry.constructor | kong_zstd.h:78-79 | the zero-initialised statics: both tables have 10 empty slots and `len` 0, and the invariant holds |
| Registry.Registry.LoadCDict | kong_zstd.h:321-338 | the index loop with early return gives the handle of the first matching slot below `len`, or NULL; it changes nothing |
| Registry.Registry.LoadDDict | kong_zstd.h:357-374 | the same over the decode table |
| Registry.Registry.AddDict | kong_zstd.c:27-45 | if either `len` is at least `dictLen`, the process exits with `ERROR_maxDicts` (10) and nothing changes; otherwise each table gets `name` with its handle at the old `len`, each `len` grows by 1, no other slot changes, and the invariant is kept |
| Registry.Registry.ReleaseDictAsWritten | kong_zstd.c:47-62 | the first loop frees every encode handle in slot order; the second loop frees slot `len`'s handle `len` times, or reads past the table when `len` is 10; nothing is reset, so every name a lookup still finds yields a handle this call freed |
| Registry.StaleIndexFrees | kong_zstd.c:57-61 | what the as-written second loop frees: nothing when the count is 0; otherwise `count` copies of slot `i`'s handle, and no result exactly when slot `i` lies outside the table |
| Registry.AsWrittenReleaseMissesDecodeHandles | kong_zstd.c:56-61 | for every registry `AddDict` can build: with all 10 slots filled, the second loop reads outside the table; otherwise it frees only NULL, and no registered decode handle |
| Registry.AsWrittenReleaseLeavesFreedHandlesFindable | kong_zstd.c:47-62 | since neither `len` is reset, every name that was found before the release is still found afterwards, and the lookup returns a handle that was just freed |
| Registry.Registry.FreeAll | kong_zstd.c:47-62 | the release loops as intended: every filled slot of each table is freed once, in order, and nothing outside the tables is read |
| Registry.Registry.ReleaseDict | kong_zstd.c:47-62 | the release as intended: it frees every handle, empties both tables and resets both counts, so every lookup returns NULL afterwards |
| Engine.CompressRun | kong_zstd.c:64-86 | calls are made in the order bound, unchecked malloc, compress at level 3; the call never exits; it fails iff the codec reports an error; otherwise it returns the buffer of `compressBound(n)` bytes and the codec's size |
| Engine.Compress | kong_zstd.c:64-86 | the method's outcome and calls are those of `CompressRun` |
| Engine.CompressLeaks | kong_zstd.c:69-82 | a failed compression leaves its buffer allocated; a success leaves nothing |
| Engine.DecompressRun | kong_zstd.c:88-141 | an error or unknown content size fails after one header read; otherwise a failed malloc exits with 8; the decode runs iff the size is known and the allocation succeeded; it succeeds iff the decoder returns exactly the declared size, and then it reports that size |
| Engine.Decompress | kong_zstd.c:88-141 | the method's outcome and calls are those of `DecompressRun` |
| Engine.DecompressLeaks | kong_zstd.c:111-133 | a decode error or a size mismatch leaves the output buffer allocated |
| Engine.CompressWithDictRun | kong_zstd.c:143-179 | a missing dictionary fails before any context, allocation or codec call; otherwise the calls are lookup, context, bound, malloc; the call exits with 8 iff malloc fails; it succeeds iff the dictionary compression returns a size, which is then reported with the bound-sized buffer |
| Engine.CompressWithDict | kong_zstd.c:143-179 | the method's outcome and calls are those of `CompressWithDictRun`, with the handle `load_cdict` finds in the registry |
| Engine.CompressWithDictLeaks | kong_zstd.c:159-178 | a failed compression leaves the buffer and the context (when one was created) allocated; a success frees the context |
| Engine.DecompressWithDictRun | kong_zstd.c:181-269 | a missing dictionary fails first; an error or unknown content size fails next; a failed malloc exits with 8; the dictionary IDs are compared only after the allocation; the decode runs iff the IDs agree and a context was created; it succeeds iff the decoder returns exactly the declared size, and then it reports that size |
| Engine.DecompressWithDict | kong_zstd.c:181-269 | the method's outcome and calls are those of `DecompressWithDictRun`, with the handle `load_ddict` finds in the registry |
| Engine.DecompressWithDictLeaks | kong_zstd.c:215-267 | every failure after the allocation (ID mismatch, no context, decode error, size mismatch) leaves the output buffer allocated; the context is always freed |

## Left out

- Logging: `LOGF`, `CHECK` and `CHECK_ZSTD` only print to stderr. Each `CHECK` is modelled as the plain test it wraps.
- `EnableDebug` and `DisableDebug` are not modelled. They only toggle the flag that controls logging.
- File loading (`fsize_orDie`, `fopen_orDie`, `loadFile_orDie`, `mallocAndLoadFile_orDie`) and `base64_decode` are not modelled. They are I/O and foreign code.
- `createCDict_orDie` and `createDDict_orDie` are not modelled. `Registry.Registry.AddDict` takes the compiled handles as parameters. A NULL from a failed compile is stored as is, as in the code, and is then what the lookup returns.
- `Registry.Registry.AddDict` does not model the process exits inside those helpers (a missing or unreadable dictionary file).
- The zstd codec itself is an uninterpreted `Codec`. No round trip of compression and decompression is stated, since it depends on zstd internals.
- `StreamDecompress` and `StreamDecompressWithDict` have no body in the C files, and no entry point calls them.
- Integer widths are not modelled: `size_t` and the signed 64-bit `GoInt` result size are unbounded naturals. Two effects of this are lost:
  - a size of 2^63 or more, which would turn negative in `GoInt`;
  - a declared content size equal to one of the `ZSTD_CONTENTSIZE_*` sentinels.
- `strcmp` reading past `n` bytes of a Go string without a terminating NUL is not modelled. `Registry.KeyMatches` compares only the `n` bytes of each name, as if a NUL followed them.
- Go memory ownership is not modelled: the registry keeps the address of the caller's `name` bytes, which may alias memory the caller later reuses.
- Thread safety of the global registry is a concurrency concern and is not modelled.
- The contents of output buffers are not modelled. A buffer is only NULL or a block of a given capacity.
- `free` of the result by the Go caller is not modelled.

## Findings

| source | as written | input that shows it | evidently intended | confidence | as-written member | corrected member |
|---|---|---|---|---|---|---|
| kong_zstd.c:57-61 | the decode loop counts with `j` but indexes with `i`, which the first loop left at `globalCDicts.len` | two dictionaries added, then `ReleaseDict`: slot 2's handle (NULL) is freed twice and neither decode handle is freed; with 10 dictionaries added, slot 10 is read past the end of the table | index the decode table with `j` | high, not executed | Registry.AsWrittenReleaseMissesDecodeHandles | Registry.Registry.FreeAll |
| kong_zstd.c:47-62 | neither `len` is reset after the handles are freed | `AddDict("a", …)`, `ReleaseDict()`, then `CompressWithDict(data, "a")`: `load_cdict` returns the freed handle | empty both tables after the release | high, not executed | Registry.AsWrittenReleaseLeavesFreedHandlesFindable | Registry.Registry.ReleaseDict |
