# plua: the archive module loader, modelled in Dafny

plua is a Lua 5.1 host that mounts its own executable as a PhysicsFS archive
and runs the archive's `init.lua`. Its core is a module loader placed at the
front of `package.loaders`. For a `require` name, the loader does four things:

1. It copies the name into a buffer and turns every `.` into `/`.
2. It adds `/init.lua` when that stem is a directory of the archive, and
   `.lua` otherwise.
3. It checks that the path exists and is not a directory.
4. It opens the file, reads it whole and compiles it, with the path as the
   chunk name.

The loader ends in one of three ways:

- the "not found" note, so `require` tries the next loader;
- a raised error, when the file does not compile;
- the compiled chunk.

`main` does four things in order:

1. It initialises PhysicsFS and mounts the executable.
2. It prepends the loader to `package.loaders`.
3. It runs `require(".")`.
4. It turns the result into the exit status.

The model has these modules:

- **`Vfs`**: the mounted archive. It is a map from path to a directory or a
  regular file with its bytes. `PHYSFS_exists` and `PHYSFS_isDirectory` are
  predicates over it.
- **`CString`**: C's view of a Lua string. `strlen` stops at the first NUL,
  and a NUL-terminated buffer is read back as the characters before its
  terminator.
- **`ModulePath`**: the name-to-path translation.
  - `Slashed`, `Stem` and `ChunkPath` state it as functions.
  - `Tokenize` is the in-place version on an `array<char>` of the name's
    length plus 10. It copies the name, replaces the dots in a loop, probes
    the stem once, and copies the suffix behind it.
- **`Loader`**: the loader itself.
  - `Fetch` and `Resolve` give the outcome as functions.
  - The method `Load` returns that outcome. It also returns
    the trace of the calls it makes into libc, PhysicsFS and Lua: allocations,
    frees, probes, open, length, read and `luaL_loadbuffer`.
  - `Load` is split in two. `ModulePath.Tokenize` does the buffer work up to
    the directory probe of the stem. `Loader.LoadPath` does the rest, from the
    existence probe on.
  - The lemmas state the ordering and buffer-release properties of the trace.
- **`LuaTable`**: `package.loaders` as a class `Table` holding a
  `map<int, V>` with keys exactly `1..n`.
  - `ObjLen` is `lua_objlen`.
  - `Prepend` is `prepend`. Its downward loop rewrites one slot per
    `lua_rawgeti`/`lua_rawseti` pair, then stores slot 1.
- **`Bootstrap`**: `main`. `Shutdown` is the exit-status choice over the step
  results. `RegisterLoader` puts the loader in front of the table.

The foreign calls are parameters of the model:

- whether `PHYSFS_openRead` succeeds (`opens`);
- the count `PHYSFS_read` returns (`got`, a signed value, −1 on complete
  failure);
- Lua's compiler (`compile`, a function from bytes and chunk name to a chunk
  or an error message).

`main` tears down only on the normal path: `lua_close` and then
`PHYSFS_deinit` (plua.c:163-166). The exits with status 1, 2 and 3 return
without either. `Bootstrap.Shutdown` states this.

The loader uses the read its authors evidently meant. It asks for the whole
file, and a failed read counts as short. `Loader.FetchAsWritten` models the check as the source
writes it, and "## Findings" shows where the two differ.

## Model

| member | source | states |
|---|---|---|
| CString.Length | plua.c:23-24 | `strlen` of the Lua string: the prefix before its length is NUL-free, and the length is the whole string or the index of a NUL |
| CString.Contents | plua.c:23-28 | what `strcpy` copies: a NUL-free prefix of the string that is the whole string or stops at a NUL |
| CString.ContentsOfTerminated | plua.c:27-29 | a NUL-free string followed by a terminator reads back as itself, whatever follows the terminator |
| ModulePath.Slashed | plua.c:31-37 | the translated stem has the name's length; each `.` becomes `/` and every other character is unchanged |
| ModulePath.SlashedIsIdempotent | plua.c:31-37 | no `.` survives translation, and translating again changes nothing |
| ModulePath.Tokenize | plua.c:23-44 | the buffer has the name's C length plus 10 characters. Its first `len` characters are the translated stem. The directory probe is made on the stem before the suffix is written. The buffer then holds the chunk path (stem plus `/init.lua` or `.lua`), NUL-terminated within its bounds |
| ModulePath.WriteSuffix | plua.c:41-44 | the suffix lands right after the stem, the stem is untouched, a terminator follows, and nothing after the terminator changes |
| ModulePath.SuffixNulFree | plua.c:27-44 | both suffixes are NUL-free, and the longer one plus its terminator fits in the 10 extra characters |
| ModulePath.DotFreeName | plua.c:31-44 | a name without dots is its own stem. Its path is `name/init.lua` for a directory, `name.lua` otherwise |
| ModulePath.RootName | plua.c:31-44 | the root module `.` translates to the stem `/`. Its path is `//init.lua` when `/` is a directory, `/.lua` otherwise |
| ModulePath.DottedStem | plua.c:31-37 | `foo.bar` translates to `foo/bar` |
| ModulePath.DottedName | plua.c:39-44 | `foo.bar` resolves to `foo/bar/init.lua` when `foo/bar` is a directory, to `foo/bar.lua` otherwise |
| Loader.ShortReadAsWritten | plua.c:69-72 | the read check as written: on counts in size_t's range it is `got < filelen`, and on every negative count it reports "not short" |
| Loader.FailedReadPassesAsWritten | plua.c:69-77 | a read that fails completely (−1) passes the written check, although it is short |
| Loader.ShortReadAgreesOnCounts | plua.c:69-72 | the written and the intended check agree on every non-negative count |
| Loader.Fetch | plua.c:14-94 | "not found" carries the note `\n\tNot found in archive.`. It is the answer exactly when the path is not a file that opens and reads whole, so missing paths, directories, failed opens and short reads all give it. Otherwise the answer is a raised error carrying the compiler's message, or the chunk. Either way it comes from compiling exactly the file's bytes under the path as chunk name |
| Loader.FetchAsWritten | plua.c:46-94 | the loader with the read check as written. It answers "not found" when the path is not a regular file that opens, or when the size_t comparison calls the read short. Otherwise its answer comes from compiling the buffer as the read left it, under the path as chunk name |
| Loader.AsWrittenAgreesOnCounts | plua.c:69-94 | on every count size_t can hold, the loader as written and the corrected loader give the same answer |
| Loader.FailedReadCompilesAsWritten | plua.c:63-86 | after a complete read failure (−1) on an opened file, the corrected loader answers "not found". The loader as written calls the compiler on a buffer holding none of the file's bytes, and raises exactly when that compile fails |
| Loader.RequestedAsWritten | plua.c:64-69 | the object count that reaches PHYSFS_read's 32-bit parameter: the file's length below 4 GiB, and less than the length from 4 GiB up |
| Loader.LargeFileNotFoundAsWritten | plua.c:64-77 | for a file of 4 GiB or more, every count PHYSFS_read can return for the truncated request makes the loader as written answer "not found". The corrected loader compiles the file once it is read whole |
| Loader.Load | plua.c:21-95 | the loader's outcome is `Resolve` of the name, and the calls it makes are `LoaderCalls` of the name |
| Loader.LoadPath | plua.c:46-94 | from the existence probe on: the outcome is `Fetch` of the path and the calls are `AfterProbes`. With the corrected read check, the buffer handed to the compiler holds exactly the file's bytes |
| Loader.AfterProbesUsePath | plua.c:46-61 | after the stem probe, every directory probe and every open is on the chunk path |
| Loader.StemProbedOnce | plua.c:39-47 | the path buffer is allocated first, the stem is probed for a directory second, and never again |
| Loader.OpensOnlyFoundFile | plua.c:46-61 | the file is opened iff the path names a regular file, and nothing else is opened |
| Loader.CompilesWholeFile | plua.c:63-80 | the compiler is called only with the path as chunk name and the file's length as size. With the corrected read check, it is called exactly when the file opened and was read whole |
| Loader.OutcomeMatchesTrace | plua.c:72-94 | the answer is "not found" exactly when the trace has no compiler call. A raised error or a chunk comes with a compiler call on the module's path and the file's length |
| Loader.PathExtendsStem | plua.c:39-44 | the chunk path is strictly longer than the stem |
| Loader.AfterProbesEndWithFrees | plua.c:46-94 | after the probes, every exit ends with its frees (the path buffer, then the contents buffer once the file is open), and no earlier call frees anything |
| Loader.EndsWithFrees | plua.c:27-94 | the whole run ends with those frees, and no earlier call frees anything |
| Loader.BuffersAllocated | plua.c:27-66 | the path buffer is always allocated. The contents buffer is allocated iff the path is a regular file that opens |
| Loader.BuffersFreedOnce | plua.c:47-92 | on all five exits (not found, open failure, short read, compile error, success), each allocated buffer is freed exactly once, no other buffer is freed, and the frees come after every other call |
| Loader.PackageScenario | plua.c:39-94 | `foo.bar` over a directory `foo/bar` loads `foo/bar/init.lua`, compiled under that name |
| Loader.MissingScenario | plua.c:46-51 | example: the name `missing`, in an archive holding only `other.lua`, is "not found", whatever open and read would do |
| Loader.EmptyFileCompiles | plua.c:63-80 | an empty file is read whole with a count of 0 and its empty contents are compiled |
| LuaTable.Store | plua.c:113-118 | storing into a slot of 1..n keeps the keys 1..n. Storing into n+1 makes them 1..n+1 |
| LuaTable.Table.ObjLen | plua.c:107 | `lua_objlen` of a sequence is a border: slot n is filled (or n = 0), slot n+1 is empty, and n is the number of elements |
| LuaTable.Table.Prepend | plua.c:103-119 | the table stays a sequence and grows by one. Slot 1 holds the new value, slot k+1 the old slot k for 1 ≤ k ≤ n, so its elements are the value followed by the old ones. Each slot is read before the downward loop overwrites it |
| LuaTable.SlotsShifted | plua.c:109-118 | a table whose slot 1 is v and whose slots 2..n+1 are another's 1..n lists v followed by the other's elements |
| Bootstrap.Shutdown | plua.c:121-168 | status 1 when PhysicsFS fails to initialise, 2 when the mount fails, 3 when `require(".")` raises, otherwise the root module's number or 0. Exactly on the normal path it tears down: `lua_close` first, then `PHYSFS_deinit`. The other paths tear down nothing |
| Bootstrap.FirstFailureDecides | plua.c:123-154 | once a step fails, the results of the later steps do not affect the exit |
| Bootstrap.StatusIsAmbiguous | plua.c:124-168 | statuses 1, 2 and 3 can each come from a failure or from a root module that returned that number |
| Bootstrap.RegisterLoader | plua.c:138-143 | the archive loader is put first in `package.loaders`, and the other loaders follow in their old order |

## Left out

- PhysicsFS itself (`PHYSFS_init`, `mount`, `deinit`, and the archive format) is not modelled. The archive is an abstract map. How PhysicsFS normalises or rejects path strings (leading or doubled slashes, as in `//init.lua` for the root module) is not modelled. The map is keyed by the exact string the loader passes.
- `PHYSFS_fileLength` returning −1 is not modelled: a file that opens is taken to report its true length. The cast to size_t would make `filelen + 1` wrap to 0.
- `malloc` returning NULL is not modelled: both allocations are taken to succeed.
- The Lua stack discipline (`lua_getglobal`, `lua_getfield`, `lua_pushcfunction`, `lua_pop`, and the stack positions `rawgeti`/`rawseti` use) is not modelled. `package.loaders` is the table's map of slots.
- `require`'s own logic (trying each loader in turn, `package.loaded`) and running the chunk are not modelled. `require(".")` is a step result given to `Shutdown`.
- Lua's compiler is the parameter `compile`. What `lua_error` does with the raised message after the loader returns is not modelled.
- Bootstrap.Shutdown: the root module's number is given as an integer. The conversion of the `lua_Number` (a double) to `int` and the truncation of the status by the operating system are not modelled.
- `fprintf` to stderr and the use of `argv[0]` are not modelled.
- ModulePath.Tokenize: the loop counter is `int` compared with a `size_t`. Names longer than `INT_MAX` are not modelled.
- LuaTable.Table.Prepend: `lua_rawgeti`/`lua_rawseti` take an `int` index in Lua 5.1. Tables with more than `INT_MAX` entries are not modelled.
- Loader.Load, Loader.LoadPath: both use the intended read check (a failed read counts as short), not the size_t comparison at plua.c:69-72. The as-written loader is the function `Loader.FetchAsWritten`; see "## Findings".
- Loader.LoadPath, Loader.FetchAsWritten: `size_t` is taken to be 64 bits wide (`Loader.SizeRange`); a 32-bit target is not modelled. The count passed to PHYSFS_read is a 32-bit parameter, so the source asks for `filelen mod 2^32` objects. `LoadPath` and its trace model the intended request of the whole file (`Read(filelen)`), and the oracle `got` is not bounded by the request. `Loader.RequestedAsWritten` and the second row of "## Findings" cover the truncation.
- The trace has no call for closing the `PHYSFS_File` handle. The source never closes it on any exit after a successful open (plua.c:54-94), so no trace would contain such a call.

## Findings

| source | as written | input that shows it | evidently intended | confidence | as-written member | corrected member |
|---|---|---|---|---|---|---|
| plua.c:69-77 | the signed count returned by `PHYSFS_read` is stored in a `size_t` and then compared with `filelen` | a file of any length where `PHYSFS_read` fails completely and returns −1: the count becomes `SIZE_MAX`, the check passes, and the never-written buffer is compiled | a failed read counts as short, so the loader answers "not found" | not executed | Loader.FailedReadCompilesAsWritten | Loader.Fetch |
| plua.c:64-72 | the `size_t` file length is passed as PHYSFS_read's 32-bit object count, so only its low 32 bits are requested | a file of exactly 4 GiB: the request is 0 objects, the count returned is at most 0, `0 < filelen` holds, and the loader answers "not found" although the file opens and could be read | the whole file is requested, so a file read whole is compiled whatever its size | not executed | Loader.LargeFileNotFoundAsWritten | Loader.Fetch |
