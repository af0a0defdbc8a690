/**
 The archive loader installed at the front of package.loaders: it resolves a
 module name to the one archive path ChunkPath gives, reads that file whole
 and hands it to Lua's compiler under that path as chunk name. It ends in one
 of three ways: the "not found" note (so `require` tries the next loader), a
 raised error (the file was found but does not compile), or the compiled chunk.

 PhysicsFS is the archive map plus two oracle results: whether openRead
 succeeds and the count PHYSFS_read returns (a signed 64-bit value, -1 on
 complete failure). luaL_loadbuffer is the function parameter `compile`.
 */
module Loader {
  import opened Vfs
  import CString
  import opened ModulePath

  /** What loader_fail leaves for `require` to append to its message */
  const NotFoundNote := "\n\tNot found in archive."

  /** The range of C's size_t on a 64-bit target */
  const SizeRange := 0x1_0000_0000_0000_0000

  /** The range of PHYSFS_read's 32-bit object count */
  const CountRange := 0x1_0000_0000

  /** luaL_loadbuffer: 0 with a chunk, or an error (syntax or memory) with its message */
  datatype LoadStatus<Chunk> = Compiled(chunk: Chunk) | LoadError(message: string)

  /** The three ways a call of the loader ends */
  datatype Outcome<Chunk> =
    | NotFound(note: string)
    | Raised(message: string)
    | Loaded(chunk: Chunk)

  datatype Buffer = Tokenized | Contents

  /** The calls the loader makes into libc, PhysicsFS and Lua, in order */
  datatype Call =
    | Malloc(buffer: Buffer, size: nat)
    | Free(buffer: Buffer)
    | IsDirectoryCall(path: string)
    | ExistsCall(path: string)
    | OpenRead(path: string)
    | FileLength
    | Read(count: nat)
    | LoadBuffer(chunkName: string, size: nat)

  /**
   The read check as the source writes it: the signed count is stored in a
   size_t, so it is compared after wrapping modulo 2^64. A count of -1
   (complete failure) becomes SIZE_MAX and never counts as short.
   */
  function ShortReadAsWritten(got: int, filelen: nat): (short: bool)
    requires filelen < SizeRange / 2
    ensures 0 <= got < SizeRange ==> (short <==> got < filelen)
    ensures -SizeRange / 2 <= got < 0 ==> !short
  {
    got % SizeRange < filelen
  }

  /** The read check the loader means: fewer bytes than the file holds, or a failure */
  function ShortRead(got: int, filelen: nat): bool {
    got < filelen
  }

  /** The count PHYSFS_read returns for a complete failure */
  lemma FailedReadPassesAsWritten(filelen: nat)
    requires filelen < SizeRange / 2
    ensures !ShortReadAsWritten(-1, filelen)
    ensures ShortRead(-1, filelen)
  {
  }

  /** The two checks differ only on a failed read */
  lemma ShortReadAgreesOnCounts(got: int, filelen: nat)
    requires filelen < SizeRange / 2
    requires 0 <= got < SizeRange
    ensures ShortReadAsWritten(got, filelen) == ShortRead(got, filelen)
  {
  }

  /** The module's file was found, opened and read whole */
  predicate FullyRead(archive: Archive, path: string, opens: bool, got: int) {
    IsFile(archive, path) && opens && !ShortRead(got, |FileData(archive, path)|)
  }

  /**
   What the loader answers once it holds its path: "not found" unless the
   path is a regular file that opens and reads whole, and then whatever the
   compiler makes of exactly the file's bytes under the path as chunk name
   */
  function Fetch<Chunk>(path: string, archive: Archive, opens: bool, got: int,
                        compile: (seq<byte>, string) -> LoadStatus<Chunk>): (r: Outcome<Chunk>)
    ensures r.NotFound? ==> r.note == NotFoundNote
    ensures r.NotFound? <==> !FullyRead(archive, path, opens, got)
    ensures !IsFile(archive, path) || !opens ==> r.NotFound?
    ensures !r.NotFound? ==> got >= |FileData(archive, path)|
    ensures r.Raised? ==> compile(FileData(archive, path), path) == LoadError(r.message)
    ensures r.Loaded? ==> compile(FileData(archive, path), path) == Compiled(r.chunk)
  {
    if !FullyRead(archive, path, opens, got) then
      NotFound(NotFoundNote)
    else
      match compile(FileData(archive, path), path)
      case LoadError(message) => Raised(message)
      case Compiled(chunk) => Loaded(chunk)
  }

  /**
   The contents buffer after the read: the bytes PHYSFS_read filled, then
   whatever the fresh allocation happened to hold (`stale`)
   */
  function ReadBuffer(data: seq<byte>, got: int, stale: nat -> byte): (buf: seq<byte>)
    ensures |buf| == |data|
    ensures forall i :: 0 <= i < |data| && i < got ==> buf[i] == data[i]
    ensures forall i :: 0 <= i < |data| && got <= i ==> buf[i] == stale(i)
  {
    seq(|data|, i requires 0 <= i < |data| => if i < got then data[i] else stale(i))
  }

  /**
   What the loader answers from its path on, with the read check as written:
   a count that fails the size_t comparison gives "not found", any other
   count hands the buffer as it stands to the compiler
   */
  function FetchAsWritten<Chunk>(path: string, archive: Archive, opens: bool, got: int, stale: nat -> byte,
                                 compile: (seq<byte>, string) -> LoadStatus<Chunk>): (r: Outcome<Chunk>)
    requires IsFile(archive, path) ==> |FileData(archive, path)| < SizeRange / 2
    ensures r.NotFound? ==> r.note == NotFoundNote
    ensures !IsFile(archive, path) || !opens ==> r.NotFound?
    ensures IsFile(archive, path) && opens ==>
      var buf := ReadBuffer(FileData(archive, path), got, stale);
      && (r.NotFound? <==> ShortReadAsWritten(got, |FileData(archive, path)|))
      && (r.Raised? ==> compile(buf, path) == LoadError(r.message))
      && (r.Loaded? ==> compile(buf, path) == Compiled(r.chunk))
  {
    if !IsFile(archive, path) || !opens || ShortReadAsWritten(got, |FileData(archive, path)|) then
      NotFound(NotFoundNote)
    else
      match compile(ReadBuffer(FileData(archive, path), got, stale), path)
      case LoadError(message) => Raised(message)
      case Compiled(chunk) => Loaded(chunk)
  }

  /** On every count size_t can hold, the loader as written answers like the corrected one */
  lemma AsWrittenAgreesOnCounts<Chunk>(path: string, archive: Archive, opens: bool, got: int, stale: nat -> byte,
                                       compile: (seq<byte>, string) -> LoadStatus<Chunk>)
    requires IsFile(archive, path) ==> |FileData(archive, path)| < SizeRange / 2
    requires 0 <= got < SizeRange
    ensures FetchAsWritten(path, archive, opens, got, stale, compile) == Fetch(path, archive, opens, got, compile)
  {
    if FullyRead(archive, path, opens, got) {
      var data := FileData(archive, path);
      assert ReadBuffer(data, got, stale) == data;
    }
  }

  /**
   A complete read failure (-1) on an opened file: the corrected
   loader answers "not found", the loader as written compiles a buffer none
   of whose bytes came from the file
   */
  lemma FailedReadCompilesAsWritten<Chunk>(path: string, archive: Archive, stale: nat -> byte,
                                           compile: (seq<byte>, string) -> LoadStatus<Chunk>)
    requires IsFile(archive, path) && |FileData(archive, path)| < SizeRange / 2
    ensures Fetch(path, archive, true, -1, compile).NotFound?
    ensures var r := FetchAsWritten(path, archive, true, -1, stale, compile);
      var buf := ReadBuffer(FileData(archive, path), -1, stale);
      && !r.NotFound?
      && (forall i :: 0 <= i < |buf| ==> buf[i] == stale(i))
      && (r.Raised? <==> compile(buf, path).LoadError?)
  {
    FailedReadPassesAsWritten(|FileData(archive, path)|);
  }

  /**
   The object count the source asks PHYSFS_read for: the size_t length is
   passed where a 32-bit count is expected, so only its low 32 bits arrive
   */
  function RequestedAsWritten(filelen: nat): (count: nat)
    ensures count < CountRange
    ensures filelen < CountRange ==> count == filelen
    ensures CountRange <= filelen ==> count < filelen
  {
    filelen % CountRange
  }

  /**
   A file of 4 GiB or more: whatever PHYSFS_read returns for the truncated
   request (it never reports more objects than it was asked for), the loader
   as written finds the read short and answers "not found", while the
   corrected loader compiles the file once it is read whole
   */
  lemma LargeFileNotFoundAsWritten<Chunk>(path: string, archive: Archive, got: int, stale: nat -> byte,
                                          compile: (seq<byte>, string) -> LoadStatus<Chunk>)
    requires IsFile(archive, path) && CountRange <= |FileData(archive, path)| < SizeRange / 2
    requires 0 <= got <= RequestedAsWritten(|FileData(archive, path)|)
    ensures FetchAsWritten(path, archive, true, got, stale, compile).NotFound?
    ensures !Fetch(path, archive, true, |FileData(archive, path)|, compile).NotFound?
  {
    var filelen := |FileData(archive, path)|;
    assert got < filelen;
    ShortReadAgreesOnCounts(got, filelen);
  }

  /** What one call of the loader answers for `name` */
  function Resolve<Chunk>(name: string, archive: Archive, opens: bool, got: int,
                          compile: (seq<byte>, string) -> LoadStatus<Chunk>): Outcome<Chunk> {
    Fetch(ChunkPath(archive, name), archive, opens, got, compile)
  }

  /** Some call in the trace allocated the buffer */
  predicate Allocated(calls: seq<Call>, b: Buffer) {
    exists i :: 0 <= i < |calls| && calls[i].Malloc? && calls[i].buffer == b
  }

  /** The loader's first calls: the path buffer, the stem probe, the path probe */
  function Probes(len: nat, stem: string, path: string): seq<Call> {
    [Malloc(Tokenized, len + Headroom), IsDirectoryCall(stem), ExistsCall(path)]
  }

  /** The calls the loader makes once it has asked whether `path` exists */
  function AfterProbes(path: string, archive: Archive, opens: bool, got: int): seq<Call> {
    if !Exists(archive, path) then
      [Free(Tokenized)]
    else if IsDirectory(archive, path) then
      [IsDirectoryCall(path), Free(Tokenized)]
    else if !opens then
      [IsDirectoryCall(path), OpenRead(path), Free(Tokenized)]
    else
      var filelen := |FileData(archive, path)|;
      var read := [IsDirectoryCall(path), OpenRead(path), FileLength, Malloc(Contents, filelen + 1), Read(filelen)];
      if ShortRead(got, filelen) then
        read + [Free(Tokenized), Free(Contents)]
      else
        read + [LoadBuffer(path, filelen), Free(Tokenized), Free(Contents)]
  }

  /**
   The calls one run of the loader makes, in order, for a name of C length
   len whose stem is `stem` and whose chunk path is `path`
   */
  function Calls(len: nat, stem: string, path: string, archive: Archive, opens: bool, got: int): seq<Call> {
    Probes(len, stem, path) + AfterProbes(path, archive, opens, got)
  }

  /** The calls the loader makes for `name` */
  function LoaderCalls(name: string, archive: Archive, opens: bool, got: int): seq<Call> {
    Calls(CString.Length(name), Stem(name), ChunkPath(archive, name), archive, opens, got)
  }

  /** After the existence probe, the only path the loader probes or opens is `path` */
  lemma AfterProbesUsePath(path: string, archive: Archive, opens: bool, got: int)
    ensures forall c :: c in AfterProbes(path, archive, opens, got) && (c.IsDirectoryCall? || c.OpenRead?) ==> c.path == path
  {
  }

  /** The stem is probed for a directory first, and only that once */
  lemma StemProbedOnce(len: nat, stem: string, path: string, archive: Archive, opens: bool, got: int)
    requires stem != path
    ensures var calls := Calls(len, stem, path, archive, opens, got);
      && |calls| >= 2
      && calls[0] == Malloc(Tokenized, len + Headroom)
      && calls[1] == IsDirectoryCall(stem)
      && forall i :: 0 <= i < |calls| && i != 1 ==> calls[i] != IsDirectoryCall(stem)
  {
    var after := AfterProbes(path, archive, opens, got);
    AfterProbesUsePath(path, archive, opens, got);
    var calls := Probes(len, stem, path) + after;
    forall i | 3 <= i < |calls| ensures calls[i] != IsDirectoryCall(stem) {
      assert calls[i] == after[i - 3];
      assert calls[i] in after;
    }
  }

  /** Nothing is opened unless the probes found a regular file at the path */
  lemma OpensOnlyFoundFile(len: nat, stem: string, path: string, archive: Archive, opens: bool, got: int)
    ensures var calls := Calls(len, stem, path, archive, opens, got);
      && (OpenRead(path) in calls <==> IsFile(archive, path))
      && (forall c :: c in calls && c.OpenRead? ==> c.path == path)
  {
  }

  /**
   The compiler is handed the whole file under the path, and is called
   exactly when the file was read whole (so exactly when Resolve's outcome
   is not "not found")
   */
  lemma CompilesWholeFile(len: nat, stem: string, path: string, archive: Archive, opens: bool, got: int)
    ensures var calls := Calls(len, stem, path, archive, opens, got);
      && (forall c :: c in calls && c.LoadBuffer? ==>
            IsFile(archive, path) && c == LoadBuffer(path, |FileData(archive, path)|))
      && ((exists c :: c in calls && c.LoadBuffer?) <==> FullyRead(archive, path, opens, got))
  {
    var calls := Calls(len, stem, path, archive, opens, got);
    if FullyRead(archive, path, opens, got) {
      assert calls[8] == LoadBuffer(path, |FileData(archive, path)|);
    }
  }

  /**
   The outcome and the trace agree: the loader answers "not found" exactly
   when it never called the compiler, and a raised error or a chunk always
   comes from compiling the file under the module's path
   */
  lemma OutcomeMatchesTrace<Chunk>(name: string, archive: Archive, opens: bool, got: int,
                                   compile: (seq<byte>, string) -> LoadStatus<Chunk>)
    ensures var r, calls := Resolve(name, archive, opens, got, compile), LoaderCalls(name, archive, opens, got);
      && (r.NotFound? <==> forall c :: c in calls ==> !c.LoadBuffer?)
      && (!r.NotFound? ==> LoadBuffer(ChunkPath(archive, name), |FileData(archive, ChunkPath(archive, name))|) in calls)
  {
    var path := ChunkPath(archive, name);
    CompilesWholeFile(CString.Length(name), Stem(name), path, archive, opens, got);
  }

  /** The frees that end the calls: the path buffer, and the contents buffer once the file is open */
  function Frees(path: string, archive: Archive, opens: bool): seq<Call> {
    if IsFile(archive, path) && opens then [Free(Tokenized), Free(Contents)] else [Free(Tokenized)]
  }

  /** The calls after the probes end with the frees, and none before them frees anything */
  lemma AfterProbesEndWithFrees(path: string, archive: Archive, opens: bool, got: int)
    ensures var after, frees := AfterProbes(path, archive, opens, got), Frees(path, archive, opens);
      && |frees| <= |after|
      && after == after[..|after| - |frees|] + frees
      && forall c :: c in after[..|after| - |frees|] ==> !c.Free?
  {
    var after, frees := AfterProbes(path, archive, opens, got), Frees(path, archive, opens);
    if !Exists(archive, path) {
      assert after[..|after| - |frees|] == [];
    } else if IsDirectory(archive, path) {
      assert after[..|after| - |frees|] == [IsDirectoryCall(path)];
    } else if !opens {
      assert after[..|after| - |frees|] == [IsDirectoryCall(path), OpenRead(path)];
    } else {
      var filelen := |FileData(archive, path)|;
      var read := [IsDirectoryCall(path), OpenRead(path), FileLength, Malloc(Contents, filelen + 1), Read(filelen)];
      if ShortRead(got, filelen) {
        assert after[..|after| - |frees|] == read;
      } else {
        assert after[..|after| - |frees|] == read + [LoadBuffer(path, filelen)];
      }
    }
  }

  /** Every run ends with its frees, and no call before them frees anything */
  lemma EndsWithFrees(len: nat, stem: string, path: string, archive: Archive, opens: bool, got: int)
    ensures var calls := Calls(len, stem, path, archive, opens, got);
      var frees := Frees(path, archive, opens);
      && |frees| <= |calls|
      && calls == calls[..|calls| - |frees|] + frees
      && forall c :: c in calls[..|calls| - |frees|] ==> !c.Free?
  {
    var probes, after, frees := Probes(len, stem, path), AfterProbes(path, archive, opens, got), Frees(path, archive, opens);
    AfterProbesEndWithFrees(path, archive, opens, got);
    var work := after[..|after| - |frees|];
    var calls := probes + after;
    assert calls[..|calls| - |frees|] == probes + work;
  }

  /** The path buffer is always allocated, the contents buffer exactly when the file was opened */
  lemma BuffersAllocated(len: nat, stem: string, path: string, archive: Archive, opens: bool, got: int)
    ensures var calls := Calls(len, stem, path, archive, opens, got);
      && Allocated(calls, Tokenized)
      && (Allocated(calls, Contents) <==> IsFile(archive, path) && opens)
  {
    var calls := Calls(len, stem, path, archive, opens, got);
    assert calls[0] == Malloc(Tokenized, len + Headroom);
    if IsFile(archive, path) && opens {
      assert calls[6] == Malloc(Contents, |FileData(archive, path)| + 1);
    } else {
      assert forall c :: c in calls && c.Malloc? ==> c.buffer == Tokenized;
    }
  }

  /**
   Each buffer allocated is freed exactly once, and after every other call,
   on all five exits: not found, not a file, open failed, short read, and
   after compiling (with or without an error)
   */
  lemma BuffersFreedOnce(len: nat, stem: string, path: string, archive: Archive, opens: bool, got: int)
    ensures var calls := Calls(len, stem, path, archive, opens, got);
      && (forall b :: multiset(calls)[Free(b)] == if Allocated(calls, b) then 1 else 0)
      && (forall i, j :: 0 <= i < j < |calls| && calls[i].Free? ==> calls[j].Free?)
  {
    var calls := Calls(len, stem, path, archive, opens, got);
    var frees := Frees(path, archive, opens);
    EndsWithFrees(len, stem, path, archive, opens, got);
    BuffersAllocated(len, stem, path, archive, opens, got);
    FreedOnceByShape(calls, calls[..|calls| - |frees|], frees);
  }

  /** A trace that frees exactly its allocated buffers, once each, in its last calls */
  lemma FreedOnceByShape(calls: seq<Call>, work: seq<Call>, frees: seq<Call>)
    requires calls == work + frees
    requires forall c :: c in work ==> !c.Free?
    requires Allocated(calls, Tokenized)
    requires frees == if Allocated(calls, Contents) then [Free(Tokenized), Free(Contents)] else [Free(Tokenized)]
    ensures forall b :: multiset(calls)[Free(b)] == if Allocated(calls, b) then 1 else 0
    ensures forall i, j :: 0 <= i < j < |calls| && calls[i].Free? ==> calls[j].Free?
  {
    forall b ensures multiset(calls)[Free(b)] == if Allocated(calls, b) then 1 else 0 {
      assert multiset(work + frees) == multiset(work) + multiset(frees);
      assert Free(b) !in work;
    }
  }

  /** The translated path is strictly longer than the stem it extends */
  lemma PathExtendsStem(archive: Archive, name: string)
    ensures |ChunkPath(archive, name)| > |Stem(name)|
  {
  }

  /** The loader itself: it answers Resolve's outcome by way of LoaderCalls' calls */
  method Load<Chunk>(name: string, archive: Archive, opens: bool, got: int,
                     compile: (seq<byte>, string) -> LoadStatus<Chunk>)
    returns (outcome: Outcome<Chunk>, calls: seq<Call>)
    ensures outcome == Resolve(name, archive, opens, got, compile)
    ensures calls == LoaderCalls(name, archive, opens, got)
  {
    var tokenized, len, stemIsDirectory := Tokenize(name, archive);
    var path := CString.Contents(tokenized[..]);
    var after;
    outcome, after := LoadPath(path, archive, opens, got, compile);
    calls := Probes(len, tokenized[..len], path) + after;
  }

  /**
   The loader from its existence probe on: probe, open, read and compile
   the file at `path`, freeing the path buffer and, once allocated, the
   contents buffer on the way out
   */
  method LoadPath<Chunk>(path: string, archive: Archive, opens: bool, got: int,
                         compile: (seq<byte>, string) -> LoadStatus<Chunk>)
    returns (outcome: Outcome<Chunk>, calls: seq<Call>)
    ensures outcome == Fetch(path, archive, opens, got, compile)
    ensures calls == AfterProbes(path, archive, opens, got)
  {
    // If it does not exist, or is not a file, give up
    if !Exists(archive, path) {
      return NotFound(NotFoundNote), [Free(Tokenized)];
    }
    if IsDirectory(archive, path) {
      return NotFound(NotFoundNote), [IsDirectoryCall(path), Free(Tokenized)];
    }

    // Try opening it
    if !opens {
      return NotFound(NotFoundNote), [IsDirectoryCall(path), OpenRead(path), Free(Tokenized)];
    }

    var data := archive[path].data;
    var filelen := |data|;
    var contents := new byte[filelen + 1];
    contents[filelen] := 0;

    // PHYSFS_read fills as many bytes as it reports, and no more than asked
    var copied := if got < 0 then 0 else if got < filelen then got else filelen;
    forall i | 0 <= i < copied {
      contents[i] := data[i];
    }
    var read := [IsDirectoryCall(path), OpenRead(path), FileLength, Malloc(Contents, filelen + 1), Read(filelen)];
    if ShortRead(got, filelen) {
      return NotFound(NotFoundNote), read + [Free(Tokenized), Free(Contents)];
    }

    assert contents[..filelen] == data;
    var status := compile(contents[..filelen], path);
    calls := read + [LoadBuffer(path, filelen), Free(Tokenized), Free(Contents)];
    match status
    case LoadError(message) =>
      outcome := Raised(message);
    case Compiled(chunk) =>
      outcome := Loaded(chunk);
  }

  /** A package directory resolves to its init.lua, and the chunk is named after that path */
  lemma PackageScenario<Chunk>(src: seq<byte>, compile: (seq<byte>, string) -> LoadStatus<Chunk>, chunk: Chunk)
    requires compile(src, "foo/bar/init.lua") == Compiled(chunk)
    ensures var archive := map["foo/bar" := Directory, "foo/bar/init.lua" := File(src)];
      Resolve("foo.bar", archive, true, |src|, compile) == Loaded(chunk)
  {
    var archive := map["foo/bar" := Directory, "foo/bar/init.lua" := File(src)];
    assert IsDirectory(archive, "foo/bar");
    DottedName(archive);
  }

  /** A module with neither a file nor a directory in the archive is not found, whatever the other oracles say */
  lemma MissingScenario<Chunk>(opens: bool, got: int, compile: (seq<byte>, string) -> LoadStatus<Chunk>)
    ensures Resolve("missing", map["other.lua" := File([])], opens, got, compile) == NotFound(NotFoundNote)
  {
    var archive := map["other.lua" := File([])];
    assert !IsDirectory(archive, "missing");
    DotFreeName(archive, "missing");
    assert !IsFile(archive, "missing.lua");
  }

  /** An empty file is read whole with a count of 0 and compiled as the empty chunk */
  lemma EmptyFileCompiles<Chunk>(name: string, archive: Archive, compile: (seq<byte>, string) -> LoadStatus<Chunk>)
    requires IsFile(archive, ChunkPath(archive, name))
    requires FileData(archive, ChunkPath(archive, name)) == []
    ensures var r := Resolve(name, archive, true, 0, compile);
      match compile([], ChunkPath(archive, name))
      case Compiled(chunk) => r == Loaded(chunk)
      case LoadError(message) => r == Raised(message)
  {
  }
}
