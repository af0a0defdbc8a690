/**
 Translation of a `require` name into the archive path the loader probes:
 every '.' becomes '/', and the suffix is "/init.lua" when the translated
 stem is a directory of the archive, ".lua" otherwise.
 */
module ModulePath {
  import opened Vfs
  import CString

  const InitSuffix := "/init.lua"
  const FileSuffix := ".lua"

  /** The loader allocates the name's length plus this many characters */
  const Headroom := 10

  function Separator(c: char): char {
    if c == '.' then '/' else c
  }

  /** The name with every '.' replaced by '/', character for character */
  function Slashed(s: string): (r: string)
    ensures |r| == |s|
    ensures forall i :: 0 <= i < |s| ==> r[i] == Separator(s[i])
  {
    if s == [] then [] else [Separator(s[0])] + Slashed(s[1..])
  }

  /** The translated stem of a module name, as far as C sees the name */
  function Stem(name: string): string {
    Slashed(CString.Contents(name))
  }

  function Suffix(isDirectory: bool): string {
    if isDirectory then InitSuffix else FileSuffix
  }

  /** The one path the loader tries for a module name (also the chunk's name) */
  function ChunkPath(archive: Archive, name: string): string {
    var stem := Stem(name);
    stem + Suffix(IsDirectory(archive, stem))
  }

  /**
   The name is copied into a fresh buffer of its length plus Headroom, the
   dots are replaced in place, the stem is probed once with isDirectory and
   the suffix is copied behind it. The buffer then holds the chunk path,
   NUL-terminated, within its bounds.
   */
  method Tokenize(name: string, archive: Archive)
    returns (tokenized: array<char>, len: nat, stemIsDirectory: bool)
    ensures len == CString.Length(name)
    ensures tokenized.Length == len + Headroom
    ensures tokenized[..len] == Stem(name)
    ensures stemIsDirectory == IsDirectory(archive, Stem(name))
    ensures |ChunkPath(archive, name)| < tokenized.Length
    ensures CString.Contents(tokenized[..]) == ChunkPath(archive, name)
  {
    len := CString.Length(name);
    tokenized := new char[len + Headroom];
    // strcpy(tokenized, module_name) and the explicit terminator
    forall i | 0 <= i < len {
      tokenized[i] := name[i];
    }
    tokenized[len] := CString.NUL;

    var i := 0;
    while i < len
      invariant 0 <= i <= len
      invariant forall k :: 0 <= k < i ==> tokenized[k] == Separator(name[k])
      invariant forall k :: i <= k < len ==> tokenized[k] == name[k]
      invariant tokenized[len] == CString.NUL
    {
      if tokenized[i] == '.' {
        tokenized[i] := '/';
      }
      i := i + 1;
    }

    ghost var stem := Stem(name);
    assert tokenized[..len] == stem by {
      assert CString.Contents(name) == name[..len];
    }
    assert CString.NulFree(stem);
    CString.ContentsOfBuffer(tokenized[..], stem);
    stemIsDirectory := IsDirectory(archive, CString.Contents(tokenized[..]));

    var suffix := Suffix(stemIsDirectory);
    WriteSuffix(tokenized, len, suffix);
    SuffixNulFree(stemIsDirectory);
    CString.ContentsOfJoined(tokenized[..], stem, suffix);
  }

  lemma SuffixNulFree(isDirectory: bool)
    ensures CString.NulFree(Suffix(isDirectory))
    ensures |Suffix(isDirectory)| < Headroom
  {
  }

  /** strcpy(tokenized + len, suffix) */
  method WriteSuffix(tokenized: array<char>, len: nat, suffix: string)
    requires len + |suffix| < tokenized.Length
    modifies tokenized
    ensures tokenized[..len] == old(tokenized[..len])
    ensures tokenized[len..len + |suffix|] == suffix
    ensures tokenized[len + |suffix|] == CString.NUL
    ensures tokenized[len + |suffix| + 1..] == old(tokenized[len + |suffix| + 1..])
  {
    forall j | 0 <= j < |suffix| {
      tokenized[len + j] := suffix[j];
    }
    tokenized[len + |suffix|] := CString.NUL;
  }

  /** A name without dots (and without NUL) is its own stem */
  lemma DotFreeName(archive: Archive, name: string)
    requires CString.NulFree(name)
    requires forall i :: 0 <= i < |name| ==> name[i] != '.'
    ensures Stem(name) == name
    ensures IsDirectory(archive, name) ==> ChunkPath(archive, name) == name + "/init.lua"
    ensures !IsDirectory(archive, name) ==> ChunkPath(archive, name) == name + ".lua"
  {
    CString.ContentsOfNulFree(name);
    assert Slashed(name) == name;
  }

  /** The root module "." translates to the stem "/" */
  lemma RootName(archive: Archive)
    ensures Stem(".") == "/"
    ensures IsDirectory(archive, "/") ==> ChunkPath(archive, ".") == "//init.lua"
    ensures !IsDirectory(archive, "/") ==> ChunkPath(archive, ".") == "/.lua"
  {
    CString.ContentsOfNulFree(".");
    assert Slashed(".") == "/";
  }

  /** Each dot of a dotted name becomes a directory separator */
  lemma DottedStem()
    ensures Stem("foo.bar") == "foo/bar"
  {
    CString.ContentsOfNulFree("foo.bar");
    forall i | 0 <= i < 7 ensures Slashed("foo.bar")[i] == "foo/bar"[i] {
    }
  }

  /** A dotted name resolves below the directory its prefix names */
  lemma DottedName(archive: Archive)
    ensures IsDirectory(archive, "foo/bar") ==> ChunkPath(archive, "foo.bar") == "foo/bar/init.lua"
    ensures !IsDirectory(archive, "foo/bar") ==> ChunkPath(archive, "foo.bar") == "foo/bar.lua"
  {
    DottedStem();
  }

  /** Translation leaves no dot behind and is idempotent */
  lemma SlashedIsIdempotent(s: string)
    ensures forall i :: 0 <= i < |Slashed(s)| ==> Slashed(s)[i] != '.'
    ensures Slashed(Slashed(s)) == Slashed(s)
  {
  }
}
