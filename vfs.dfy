/**
 The read-only archive the executable mounts at its root, as the loader sees it
 through PhysicsFS: a path either names nothing, a directory, or a regular file
 with its bytes. Paths are the exact strings the loader hands over.
 */
module Vfs {

  newtype byte = b: int | 0 <= b < 256

  datatype Node = Directory | File(data: seq<byte>)

  type Archive = map<string, Node>

  /** PHYSFS_exists */
  predicate Exists(archive: Archive, path: string) {
    path in archive
  }

  /** PHYSFS_isDirectory: false for a path that does not exist */
  predicate IsDirectory(archive: Archive, path: string) {
    path in archive && archive[path].Directory?
  }

  /** A path that exists and is not a directory: what openRead may open */
  predicate IsFile(archive: Archive, path: string) {
    path in archive && archive[path].File?
  }

  /** The bytes of a regular file; PHYSFS_fileLength is their count */
  function FileData(archive: Archive, path: string): seq<byte>
    requires IsFile(archive, path)
  {
    archive[path].data
  }
}
