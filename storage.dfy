/**
 * The storage abstraction the index is built on: a directory of named files.
 *
 * The backends themselves (in memory, memory-mapped files) are not part of this model;
 * a Directory is their common observable state: the content of every file, and the
 * ordered log of the durability syncs that were requested.
 */
module Storage {
  import opened Wrappers
  import opened Hex
  import opened SegmentAddressing

  /** The errors the storage layer reports. */
  datatype IoError =
    | NotFound(path: Path)   // the file to read or sync does not exist
    | InvalidData            // a file's content does not decode

  /** One requested durability step. */
  datatype SyncEvent = FileSync(path: Path) | DirectorySync

  /** A sequential write handle on one file. */
  datatype WritePtr = WritePtr(path: Path)

  class Directory {
    var files: map<Path, seq<byte>>
    var syncLog: seq<SyncEvent>

    /** A fresh, empty directory, as an in-memory backend starts. */
    constructor Empty()
      ensures files == map[] && syncLog == []
    {
      files := map[];
      syncLog := [];
    }

    /** The whole content of a file, or NotFound if it does not exist. */
    function OpenRead(path: Path): (r: Result<seq<byte>, IoError>)
      reads this
      ensures r.Ok? <==> path in files
      ensures r.Ok? ==> r.value == files[path]
      ensures r.Err? ==> r.error == NotFound(path)
    {
      if path in files then Ok(files[path]) else Err(NotFound(path))
    }

    /** Creates the file, or truncates it if it exists, and returns a handle on it. */
    method OpenWrite(path: Path) returns (w: WritePtr)
      modifies this
      ensures w.path == path
      ensures files == old(files)[path := []]
      ensures syncLog == old(syncLog)
    {
      files := files[path := []];
      w := WritePtr(path);
    }

    /** Replaces the whole content of a file in one step. */
    method AtomicWrite(path: Path, data: seq<byte>)
      modifies this
      ensures files == old(files)[path := data]
      ensures syncLog == old(syncLog)
    {
      files := files[path := data];
    }

    /** Requests durability of one file; a file that does not exist cannot be synced. */
    method Sync(path: Path) returns (r: Outcome<IoError>)
      modifies this`syncLog
      ensures path in files ==> r == Pass && syncLog == old(syncLog) + [FileSync(path)]
      ensures path !in files ==> r == Fail(NotFound(path)) && syncLog == old(syncLog)
    {
      if path in files {
        syncLog := syncLog + [FileSync(path)];
        r := Pass;
      } else {
        r := Fail(NotFound(path));
      }
    }

    /** Requests durability of the directory's own entries. */
    method SyncDirectory()
      modifies this`syncLog
      ensures syncLog == old(syncLog) + [DirectorySync]
    {
      syncLog := syncLog + [DirectorySync];
    }
  }
}
