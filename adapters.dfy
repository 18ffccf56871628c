/** The file system seen by `main`, and `FakeFileSystem`: an in-memory file
    table with a log of every operation, in call order. */
module Adapters {
  import opened Wrappers
  import opened Paths

  datatype IoError = NotFound

  /** The log line of a read. */
  function ReadEntry(path: Path): string {
    "read: `" + Display(path) + "`"
  }

  /** The log line of a write. */
  function WriteEntry(path: Path): string {
    "write: `" + Display(path) + "`"
  }

  class FakeFileSystem {
    var files: map<Path, string>
    var operations: seq<string>

    /** `FakeFileSystem::new()`: no files, nothing logged. */
    constructor ()
      ensures files == map[] && operations == []
    {
      files := map[];
      operations := [];
    }

    /** `read_to_string`: logs the read, then returns the stored contents
        or `NotFound`; the files are left alone. */
    method ReadToString(path: Path) returns (r: Result<string, IoError>)
      modifies this
      ensures files == old(files)
      ensures operations == old(operations) + [ReadEntry(path)]
      ensures path in files ==> r == Ok(files[path])
      ensures path !in files ==> r == Err(NotFound)
    {
      operations := operations + [ReadEntry(path)];
      if path in files {
        r := Ok(files[path]);
      } else {
        r := Err(NotFound);
      }
    }

    /** `write`: logs the write and stores the contents; it never fails. */
    method Write(path: Path, contents: string) returns (r: Result<(), IoError>)
      modifies this
      ensures operations == old(operations) + [WriteEntry(path)]
      ensures files == old(files)[path := contents]
      ensures r == Ok(())
    {
      operations := operations + [WriteEntry(path)];
      files := files[path := contents];
      r := Ok(());
    }
  }

  /** A read after a write to the same path returns what was written, and
      the log holds both operations in call order. */
  method WriteThenRead(fs: FakeFileSystem, path: Path, contents: string) returns (r: Result<string, IoError>)
    modifies fs
    ensures r == Ok(contents)
    ensures fs.files == old(fs.files)[path := contents]
    ensures fs.operations == old(fs.operations) + [WriteEntry(path), ReadEntry(path)]
  {
    var _ := fs.Write(path, contents);
    r := fs.ReadToString(path);
  }
}
