/** `FileText::parse`: a text file is accepted only under its expected file
    name, and then read through the file system. */
module FileText {
  import opened Wrappers
  import opened Paths
  import opened RetCodes
  import opened Adapters

  /** `GitIgnore::EXPECTED_FILENAME` */
  const GitignoreName := ".gitignore"
  /** `ReadMe::EXPECTED_FILENAME` */
  const ReadmeName := "README.md"

  /** `file_name().and_then(to_str).unwrap_or("Invalid basename")` */
  function Basename(path: Path): string {
    match FileName(path)
    case Some(name) => name
    case None => "Invalid basename"
  }

  /** The name check accepts a path exactly when its final component is the
      expected name; a path without a file name is never accepted. */
  lemma BasenameMatches(path: Path, expected: string)
    requires expected == GitignoreName || expected == ReadmeName
    ensures Basename(path) == expected <==> |path| > 0 && path[|path| - 1] == expected
  {
  }

  /** `parse`: a wrong basename fails with `InvalidFilename` before any read;
      otherwise one read, which fails with `FailedParsingFile` or yields the
      contents unchanged. */
  method Parse(fs: FakeFileSystem, path: Path, expected: string) returns (r: Result<string, RetCode>)
    modifies fs
    ensures fs.files == old(fs.files)
    ensures Basename(path) != expected ==> r == Err(InvalidFilename) && fs.operations == old(fs.operations)
    ensures Basename(path) == expected ==> fs.operations == old(fs.operations) + [ReadEntry(path)]
    ensures Basename(path) == expected && path in fs.files ==> r == Ok(fs.files[path])
    ensures Basename(path) == expected && path !in fs.files ==> r == Err(FailedParsingFile)
  {
    if Basename(path) != expected {
      return Err(InvalidFilename);
    }
    var contents := fs.ReadToString(path);
    match contents
    case Ok(text) => r := Ok(text);
    case Err(_) => r := Err(FailedParsingFile);
  }
}
