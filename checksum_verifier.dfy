/** `ChecksumDependencyVerifier`: decides whether a downloaded artifact is intact by comparing
    its checksum with a checksum file that is kept beside the local repository and, when
    absent, is prepared from the resolver's checksum location. */
module ChecksumVerifier {
  import opened Wrappers
  import opened Text
  import opened Dependencies
  import opened Results

  /** The exception a checksum download raises: it leaves `verify` as an `IOException`. */
  datatype IoError = DownloadFailed(url: Url)

  /** The collaborators, as functions: the dependency resolver, the output strategy's
      `selectFileFor`, the parent directory of a path, the fallback verifier, the checksum
      calculator (a function of the file's content) and the download of a URL (`None` when
      the connection fails). */
  datatype Collaborators = Collaborators(
    resolve: Dependency -> Option<ResolutionResult>,
    selectFileFor: Dependency -> string,
    parentOf: string -> string,
    fallbackVerify: (string, Dependency) -> bool,
    calculate: string -> string,
    download: Url -> Option<string>)

  /** The part of the file system the verifier touches: file contents by path and the
      directories that exist. A file's `length()` is the length of its content, 0 when the
      file does not exist. */
  datatype Disk = Disk(files: map<string, string>, directories: set<string>)

  function Length(disk: Disk, path: string): nat
  {
    if path in disk.files then |disk.files[path]| else 0
  }

  /** What a call answers (or the exception it raises) together with the disk it leaves. */
  datatype Verification = Verification(result: Result<bool, IoError>, disk: Disk)

  /** `getParentFile().mkdirs()`. */
  function MakeParent(c: Collaborators, disk: Disk, path: string): (after: Disk)
    ensures after.files == disk.files
    ensures after.directories == disk.directories + {c.parentOf(path)}
  {
    disk.(directories := disk.directories + {c.parentOf(path)})
  }

  /** `prepareChecksumFile(checksumFile, dependency)`. */
  function Prepared(c: Collaborators, disk: Disk, checksumFile: string, d: Dependency): (v: Verification)
    ensures v.result == Ok(false) <==> c.resolve(d).None?
    ensures v.result != Ok(true) ==> v.disk == disk
    ensures v.result == Ok(true) ==> checksumFile in v.disk.files
    ensures v.disk.directories == disk.directories
    ensures forall p :: p in disk.files && p != checksumFile ==> p in v.disk.files && v.disk.files[p] == disk.files[p]
  {
    match c.resolve(d)
    case None => Verification(Ok(false), disk)
    case Some(r) =>
      match r.checksumUrl
      case None =>
        var created := if checksumFile in disk.files then disk.files[checksumFile] else "";
        Verification(Ok(true), disk.(files := disk.files[checksumFile := created]))
      case Some(u) =>
        match c.download(u)
        case None => Verification(Err(DownloadFailed(u)), disk)
        case Some(content) => Verification(Ok(true), disk.(files := disk.files[checksumFile := content]))
  }

  /** `verify(file, dependency)`. */
  function Verified(c: Collaborators, disk: Disk, file: string, d: Dependency): (v: Verification)
  {
    if file !in disk.files then Verification(Ok(false), disk)
    else
      var checksumFile := c.selectFileFor(d);
      var made := MakeParent(c, disk, checksumFile);
      var prepared :=
        if checksumFile in made.files then Verification(Ok(true), made)
        else Prepared(c, made, checksumFile, d);
      if prepared.result.Err? then prepared
      else if !prepared.result.value then Verification(Ok(c.fallbackVerify(file, d)), prepared.disk)
      else if Length(prepared.disk, checksumFile) == 0 then Verification(Ok(c.fallbackVerify(file, d)), prepared.disk)
      else
        var actual := if file in prepared.disk.files then c.calculate(prepared.disk.files[file]) else c.calculate("");
        var expected := Trim(prepared.disk.files[checksumFile]);
        Verification(Ok(actual == expected), prepared.disk)
  }

  /** line 63: an artifact that does not exist is rejected and nothing is touched. */
  lemma MissingArtifactRejected(c: Collaborators, disk: Disk, file: string, d: Dependency)
    requires file !in disk.files
    ensures Verified(c, disk, file, d) == Verification(Ok(false), disk)
  {
  }

  /** line 67: with the checksum file already present, the resolver is not consulted, and the
      answer is the fallback's for an empty file and the trimmed comparison otherwise. */
  lemma ExistingChecksumFileUsed(c: Collaborators, disk: Disk, file: string, d: Dependency,
                                 other: Dependency -> Option<ResolutionResult>)
    requires file in disk.files && c.selectFileFor(d) in disk.files
    ensures Verified(c, disk, file, d) == Verified(c.(resolve := other), disk, file, d)
    ensures var content := disk.files[c.selectFileFor(d)];
      Verified(c, disk, file, d).result
      == Ok(if content == "" then c.fallbackVerify(file, d) else c.calculate(disk.files[file]) == Trim(content))
    ensures Verified(c, disk, file, d).disk == MakeParent(c, disk, c.selectFileFor(d))
  {
  }

  /** lines 67-69 and 93-95: with no checksum file and no resolution, the fallback decides and
      no file is created. */
  lemma UnresolvedFallsBack(c: Collaborators, disk: Disk, file: string, d: Dependency)
    requires file in disk.files && c.selectFileFor(d) !in disk.files
    requires c.resolve(d).None?
    ensures Verified(c, disk, file, d) == Verification(Ok(c.fallbackVerify(file, d)), MakeParent(c, disk, c.selectFileFor(d)))
  {
  }

  /** lines 99-101 and 71-73: a resolution without a checksum location leaves an empty
      checksum file behind, and the fallback decides. */
  lemma NoChecksumLocationFallsBack(c: Collaborators, disk: Disk, file: string, d: Dependency)
    requires file in disk.files && c.selectFileFor(d) !in disk.files
    requires c.resolve(d).Some? && c.resolve(d).value.checksumUrl.None?
    ensures var v := Verified(c, disk, file, d);
      && v.result == Ok(c.fallbackVerify(file, d))
      && c.selectFileFor(d) in v.disk.files && v.disk.files[c.selectFileFor(d)] == ""
  {
  }

  /** lines 103-106 and 75-81: a downloaded checksum is stored in the checksum file and the
      artifact's checksum is compared with it, trimmed; an empty download defers to the
      fallback, and a failed download raises. */
  lemma DownloadedChecksumCompared(c: Collaborators, disk: Disk, file: string, d: Dependency)
    requires file in disk.files && c.selectFileFor(d) !in disk.files
    requires c.resolve(d).Some? && c.resolve(d).value.checksumUrl.Some?
    ensures var u := c.resolve(d).value.checksumUrl.value;
      var v := Verified(c, disk, file, d);
      match c.download(u)
      case None => v.result == Err(DownloadFailed(u)) && v.disk == MakeParent(c, disk, c.selectFileFor(d))
      case Some(content) =>
        && v.disk.files == disk.files[c.selectFileFor(d) := content]
        && v.result == Ok(if content == "" then c.fallbackVerify(file, d) else c.calculate(disk.files[file]) == Trim(content))
  {
  }

  /** A verification that does not raise leaves a disk on which verifying again gives the same
      answer and changes nothing: the checksum file, once prepared, is reused. */
  lemma {:induction false} VerifyIdempotent(c: Collaborators, disk: Disk, file: string, d: Dependency)
    requires Verified(c, disk, file, d).result.Ok?
    ensures var v := Verified(c, disk, file, d);
      Verified(c, v.disk, file, d) == v
  {
    var v := Verified(c, disk, file, d);
    if file in disk.files {
      var checksumFile := c.selectFileFor(d);
      var made := MakeParent(c, disk, checksumFile);
      assert made.directories + {c.parentOf(checksumFile)} == made.directories;
      if checksumFile !in disk.files {
        var prepared := Prepared(c, made, checksumFile, d);
        if prepared.result == Ok(true) {
          assert v.disk == prepared.disk;
          assert MakeParent(c, v.disk, checksumFile) == v.disk;
          assert file in v.disk.files && v.disk.files[file] == prepared.disk.files[file];
        }
      } else {
        assert MakeParent(c, made, checksumFile) == made;
      }
    }
  }

  /** The file system, updated in place by the verifier. */
  class FileSystem {
    var files: map<string, string>
    var directories: set<string>

    constructor (files: map<string, string>, directories: set<string>)
      ensures this.files == files && this.directories == directories
    {
      this.files := files;
      this.directories := directories;
    }

    function Snapshot(): Disk
      reads this
    {
      Disk(files, directories)
    }

    method Exists(path: string) returns (b: bool)
      ensures b <==> path in files
    {
      b := path in files;
    }

    /** `File.length()`. */
    method FileLength(path: string) returns (n: nat)
      ensures n == Length(Snapshot(), path)
    {
      n := if path in files then |files[path]| else 0;
    }

    /** `Files.readAllBytes` decoded as a string; a missing file reads as empty. */
    method Read(path: string) returns (content: string)
      ensures content == if path in files then files[path] else ""
    {
      content := if path in files then files[path] else "";
    }

    method Mkdirs(dir: string)
      modifies this
      ensures files == old(files) && directories == old(directories) + {dir}
    {
      directories := directories + {dir};
    }

    /** `File.createNewFile()`: an empty file unless one exists already. */
    method CreateNewFile(path: string)
      modifies this
      ensures files == if path in old(files) then old(files) else old(files)[path := ""]
      ensures directories == old(directories)
    {
      if path !in files {
        files := files[path := ""];
      }
    }

    /** `OutputWriter.writeFrom`: the file's content becomes `content`. */
    method Write(path: string, content: string)
      modifies this
      ensures files == old(files)[path := content] && directories == old(directories)
    {
      files := files[path := content];
    }
  }

  class ChecksumDependencyVerifier {
    const collaborators: Collaborators
    const fileSystem: FileSystem

    constructor (collaborators: Collaborators, fileSystem: FileSystem)
      ensures this.collaborators == collaborators && this.fileSystem == fileSystem
    {
      this.collaborators := collaborators;
      this.fileSystem := fileSystem;
    }

    method Verify(file: string, dependency: Dependency) returns (result: Result<bool, IoError>)
      modifies fileSystem
      ensures Verification(result, fileSystem.Snapshot()) == Verified(collaborators, old(fileSystem.Snapshot()), file, dependency)
    {
      var found := fileSystem.Exists(file);
      if !found {
        return Ok(false);
      }
      var checksumFile := GetChecksumFile(dependency);
      var present := fileSystem.Exists(checksumFile);
      if !present {
        var prepared := PrepareChecksumFile(checksumFile, dependency);
        if prepared.Err? {
          return Err(prepared.error);
        }
        if !prepared.value {
          return Ok(collaborators.fallbackVerify(file, dependency));
        }
      }
      var length := fileSystem.FileLength(checksumFile);
      if length == 0 {
        return Ok(collaborators.fallbackVerify(file, dependency));
      }
      var artifact := fileSystem.Read(file);
      var actualChecksum := collaborators.calculate(artifact);
      var stored := fileSystem.Read(checksumFile);
      var expectedChecksum := Trim(stored);
      return Ok(actualChecksum == expectedChecksum);
    }

    /** `getChecksumFile`: the output strategy's file for the dependency, with its parent
        directory created. */
    method GetChecksumFile(dependency: Dependency) returns (checksumFile: string)
      modifies fileSystem
      ensures checksumFile == collaborators.selectFileFor(dependency)
      ensures fileSystem.Snapshot() == MakeParent(collaborators, old(fileSystem.Snapshot()), checksumFile)
    {
      checksumFile := collaborators.selectFileFor(dependency);
      fileSystem.Mkdirs(collaborators.parentOf(checksumFile));
    }

    method PrepareChecksumFile(checksumFile: string, dependency: Dependency) returns (result: Result<bool, IoError>)
      modifies fileSystem
      ensures Verification(result, fileSystem.Snapshot()) == Prepared(collaborators, old(fileSystem.Snapshot()), checksumFile, dependency)
    {
      var resolved := collaborators.resolve(dependency);
      if resolved.None? {
        return Ok(false);
      }
      var checkSumUrl := resolved.value.checksumUrl;
      if checkSumUrl.None? {
        fileSystem.CreateNewFile(checksumFile);
        return Ok(true);
      }
      var downloaded := collaborators.download(checkSumUrl.value);
      if downloaded.None? {
        return Err(DownloadFailed(checkSumUrl.value));
      }
      fileSystem.Write(checksumFile, downloaded.value);
      return Ok(true);
    }
  }
}
