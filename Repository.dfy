/** The pure decisions of the archive controller: path handling, the
    repository-validity probe, constructor path disambiguation, which external
    steps teardown runs, and which container each (de)compression step uses.
    It also fixes the vocabulary the controller speaks: the external steps it
    runs and the host it runs them on. */
module Repository {
  import opened Results
  import opened Errors
  import opened Negotiation
  import opened TagRegistry

  type Path = string

  /** `dir / name`. */
  function Join(dir: Path, name: string): Path {
    dir + "/" + name
  }

  /** A path as it reaches a command line; an absent path prints as "None". */
  function PathStr(p: Option<Path>): Path {
    if p.Some? then p.value else "None"
  }

  /** Name of the temporary repository inside the scratch directory. */
  const TempRepoName := "borg-repo"
  /** The backup engine's lock file inside a repository. */
  const LockFile := "lock.roster"

  // ---------------------------------------------------------------------------
  // The repository-validity probe

  /** What `borg init <path> --encryption none` reported. */
  datatype ProbeResult = ProbeResult(returnCode: int, stderr: string)

  /** The start of the engine's refusal to initialise over a repository. */
  const RepoExistsPrefix := "A repository already exists at"

  /** A path is taken to be a repository exactly when initialising one there
      fails with status 2 and the refusal message; a successful initialisation
      or any other failure means it was not one. */
  predicate DirIsRepo(probe: ProbeResult): (isRepo: bool)
    ensures isRepo <==> probe.returnCode == 2 && RepoExistsPrefix <= probe.stderr
  {
    if probe.returnCode == 0 then false
    else probe.returnCode == 2 && RepoExistsPrefix <= probe.stderr
  }

  /** The engine's refusal for an existing repository is recognised, whatever
      the path, and a successful initialisation never is. */
  lemma ProbeRecognisesRefusal(path: Path, message: string)
    ensures DirIsRepo(ProbeResult(2, RepoExistsPrefix + " " + path + "." + message))
    ensures !DirIsRepo(ProbeResult(0, message))
  {
    var stderr := RepoExistsPrefix + " " + path + "." + message;
    assert stderr[..|RepoExistsPrefix|] == RepoExistsPrefix;
  }

  /** Any other status, or a reworded message, reads as "not a repository". */
  lemma ProbeRejectsOtherwise(probe: ProbeResult)
    requires probe.returnCode != 2 || !(RepoExistsPrefix <= probe.stderr)
    ensures !DirIsRepo(probe)
  {
  }

  // ---------------------------------------------------------------------------
  // Constructor path disambiguation

  function Slot(p: Option<Path>): multiset<Path> {
    if p.Some? then multiset{p.value} else multiset{}
  }

  /** The (archive path, repository path) pair a controller is bound to: a
      first path that is an existing directory, given without a repository
      path, is the repository and leaves the archive slot empty. */
  function ResolvePaths(archiveOrRepoPath: Option<Path>, repoPath: Option<Path>, dirs: set<Path>)
    : (r: (Option<Path>, Option<Path>))
    ensures r.0.None? <==> archiveOrRepoPath.None? || (archiveOrRepoPath.value in dirs && repoPath.None?)
    ensures r.0.Some? ==> r == (archiveOrRepoPath, repoPath)
    ensures r.1.Some? <==> repoPath.Some? || (archiveOrRepoPath.Some? && archiveOrRepoPath.value in dirs)
    ensures Slot(r.0) + Slot(r.1) == Slot(archiveOrRepoPath) + Slot(repoPath)
  {
    if archiveOrRepoPath.Some? && archiveOrRepoPath.value in dirs && repoPath.None? then
      (None, archiveOrRepoPath)
    else
      (archiveOrRepoPath, repoPath)
  }

  // ---------------------------------------------------------------------------
  // External steps and the host they run on

  /** How an archive file wraps a repository directory. */
  datatype Container = SquashfsImage | TarThrough(filter: string)

  /** One invocation of external tools, with the paths it acts on. */
  datatype Step =
    | BorgInit(repo: Path, encryption: string, options: seq<string>)
    | BorgCreate(repo: Path, tag: string, source: Path)
    | BorgExtract(repo: Path, tag: string, into: Path)
    | BorgMount(repo: Path, tag: string, mountDir: Path)
    | BorgUmount(mountDir: Path)
    | Compress(container: Container, repo: Path, archive: Path)
    | Decompress(container: Container, archive: Path, repo: Path)
    | WriteSidecar(mountDir: Path, repo: Path)
      // Best-effort steps, whose failures are reported and ignored:
    | LoopUmount(path: Path)
    | UmountSquashfs(path: Path)
    | DeleteRepo(repo: Path)
    | CleanupBorgFiles(repo: Path)
      // File-system removals:
    | RemoveTree(path: Path)
    | RemoveSidecar(mountDir: Path)

  /** The world outside the process, as one operation sees it. */
  datatype Host = Host(
    commands: set<string>,                  // command names found on the search path
    dirs: set<Path>,                        // existing directories
    files: map<Path, seq<Byte>>,            // existing regular files and their leading bytes
    sidecars: map<Path, Path>,              // mount directory -> repository path in its ".borg-repo" file
    probe: Path -> ProbeResult,             // outcome of the validity probe on each path
    listing: Path -> Option<seq<string>>,   // snapshot names listed per repository; None when listing fails
    succeeds: Step -> bool                  // whether a step exits with status 0
  )

  function LastStep(ran: seq<Step>): Step
    requires ran != []
  {
    ran[|ran| - 1]
  }

  // ---------------------------------------------------------------------------
  // Tag resolution

  /** An absent or empty tag means "the most recent one". */
  predicate NoTag(tag: Option<string>) {
    tag.None? || tag.value == ""
  }

  /** The snapshot that extract and mount act on, or None when it cannot be
      determined (the listing failed or is empty). */
  function ResolveTag(tag: Option<string>, listing: Option<seq<string>>): (r: Option<string>)
    ensures !NoTag(tag) ==> r == tag
    ensures NoTag(tag) ==> (r.Some? <==> listing.Some? && listing.value != [])
    ensures NoTag(tag) && r.Some? ==> Success(r.value) == MostRecentTag(listing.value)
  {
    if !NoTag(tag) then tag
    else if listing.None? then None
    else
      var latest := MostRecentTag(listing.value);
      if latest.Failure? then None else Some(latest.value)
  }

  // ---------------------------------------------------------------------------
  // Teardown

  /** The steps that leaving an operation's scope runs: nothing while an
      archive is mounted; otherwise unmount the loop mount if there is one,
      delete the repository if it is temporary, and always remove the scratch
      directory, in that order. */
  function Teardown(isMounted: bool, sqfsIsMounted: bool, borgDirIsTemp: bool, borgDir: Path, tempDir: Path)
    : (steps: seq<Step>)
    ensures isMounted ==> steps == []
    ensures !isMounted ==>
              |steps| == (if sqfsIsMounted then 1 else 0) + (if borgDirIsTemp then 1 else 0) + 1
    ensures !isMounted ==> steps != [] && steps[|steps| - 1] == RemoveTree(tempDir)
    ensures LoopUmount(borgDir) in steps <==> !isMounted && sqfsIsMounted
    ensures DeleteRepo(borgDir) in steps <==> !isMounted && borgDirIsTemp
    ensures forall i :: 0 <= i < |steps| ==>
              || (steps[i] == LoopUmount(borgDir) && i == 0)
              || (steps[i] == DeleteRepo(borgDir) && i <= 1)
              || (steps[i] == RemoveTree(tempDir) && i == |steps| - 1)
  {
    if isMounted then []
    else
      (if sqfsIsMounted then [LoopUmount(borgDir)] else [])
      + (if borgDirIsTemp then [DeleteRepo(borgDir)] else [])
      + [RemoveTree(tempDir)]
  }

  // ---------------------------------------------------------------------------
  // Choosing containers

  /** The step that writes repository `repo` into the archive file `archive`:
      a squashfs image when mksquashfs is available, otherwise a tar stream
      through the preferred compressor. Without a compressor that is a
      missing-command error; without an archive path the tar stream has no
      file to go to, an archive error raised before anything runs. The
      squashfs command is given the path as text, so an absent path is
      written to a file named "None". */
  function CompressStep(available: set<string>, repo: Path, archive: Option<Path>): (r: Result<Step, Error>)
    ensures r.Success? ==> r.value.Compress? && r.value.repo == repo && r.value.archive == PathStr(archive)
    ensures r.Success? ==> (r.value.container == SquashfsImage <==> "mksquashfs" in available)
    ensures r.Success? && r.value.container.TarThrough? ==>
              exists i :: 0 <= i < |TarCompressors|
                && TarCompressors[i].tool in available
                && (forall j :: 0 <= j < i ==> TarCompressors[j].tool !in available)
                && r.value.container.filter == TarCompressors[i].compress
    ensures r.Failure? <==>
              "mksquashfs" !in available && (archive.None? || forall c :: c in TarCompressors ==> c.tool !in available)
    ensures r.Failure? ==>
              if forall c :: c in TarCompressors ==> c.tool !in available
              then r.error == CommandNotFoundError(["zstd", "pigz", "gzip"])
              else r.error == ArchiveError
  {
    var archiver := BestArchiver(None, map[], available);
    WriteFormatByTools(map[], available);
    if archiver == "tar" then
      match BestCompressor("tar", available)
      case Success(cmds) =>
        if archive.None? then Failure(ArchiveError)
        else Success(Compress(TarThrough(cmds.0), repo, archive.value))
      case Failure(e) => Failure(e)
    else
      Success(Compress(SquashfsImage, repo, PathStr(archive)))
  }

  /** Whether archive file `archive` is read as a squashfs image: by its
      leading bytes when there is a path, by the installed tools when not. */
  predicate ReadsAsSquashfs(files: map<Path, seq<Byte>>, available: set<string>, archive: Option<Path>) {
    if archive.Some? then archive.value in files && HasSquashfsMagic(files[archive.value])
    else "mksquashfs" in available
  }

  /** The step that unpacks archive file `archive` into directory `repo`: a
      squashfs image when it reads as one, otherwise a tar stream through the
      decompressor of the best compressor available now. Without a
      compressor that is a missing-command error; without an archive path, or
      when the path is not an existing regular file, the tar stream has no
      file to read, an expand error raised before anything runs. */
  function DecompressStep(files: map<Path, seq<Byte>>, available: set<string>, archive: Option<Path>, repo: Path)
    : (r: Result<Step, Error>)
    ensures r.Success? ==> r.value.Decompress? && r.value.archive == PathStr(archive) && r.value.repo == repo
    ensures r.Success? ==> (r.value.container == SquashfsImage <==> ReadsAsSquashfs(files, available, archive))
    ensures r.Success? && r.value.container.TarThrough? ==>
              BestCompressor("tar", available).Success?
              && r.value.container.filter == BestCompressor("tar", available).value.1
    ensures r.Failure? <==>
              !ReadsAsSquashfs(files, available, archive)
              && (archive.None? || archive.value !in files || BestCompressor("tar", available).Failure?)
    ensures r.Failure? ==>
              if BestCompressor("tar", available).Failure?
              then r.error == CommandNotFoundError(["zstd", "pigz", "gzip"])
              else r.error == ExpandError
  {
    var archiver := BestArchiver(archive, files, available);
    ReadFormatByContent(PathStr(archive), files, available);
    WriteFormatByTools(files, available);
    if archiver == "tar" then
      match BestCompressor("tar", available)
      case Success(cmds) =>
        if archive.None? || archive.value !in files then Failure(ExpandError)
        else Success(Decompress(TarThrough(cmds.1), archive.value, repo))
      case Failure(e) => Failure(e)
    else
      Success(Decompress(SquashfsImage, PathStr(archive), repo))
  }
}
