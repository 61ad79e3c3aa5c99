/** The archive controller: one object bound to an archive file and/or a
    repository directory, used for the duration of one operation. Entering
    its scope creates a scratch directory and settles whether the working
    repository is temporary; leaving it tears down whatever is temporary
    unless an archive was left mounted. Each operation returns the external
    steps it ran, in order; their outcomes come from the `Host`. */
module Controller {
  import opened Results
  import opened Errors
  import opened Negotiation
  import opened TagRegistry
  import opened Repository
  import opened Execution
  import opened Plans

  class BorgArchive {
    var archivePath: Option<Path>
    var borgDir: Option<Path>
    var borgDirIsTemp: bool
    var tempDir: Option<Path>
    var isMounted: bool
    var sqfsIsMounted: bool

    /** The scope has been entered: a scratch directory exists. */
    predicate Entered()
      reads this
    {
      tempDir.Some?
    }

    /** Binds the paths; an existing directory given alone is the repository. */
    constructor(archiveOrRepoPath: Option<Path>, repoPath: Option<Path>, dirs: set<Path>)
      ensures (archivePath, borgDir) == ResolvePaths(archiveOrRepoPath, repoPath, dirs)
      ensures tempDir == None && !isMounted && !sqfsIsMounted && !borgDirIsTemp
    {
      var paths := ResolvePaths(archiveOrRepoPath, repoPath, dirs);
      archivePath := paths.0;
      borgDir := paths.1;
      borgDirIsTemp := false;
      tempDir := None;
      isMounted := false;
      sqfsIsMounted := false;
    }

    /** Construction as a whole: bind the paths, then insist on the required
        commands, failing with the first missing one. */
    static method Open(archiveOrRepoPath: Option<Path>, repoPath: Option<Path>, host: Host)
      returns (r: Result<BorgArchive, Error>)
      ensures r.Failure? <==> exists c :: c in RequiredCommands && c !in host.commands
      ensures r.Failure? ==> r.error.CommandNotFoundError?
      ensures r.Success? ==> fresh(r.value)
      ensures r.Success? ==> (r.value.archivePath, r.value.borgDir) == ResolvePaths(archiveOrRepoPath, repoPath, host.dirs)
      ensures r.Success? ==> r.value.tempDir == None && !r.value.isMounted && !r.value.sqfsIsMounted
    {
      var archive := new BorgArchive(archiveOrRepoPath, repoPath, host.dirs);
      var checked := CheckRequiredCommands(host.commands);
      if checked.Fail? {
        return Failure(checked.error);
      }
      return Success(archive);
    }

    /** Entering the scope: the scratch directory is `scratch`. A supplied
        repository must pass the validity probe and is then persistent; with
        none, a temporary repository inside the scratch directory is used. */
    method Enter(scratch: Path, host: Host) returns (r: Outcome<Error>)
      modifies this
      ensures tempDir == Some(scratch)
      ensures archivePath == old(archivePath) && isMounted == old(isMounted) && sqfsIsMounted == old(sqfsIsMounted)
      ensures old(borgDir).None? ==> r == Pass && borgDir == Some(Join(scratch, TempRepoName)) && borgDirIsTemp
      ensures old(borgDir).Some? ==> borgDir == old(borgDir)
      ensures old(borgDir).Some? && DirIsRepo(host.probe(old(borgDir).value)) ==> r == Pass && !borgDirIsTemp
      ensures old(borgDir).Some? && !DirIsRepo(host.probe(old(borgDir).value)) ==>
                r == Fail(RepoError) && borgDirIsTemp == old(borgDirIsTemp)
    {
      tempDir := Some(scratch);
      if borgDir.Some? {
        if DirIsRepo(host.probe(borgDir.value)) {
          borgDirIsTemp := false;
        } else {
          return Fail(RepoError);
        }
      } else {
        borgDir := Some(Join(scratch, TempRepoName));
        borgDirIsTemp := true;
      }
      r := Pass;
    }

    /** Leaving the scope runs the teardown steps the current state calls for. */
    method Exit() returns (steps: seq<Step>)
      requires Entered()
      ensures steps == Teardown(isMounted, sqfsIsMounted, borgDirIsTemp, PathStr(borgDir), tempDir.value)
    {
      steps := [];
      if !isMounted {
        if sqfsIsMounted {
          steps := steps + [LoopUmount(PathStr(borgDir))];
        }
        if borgDirIsTemp {
          steps := steps + [DeleteRepo(PathStr(borgDir))];
        }
        steps := steps + [RemoveTree(tempDir.value)];
      }
    }

    /** Writes repository `repo` into the bound archive file. */
    method CreateCompressedArchive(repo: Path, host: Host) returns (r: Outcome<Error>, ran: seq<Step>)
      ensures (r, ran) == Perform(PackPlan(host.commands, repo, archivePath), host)
    {
      var step := CompressStep(host.commands, repo, archivePath);
      PerformStage(step, ArchiveError, host);
      if step.Failure? {
        return Fail(step.error), [];
      }
      ran := [step.value];
      r := if host.succeeds(step.value) then Pass else Fail(ArchiveError);
    }

    /** Unpacks the bound archive file into directory `repo`. */
    method ExtractCompressedArchive(repo: Path, host: Host) returns (r: Outcome<Error>, ran: seq<Step>)
      ensures (r, ran) == Perform(UnpackPlan(host.files, host.commands, archivePath, repo), host)
    {
      var step := DecompressStep(host.files, host.commands, archivePath, repo);
      PerformStage(step, ExpandError, host);
      if step.Failure? {
        return Fail(step.error), [];
      }
      ran := [step.value];
      r := if host.succeeds(step.value) then Pass else Fail(ExpandError);
    }

    /** Creates a new repository from `source` with the initial snapshot "1":
        a persistent one at the archive path when `expanded`, otherwise the
        working repository, which is then compressed into the archive file. */
    method Create(source: Path, encryption: string, expanded: bool, borgOptions: seq<string>, host: Host)
      returns (r: Outcome<Error>, ran: seq<Step>)
      requires Entered()
      modifies this
      ensures (r, ran) == Perform(CreatePlan(old(archivePath), old(borgDir), source, encryption, expanded, borgOptions, host), host)
      ensures archivePath == old(archivePath) && tempDir == old(tempDir)
      ensures isMounted == old(isMounted) && sqfsIsMounted == old(sqfsIsMounted)
      ensures source in host.dirs && expanded ==> borgDir == old(archivePath) && !borgDirIsTemp
      ensures source !in host.dirs || !expanded ==> borgDir == old(borgDir) && borgDirIsTemp == old(borgDirIsTemp)
    {
      CreateStepwise(archivePath, borgDir, source, encryption, expanded, borgOptions, host);

      if source !in host.dirs {
        return Fail(ValidationError), [];
      }
      if expanded {
        borgDir := archivePath;
        borgDirIsTemp := false;
      }
      var init := BorgInit(PathStr(borgDir), encryption, borgOptions);
      ran := [init];
      if !host.succeeds(init) {
        return Fail(CreationError), ran;
      }
      var snapshot := BorgCreate(PathStr(borgDir), "1", source);
      ran := [init, snapshot];
      if !host.succeeds(snapshot) {
        return Fail(CreationError), ran;
      }
      if !expanded {
        var compressed, steps := CreateCompressedArchive(PathStr(borgDir), host);
        ran := ran + steps;
        if compressed.Fail? {
          return Fail(CreationError), ran;
        }
      }
      r := Pass;
    }

    /** Compresses repository `repoDir` into the archive file and, unless it
        is retained, deletes it (best effort) and removes its directory. */
    method CollapseInto(repoDir: Path, retainRepo: bool, host: Host) returns (r: Outcome<Error>, ran: seq<Step>)
      ensures (r, ran) == Perform(CollapseIntoPlan(archivePath, repoDir, retainRepo, host), host)
    {
      CollapseIntoStepwise(archivePath, repoDir, retainRepo, host);

      var compressed;
      compressed, ran := CreateCompressedArchive(repoDir, host);
      if compressed.Fail? {
        return Fail(ArchiveError), ran;
      }
      if !retainRepo {
        ran := ran + [DeleteRepo(repoDir), RemoveTree(repoDir)];
        if !host.succeeds(RemoveTree(repoDir)) {
          return Fail(OSError), ran;
        }
      }
      r := Pass;
    }

    /** Collapse as the source has it: the working repository is repointed at
        `repoDir` but keeps its temporary flag. */
    method CollapseAsWritten(repoDir: Path, retainRepo: bool, host: Host) returns (r: Outcome<Error>, ran: seq<Step>)
      requires Entered()
      modifies this`borgDir
      ensures (r, ran) == Perform(CollapsePlan(archivePath, repoDir, retainRepo, host), host)
      ensures borgDir == if DirIsRepo(host.probe(repoDir)) then Some(repoDir) else old(borgDir)
    {
      CollapseOutcome(archivePath, repoDir, retainRepo, host);
      if !DirIsRepo(host.probe(repoDir)) {
        return Fail(CollapseError), [];
      }
      borgDir := Some(repoDir);
      r, ran := CollapseInto(repoDir, retainRepo, host);
    }

    /** Collapses repository `repoDir` into the archive file. Only a valid
        repository is accepted; it becomes the working repository and, being
        the caller's, is never temporary, so teardown leaves it alone. */
    method Collapse(repoDir: Path, retainRepo: bool, host: Host) returns (r: Outcome<Error>, ran: seq<Step>)
      requires Entered()
      modifies this`borgDir, this`borgDirIsTemp
      ensures (r, ran) == Perform(CollapsePlan(archivePath, repoDir, retainRepo, host), host)
      ensures !DirIsRepo(host.probe(repoDir)) ==> borgDir == old(borgDir) && borgDirIsTemp == old(borgDirIsTemp)
      ensures DirIsRepo(host.probe(repoDir)) ==> borgDir == Some(repoDir) && !borgDirIsTemp
    {
      CollapseOutcome(archivePath, repoDir, retainRepo, host);
      if !DirIsRepo(host.probe(repoDir)) {
        return Fail(CollapseError), [];
      }
      borgDir := Some(repoDir);
      borgDirIsTemp := false;
      r, ran := CollapseInto(repoDir, retainRepo, host);
    }

    /** Unpacks the archive file into directory `repoDir`. */
    method Expand(repoDir: Path, host: Host) returns (r: Outcome<Error>, ran: seq<Step>)
      ensures (r, ran) == Perform(ExpandPlan(archivePath, repoDir, host), host)
    {
      PerformWrapped(UnpackPlan(host.files, host.commands, archivePath, repoDir), ExpandError, host);
      var unpacked;
      unpacked, ran := ExtractCompressedArchive(repoDir, host);
      r := if unpacked.Fail? then Fail(ExpandError) else Pass;
    }

    /** Extracts snapshot `tag` (the most recent one when absent or empty)
        into `outputDir`, unpacking the archive first when the repository is
        temporary. Every failure is an extract error. */
    method Extract(outputDir: Path, tag: Option<string>, host: Host) returns (r: Outcome<Error>, ran: seq<Step>)
      requires Entered()
      ensures (r, ran) == Perform(ExtractPlan(archivePath, borgDir, borgDirIsTemp, outputDir, tag, host), host)
    {
      ExtractStepwise(archivePath, borgDir, borgDirIsTemp, outputDir, tag, host);

      ran := [];
      if borgDirIsTemp {
        var unpacked;
        unpacked, ran := ExtractCompressedArchive(PathStr(borgDir), host);
        if unpacked.Fail? {
          return Fail(ExtractError), ran;
        }
      }
      var resolved := ResolveTag(tag, host.listing(PathStr(borgDir)));
      if resolved.None? {
        return Fail(ExtractError), ran;
      }
      var extract := BorgExtract(PathStr(borgDir), resolved.value, outputDir);
      ran := ran + [extract];
      if !host.succeeds(extract) {
        return Fail(ExtractError), ran;
      }
      r := Pass;
    }

    /** Mounts snapshot `tag` (the most recent one when absent or empty) on
        `mountDir`. A temporary repository's path is first recorded beside the
        mount so a later unmount can remove it, and the archive is unpacked.
        The controller counts as mounted only once the mount step succeeded. */
    method Mount(mountDir: Path, tag: Option<string>, host: Host) returns (r: Outcome<Error>, ran: seq<Step>)
      requires Entered()
      modifies this`isMounted
      ensures (r, ran) == Perform(MountPlan(archivePath, borgDir, borgDirIsTemp, mountDir, tag, host), host)
      ensures isMounted == (old(isMounted) || r.Pass?)
    {
      MountStepwise(archivePath, borgDir, borgDirIsTemp, mountDir, tag, host);

      ran := [];
      if borgDirIsTemp {
        var sidecar := WriteSidecar(mountDir, PathStr(borgDir));
        ran := [sidecar];
        if !host.succeeds(sidecar) {
          return Fail(OSError), ran;
        }
        var unpacked, steps := ExtractCompressedArchive(PathStr(borgDir), host);
        ran := ran + steps;
        if unpacked.Fail? {
          return Fail(MountError), ran;
        }
      }
      var resolved := ResolveTag(tag, host.listing(PathStr(borgDir)));
      if resolved.None? {
        return Fail(MountError), ran;
      }
      var mount := BorgMount(PathStr(borgDir), resolved.value, mountDir);
      ran := ran + [mount];
      if !host.succeeds(mount) {
        return Fail(MountError), ran;
      }
      isMounted := true;
      r := Pass;
    }

    /** Unmounts `mountDir`; when a sidecar file records the temporary
        repository behind the mount, that repository is unmounted as a
        squashfs loop and purged (both best effort), removed, and the sidecar
        deleted. */
    method Unmount(mountDir: Path, host: Host) returns (r: Outcome<Error>, ran: seq<Step>)
      ensures (r, ran) == Perform(UnmountPlan(mountDir, host), host)
    {
      UnmountStepwise(mountDir, host);

      if mountDir !in host.dirs && mountDir !in host.files {
        return Fail(MountError), [];
      }
      var umountStep := BorgUmount(mountDir);
      ran := [umountStep];
      if !host.succeeds(umountStep) {
        return Fail(MountError), ran;
      }
      if mountDir in host.sidecars {
        var repo := host.sidecars[mountDir];
        ran := [umountStep, UmountSquashfs(repo), CleanupBorgFiles(repo), RemoveTree(repo)];
        if !host.succeeds(RemoveTree(repo)) {
          return Fail(MountError), ran;
        }
        ran := ran + [RemoveSidecar(mountDir)];
        if !host.succeeds(RemoveSidecar(mountDir)) {
          return Fail(MountError), ran;
        }
      }
      r := Pass;
    }

    /** Takes a new snapshot of `source` in the working repository, unless
        the repository is locked (possibly because it is mounted); the tag is
        `tag` or the next counter tag (see `SnapshotTag`). */
    method TakeSnapshot(source: Path, tag: Option<string>, host: Host) returns (r: Outcome<Error>, ran: seq<Step>)
      requires Entered()
      ensures (r, ran) == Perform(SnapshotPlan(PathStr(borgDir), source, tag, host), host)
    {
      ghost var repo := PathStr(borgDir);
      SnapshotOutcome(repo, source, tag, host);

      if Join(PathStr(borgDir), LockFile) in host.files {
        return Fail(UpdateError), [];
      }
      var listing := host.listing(PathStr(borgDir));
      if listing.None? {
        return Fail(UpdateError), [];
      }
      var next := GenerateNextTag(listing.value, tag);
      if next.Failure? {
        return Fail(UpdateError), [];
      }
      var snapshot := BorgCreate(PathStr(borgDir), next.value, source);
      ran := [snapshot];
      r := if host.succeeds(snapshot) then Pass else Fail(UpdateError);
    }

    /** The steps of an update once the working repository is settled: unpack
        the archive into a temporary repository, take a snapshot of `source`
        when `snapshot` is set, and rewrite the archive file when one is bound,
        stopping at the first failure, which is an update error. */
    method Refresh(source: Path, tag: Option<string>, snapshot: bool, host: Host) returns (r: Outcome<Error>, ran: seq<Step>)
      requires Entered()
      ensures (r, ran) == Perform(RefreshPlan(archivePath, borgDir, borgDirIsTemp, source, tag, snapshot, host), host)
    {
      RefreshStepwise(archivePath, borgDir, borgDirIsTemp, source, tag, snapshot, host);

      ran := [];
      if borgDirIsTemp {
        var unpacked;
        unpacked, ran := ExtractCompressedArchive(PathStr(borgDir), host);
        if unpacked.Fail? {
          return Fail(UpdateError), ran;
        }
      }
      if snapshot {
        var taken, taking := TakeSnapshot(source, tag, host);
        ran := ran + taking;
        if taken.Fail? {
          return taken, ran;
        }
      }
      if archivePath.Some? {
        var packed, packing := CreateCompressedArchive(PathStr(borgDir), host);
        ran := ran + packing;
        if packed.Fail? {
          return Fail(UpdateError), ran;
        }
      }
      r := Pass;
    }

    /** Updates the working repository from `source`. A source that is itself
        a repository becomes the (persistent) working repository and no
        snapshot is taken; otherwise a snapshot of `source` is taken (see
        `Refresh` and `TakeSnapshot`). */
    method Update(source: Path, tag: Option<string>, host: Host) returns (r: Outcome<Error>, ran: seq<Step>)
      requires Entered()
      modifies this`borgDir, this`borgDirIsTemp
      ensures (r, ran) == Perform(UpdatePlan(archivePath, old(borgDir), old(borgDirIsTemp), source, tag, host), host)
      ensures source in host.dirs && DirIsRepo(host.probe(source)) ==> borgDir == Some(source) && !borgDirIsTemp
      ensures source !in host.dirs || !DirIsRepo(host.probe(source)) ==>
                borgDir == old(borgDir) && borgDirIsTemp == old(borgDirIsTemp)
    {
      UpdateDelegates(archivePath, borgDir, borgDirIsTemp, source, tag, host);
      if source !in host.dirs {
        return Fail(ValidationError), [];
      }
      var fromRepo := DirIsRepo(host.probe(source));
      if fromRepo {
        borgDir := Some(source);
        borgDirIsTemp := false;
      }
      r, ran := Refresh(source, tag, !fromRepo, host);
    }
  }

  // ---------------------------------------------------------------------------
  // Collapsing an existing repository while keeping it

  /** The command-line collapse with the repository kept, as the source runs
      it: open a controller on a new archive file, enter its scope, collapse
      `repoDir` with `retainRepo` set, leave the scope. Whatever the collapse
      itself does, teardown deletes the kept repository, because the
      repository the scope made temporary was replaced without clearing the
      flag. */
  method KeepRepoCollapseAsWritten(archiveFile: Path, repoDir: Path, scratch: Path, host: Host)
    returns (steps: seq<Step>)
    requires forall c :: c in RequiredCommands ==> c in host.commands
    requires archiveFile !in host.dirs
    requires DirIsRepo(host.probe(repoDir))
    ensures DeleteRepo(repoDir) in steps
  {
    var made := BorgArchive.Open(Some(archiveFile), None, host);
    var archive := made.value;
    var entered := archive.Enter(scratch, host);
    var collapsed, ran := archive.CollapseAsWritten(repoDir, true, host);
    var teardown := archive.Exit();
    steps := ran + teardown;
  }

  /** The same sequence with the corrected collapse: the kept repository is
      neither deleted nor removed, whether or not the collapse succeeds. */
  method KeepRepoCollapse(archiveFile: Path, repoDir: Path, scratch: Path, host: Host)
    returns (steps: seq<Step>)
    requires forall c :: c in RequiredCommands ==> c in host.commands
    requires archiveFile !in host.dirs
    requires DirIsRepo(host.probe(repoDir))
    requires repoDir != scratch
    ensures DeleteRepo(repoDir) !in steps && RemoveTree(repoDir) !in steps
    ensures steps != [] && steps[|steps| - 1] == RemoveTree(scratch)
  {
    var made := BorgArchive.Open(Some(archiveFile), None, host);
    var archive := made.value;
    var entered := archive.Enter(scratch, host);
    var collapsed, ran := archive.Collapse(repoDir, true, host);
    CollapseIntoOutcome(archive.archivePath, repoDir, true, host);
    var teardown := archive.Exit();
    steps := ran + teardown;
  }
}
