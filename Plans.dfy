/** The plan of each controller operation, as a function of the controller's
    state, its arguments and what the host reports, and what running each
    plan comes to: when the operation passes, which steps it then ran, and
    which error it raises otherwise. */
module Plans {
  import opened Results
  import opened Errors
  import opened Decimal
  import opened Negotiation
  import opened TagRegistry
  import opened Repository
  import opened Execution

  // ---------------------------------------------------------------------------
  // Packing and unpacking the archive file

  /** Writing repository `repo` into the archive file. */
  function PackPlan(available: set<string>, repo: Path, archive: Option<Path>): seq<Action> {
    Stage(CompressStep(available, repo, archive), ArchiveError)
  }

  /** Filling directory `repo` from the archive file. */
  function UnpackPlan(files: map<Path, seq<Byte>>, available: set<string>, archive: Option<Path>, repo: Path)
    : seq<Action>
  {
    Stage(DecompressStep(files, available, archive, repo), ExpandError)
  }

  /** Packing is possible and its step succeeds. */
  predicate Packs(available: set<string>, repo: Path, archive: Option<Path>, host: Host) {
    var step := CompressStep(available, repo, archive);
    step.Success? && host.succeeds(step.value)
  }

  /** Unpacking is possible and its step succeeds. */
  predicate Unpacks(archive: Option<Path>, repo: Path, host: Host) {
    var step := DecompressStep(host.files, host.commands, archive, repo);
    step.Success? && host.succeeds(step.value)
  }

  /** The packing step, when there is one. */
  function PackSteps(available: set<string>, repo: Path, archive: Option<Path>): seq<Step> {
    var step := CompressStep(available, repo, archive);
    if step.Success? then [step.value] else []
  }

  /** The unpacking step, when there is one. */
  function UnpackSteps(archive: Option<Path>, repo: Path, host: Host): seq<Step> {
    var step := DecompressStep(host.files, host.commands, archive, repo);
    if step.Success? then [step.value] else []
  }

  /** Packing passes exactly when it is possible and its step succeeds; its
      own errors are the missing compressor, the missing archive path, and
      the archive error of a failed step. */
  lemma PackOutcome(available: set<string>, repo: Path, archive: Option<Path>, host: Host)
    ensures var res := Perform(PackPlan(available, repo, archive), host);
            && (res.0.Pass? <==> Packs(available, repo, archive, host))
            && res.1 == PackSteps(available, repo, archive)
            && (res.0.Fail? && res.1 != [] ==> res.0.error == ArchiveError)
  {
    PerformStage(CompressStep(available, repo, archive), ArchiveError, host);
  }

  // ---------------------------------------------------------------------------
  // Creating

  /** `create`: check the source, initialise the repository, take snapshot
      "1" of the source, then pack unless the repository is the expanded one
      at the archive path. Every failure after the check is a creation error. */
  function CreatePlan(archivePath: Option<Path>, borgDir: Option<Path>, source: Path, encryption: string,
                      expanded: bool, options: seq<string>, host: Host): seq<Action>
  {
    var repo := PathStr(if expanded then archivePath else borgDir);
    [Require(source in host.dirs, ValidationError)]
    + [Run(BorgInit(repo, encryption, options), CreationError)]
    + [Run(BorgCreate(repo, "1", source), CreationError)]
    + (if expanded then [] else Wrapped(PackPlan(host.commands, repo, archivePath), CreationError))
  }

  lemma CreateOutcome(archivePath: Option<Path>, borgDir: Option<Path>, source: Path, encryption: string,
                      expanded: bool, options: seq<string>, host: Host)
    ensures var repo := PathStr(if expanded then archivePath else borgDir);
            var res := Perform(CreatePlan(archivePath, borgDir, source, encryption, expanded, options, host), host);
            && (source !in host.dirs ==> res == (Fail(ValidationError), []))
            && (source in host.dirs && res.0.Fail? ==> res.0.error == CreationError)
            && (res.0.Pass? <==>
                  && source in host.dirs
                  && host.succeeds(BorgInit(repo, encryption, options))
                  && host.succeeds(BorgCreate(repo, "1", source))
                  && (expanded || Packs(host.commands, repo, archivePath, host)))
            && (res.0.Pass? ==>
                  res.1 == [BorgInit(repo, encryption, options), BorgCreate(repo, "1", source)]
                           + (if expanded then [] else PackSteps(host.commands, repo, archivePath)))
            && (source in host.dirs ==> res.1 != [] && res.1[0] == BorgInit(repo, encryption, options))
            && (expanded ==> forall s :: s in res.1 ==> !s.Compress?)
  {
    var repo := PathStr(if expanded then archivePath else borgDir);
    var check := [Require(source in host.dirs, ValidationError)];
    var init := [Run(BorgInit(repo, encryption, options), CreationError)];
    var first := [Run(BorgCreate(repo, "1", source), CreationError)];
    var pack := if expanded then [] else Wrapped(PackPlan(host.commands, repo, archivePath), CreationError);
    PerformAppend(check + init + first, pack, host);
    PerformAppend(check + init, first, host);
    PerformAppend(check, init, host);
    PerformOne(check[0], host);
    PerformOne(init[0], host);
    PerformOne(first[0], host);
    PerformWrapped(PackPlan(host.commands, repo, archivePath), CreationError, host);
    PackOutcome(host.commands, repo, archivePath, host);
  }

  // ---------------------------------------------------------------------------
  // Collapsing and expanding

  /** The part of `collapse` after the repository check: pack `repoDir`,
      then, unless it is retained, delete it (best effort) and remove its
      directory. A packing failure is an archive error; a failed removal
      surfaces as the file-system error itself. */
  function CollapseIntoPlan(archivePath: Option<Path>, repoDir: Path, retain: bool, host: Host): seq<Action> {
    Wrapped(PackPlan(host.commands, repoDir, archivePath), ArchiveError)
    + (if retain then [] else [Attempt(DeleteRepo(repoDir))] + [Run(RemoveTree(repoDir), OSError)])
  }

  /** `collapse`: only a valid repository is accepted. */
  function CollapsePlan(archivePath: Option<Path>, repoDir: Path, retain: bool, host: Host): seq<Action> {
    [Require(DirIsRepo(host.probe(repoDir)), CollapseError)] + CollapseIntoPlan(archivePath, repoDir, retain, host)
  }

  lemma CollapseIntoOutcome(archivePath: Option<Path>, repoDir: Path, retain: bool, host: Host)
    ensures var res := Perform(CollapseIntoPlan(archivePath, repoDir, retain, host), host);
            && (res.0.Pass? <==>
                  Packs(host.commands, repoDir, archivePath, host) && (retain || host.succeeds(RemoveTree(repoDir))))
            && (res.0.Pass? ==>
                  res.1 == PackSteps(host.commands, repoDir, archivePath)
                           + (if retain then [] else [DeleteRepo(repoDir), RemoveTree(repoDir)]))
            && (res.0.Fail? ==>
                  res.0.error == if Packs(host.commands, repoDir, archivePath, host) then OSError else ArchiveError)
            && (!Packs(host.commands, repoDir, archivePath, host) ==> res.1 == PackSteps(host.commands, repoDir, archivePath))
            && (retain ==> res.1 == PackSteps(host.commands, repoDir, archivePath))
  {
    var pack := Wrapped(PackPlan(host.commands, repoDir, archivePath), ArchiveError);
    var delete := [Attempt(DeleteRepo(repoDir))];
    var remove := [Run(RemoveTree(repoDir), OSError)];
    PerformWrapped(PackPlan(host.commands, repoDir, archivePath), ArchiveError, host);
    PackOutcome(host.commands, repoDir, archivePath, host);
    if retain {
      PerformAppend(pack, [], host);
      assert pack + [] == pack;
      assert PackSteps(host.commands, repoDir, archivePath) + [] == PackSteps(host.commands, repoDir, archivePath);
    } else {
      PerformAppend(pack, delete + remove, host);
      PerformAppend(delete, remove, host);
      PerformOne(delete[0], host);
      PerformOne(remove[0], host);
    }
  }

  /** Collapsing never touches a repository that is not valid, and only
      deletes the repository once the archive file has been written. */
  lemma CollapseOutcome(archivePath: Option<Path>, repoDir: Path, retain: bool, host: Host)
    ensures var res := Perform(CollapsePlan(archivePath, repoDir, retain, host), host);
            && (!DirIsRepo(host.probe(repoDir)) ==> res == (Fail(CollapseError), []))
            && (DirIsRepo(host.probe(repoDir)) ==>
                  res == Perform(CollapseIntoPlan(archivePath, repoDir, retain, host), host))
            && (res.0.Pass? <==>
                  && DirIsRepo(host.probe(repoDir))
                  && Packs(host.commands, repoDir, archivePath, host)
                  && (retain || host.succeeds(RemoveTree(repoDir))))
            && (DeleteRepo(repoDir) in res.1 ==> !retain && Packs(host.commands, repoDir, archivePath, host))
            && (RemoveTree(repoDir) in res.1 ==> !retain && Packs(host.commands, repoDir, archivePath, host))
  {
    var check := [Require(DirIsRepo(host.probe(repoDir)), CollapseError)];
    PerformAppend(check, CollapseIntoPlan(archivePath, repoDir, retain, host), host);
    PerformOne(check[0], host);
    CollapseIntoOutcome(archivePath, repoDir, retain, host);
    var res := Perform(CollapseIntoPlan(archivePath, repoDir, retain, host), host);
    assert [] + res.1 == res.1;
    var pack := PackSteps(host.commands, repoDir, archivePath);
    assert DeleteRepo(repoDir) !in pack && RemoveTree(repoDir) !in pack;
  }

  /** `expand`: unpack the archive file into `repoDir`; every failure is an
      expand error. */
  function ExpandPlan(archivePath: Option<Path>, repoDir: Path, host: Host): seq<Action> {
    Wrapped(UnpackPlan(host.files, host.commands, archivePath, repoDir), ExpandError)
  }

  lemma ExpandOutcome(archivePath: Option<Path>, repoDir: Path, host: Host)
    ensures var res := Perform(ExpandPlan(archivePath, repoDir, host), host);
            && (res.0.Pass? <==> Unpacks(archivePath, repoDir, host))
            && (res.0.Fail? ==> res.0.error == ExpandError)
            && res.1 == UnpackSteps(archivePath, repoDir, host)
  {
    PerformWrapped(UnpackPlan(host.files, host.commands, archivePath, repoDir), ExpandError, host);
    PerformStage(DecompressStep(host.files, host.commands, archivePath, repoDir), ExpandError, host);
  }

  // ---------------------------------------------------------------------------
  // Extracting, mounting and unmounting

  /** The step acting on the resolved snapshot, or `failure` when no
      snapshot resolves. */
  function OnSnapshot(resolved: Option<string>, failure: Error, act: string -> Step): Result<Step, Error> {
    if resolved.None? then Failure(failure) else Success(act(resolved.value))
  }

  /** `extract`: unpack first when the repository is temporary, then extract
      the resolved snapshot into `outputDir`. Every failure is an extract
      error. */
  function ExtractPlan(archivePath: Option<Path>, borgDir: Option<Path>, temp: bool, outputDir: Path,
                       tag: Option<string>, host: Host): seq<Action>
  {
    var repo := PathStr(borgDir);
    var resolved := ResolveTag(tag, host.listing(repo));
    (if temp then Wrapped(UnpackPlan(host.files, host.commands, archivePath, repo), ExtractError) else [])
    + Stage(OnSnapshot(resolved, ExtractError, name => BorgExtract(repo, name, outputDir)), ExtractError)
  }

  lemma ExtractOutcome(archivePath: Option<Path>, borgDir: Option<Path>, temp: bool, outputDir: Path,
                       tag: Option<string>, host: Host)
    ensures var repo := PathStr(borgDir);
            var resolved := ResolveTag(tag, host.listing(repo));
            var res := Perform(ExtractPlan(archivePath, borgDir, temp, outputDir, tag, host), host);
            && (res.0.Fail? ==> res.0.error == ExtractError)
            && (res.0.Pass? <==>
                  && (temp ==> Unpacks(archivePath, repo, host))
                  && resolved.Some?
                  && host.succeeds(BorgExtract(repo, resolved.value, outputDir)))
            && (res.0.Pass? ==>
                  res.1 == (if temp then UnpackSteps(archivePath, repo, host) else [])
                           + [BorgExtract(repo, resolved.value, outputDir)])
            && (!temp ==> forall s :: s in res.1 ==> s.BorgExtract?)
  {
    var repo := PathStr(borgDir);
    var resolved := ResolveTag(tag, host.listing(repo));
    var unpack := if temp then Wrapped(UnpackPlan(host.files, host.commands, archivePath, repo), ExtractError) else [];
    var act := OnSnapshot(resolved, ExtractError, name => BorgExtract(repo, name, outputDir));
    PerformAppend(unpack, Stage(act, ExtractError), host);
    PerformWrapped(UnpackPlan(host.files, host.commands, archivePath, repo), ExtractError, host);
    PerformStage(DecompressStep(host.files, host.commands, archivePath, repo), ExpandError, host);
    PerformStage(act, ExtractError, host);
  }

  /** `mount`: with a temporary repository, record its path beside the mount
      (a failed write is a file-system error) and unpack it; then mount the
      resolved snapshot. Every other failure is a mount error. */
  function MountPlan(archivePath: Option<Path>, borgDir: Option<Path>, temp: bool, mountDir: Path,
                     tag: Option<string>, host: Host): seq<Action>
  {
    var repo := PathStr(borgDir);
    var resolved := ResolveTag(tag, host.listing(repo));
    (if temp
     then [Run(WriteSidecar(mountDir, repo), OSError)]
          + Wrapped(UnpackPlan(host.files, host.commands, archivePath, repo), MountError)
     else [])
    + Stage(OnSnapshot(resolved, MountError, name => BorgMount(repo, name, mountDir)), MountError)
  }

  lemma MountOutcome(archivePath: Option<Path>, borgDir: Option<Path>, temp: bool, mountDir: Path,
                     tag: Option<string>, host: Host)
    ensures var repo := PathStr(borgDir);
            var resolved := ResolveTag(tag, host.listing(repo));
            var res := Perform(MountPlan(archivePath, borgDir, temp, mountDir, tag, host), host);
            && (res.0.Fail? ==>
                  res.0.error == if temp && !host.succeeds(WriteSidecar(mountDir, repo)) then OSError else MountError)
            && (res.0.Pass? <==>
                  && (temp ==> host.succeeds(WriteSidecar(mountDir, repo)) && Unpacks(archivePath, repo, host))
                  && resolved.Some?
                  && host.succeeds(BorgMount(repo, resolved.value, mountDir)))
            && (res.0.Pass? ==>
                  res.1 == (if temp then [WriteSidecar(mountDir, repo)] + UnpackSteps(archivePath, repo, host) else [])
                           + [BorgMount(repo, resolved.value, mountDir)])
            && (temp ==> res.1 != [] && res.1[0] == WriteSidecar(mountDir, repo))
            && (!temp ==> forall s :: s in res.1 ==> s.BorgMount?)
  {
    var repo := PathStr(borgDir);
    var resolved := ResolveTag(tag, host.listing(repo));
    var write := [Run(WriteSidecar(mountDir, repo), OSError)];
    var unpack := Wrapped(UnpackPlan(host.files, host.commands, archivePath, repo), MountError);
    var act := OnSnapshot(resolved, MountError, name => BorgMount(repo, name, mountDir));
    var prepare := if temp then write + unpack else [];
    PerformAppend(prepare, Stage(act, MountError), host);
    PerformAppend(write, unpack, host);
    PerformOne(write[0], host);
    PerformWrapped(UnpackPlan(host.files, host.commands, archivePath, repo), MountError, host);
    PerformStage(DecompressStep(host.files, host.commands, archivePath, repo), ExpandError, host);
    PerformStage(act, MountError, host);
  }

  /** Cleaning up after the temporary repository `repo` recorded beside
      `mountDir`: unmount it as a squashfs loop and purge its caches (both
      best effort), remove it, and delete the record. */
  function SidecarCleanupPlan(mountDir: Path, repo: Path): seq<Action> {
    [Attempt(UmountSquashfs(repo))] + [Attempt(CleanupBorgFiles(repo))]
    + [Run(RemoveTree(repo), MountError)] + [Run(RemoveSidecar(mountDir), MountError)]
  }

  /** `unmount`: the mount directory must exist; unmount it, then clean up
      the temporary repository recorded beside it, if any. Every failure is a
      mount error. */
  function UnmountPlan(mountDir: Path, host: Host): seq<Action> {
    [Require(mountDir in host.dirs || mountDir in host.files, MountError)]
    + [Run(BorgUmount(mountDir), MountError)]
    + (if mountDir in host.sidecars then SidecarCleanupPlan(mountDir, host.sidecars[mountDir]) else [])
  }

  lemma UnmountOutcome(mountDir: Path, host: Host)
    ensures var res := Perform(UnmountPlan(mountDir, host), host);
            && (mountDir !in host.dirs && mountDir !in host.files ==> res == (Fail(MountError), []))
            && (res.0.Fail? ==> res.0.error == MountError)
            && (res.0.Pass? <==>
                  && (mountDir in host.dirs || mountDir in host.files)
                  && host.succeeds(BorgUmount(mountDir))
                  && (mountDir in host.sidecars ==>
                        host.succeeds(RemoveTree(host.sidecars[mountDir])) && host.succeeds(RemoveSidecar(mountDir))))
            && (res.0.Pass? ==>
                  res.1 == [BorgUmount(mountDir)]
                           + if mountDir in host.sidecars
                             then var repo := host.sidecars[mountDir];
                                  [UmountSquashfs(repo), CleanupBorgFiles(repo), RemoveTree(repo), RemoveSidecar(mountDir)]
                             else [])
            && (mountDir in host.dirs || mountDir in host.files ==> res.1 != [] && res.1[0] == BorgUmount(mountDir))
  {
    var check := [Require(mountDir in host.dirs || mountDir in host.files, MountError)];
    var umount := [Run(BorgUmount(mountDir), MountError)];
    var cleanup := if mountDir in host.sidecars then SidecarCleanupPlan(mountDir, host.sidecars[mountDir]) else [];
    PerformAppend(check + umount, cleanup, host);
    PerformAppend(check, umount, host);
    PerformOne(check[0], host);
    PerformOne(umount[0], host);
    if mountDir in host.sidecars {
      var repo := host.sidecars[mountDir];
      var a := [Attempt(UmountSquashfs(repo))];
      var b := [Attempt(CleanupBorgFiles(repo))];
      var c := [Run(RemoveTree(repo), MountError)];
      var d := [Run(RemoveSidecar(mountDir), MountError)];
      PerformAppend(a + b + c, d, host);
      PerformAppend(a + b, c, host);
      PerformAppend(a, b, host);
      PerformOne(a[0], host);
      PerformOne(b[0], host);
      PerformOne(c[0], host);
      PerformOne(d[0], host);
    }
  }

  // ---------------------------------------------------------------------------
  // Snapshots and updates

  /** The snapshot step: `borg create` of `source` under the next tag of the
      repository's listing. A listing that fails, or a supplied tag that is
      already listed, means there is no step to run. */
  ghost function SnapshotStep(repo: Path, source: Path, tag: Option<string>, listing: Option<seq<string>>)
    : Result<Step, Error>
  {
    if listing.None? then Failure(UpdateError)
    else
      match NextTag(listing.value, tag)
      case Failure(e) => Failure(e)
      case Success(next) => Success(BorgCreate(repo, next, source))
  }

  /** Taking a snapshot of `source` in repository `repo`: refused while the
      repository is locked (for instance because it is mounted); every
      failure is an update error. */
  ghost function SnapshotPlan(repo: Path, source: Path, tag: Option<string>, host: Host): seq<Action> {
    [Require(Join(repo, LockFile) !in host.files, UpdateError)]
    + Wrapped(Stage(SnapshotStep(repo, source, tag, host.listing(repo)), UpdateError), UpdateError)
  }

  /** A snapshot can be taken and its step succeeds. */
  ghost predicate Snapshots(repo: Path, source: Path, tag: Option<string>, host: Host) {
    var step := SnapshotStep(repo, source, tag, host.listing(repo));
    Join(repo, LockFile) !in host.files && step.Success? && host.succeeds(step.value)
  }

  /** The snapshot step, when the repository is not locked and there is one. */
  ghost function SnapshotSteps(repo: Path, source: Path, tag: Option<string>, host: Host): seq<Step> {
    var step := SnapshotStep(repo, source, tag, host.listing(repo));
    if Join(repo, LockFile) !in host.files && step.Success? then [step.value] else []
  }

  lemma SnapshotOutcome(repo: Path, source: Path, tag: Option<string>, host: Host)
    ensures var res := Perform(SnapshotPlan(repo, source, tag, host), host);
            && (res.0.Fail? ==> res.0.error == UpdateError)
            && (Join(repo, LockFile) in host.files ==> res == (Fail(UpdateError), []))
            && (res.0.Pass? <==> Snapshots(repo, source, tag, host))
            && res.1 == SnapshotSteps(repo, source, tag, host)
  {
    var check := [Require(Join(repo, LockFile) !in host.files, UpdateError)];
    var step := SnapshotStep(repo, source, tag, host.listing(repo));
    PerformAppend(check, Wrapped(Stage(step, UpdateError), UpdateError), host);
    PerformOne(check[0], host);
    PerformWrapped(Stage(step, UpdateError), UpdateError, host);
    PerformStage(step, UpdateError, host);
    assert [] + Perform(Stage(step, UpdateError), host).1 == Perform(Stage(step, UpdateError), host).1;
  }

  /** Taking a snapshot with no tag given uses the least free counter of the
      listing; a tag that is already listed, or a locked repository, ends
      the snapshot before `borg create` runs. */
  lemma SnapshotTag(repo: Path, source: Path, tag: Option<string>, host: Host)
    ensures var listing := host.listing(repo);
            var res := Perform(SnapshotPlan(repo, source, tag, host), host);
            && (res.1 != [] ==>
                  && listing.Some? && |res.1| == 1 && res.1[0].BorgCreate?
                  && res.1[0].repo == repo && res.1[0].source == source
                  && res.1[0].tag !in listing.value
                  && (tag.Some? ==> res.1[0].tag == tag.value)
                  && (tag.None? ==> exists n: nat {:trigger NatToString(n)} ::
                        res.1[0].tag == NatToString(n) && IsLeastFreeCounter(TagSet(listing.value), n)))
            && (tag.Some? && listing.Some? && tag.value in listing.value ==> res == (Fail(UpdateError), []))
            && (Join(repo, LockFile) !in host.files && listing.Some? && NextTag(listing.value, tag).Success? ==>
                  res.1 == [BorgCreate(repo, NextTag(listing.value, tag).value, source)])
  {
    SnapshotOutcome(repo, source, tag, host);
  }

  /** The steps of an update once the working repository `dir` is settled:
      unpack the archive file into it when it is temporary, take a snapshot
      of `source` when `snapshot` is set, and rewrite the archive file when
      one is bound. Every failure is an update error. */
  ghost function RefreshPlan(archivePath: Option<Path>, dir: Option<Path>, temp: bool, source: Path,
                             tag: Option<string>, snapshot: bool, host: Host): seq<Action>
  {
    var repo := PathStr(dir);
    (if temp then Wrapped(UnpackPlan(host.files, host.commands, archivePath, repo), UpdateError) else [])
    + (if snapshot then SnapshotPlan(repo, source, tag, host) else [])
    + (if archivePath.Some? then Wrapped(PackPlan(host.commands, repo, archivePath), UpdateError) else [])
  }

  /** Every step an update of `dir` would run, in order. */
  ghost function RefreshSteps(archivePath: Option<Path>, dir: Option<Path>, temp: bool, source: Path,
                              tag: Option<string>, snapshot: bool, host: Host): seq<Step>
  {
    var repo := PathStr(dir);
    (if temp then UnpackSteps(archivePath, repo, host) else [])
    + (if snapshot then SnapshotSteps(repo, source, tag, host) else [])
    + (if archivePath.Some? then PackSteps(host.commands, repo, archivePath) else [])
  }

  lemma RefreshOutcome(archivePath: Option<Path>, dir: Option<Path>, temp: bool, source: Path,
                       tag: Option<string>, snapshot: bool, host: Host)
    ensures var repo := PathStr(dir);
            var res := Perform(RefreshPlan(archivePath, dir, temp, source, tag, snapshot, host), host);
            var all := RefreshSteps(archivePath, dir, temp, source, tag, snapshot, host);
            && (res.0.Fail? ==> res.0.error == UpdateError)
            && (res.0.Pass? <==>
                  && (temp ==> Unpacks(archivePath, repo, host))
                  && (snapshot ==> Snapshots(repo, source, tag, host))
                  && (archivePath.Some? ==> Packs(host.commands, repo, archivePath, host)))
            && (res.0.Pass? ==> res.1 == all)
            && res.1 <= all
            && (temp && !Unpacks(archivePath, repo, host) ==> res.0.Fail? && res.1 == UnpackSteps(archivePath, repo, host))
            && (snapshot && !Snapshots(repo, source, tag, host) ==>
                  res.0.Fail? && res.1 <= (if temp then UnpackSteps(archivePath, repo, host) else [])
                                          + SnapshotSteps(repo, source, tag, host))
  {
    var repo := PathStr(dir);
    var unpack := if temp then Wrapped(UnpackPlan(host.files, host.commands, archivePath, repo), UpdateError) else [];
    var take := if snapshot then SnapshotPlan(repo, source, tag, host) else [];
    var pack := if archivePath.Some? then Wrapped(PackPlan(host.commands, repo, archivePath), UpdateError) else [];
    PerformAppend(unpack + take, pack, host);
    PerformAppend(unpack, take, host);
    PerformWrapped(UnpackPlan(host.files, host.commands, archivePath, repo), UpdateError, host);
    PerformStage(DecompressStep(host.files, host.commands, archivePath, repo), ExpandError, host);
    SnapshotOutcome(repo, source, tag, host);
    PerformWrapped(PackPlan(host.commands, repo, archivePath), UpdateError, host);
    PackOutcome(host.commands, repo, archivePath, host);
    var u := if temp then UnpackSteps(archivePath, repo, host) else [];
    var t := if snapshot then SnapshotSteps(repo, source, tag, host) else [];
    var p := if archivePath.Some? then PackSteps(host.commands, repo, archivePath) else [];
    assert u <= u + t + p && u + t <= u + t + p;
    assert Perform([], host) == (Pass, []);
  }

  /** `update`: the source directory must exist. A source that is itself a
      repository becomes the persistent working repository and nothing is
      unpacked or snapshotted; otherwise a snapshot of the source is taken in
      the working repository. */
  ghost function UpdatePlan(archivePath: Option<Path>, borgDir: Option<Path>, temp: bool, source: Path,
                            tag: Option<string>, host: Host): seq<Action>
  {
    var fromRepo := DirIsRepo(host.probe(source));
    [Require(source in host.dirs, ValidationError)]
    + RefreshPlan(archivePath, if fromRepo then Some(source) else borgDir, temp && !fromRepo, source, tag, !fromRepo, host)
  }

  /** An update first checks its source, then runs the refresh plan of the
      working repository it settles on. */
  lemma UpdateDelegates(archivePath: Option<Path>, borgDir: Option<Path>, temp: bool, source: Path,
                        tag: Option<string>, host: Host)
    ensures var fromRepo := DirIsRepo(host.probe(source));
            var res := Perform(UpdatePlan(archivePath, borgDir, temp, source, tag, host), host);
            && (source !in host.dirs ==> res == (Fail(ValidationError), []))
            && (source in host.dirs ==>
                  res == Perform(RefreshPlan(archivePath, if fromRepo then Some(source) else borgDir,
                                             temp && !fromRepo, source, tag, !fromRepo, host), host))
  {
    var fromRepo := DirIsRepo(host.probe(source));
    var check := [Require(source in host.dirs, ValidationError)];
    var refresh := RefreshPlan(archivePath, if fromRepo then Some(source) else borgDir, temp && !fromRepo, source, tag, !fromRepo, host);
    PerformAppend(check, refresh, host);
    PerformOne(check[0], host);
    assert [] + Perform(refresh, host).1 == Perform(refresh, host).1;
  }

  lemma UpdateOutcome(archivePath: Option<Path>, borgDir: Option<Path>, temp: bool, source: Path,
                      tag: Option<string>, host: Host)
    ensures var fromRepo := DirIsRepo(host.probe(source));
            var repo := if fromRepo then source else PathStr(borgDir);
            var res := Perform(UpdatePlan(archivePath, borgDir, temp, source, tag, host), host);
            && (source !in host.dirs ==> res == (Fail(ValidationError), []))
            && (source in host.dirs && res.0.Fail? ==> res.0.error == UpdateError)
            && (res.0.Pass? <==>
                  && source in host.dirs
                  && (temp && !fromRepo ==> Unpacks(archivePath, repo, host))
                  && (!fromRepo ==> Snapshots(repo, source, tag, host))
                  && (archivePath.Some? ==> Packs(host.commands, repo, archivePath, host)))
  {
    var fromRepo := DirIsRepo(host.probe(source));
    UpdateDelegates(archivePath, borgDir, temp, source, tag, host);
    RefreshOutcome(archivePath, if fromRepo then Some(source) else borgDir, temp && !fromRepo, source, tag, !fromRepo, host);
  }

  /** The first steps of a refresh: unpacking comes first and happens only
      to a temporary repository; without a snapshot only unpacking and
      repacking run. */
  lemma RefreshOrder(archivePath: Option<Path>, dir: Option<Path>, temp: bool, source: Path,
                     tag: Option<string>, snapshot: bool, host: Host)
    ensures var repo := PathStr(dir);
            var res := Perform(RefreshPlan(archivePath, dir, temp, source, tag, snapshot, host), host);
            && (temp && res.1 != [] ==>
                  res.1[0].Decompress? && res.1[0].repo == repo && res.1[0].archive == PathStr(archivePath))
            && (forall s :: s in res.1 && s.Decompress? ==> temp)
            && (!snapshot ==> forall s :: s in res.1 ==> s.Compress? || s.Decompress?)
  {
    var repo := PathStr(dir);
    RefreshOutcome(archivePath, dir, temp, source, tag, snapshot, host);
    var res := Perform(RefreshPlan(archivePath, dir, temp, source, tag, snapshot, host), host);
    var u := if temp then UnpackSteps(archivePath, repo, host) else [];
    var t := if snapshot then SnapshotSteps(repo, source, tag, host) else [];
    var p := if archivePath.Some? then PackSteps(host.commands, repo, archivePath) else [];
    Members(res.1, u, t, p);
    if temp && res.1 != [] {
      assert u != [] && res.1[0] == (u + t + p)[0] == u[0];
    }
  }

  /** Repacking the working repository into the archive file is the last
      step of a refresh that passes. */
  lemma RefreshRepacksLast(archivePath: Option<Path>, dir: Option<Path>, temp: bool, source: Path,
                           tag: Option<string>, snapshot: bool, host: Host)
    ensures var res := Perform(RefreshPlan(archivePath, dir, temp, source, tag, snapshot, host), host);
            res.0.Pass? && archivePath.Some? ==>
              && res.1 != [] && LastStep(res.1).Compress?
              && LastStep(res.1).repo == PathStr(dir) && LastStep(res.1).archive == archivePath.value
  {
    var repo := PathStr(dir);
    RefreshStepwise(archivePath, dir, temp, source, tag, snapshot, host);
    PackOutcome(host.commands, repo, archivePath, host);
  }

  /** The snapshot a refresh takes: `borg create` of the source into the
      working repository under the next tag of its listing, and only when a
      snapshot is asked for; a locked repository or an already listed tag
      stops the refresh before `borg create`. */
  lemma RefreshSnapshot(archivePath: Option<Path>, dir: Option<Path>, temp: bool, source: Path,
                        tag: Option<string>, snapshot: bool, host: Host)
    ensures var repo := PathStr(dir);
            var listing := host.listing(repo);
            var res := Perform(RefreshPlan(archivePath, dir, temp, source, tag, snapshot, host), host);
            && (res.0.Pass? && snapshot ==>
                  listing.Some? && NextTag(listing.value, tag).Success?
                  && BorgCreate(repo, NextTag(listing.value, tag).value, source) in res.1)
            && (forall s :: s in res.1 && s.BorgCreate? ==>
                  && snapshot && listing.Some? && NextTag(listing.value, tag).Success?
                  && s == BorgCreate(repo, NextTag(listing.value, tag).value, source))
            && (snapshot && (Join(repo, LockFile) in host.files || (tag.Some? && listing.Some? && tag.value in listing.value)) ==>
                  res.0.Fail? && forall s :: s in res.1 ==> !s.BorgCreate?)
  {
    var repo := PathStr(dir);
    RefreshOutcome(archivePath, dir, temp, source, tag, snapshot, host);
    SnapshotTag(repo, source, tag, host);
    SnapshotOutcome(repo, source, tag, host);
    var res := Perform(RefreshPlan(archivePath, dir, temp, source, tag, snapshot, host), host);
    var u := if temp then UnpackSteps(archivePath, repo, host) else [];
    var t := if snapshot then SnapshotSteps(repo, source, tag, host) else [];
    var p := if archivePath.Some? then PackSteps(host.commands, repo, archivePath) else [];
    Members(res.1, u, t, p);
    if res.0.Pass? && snapshot {
      assert (u + t + p)[|u|] == t[0];
    }
    if snapshot && (Join(repo, LockFile) in host.files || (tag.Some? && host.listing(repo).Some? && tag.value in host.listing(repo).value)) {
      assert t == [];
    }
  }

  /** The order of an update's steps: see `RefreshOrder`; a repository given
      as source is only repacked. */
  lemma UpdateOrder(archivePath: Option<Path>, borgDir: Option<Path>, temp: bool, source: Path,
                    tag: Option<string>, host: Host)
    ensures var fromRepo := DirIsRepo(host.probe(source));
            var repo := if fromRepo then source else PathStr(borgDir);
            var unpack := temp && !fromRepo;
            var res := Perform(UpdatePlan(archivePath, borgDir, temp, source, tag, host), host);
            && (unpack && res.1 != [] ==>
                  res.1[0].Decompress? && res.1[0].repo == repo && res.1[0].archive == PathStr(archivePath))
            && (forall s :: s in res.1 && s.Decompress? ==> unpack)
            && (fromRepo ==> forall s :: s in res.1 ==> s.Compress?)
            && (res.0.Pass? && archivePath.Some? ==>
                  res.1 != [] && LastStep(res.1).Compress? && LastStep(res.1).repo == repo
                  && LastStep(res.1).archive == archivePath.value)
  {
    var fromRepo := DirIsRepo(host.probe(source));
    UpdateDelegates(archivePath, borgDir, temp, source, tag, host);
    RefreshOrder(archivePath, if fromRepo then Some(source) else borgDir, temp && !fromRepo, source, tag, !fromRepo, host);
    RefreshRepacksLast(archivePath, if fromRepo then Some(source) else borgDir, temp && !fromRepo, source, tag, !fromRepo, host);
  }

  /** The snapshot an update takes: see `RefreshSnapshot`; it is taken
      exactly when the source is not a repository. */
  lemma UpdateSnapshot(archivePath: Option<Path>, borgDir: Option<Path>, temp: bool, source: Path,
                       tag: Option<string>, host: Host)
    ensures var fromRepo := DirIsRepo(host.probe(source));
            var repo := if fromRepo then source else PathStr(borgDir);
            var listing := host.listing(repo);
            var res := Perform(UpdatePlan(archivePath, borgDir, temp, source, tag, host), host);
            && (res.0.Pass? && !fromRepo ==>
                  listing.Some? && NextTag(listing.value, tag).Success?
                  && BorgCreate(repo, NextTag(listing.value, tag).value, source) in res.1)
            && (forall s :: s in res.1 && s.BorgCreate? ==>
                  && !fromRepo && listing.Some? && NextTag(listing.value, tag).Success?
                  && s == BorgCreate(repo, NextTag(listing.value, tag).value, source))
            && (source in host.dirs && !fromRepo
                && (Join(repo, LockFile) in host.files || (tag.Some? && listing.Some? && tag.value in listing.value)) ==>
                  res.0.Fail? && forall s :: s in res.1 ==> !s.BorgCreate?)
  {
    var fromRepo := DirIsRepo(host.probe(source));
    UpdateDelegates(archivePath, borgDir, temp, source, tag, host);
    RefreshSnapshot(archivePath, if fromRepo then Some(source) else borgDir, temp && !fromRepo, source, tag, !fromRepo, host);
  }

  /** Each step that ran belongs to one of the phases. */
  lemma Members(ran: seq<Step>, u: seq<Step>, t: seq<Step>, p: seq<Step>)
    requires ran <= u + t + p
    ensures forall s :: s in ran ==> s in u || s in t || s in p
  {
    forall s | s in ran
      ensures s in u || s in t || s in p
    {
      var i :| 0 <= i < |ran| && ran[i] == s;
      assert (u + t + p)[i] == s;
    }
  }

  // ---------------------------------------------------------------------------
  // Each plan run branch by branch, in the order the controller takes the steps

  lemma CreateStepwise(archivePath: Option<Path>, borgDir: Option<Path>, source: Path, encryption: string,
                       expanded: bool, options: seq<string>, host: Host)
    ensures var repo := PathStr(if expanded then archivePath else borgDir);
            var init := BorgInit(repo, encryption, options);
            var first := BorgCreate(repo, "1", source);
            var packed := Perform(PackPlan(host.commands, repo, archivePath), host);
            Perform(CreatePlan(archivePath, borgDir, source, encryption, expanded, options, host), host) ==
              if source !in host.dirs then (Fail(ValidationError), [])
              else if !host.succeeds(init) then (Fail(CreationError), [init])
              else if !host.succeeds(first) then (Fail(CreationError), [init, first])
              else if expanded then (Pass, [init, first])
              else (if packed.0.Fail? then Fail(CreationError) else Pass, [init, first] + packed.1)
  {
    var repo := PathStr(if expanded then archivePath else borgDir);
    var check := [Require(source in host.dirs, ValidationError)];
    var init := [Run(BorgInit(repo, encryption, options), CreationError)];
    var first := [Run(BorgCreate(repo, "1", source), CreationError)];
    var pack := if expanded then [] else Wrapped(PackPlan(host.commands, repo, archivePath), CreationError);
    PerformAppend(check + init + first, pack, host);
    PerformAppend(check + init, first, host);
    PerformAppend(check, init, host);
    PerformOne(check[0], host);
    PerformOne(init[0], host);
    PerformOne(first[0], host);
    PerformWrapped(PackPlan(host.commands, repo, archivePath), CreationError, host);
    assert Perform([], host) == (Pass, []);
    assert [] + [BorgInit(repo, encryption, options)] == [BorgInit(repo, encryption, options)];
    assert [BorgInit(repo, encryption, options)] + [BorgCreate(repo, "1", source)]
        == [BorgInit(repo, encryption, options), BorgCreate(repo, "1", source)];
    assert [BorgInit(repo, encryption, options), BorgCreate(repo, "1", source)] + []
        == [BorgInit(repo, encryption, options), BorgCreate(repo, "1", source)];
  }

  lemma CollapseIntoStepwise(archivePath: Option<Path>, repoDir: Path, retain: bool, host: Host)
    ensures var packed := Perform(PackPlan(host.commands, repoDir, archivePath), host);
            Perform(CollapseIntoPlan(archivePath, repoDir, retain, host), host) ==
              if packed.0.Fail? then (Fail(ArchiveError), packed.1)
              else if retain then (Pass, packed.1)
              else if !host.succeeds(RemoveTree(repoDir)) then (Fail(OSError), packed.1 + [DeleteRepo(repoDir), RemoveTree(repoDir)])
              else (Pass, packed.1 + [DeleteRepo(repoDir), RemoveTree(repoDir)])
  {
    var pack := Wrapped(PackPlan(host.commands, repoDir, archivePath), ArchiveError);
    var delete := [Attempt(DeleteRepo(repoDir))];
    var remove := [Run(RemoveTree(repoDir), OSError)];
    PerformWrapped(PackPlan(host.commands, repoDir, archivePath), ArchiveError, host);
    PerformAppend(pack, if retain then [] else delete + remove, host);
    PerformAppend(delete, remove, host);
    PerformOne(delete[0], host);
    PerformOne(remove[0], host);
    assert Perform([], host) == (Pass, []);
    assert [DeleteRepo(repoDir)] + [RemoveTree(repoDir)] == [DeleteRepo(repoDir), RemoveTree(repoDir)];
    var packed := Perform(PackPlan(host.commands, repoDir, archivePath), host);
    assert packed.1 + [] == packed.1;
  }

  lemma ExtractStepwise(archivePath: Option<Path>, borgDir: Option<Path>, temp: bool, outputDir: Path,
                        tag: Option<string>, host: Host)
    ensures var repo := PathStr(borgDir);
            var resolved := ResolveTag(tag, host.listing(repo));
            var unpacked := Perform(UnpackPlan(host.files, host.commands, archivePath, repo), host);
            var before := if temp then unpacked.1 else [];
            Perform(ExtractPlan(archivePath, borgDir, temp, outputDir, tag, host), host) ==
              if temp && unpacked.0.Fail? then (Fail(ExtractError), unpacked.1)
              else if resolved.None? then (Fail(ExtractError), before)
              else
                var extract := BorgExtract(repo, resolved.value, outputDir);
                (if host.succeeds(extract) then Pass else Fail(ExtractError), before + [extract])
  {
    var repo := PathStr(borgDir);
    var act := OnSnapshot(ResolveTag(tag, host.listing(repo)), ExtractError, name => BorgExtract(repo, name, outputDir));
    var unpack := Wrapped(UnpackPlan(host.files, host.commands, archivePath, repo), ExtractError);
    PerformAppend(if temp then unpack else [], Stage(act, ExtractError), host);
    PerformWrapped(UnpackPlan(host.files, host.commands, archivePath, repo), ExtractError, host);
    PerformStage(act, ExtractError, host);
    assert Perform([], host) == (Pass, []);
    var unpacked := Perform(UnpackPlan(host.files, host.commands, archivePath, repo), host);
    assert unpacked.1 + [] == unpacked.1;
    assert forall x: seq<Step> :: [] + x == x;
  }

  lemma MountStepwise(archivePath: Option<Path>, borgDir: Option<Path>, temp: bool, mountDir: Path,
                      tag: Option<string>, host: Host)
    ensures var repo := PathStr(borgDir);
            var resolved := ResolveTag(tag, host.listing(repo));
            var write := WriteSidecar(mountDir, repo);
            var unpacked := Perform(UnpackPlan(host.files, host.commands, archivePath, repo), host);
            var before := if temp then [write] + unpacked.1 else [];
            Perform(MountPlan(archivePath, borgDir, temp, mountDir, tag, host), host) ==
              if temp && !host.succeeds(write) then (Fail(OSError), [write])
              else if temp && unpacked.0.Fail? then (Fail(MountError), [write] + unpacked.1)
              else if resolved.None? then (Fail(MountError), before)
              else
                var mount := BorgMount(repo, resolved.value, mountDir);
                (if host.succeeds(mount) then Pass else Fail(MountError), before + [mount])
  {
    var repo := PathStr(borgDir);
    var act := OnSnapshot(ResolveTag(tag, host.listing(repo)), MountError, name => BorgMount(repo, name, mountDir));
    var write := [Run(WriteSidecar(mountDir, repo), OSError)];
    var unpack := Wrapped(UnpackPlan(host.files, host.commands, archivePath, repo), MountError);
    PerformAppend(if temp then write + unpack else [], Stage(act, MountError), host);
    PerformAppend(write, unpack, host);
    PerformOne(write[0], host);
    PerformWrapped(UnpackPlan(host.files, host.commands, archivePath, repo), MountError, host);
    PerformStage(act, MountError, host);
    assert Perform([], host) == (Pass, []);
    var unpacked := Perform(UnpackPlan(host.files, host.commands, archivePath, repo), host);
    assert [WriteSidecar(mountDir, repo)] + unpacked.1 + [] == [WriteSidecar(mountDir, repo)] + unpacked.1;
    assert forall x: seq<Step> :: [] + x == x;
  }

  lemma CleanupStepwise(mountDir: Path, repo: Path, host: Host)
    ensures var removal := [UmountSquashfs(repo), CleanupBorgFiles(repo), RemoveTree(repo)];
            Perform(SidecarCleanupPlan(mountDir, repo), host) ==
              if !host.succeeds(RemoveTree(repo)) then (Fail(MountError), removal)
              else (if host.succeeds(RemoveSidecar(mountDir)) then Pass else Fail(MountError),
                    removal + [RemoveSidecar(mountDir)])
  {
    var a := [Attempt(UmountSquashfs(repo))];
    var b := [Attempt(CleanupBorgFiles(repo))];
    var c := [Run(RemoveTree(repo), MountError)];
    var d := [Run(RemoveSidecar(mountDir), MountError)];
    PerformAppend(a + b + c, d, host);
    PerformAppend(a + b, c, host);
    PerformAppend(a, b, host);
    PerformOne(a[0], host);
    PerformOne(b[0], host);
    PerformOne(c[0], host);
    PerformOne(d[0], host);
    assert [UmountSquashfs(repo)] + [CleanupBorgFiles(repo)] + [RemoveTree(repo)]
        == [UmountSquashfs(repo), CleanupBorgFiles(repo), RemoveTree(repo)];
  }

  lemma UnmountStepwise(mountDir: Path, host: Host)
    ensures var umount := BorgUmount(mountDir);
            Perform(UnmountPlan(mountDir, host), host) ==
              if mountDir !in host.dirs && mountDir !in host.files then (Fail(MountError), [])
              else if !host.succeeds(umount) then (Fail(MountError), [umount])
              else if mountDir !in host.sidecars then (Pass, [umount])
              else
                var repo := host.sidecars[mountDir];
                var removal := [umount, UmountSquashfs(repo), CleanupBorgFiles(repo), RemoveTree(repo)];
                if !host.succeeds(RemoveTree(repo)) then (Fail(MountError), removal)
                else (if host.succeeds(RemoveSidecar(mountDir)) then Pass else Fail(MountError),
                      removal + [RemoveSidecar(mountDir)])
  {
    var check := [Require(mountDir in host.dirs || mountDir in host.files, MountError)];
    var umount := [Run(BorgUmount(mountDir), MountError)];
    var cleanup := if mountDir in host.sidecars then SidecarCleanupPlan(mountDir, host.sidecars[mountDir]) else [];
    PerformAppend(check + umount, cleanup, host);
    PerformAppend(check, umount, host);
    PerformOne(check[0], host);
    PerformOne(umount[0], host);
    assert Perform([], host) == (Pass, []);
    assert [] + [BorgUmount(mountDir)] == [BorgUmount(mountDir)];
    assert [BorgUmount(mountDir)] + [] == [BorgUmount(mountDir)];
    if mountDir in host.sidecars {
      var repo := host.sidecars[mountDir];
      CleanupStepwise(mountDir, repo, host);
      var removal := [UmountSquashfs(repo), CleanupBorgFiles(repo), RemoveTree(repo)];
      assert [BorgUmount(mountDir)] + removal
          == [BorgUmount(mountDir), UmountSquashfs(repo), CleanupBorgFiles(repo), RemoveTree(repo)];
      assert [BorgUmount(mountDir)] + (removal + [RemoveSidecar(mountDir)])
          == [BorgUmount(mountDir), UmountSquashfs(repo), CleanupBorgFiles(repo), RemoveTree(repo)] + [RemoveSidecar(mountDir)];
    }
  }

  lemma RefreshStepwise(archivePath: Option<Path>, dir: Option<Path>, temp: bool, source: Path,
                        tag: Option<string>, snapshot: bool, host: Host)
    ensures var repo := PathStr(dir);
            var unpacked := Perform(UnpackPlan(host.files, host.commands, archivePath, repo), host);
            var taken := Perform(SnapshotPlan(repo, source, tag, host), host);
            var packed := Perform(PackPlan(host.commands, repo, archivePath), host);
            var u := if temp then unpacked.1 else [];
            var t := if snapshot then u + taken.1 else u;
            Perform(RefreshPlan(archivePath, dir, temp, source, tag, snapshot, host), host) ==
              if temp && unpacked.0.Fail? then (Fail(UpdateError), unpacked.1)
              else if snapshot && taken.0.Fail? then (taken.0, t)
              else if archivePath.Some? then (if packed.0.Fail? then Fail(UpdateError) else Pass, t + packed.1)
              else (Pass, t)
  {
    var repo := PathStr(dir);
    var unpack := if temp then Wrapped(UnpackPlan(host.files, host.commands, archivePath, repo), UpdateError) else [];
    var take := if snapshot then SnapshotPlan(repo, source, tag, host) else [];
    var pack := if archivePath.Some? then Wrapped(PackPlan(host.commands, repo, archivePath), UpdateError) else [];
    PerformAppend(unpack + take, pack, host);
    PerformAppend(unpack, take, host);
    PerformWrapped(UnpackPlan(host.files, host.commands, archivePath, repo), UpdateError, host);
    PerformWrapped(PackPlan(host.commands, repo, archivePath), UpdateError, host);
    assert Perform([], host) == (Pass, []);
    assert forall x: seq<Step> :: x + [] == x;
  }
}
