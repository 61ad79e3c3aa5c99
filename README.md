# borg-archive controller, modelled in Dafny

borg-archive keeps a BorgBackup repository packed as one compressed file: a
tar stream through zstd, pigz or gzip, or a squashfs image. Every operation
opens a `BorgArchive` controller bound to an archive file, a repository
directory, or both. Entering the controller's scope makes a scratch directory
and decides whether the working repository is temporary (unpacked from the
archive into the scratch directory) or persistent (the caller's). Each
operation unpacks what it needs and runs borg, and the operations that change
the repository pack it back. Leaving the scope tears down whatever is
temporary, unless an archive was left mounted.

The model has these parts:

- `Results`, `Errors`: the Option/Result/Outcome wrappers and the error kinds
  the controller raises. Python exceptions become `Failure`/`Fail` values.
- `Decimal`: tags are decimal renderings of counters, as Python's `str`
  renders an `int`. This module proves that parsing inverts rendering in
  both directions.
- `TagRegistry`: the most recent tag of a listing, and the next tag for a
  new snapshot. The counter loop is a `while` loop proved to stop at the
  least unused counter.
- `Negotiation`: the required-command check, the compressor preference
  lists, and the choice between squashfs and tar, from the tools present or
  from the file's magic bytes.
- `Pipeline`: how `run_pipeline` turns the finished stages' exit codes and
  outputs into a result or an error.
- `Repository`: paths, the repository-validity probe, constructor path
  disambiguation, tag resolution, the teardown steps, and the (de)compression
  step each container calls for. It also defines the `Step` vocabulary of
  external commands and the `Host` they run on.
- `Execution`: what it means to carry out a plan of steps.
- `Plans`: the plan of each controller operation, and lemmas saying when
  each plan passes, which steps it runs, and which error it raises.
- `Controller`: the `BorgArchive` class, with the same fields as the
  source's object and one method per operation.

External commands are not run. The existing directories and files, the
commands on the search path, each path's probe outcome, each repository's
snapshot listing, the `.borg-repo` sidecar files and each step's exit status
(`host.succeeds`) are all fields of the `Host` value passed in.

Each operation is described by a plan: a sequence of actions. An action is
one of three kinds:

- `Run(step, failure)`: a step whose failure ends the operation with
  `failure`.
- `Attempt(step)`: a best-effort step. Its failure is reported and ignored.
- `Require(holds, failure)`: a check that runs no step. The operation ends
  with `failure` unless the check holds. Checks cover a missing source
  directory, an invalid repository, a missing compressor, a tag that cannot
  be resolved, a locked repository and a duplicate tag.

`Execution.Perform` carries out a plan. It stops at the first action that
does not go through and returns that action's error, along with the steps
that ran. Each operation method of the controller returns `(r, ran)`. Its `ensures` says
that this pair equals `Perform` of the operation's plan. The `Plans`
lemmas then state, for each operation:

- when it passes, as a condition on the host;
- which steps it runs;
- which error it raises otherwise.

## Model

| member | source | states |
|---|---|---|
| Decimal.NatToString | src/borg_archive/core.py:519-523 | a counter renders as a canonical decimal string: digits only, no leading zero unless the counter is 0 |
| Decimal.ParseRender | src/borg_archive/core.py:519-523 | parsing the rendering of a counter gives the counter back |
| Decimal.RenderInjective | src/borg_archive/core.py:519-523 | distinct counters render as distinct tags |
| Decimal.RenderParse | src/borg_archive/core.py:519-523 | every canonical decimal string is the rendering of its value, so rendering and parsing are inverse on canonical tags |
| TagRegistry.MostRecentTag | src/borg_archive/core.py:525-532 | the most recent tag is the last one listed; an empty listing fails with an index error, and only an empty one does |
| TagRegistry.AppendedTagIsMostRecent | src/borg_archive/core.py:525-532 | a snapshot appended to a listing becomes its most recent tag |
| TagRegistry.FreeCounterWithin | src/borg_archive/core.py:519-521 | among more consecutive counters than there are tags, one renders to an unused tag (pigeonhole) |
| TagRegistry.FreeCounterBounded | src/borg_archive/core.py:519-521 | the counter search from (number of distinct tags + 1) meets an unused counter by 2·(number of tags) + 1 |
| TagRegistry.LeastFreeCounterUnique | src/borg_archive/core.py:519-523 | at most one counter is the least unused one from (number of distinct tags + 1) on |
| TagRegistry.GenerateNextTag | src/borg_archive/core.py:502-523 | a supplied tag that is already listed fails with a duplicate-tag error; any other supplied tag is returned unchanged; with none, the result is the rendering of the least unused counter from (number of distinct tags + 1), bounded as above; a returned tag is never already listed |
| Negotiation.CheckRequiredCommands | src/borg_archive/utils.py:39-47 | passes exactly when borg, tar and zstd are all available; otherwise fails naming the first missing one in that order |
| Negotiation.FirstAvailable | src/borg_archive/utils.py:50-92 | reference definition of a preference list: the first compressor whose tool is available; fails naming every tool tried exactly when none is available |
| Negotiation.BestCompressor | src/borg_archive/utils.py:50-92 | for "tar" it equals the first available of zstd, pigz, gzip; for "squashfs" the first available of zstd, gzip; any other archiver name is a runtime error |
| Negotiation.BestArchiver | src/borg_archive/utils.py:95-120 | the answer is always "tar" or "squashfs" |
| Negotiation.ReadFormatByContent | src/borg_archive/utils.py:107-117 | with a path, the answer is squashfs exactly when the path is a regular file starting with the bytes "hsqs", whatever tools are installed |
| Negotiation.WriteFormatByTools | src/borg_archive/utils.py:112-120 | without a path, the answer is squashfs exactly when mksquashfs is available |
| Negotiation.FormatRoundTrip | src/borg_archive/utils.py:95-120 | an archive written as a squashfs image is read back as squashfs, and one written as a tar stream through the chosen tar compressor is read back as tar |
| Pipeline.IndexOf | src/borg_archive/utils.py:251-253 | the index found holds the value, and no earlier position does |
| Pipeline.FirstNonZero | src/borg_archive/utils.py:251-253 | the value found is a non-zero element of the codes |
| Pipeline.IndexOfFirstNonZero | src/borg_archive/utils.py:250-253 | looking up the first non-zero code's value finds the first failing stage: every earlier code is zero |
| Pipeline.RunPipeline | src/borg_archive/utils.py:166-267 | no commands is a value error; with checking on and some stage failing, the error names the first failing stage's command and carries the last stage's code, output and diagnostics; otherwise the result is the last command with the last stage's code and output; diagnostics are empty when suppressed |
| Repository.DirIsRepo | src/borg_archive/core.py:317-350 | a path counts as a repository exactly when the initialisation attempt fails with status 2 and a message starting with "A repository already exists at"; a successful attempt, any other status or any other message means it is not one |
| Repository.ProbeRecognisesRefusal | src/borg_archive/core.py:318-350 | the engine's refusal to initialise over an existing repository (status 2 and the "already exists" message) is read as a repository; a successful initialisation is not |
| Repository.ProbeRejectsOtherwise | src/borg_archive/core.py:337-350 | any other status or message is read as "not a repository" |
| Repository.ResolvePaths | src/borg_archive/core.py:78-86 | an existing directory given alone is the repository and leaves the archive slot empty; otherwise both paths are kept as given; no path is lost or invented |
| Repository.ResolveTag | src/borg_archive/core.py:488-490 | an explicit non-empty tag is used as given; an absent or empty tag resolves to the most recent listed tag, and to nothing when the listing fails or is empty |
| Repository.Teardown | src/borg_archive/core.py:111-121 | nothing runs while an archive is mounted; otherwise the squashfs loop mount is unmounted exactly when one is recorded, the repository is deleted exactly when it is temporary, and the scratch directory is always removed, last; no other step runs and none runs twice |
| Repository.CompressStep | src/borg_archive/core.py:128-178 | packing makes a squashfs image exactly when mksquashfs is available, otherwise a tar stream through the first available tar compressor; it fails with the missing-command error exactly when neither is possible |
| Repository.DecompressStep | src/borg_archive/core.py:180-232 | unpacking treats the file as squashfs exactly when it starts with the squashfs magic (without a path: exactly when mksquashfs is installed), otherwise as a tar stream through the decompressor of the best compressor available now; a tar stream fails before any step with the missing-command error when no compressor exists, and otherwise with an expand error when there is no archive path or the path is not an existing regular file |
| Controller.BorgArchive.constructor | src/borg_archive/core.py:66-90 | the archive and repository paths are bound as the path disambiguation decides; no scratch directory, nothing mounted |
| Controller.BorgArchive.Open | src/borg_archive/core.py:66-91 | construction fails exactly when a required command is missing, with a missing-command error; otherwise the new controller has the disambiguated paths and nothing mounted |
| Controller.BorgArchive.Enter | src/borg_archive/core.py:93-109 | with no repository, a temporary one inside the scratch directory is used; a supplied repository that passes the probe is persistent; one that fails it is a repository error |
| Controller.BorgArchive.Exit | src/borg_archive/core.py:111-121 | leaving the scope runs exactly the teardown steps of the current state |
| Plans.PackOutcome | src/borg_archive/core.py:128-178 | packing passes exactly when a packing step can be formed and succeeds; it runs that one step and no other; once the step has run, a failure is an archive error |
| Controller.BorgArchive.CreateCompressedArchive | src/borg_archive/core.py:128-178 | runs exactly the packing plan of the current archive path: the step `CompressStep` chooses, or nothing when it cannot be formed |
| Controller.BorgArchive.ExtractCompressedArchive | src/borg_archive/core.py:180-232 | runs exactly the unpacking plan of the current archive path: the step `DecompressStep` chooses, or nothing when it cannot be formed |
| Plans.CreateOutcome | src/borg_archive/core.py:352-416 | a missing source is a validation error and runs nothing; any later failure is a creation error; create passes exactly when initialisation, snapshot "1" of the source and, unless expanded, packing all succeed, and it then ran init, snapshot, pack in that order; an expanded create never packs |
| Controller.BorgArchive.Create | src/borg_archive/core.py:352-416 | runs exactly the create plan on the paths it had before the call; an expanded create of an existing source makes the archive path the persistent working repository; otherwise the working repository is unchanged |
| Plans.CollapseIntoOutcome | src/borg_archive/core.py:436-443 | passes exactly when packing succeeds and, unless the repository is retained, its removal succeeds; after a pack it deletes and removes the repository exactly when not retained; a failed pack is an archive error, a failed removal a file-system error |
| Controller.BorgArchive.CollapseInto | src/borg_archive/core.py:436-443 | runs exactly the plan of the collapse after its repository check |
| Plans.CollapseOutcome | src/borg_archive/core.py:418-443 | an invalid repository is a collapse error and runs nothing; collapse passes exactly when the repository is valid, packing succeeds and, unless retained, its removal succeeds; the repository is deleted or removed only when not retained and after a successful pack |
| Controller.BorgArchive.CollapseAsWritten | src/borg_archive/core.py:418-443 | runs exactly the collapse plan; a valid repository becomes the working repository, and the temporary flag is left as it was |
| Controller.BorgArchive.Collapse | src/borg_archive/core.py:418-443 | corrected collapse: runs exactly the collapse plan; a valid repository becomes the working repository and is persistent; an invalid one changes nothing |
| Plans.ExpandOutcome | src/borg_archive/core.py:445-460 | expand passes exactly when the unpacking step can be formed and succeeds; it runs that step and no other; every failure is an expand error |
| Controller.BorgArchive.Expand | src/borg_archive/core.py:445-460 | runs exactly the expand plan |
| Plans.ExtractOutcome | src/borg_archive/core.py:462-500 | every failure is an extract error; extract passes exactly when a temporary repository unpacks, the tag resolves, and borg extract of that tag into the output directory succeeds; it then ran the unpack (if temporary) and the extraction; a persistent repository runs only the extraction |
| Controller.BorgArchive.Extract | src/borg_archive/core.py:462-500 | runs exactly the extract plan of the current state |
| Plans.MountOutcome | src/borg_archive/core.py:587-629 | with a temporary repository the sidecar is written first, and a failed write is a file-system error; every other failure is a mount error; mount passes exactly when the sidecar write and unpack succeed (if temporary), the tag resolves and borg mount succeeds; it then ran write, unpack, mount in that order |
| Controller.BorgArchive.Mount | src/borg_archive/core.py:587-629 | runs exactly the mount plan of the current state; the controller is marked mounted exactly when it was already mounted or this mount passed |
| Plans.UnmountOutcome | src/borg_archive/core.py:631-664 | a missing mount directory is a mount error and runs nothing; every failure is a mount error; unmount passes exactly when borg umount succeeds and, when a sidecar is present, removing the recorded repository and the sidecar both succeed; it then ran borg umount and, with a sidecar, the loop unmount, cache purge, repository removal and sidecar removal, in that order |
| Controller.BorgArchive.Unmount | src/borg_archive/core.py:631-664 | runs exactly the unmount plan |
| Plans.SnapshotOutcome | src/borg_archive/core.py:700-734 | a locked repository fails with an update error before anything runs; every failure is an update error; a snapshot passes exactly when the repository is unlocked, the listing succeeds, the next tag exists and borg create succeeds |
| Plans.SnapshotTag | src/borg_archive/core.py:700-734 | a snapshot's borg create is of the source, into the repository, under a tag that is not listed: the supplied tag, or the rendering of the least free counter when none is supplied; a supplied tag that is already listed fails with nothing run |
| Controller.BorgArchive.TakeSnapshot | src/borg_archive/core.py:700-734 | runs exactly the snapshot plan of the working repository |
| Plans.RefreshOutcome | src/borg_archive/core.py:692-740 | every failure is an update error; the refresh passes exactly when a temporary repository unpacks, the snapshot (if asked) is taken, and packing (if an archive file is bound) succeeds; it then ran exactly unpack, snapshot, pack; a failed unpack or snapshot stops before what follows |
| Plans.RefreshOrder | src/borg_archive/core.py:692-698 | the first step of a refresh of a temporary repository unpacks the archive into it; only a temporary repository is unpacked; without a snapshot only unpacking and packing run |
| Plans.RefreshRepacksLast | src/borg_archive/core.py:736-738 | when an archive file is bound, the last step of a refresh that passes packs the working repository into it |
| Plans.RefreshSnapshot | src/borg_archive/core.py:700-734 | a refresh that passes and asks for a snapshot ran borg create of the source under the next tag; every borg create it runs is that one; a locked repository or a listed supplied tag fails with no borg create |
| Controller.BorgArchive.Refresh | src/borg_archive/core.py:692-740 | runs exactly the refresh plan of the current state |
| Plans.UpdateDelegates | src/borg_archive/core.py:679-690 | a missing source is a validation error and runs nothing; otherwise the update is the refresh of the source itself when it is a repository (persistent, no snapshot), or of the working repository with a snapshot of the source |
| Plans.UpdateOutcome | src/borg_archive/core.py:666-740 | a missing source is a validation error; every later failure is an update error, including a duplicate tag; update passes exactly when the unpack, the snapshot (for a plain source) and the repack (with an archive file bound) all succeed |
| Plans.UpdateOrder | src/borg_archive/core.py:686-738 | a temporary repository is unpacked first and is the only one unpacked; a repository given as source is only repacked; an update that passes with an archive file bound ends by packing the working repository into it |
| Plans.UpdateSnapshot | src/borg_archive/core.py:700-734 | an update of a plain source that passes ran borg create of the source under the next tag; no update of a repository source runs borg create; a locked repository or a listed supplied tag fails with no borg create |
| Controller.BorgArchive.Update | src/borg_archive/core.py:666-740 | runs exactly the update plan of the state before the call; a repository source becomes the persistent working repository; otherwise the working repository is unchanged |
| Controller.KeepRepoCollapseAsWritten | src/borg_archive/cli.py:67-80 | collapsing a repository with "keep" on a fresh controller, as written: the scope's teardown deletes the kept repository |
| Controller.KeepRepoCollapse | src/borg_archive/cli.py:67-80 | the same sequence with the corrected collapse neither deletes nor removes the kept repository, and ends by removing the scratch directory |

## Findings

| source | as written | input that shows it | evidently intended | confidence | as-written member | corrected member |
|---|---|---|---|---|---|---|
| src/borg_archive/core.py:418-443 | `collapse` repoints the working repository at the caller's directory, but leaves `borg_dir_is_temp` as `__enter__` set it. A controller opened on a new archive file has that flag set, so on leaving the scope `__exit__` runs `borg delete --force` on the caller's repository, even with `retain_repo=True` | `borg-archive collapse --keep-repo R A`, where R is a valid repository and A a new archive file (cli.py:79-80) | a collapsed repository is the caller's, so it is persistent and survives teardown when retained, as `update` does when given a repository (core.py:686-688) | high, not executed | Controller.KeepRepoCollapseAsWritten | Controller.KeepRepoCollapse |

`Controller.BorgArchive.Collapse` is the corrected operation, and it clears
the flag. `Controller.BorgArchive.CollapseAsWritten` keeps the source's
behaviour, so the scenario above can be stated.

## Where the code and its documentation differ

The model follows the code in each case below.

- In `update`, a duplicate supplied tag raises `DuplicateTagException` inside
  the update's `try`. The caller therefore sees an `UpdateError`, not the
  duplicate-tag exception the docstring lists.
- `run_pipeline`'s error names the first failing command. It carries the
  last stage's exit code, output and diagnostics, not the failing stage's.
- `unmount` removes the recorded temporary repository. It does not remove
  the scratch directory that contains it, so that directory is left behind.
- `sqfs_is_mounted` is never set to true, so teardown's loop unmount never
  runs. The model keeps the field and the branch.
- `borg_dir_is_temp` is not set by `__init__`, only by `__enter__` and the
  operations. The model's constructor sets it to false. No modelled path
  reads it before `Enter`.
- The probe behind `dir_is_repo` runs `borg init`. When the path is not yet
  a repository, the probe creates one there. The model records only the
  probe's verdict.
- In `get_best_archiver`, the fallback to the installed tools when the
  format is unknown never applies, because the format is always a definite
  boolean.
- Unpacking a tar archive uses the decompressor of the best compressor
  installed now, not of the compressor the archive was written with.
- When `__enter__` raises a repository error, the scratch directory it made
  is not removed. The model's `Enter` records the scratch directory and
  returns the error.

## Left out

- Running processes: pipes, `subprocess`, `shutil.which` and `os.chdir` are
  not modelled. A step's exit status comes from `Host.succeeds`, the
  installed tools are the set `Host.commands`, and the probe, the listing
  and the files are `Host` fields.
- The exact command lines: borg options such as `--compression zstd,9`,
  `--progress` and `--error`, the tar and mksquashfs flags, and environment
  variables (`__set_borg_environ`). Steps record the paths, tags, containers
  and filters they act on.
- `list_tags` and all console output. These only print, so the model does
  not cover them.
- `get_tag_list`'s parsing of borg's output: a listing is given as
  `Host.listing`.
- The internals of `__cleanup_borg_files`, `__delete_borg_repo` and
  `__unmount_squashfs`. They are best-effort steps whose failures are
  reported and ignored, so they appear as single steps.
- File-system effects of `ensure_dir`, `mkdtemp`, `rmtree` and `expand`'s
  directory creation. The scratch path is a parameter, and a removal is a
  `RemoveTree` step.
- The debug mode (`BORG_ARCHIVE_DEBUG`), which keeps the scratch directory
  in the working directory and skips teardown. The model covers the normal
  mode only.
- `Path.resolve` and the conversion to string: paths are strings. Where
  the source passes an absent path to a command as text (the squashfs
  tools, or borg after an expanded create with no archive path), the step
  carries "None", as Python's `str(None)` does.
- Error message texts: errors are their kinds only.
- The command-line layer in cli.py is not part of this model, except the
  collapse call sequence behind the finding.
- `confirm_overwrite`, `run_command` and `ensure_dir` are thin wrappers over
  the operating system.
