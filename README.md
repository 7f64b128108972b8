# PyClean, modelled in Dafny

PyClean is a Linux junk cleaner: a single Python script that lists, or
deletes, cache files, temporary files, trash, thumbnails, rotated logs and
leftover Snap folders, and can also clean one target path. This project
models its classification and deletion core, `pyclean.py` lines 29-217.

The model works on one mutable file tree:

- **The tree** is a `class FileSystem` in `os.dfy`. Its `root` field holds
  a value of the datatype `FileTree.Node`, which is a regular file with its
  `st_size`, a directory whose entries are kept in listing order, or an
  entry whose `stat` fails (a dangling link).
- **Permissions** are one flag per directory, saying whether entries may be
  unlinked from it. Inside one directory, every unlink succeeds or every
  unlink fails (see "## Left out" for the sticky bit).
  - `Path.unlink` fails with `PermissionError` under a read-only directory.
  - `shutil.rmtree(..., ignore_errors=True)` removes the whole entry under
    a writable directory, and otherwise swallows the error and changes
    nothing.
- **Paths** are sequences of names from `/`. A `Paths.PathRef` carries the
  absolute or relative spelling that `str(path)` gives. That spelling is
  what the deletion guard looks at.

Every operation of the core is a method over `FileSystem`, proved against a
specification function of the tree before the call:

| method | specification function |
|---|---|
| `GetSizeAndCount` | `FileTree.Measure` |
| `DeletePath` | `DeleteReports` and `AfterDelete` |
| the loops | `Rules.Picked`, `Rules.Reported` and `Rules.After` |
| `CleanStandard` | `Standard` |
| `CleanLogs` and `CleanSnapLeftovers` | `Cleaning` |
| `CleanTarget` | `Target` |

The lemmas in `properties.dfy`, `rules.dfy` and `safety.dfy` state what
these functions guarantee.

**What the code does, which differs from what the tool is meant to do.**
`is_safe_to_delete` compares `str(path)` against `str(Path('/'))`, which is
`"/"`, with `startswith`. So it rejects every absolute path
(`Safety.SafeIffRelative`). All roots in `CLEAN_PATHS` are absolute, so the
second loop of `clean_standard` never counts or removes anything
(`Rules.GeneralRuleInert`, `Properties.StandardCountsOnlyExtensionless`).
A standard clean therefore touches only the extensionless regular files
directly inside its roots. For the same reason, `clean_target` refuses every
absolute target (`Properties.AbsoluteTargetRefused`).

The tool is described as emptying caches, temporary files and the trash,
such as a `.tmp` file or a sub-directory of `~/.cache`. The model follows
the code, not that description.

## Model

| member | source | states |
|---|---|---|
| Safety.SafeIffRelative | pyclean.py:48-54 | the guard accepts the string form of a path exactly when the path is relative, because "/" is on the deny list |
| Safety.DenyListedUnsafe | pyclean.py:50-52 | every string that starts with a deny-listed path (root, home, /bin, /usr, /etc, /lib, /sbin, /boot) is refused |
| Safety.IsSafeToDelete | pyclean.py:48-54 | an accepted path string is empty or does not start with '/' |
| Paths.Str | pyclean.py:52 | str(path) is never empty and starts with '/' exactly when the path is absolute |
| Paths.Suffix | pyclean.py:105 | a non-empty pathlib suffix starts with '.', holds no other dot, is shorter than the name, and ends it |
| Paths.SuffixEmptyIff | pyclean.py:105 | a name has an empty suffix exactly when it has no dot, its only dot leads, or it ends with a dot |
| FileTree.MeasureIsFileSizes | pyclean.py:63-70 | the measure of a node is the number of regular files at or below it and the sum of their sizes |
| FileTree.RemovedExactly | pyclean.py:86-93 | taking an entry out of a writable parent removes exactly that path and the paths below it; every other path exists afterwards exactly when it did before |
| FileTree.RemovedKeepsOthers | pyclean.py:86-93 | taking an entry out of its parent leaves every lookup that is neither at or below the entry nor on the way to the parent finding the same node, with the same size and entries |
| Os.FileSystem.Unlink | pyclean.py:92 | unlink(missing_ok=True) removes a non-directory from a writable parent, succeeds on a missing path, and raises IsADirectory, PermissionDenied or NotADirectory otherwise without changing the tree |
| Os.FileSystem.RmTree | pyclean.py:88 | rmtree(ignore_errors=True) removes a directory under a writable parent and otherwise changes nothing |
| PyClean.GetSizeAndCount | pyclean.py:56-71 | returns (0, 0) for a path that does not exist, (st_size, 1) for a file, and for a directory the count and size sum of the regular files below it; the tree is not touched |
| PyClean.WalkStack | pyclean.py:63-70 | the os.walk loop adds up, for every directory still to be walked, the files below it |
| PyClean.WalkEntries | pyclean.py:64-70 | one directory of the walk: its files are counted and summed and its subdirectories are queued, losing nothing |
| PyClean.DeletePath | pyclean.py:81-97 | a dry run changes nothing and returns True; otherwise a directory goes through rmtree and True is returned, and anything else is unlinked, returning False exactly when unlink raises |
| PyClean.ListNoExtensionFiles | pyclean.py:99-109 | returns, in listing order, exactly the paths of the regular files directly in base whose suffix is empty, and [] when base is not a directory |
| PyClean.ListOrDelete | pyclean.py:124-131 | a listing counts the child and changes nothing; otherwise the child is deleted and counted exactly when delete_path returns True |
| PyClean.NoExtensionOne | pyclean.py:122-131 | one extensionless file is measured by stat, listed or deleted, and the loop's view of the tree moves on by that file |
| PyClean.NoExtensionListing | pyclean.py:122-131 | the first loop reports the extensionless files its run counts and leaves the root without exactly the ones it removed |
| PyClean.SweepNoExtension | pyclean.py:120-131 | the extensionless pass of one root, including a root that is not a directory, for which nothing happens |
| PyClean.GeneralChild | pyclean.py:134-148 | one child of the second loop is skipped when the guard refuses it or it is an extensionless file, and otherwise is measured, then listed or deleted |
| PyClean.LogChild | pyclean.py:164-175 | one entry of /var/log is taken when it is a regular file with a rotated suffix or ending, or in aggressive mode when it is not lastlog |
| PyClean.SnapChild | pyclean.py:187-198 | one entry of ~/snap is taken when it is a directory that is empty, or in aggressive mode any directory |
| PyClean.Sweep | pyclean.py:133-148 | a loop over iterdir fails with the error iterdir raises, or reports what the rule counts and leaves the root's listing as After says |
| PyClean.SweepListing | pyclean.py:133-148 | over a directory, the loop's total is the rule's report and its tree is the old tree with the root's listing replaced |
| PyClean.CleanStandardRoot | pyclean.py:117-148 | one root of clean_standard: the extensionless pass, then the general pass on the tree it left, whose iterdir error ends the run |
| PyClean.CleanStandard | pyclean.py:112-155 | the roots are visited in order, roots that do not exist are skipped, the two totals add up root by root, and an iterdir error ends the clean |
| PyClean.CleanLogs | pyclean.py:158-178 | nothing when /var/log does not exist, otherwise the rotated-log loop |
| PyClean.CleanSnapLeftovers | pyclean.py:181-201 | nothing when ~/snap does not exist, otherwise the leftover-folder loop |
| PyClean.CleanTarget | pyclean.py:204-217 | a missing target, then a refused one, ends the call; otherwise the target's measure is reported when listing, or when delete_path returns True |
| Rules.PickedMembers | pyclean.py:103-106 | a loop takes exactly the children that satisfy its rule |
| Rules.UnpickedMembers | pyclean.py:140-148 | a real run on a writable root leaves exactly the children the rule does not take |
| Rules.ReportedAllWhenNothingFails | pyclean.py:124-131 | listing, dry runs and real runs on a writable root all report the measure of every eligible child |
| Rules.ReportedAtMostCandidates | pyclean.py:128-131 | a run never reports more files or bytes than a listing of the same root |
| Rules.ReadOnlyRootReportsDirectories | pyclean.py:86-96 | on a read-only root a real run removes nothing, yet reports every eligible directory, because rmtree swallows its error |
| Rules.NoExtensionCountedOnce | pyclean.py:136-138 | the extensionless bucket and the general bucket never share a child, so together they report at most what the root holds |
| Rules.GeneralNeverEligible | pyclean.py:135 | no child of an absolute root passes the guard |
| Rules.GeneralRuleInert | pyclean.py:133-148 | on an absolute root the general loop reports zero and leaves the listing unchanged |
| Rules.RelativeRootEligible | pyclean.py:135-138 | on a relative root the general loop takes every child except the extensionless files |
| Rules.LogSuffixSubsumed | pyclean.py:165 | the suffix test on log names adds nothing to the endswith test |
| Rules.LastLogKept | pyclean.py:165 | lastlog is never a rotated log, aggressive or not |
| Properties.DeleteEffect | pyclean.py:81-97 | after delete_path, a path exists exactly when it existed before and is not at or below a path removed in a real run under a writable parent; a path neither at or below the deleted one nor on the way to its parent still finds the same node |
| Properties.DeleteFileReportsTruly | pyclean.py:90-96 | for a regular file, a real delete_path returns True exactly when the file is gone afterwards |
| Properties.DeleteDirectoryAlwaysReported | pyclean.py:86-89 | for a directory, delete_path returns True, and the directory remains whenever the run is dry or the parent is read-only |
| Properties.PassWithoutRemoving | pyclean.py:124-131 | listing and dry runs leave the tree unchanged and report the measure of every eligible child |
| Properties.PassTakesEligible | pyclean.py:140-148 | after a loop, a child is missing exactly when the rule takes it in a real run on a writable root, and is otherwise found unchanged |
| Properties.StandardRootFails | pyclean.py:118-133 | a root that exists fails exactly when it is not a directory, with NotADirectory |
| Properties.StandardRootWithoutRemoving | pyclean.py:117-148 | listing and dry runs leave the tree unchanged, root by root |
| Properties.StandardWithoutRemoving | pyclean.py:112-155 | a listing or dry-run standard clean leaves the tree unchanged |
| Properties.StandardRootGeneralInert | pyclean.py:133-148 | on an absolute root the general pass reports zero and leaves the tree as the extensionless pass left it |
| Properties.StandardGeneralInert | pyclean.py:117-148 | over absolute roots, a standard clean that runs to the end adds nothing to the general totals |
| Properties.StandardCountsOnlyExtensionless | pyclean.py:29-35 | with the roots of CLEAN_PATHS, the general total of a completed standard clean is zero |
| Properties.LogsKeepLastLog | pyclean.py:163-165 | clean_logs leaves /var/log/lastlog where it was |
| Properties.SnapKeepsNonEmpty | pyclean.py:186-189 | without aggressive mode, clean_snap_leftovers keeps every non-empty folder of ~/snap |
| Properties.AbsoluteTargetRefused | pyclean.py:204-210 | an absolute target is reported missing or unsafe and the tree is unchanged |
| Properties.RelativeTargetCleaned | pyclean.py:204-217 | a real clean of an existing relative target under a writable parent reports its measure and removes exactly it and what lies below it |

## Left out

- Printing: the messages, colours, the verbose flag and `human_readable_size`
  only format output. The model returns the totals instead of printing them.
- `is_root`, `reinvoke_with_sudo` and `main` are left out. They handle the
  process, the environment and argument parsing. The `--list` mode of
  `main`, which passes `dry_run=True, list_only=True`, is covered by
  `Options`.
- `gen_junk.py` is not part of this model; it is a test-data generator.
- The `except Exception: return False` branch of `is_safe_to_delete` is left
  out: `str()` and `startswith` cannot raise on the modelled paths.
- `Path.home()` is fixed to `/home/user`. `expanduser` on the target is not
  modelled: a target is a `PathRef`, resolved against the working directory.
- Path names never contain `.` or `..` components, and there are no
  symbolic links to directories. An entry whose `stat` fails counts as a
  dangling link.
- Read permissions are not modelled, and neither is the `onerror` callback
  of `os.walk` for unreadable directories.
- Per-entry unlink permission is not modelled: there is no sticky bit and no
  file ownership, only the writable flag of the directory. In a sticky
  directory such as `/tmp`, one of the `CLEAN_PATHS` roots, a normal user's
  `unlink` of another user's file raises `PermissionError`, so `delete_path`
  returns False for that file while the user's own files beside it are
  removed and counted. The model cannot express such a partial pass:
  `Rules.ReportedAllWhenNothingFails` and `Rules.UnpickedMembers` describe a
  writable root on which every unlink succeeds, and a real run on `/tmp` may
  remove and count only some of its eligible children.
- Special files (sockets, FIFOs, device nodes) are not modelled. For them
  `exists()` is True while `is_file()` and `is_dir()` are False, so
  `clean_target` would measure one as (0, 0) and unlink it, and the general
  loop would take it on a relative root. A `Node` is only a regular file, a
  directory or an entry whose `stat` fails.
- `rmtree` either removes the whole entry or nothing. A partial removal is
  not modelled.
- Concurrency is not modelled: no other process changes the tree during a
  run. Stat errors on files that vanish mid-run therefore cannot arise.
  Exceptions other than the one `iterdir` raises on a non-directory root
  are not modelled either.
- Deleting the working directory, or an ancestor of it, is treated like any
  other removal.
- The three loops over `iterdir` (the general loop of `clean_standard`,
  `clean_logs` and `clean_snap_leftovers`) share one loop method, which
  dispatches on the rule. The source writes out three loops with the same
  shape.
- The extensionless pass returns early when the list of extensionless files
  is empty. This is the same as running the loop zero times.
