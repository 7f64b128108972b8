/**
 * The cleaner's operations: measuring a path, deleting one, listing the
 * extensionless files of a root, and the four cleaning passes.
 */
module PyClean {
  import opened Paths
  import opened Safety
  import opened FileTree
  import opened Os
  import opened Rules
  import opened Sweeps

  const LogPath: seq<Name> := ["var", "log"]
  const SnapPath: seq<Name> := Home + ["snap"]

  /** The roots of the standard clean, in the order they are visited. */
  const CleanPaths: seq<PathRef> := [
    PathRef(true, Home + [".cache"]),
    PathRef(true, ["var", "cache"]),
    PathRef(true, ["tmp"]),
    PathRef(true, Home + [".local", "share", "Trash"]),
    PathRef(true, Home + [".cache", "thumbnails"])
  ]

  // ---------------------------------------------------------------------
  // Specification functions

  /** What delete_path returns: False only when unlink raises. */
  function DeleteReports(n: Node, p: seq<Name>, dryRun: bool): bool {
    dryRun ||
    match Resolve(n, p)
    case Found(Dir(_, _)) => true
    case Found(_) => ParentWritable(n, p)
    case Missing => true
    case NotADir => false
  }

  /** The tree after delete_path: the entry is gone exactly when its parent admits it. */
  function AfterDelete(n: Node, p: seq<Name>, dryRun: bool): Node {
    if !dryRun && Resolve(n, p).Found? && ParentWritable(n, p) then Removed(n, p) else n
  }

  /** The paths of the given children of base. */
  function ChildPaths(base: seq<Name>, es: seq<Entry>): seq<seq<Name>> {
    seq(|es|, k requires 0 <= k < |es| => base + [es[k].name])
  }

  /** A pass over the children of base, with the error iterdir raises when base is no directory. */
  function Pass(n: Node, base: seq<Name>, rule: Rule, opts: Options): (Result<Tally>, Node) {
    match Resolve(n, base)
    case Found(Dir(es, w)) =>
      (Ok(Reported(rule, opts, w, es)), Update(n, base, Dir(After(rule, opts, w, es), w)))
    case Found(File(_)) => (Err(NotADirectory), n)
    case Found(Dangling) => (Err(NotFound), n)
    case Missing => (Err(NotFound), n)
    case NotADir => (Err(NotADirectory), n)
  }

  /** The extensionless pass of one root: nothing happens when the root is no directory. */
  function NoExtensionPass(n: Node, base: seq<Name>, opts: Options): (Tally, Node) {
    match Resolve(n, base)
    case Found(Dir(es, w)) =>
      (Reported(NoExtension, opts, w, es), Update(n, base, Dir(After(NoExtension, opts, w, es), w)))
    case _ => (Zero, n)
  }

  /** The two totals the standard clean keeps. */
  datatype Totals = Totals(noext: Tally, general: Tally) {
    function Add(other: Totals): Totals {
      Totals(noext.Plus(other.noext), general.Plus(other.general))
    }
  }

  /** One root of the standard clean: the extensionless pass, then the general pass. */
  function StandardRoot(n: Node, cwd: seq<Name>, root: PathRef, opts: Options): (Result<Totals>, Node) {
    var base := Locate(cwd, root);
    var first := NoExtensionPass(n, base, opts);
    var second := Pass(first.1, base, General(root), opts);
    match second.0
    case Ok(general) => (Ok(Totals(first.0, general)), second.1)
    case Err(e) => (Err(e), second.1)
  }

  datatype StandardOutcome = StandardDone(totals: Totals) | StandardCrashed(error: OsError)

  /** The standard clean over the remaining roots, with the totals so far. */
  function Standard(n: Node, cwd: seq<Name>, roots: seq<PathRef>, opts: Options, acc: Totals): (StandardOutcome, Node)
    decreases |roots|
  {
    if roots == [] then (StandardDone(acc), n)
    else if !ExistsIn(n, Locate(cwd, roots[0])) then Standard(n, cwd, roots[1..], opts, acc)
    else
      var step := StandardRoot(n, cwd, roots[0], opts);
      match step.0
      case Ok(t) => Standard(step.1, cwd, roots[1..], opts, acc.Add(t))
      case Err(e) => (StandardCrashed(e), step.1)
  }

  /** What clean_logs and clean_snap_leftovers come to. */
  datatype Cleanup = Absent | Swept(total: Tally) | Crashed(error: OsError)

  function Cleaning(n: Node, base: seq<Name>, rule: Rule, opts: Options): (Cleanup, Node) {
    if !ExistsIn(n, base) then (Absent, n)
    else
      var pass := Pass(n, base, rule, opts);
      match pass.0
      case Ok(t) => (Swept(t), pass.1)
      case Err(e) => (Crashed(e), pass.1)
  }

  datatype TargetOutcome =
    | TargetMissing
    | TargetUnsafe
    | TargetListed(total: Tally)
    | TargetCleaned(total: Tally)
    | TargetNotCleaned

  /** clean_target on the path p, spelled s. */
  function Target(n: Node, p: seq<Name>, s: string, opts: Options): (TargetOutcome, Node) {
    if !ExistsIn(n, p) then (TargetMissing, n)
    else if !IsSafeToDelete(s) then (TargetUnsafe, n)
    else
      var t := Measure(Resolve(n, p).node);
      if opts.listOnly then (TargetListed(t), n)
      else if DeleteReports(n, p, opts.dryRun) then (TargetCleaned(t), AfterDelete(n, p, opts.dryRun))
      else (TargetNotCleaned, AfterDelete(n, p, opts.dryRun))
  }

  // ---------------------------------------------------------------------
  // Measuring

  /** Entries at or below a node: a directory weighs more than all its children. */
  function Weight(n: Node): nat {
    match n
    case Dir(es, _) => 1 + Weights(es)
    case _ => 1
  }

  function Weights(es: seq<Entry>): nat {
    if es == [] then 0 else Weights(es[..|es| - 1]) + Weight(es[|es| - 1].node)
  }

  /** The directories still to be walked: their weight, and what they will add. */
  function StackWeight(stack: seq<Node>): nat {
    if stack == [] then 0 else StackWeight(stack[..|stack| - 1]) + Weight(stack[|stack| - 1])
  }

  function Pending(stack: seq<Node>): Tally {
    if stack == [] then Zero else Pending(stack[..|stack| - 1]).Plus(Measure(stack[|stack| - 1]))
  }

  lemma PendingSingle(n: Node, count: int, size: int)
    requires count == Pending([n]).count && size == Pending([n]).size
    ensures Tally(count, size) == Measure(n)
  {
    var stack := [n];
    assert stack[..|stack| - 1] == [] && stack[|stack| - 1] == n;
  }

  /**
   * get_size_and_count: (0, 0) for what does not exist, the file's size and 1
   * for a file, and for a directory the sizes and number of the regular files
   * below it, walked directory by directory; entries whose stat fails are skipped.
   */
  method GetSizeAndCount(fs: FileSystem, p: seq<Name>) returns (size: int, count: int)
    ensures Tally(count, size) == if fs.Exists(p) then Measure(Resolve(fs.root, p).node) else Zero
  {
    if !fs.Exists(p) {
      return 0, 0;
    }
    if fs.IsFile(p) {
      return fs.Stat(p), 1;
    }
    size, count := Walk(Resolve(fs.root, p).node);
  }

  /** The os.walk loop of get_size_and_count, from one directory. */
  method Walk(top: Node) returns (size: int, count: int)
    requires top.Dir?
    ensures Tally(count, size) == Measure(top)
  {
    size, count := WalkStack([top]);
    PendingSingle(top, count, size);
  }

  /** Directories are taken off a stack one at a time until none is left. */
  method WalkStack(stack0: seq<Node>) returns (size: int, count: int)
    requires forall k :: 0 <= k < |stack0| ==> stack0[k].Dir?
    ensures count == Pending(stack0).count && size == Pending(stack0).size
  {
    size, count := 0, 0;
    var stack := stack0;
    while stack != []
      invariant forall k :: 0 <= k < |stack| ==> stack[k].Dir?
      invariant count + Pending(stack).count == Pending(stack0).count
      invariant size + Pending(stack).size == Pending(stack0).size
      decreases StackWeight(stack)
    {
      var d := stack[|stack| - 1];
      stack := stack[..|stack| - 1];
      size, count, stack := WalkEntries(d.entries, size, count, stack);
    }
  }

  /** One directory of the walk: its files are counted, its subdirectories stacked. */
  method WalkEntries(es: seq<Entry>, size0: int, count0: int, stack0: seq<Node>)
    returns (size: int, count: int, stack: seq<Node>)
    requires forall k :: 0 <= k < |stack0| ==> stack0[k].Dir?
    ensures forall k :: 0 <= k < |stack| ==> stack[k].Dir?
    ensures count + Pending(stack).count == count0 + Pending(stack0).count + Total(es).count
    ensures size + Pending(stack).size == size0 + Pending(stack0).size + Total(es).size
    ensures StackWeight(stack) <= StackWeight(stack0) + Weights(es)
  {
    size, count, stack := size0, count0, stack0;
    var i := 0;
    while i < |es|
      invariant 0 <= i <= |es|
      invariant forall k :: 0 <= k < |stack| ==> stack[k].Dir?
      invariant count + Pending(stack).count == count0 + Pending(stack0).count + Total(es[..i]).count
      invariant size + Pending(stack).size == size0 + Pending(stack0).size + Total(es[..i]).size
      invariant StackWeight(stack) <= StackWeight(stack0) + Weights(es[..i])
    {
      var e := es[i];
      assert es[..i + 1][..i] == es[..i];
      match e.node {
        case File(s) =>
          size, count := size + s, count + 1;
        case Dir(_, _) =>
          assert (stack + [e.node])[..|stack|] == stack;
          stack := stack + [e.node];
        case Dangling =>
      }
      i := i + 1;
    }
    assert es[..|es|] == es;
  }

  // ---------------------------------------------------------------------
  // Deleting

  /**
   * delete_path: a dry run only reports success; a directory goes through
   * rmtree, whose errors are ignored; anything else is unlinked, and an error
   * from unlink is reported as failure instead of being raised.
   */
  method DeletePath(fs: FileSystem, p: seq<Name>, dryRun: bool) returns (ok: bool)
    requires fs.Valid()
    modifies fs
    ensures fs.Valid()
    ensures ok == DeleteReports(old(fs.root), p, dryRun)
    ensures fs.root == AfterDelete(old(fs.root), p, dryRun)
  {
    if dryRun {
      return true;
    }
    if fs.IsDir(p) {
      fs.RmTree(p);
    } else {
      var r := fs.Unlink(p, true);
      if r.Err? {
        return false;
      }
    }
    return true;
  }

  // ---------------------------------------------------------------------
  // Listing

  /** list_no_extension_files: the regular files directly in base whose suffix is empty. */
  method ListNoExtensionFiles(fs: FileSystem, base: seq<Name>) returns (result: seq<seq<Name>>)
    requires fs.Valid()
    ensures result ==
      if fs.IsDir(base) then ChildPaths(base, Picked(NoExtension, Resolve(fs.root, base).node.entries)) else []
  {
    if !fs.Exists(base) || !fs.IsDir(base) {
      return [];
    }
    var names := fs.IterDir(base).value;
    ghost var es := Resolve(fs.root, base).node.entries;
    result := [];
    var j := 0;
    while j < |names|
      invariant 0 <= j <= |names| && names == NamesOf(es)
      invariant result == ChildPaths(base, Picked(NoExtension, es[..j]))
    {
      var f := base + [names[j]];
      ChildOfFound(fs.root, base, j);
      assert es[..j + 1] == es[..j] + [es[j]];
      PickedSnoc(NoExtension, es[..j], es[j]);
      if fs.IsFile(f) && Suffix(names[j]) == "" {
        result := result + [f];
      } else {
        assert Picked(NoExtension, es[..j]) + [] == Picked(NoExtension, es[..j]);
      }
      j := j + 1;
    }
    assert es[..|es|] == es;
  }

  // ---------------------------------------------------------------------
  // The standard clean

  /**
   * The tail every loop shares: a listing counts the child; otherwise the
   * child is deleted and counted when delete_path reports success.
   */
  method ListOrDelete(fs: FileSystem, p: seq<Name>, opts: Options, t: Tally) returns (added: Tally)
    requires fs.Valid()
    modifies fs
    ensures fs.Valid()
    ensures added == if opts.listOnly || DeleteReports(old(fs.root), p, opts.dryRun) then t else Zero
    ensures fs.root == if opts.listOnly then old(fs.root) else AfterDelete(old(fs.root), p, opts.dryRun)
  {
    if opts.listOnly {
      return t;
    }
    var ok := DeletePath(fs, p, opts.dryRun);
    added := if ok then t else Zero;
  }

  /** One child in the second loop of clean_standard: root is the path as spelled, base where it leads. */
  method GeneralChild(fs: FileSystem, root: PathRef, base: seq<Name>, name: Name, opts: Options) returns (added: Tally)
    requires fs.Valid() && Resolve(fs.root, base + [name]).Found?
    modifies fs
    ensures fs.Valid()
    ensures Took(old(fs.root), base, name, General(root), opts, added, fs.root)
  {
    var item := base + [name];
    added := Zero;
    if IsSafeToDelete(Str(Slash(root, name))) {
      if fs.IsFile(item) && Suffix(name) == "" {
        // counted with the extensionless files
      } else {
        var itemSize, itemCount := GetSizeAndCount(fs, item);
        added := ListOrDelete(fs, item, opts, Tally(itemCount, itemSize));
      }
    }
  }

  /** One entry of /var/log in clean_logs. */
  method LogChild(fs: FileSystem, base: seq<Name>, name: Name, aggressive: bool, opts: Options) returns (added: Tally)
    requires fs.Valid() && Resolve(fs.root, base + [name]).Found?
    modifies fs
    ensures fs.Valid()
    ensures Took(old(fs.root), base, name, RotatedLog(aggressive), opts, added, fs.root)
  {
    var log := base + [name];
    added := Zero;
    if fs.IsFile(log) {
      if LogNameEligible(name, aggressive) {
        var logSize := fs.Stat(log);
        added := ListOrDelete(fs, log, opts, Tally(1, logSize));
      }
    }
  }

  /** One entry of ~/snap in clean_snap_leftovers; any() over an iterdir is true when it yields anything. */
  method SnapChild(fs: FileSystem, base: seq<Name>, name: Name, aggressive: bool, opts: Options) returns (added: Tally)
    requires fs.Valid() && Resolve(fs.root, base + [name]).Found?
    modifies fs
    ensures fs.Valid()
    ensures Took(old(fs.root), base, name, SnapLeftover(aggressive), opts, added, fs.root)
  {
    var folder := base + [name];
    added := Zero;
    if fs.IsDir(folder) {
      var folderSize, folderCount := GetSizeAndCount(fs, folder);
      if |fs.IterDir(folder).value| == 0 || aggressive {
        added := ListOrDelete(fs, folder, opts, Tally(folderCount, folderSize));
      }
    }
  }

  /** The body of a loop over base.iterdir(), by rule. */
  method Visit(fs: FileSystem, base: seq<Name>, name: Name, rule: Rule, opts: Options) returns (added: Tally)
    requires fs.Valid() && Resolve(fs.root, base + [name]).Found? && !rule.NoExtension?
    modifies fs
    ensures fs.Valid()
    ensures Took(old(fs.root), base, name, rule, opts, added, fs.root)
  {
    match rule
    case General(root) => added := GeneralChild(fs, root, base, name, opts);
    case RotatedLog(aggressive) => added := LogChild(fs, base, name, aggressive, opts);
    case SnapLeftover(aggressive) => added := SnapChild(fs, base, name, aggressive, opts);
  }

  /**
   * A loop over base.iterdir(): the listing is taken once, iterdir raising
   * when base is no directory, and each child is visited in listing order.
   */
  method Sweep(fs: FileSystem, base: seq<Name>, rule: Rule, opts: Options) returns (r: Result<Tally>)
    requires fs.Valid() && !rule.NoExtension?
    modifies fs
    ensures fs.Valid()
    ensures r == Pass(old(fs.root), base, rule, opts).0
    ensures fs.root == Pass(old(fs.root), base, rule, opts).1
  {
    var listing := fs.IterDir(base);
    if listing.Err? {
      return Err(listing.error);
    }
    var total := SweepListing(fs, base, listing.value, rule, opts);
    return Ok(total);
  }

  /** One iteration of the loop: the child at index j is visited and the view moves on by one. */
  method SweepOne(fs: FileSystem, base: seq<Name>, name: Name, rule: Rule, opts: Options,
                  ghost root0: Node, ghost es: seq<Entry>, ghost w: bool, ghost j: nat, total0: Tally)
    returns (total: Tally)
    requires fs.Valid() && !rule.NoExtension?
    requires WellFormed(root0) && Resolve(root0, base) == Found(Dir(es, w))
    requires j < |es| && name == es[j].name
    requires fs.root == View(root0, base, es, w, Gone(rule, opts, w, es[..j]))
    requires total0 == Reported(rule, opts, w, es[..j])
    modifies fs
    ensures fs.Valid()
    ensures fs.root == View(root0, base, es, w, Gone(rule, opts, w, es[..j + 1]))
    ensures total == Reported(rule, opts, w, es[..j + 1])
  {
    ghost var before := fs.root;
    ResolveWellFormed(root0, base);
    SweepStep(rule, opts, root0, base, es, w, es, j, before);
    var added := Visit(fs, base, name, rule, opts);
    SweepAdvance(rule, opts, root0, base, es, w, es, j, before, fs.root, total0, added);
    total := total0.Plus(added);
  }

  /** The loop proper, over the names iterdir gave for the directory at base. */
  method SweepListing(fs: FileSystem, base: seq<Name>, names: seq<Name>, rule: Rule, opts: Options)
    returns (total: Tally)
    requires fs.Valid() && !rule.NoExtension?
    requires fs.IsDir(base) && names == NamesOf(Resolve(fs.root, base).node.entries)
    modifies fs
    ensures fs.Valid()
    ensures var d := Resolve(old(fs.root), base).node;
      total == Reported(rule, opts, d.writable, d.entries)
      && fs.root == Update(old(fs.root), base, Dir(After(rule, opts, d.writable, d.entries), d.writable))
  {
    ghost var root0 := fs.root;
    ghost var es := Resolve(root0, base).node.entries;
    ghost var w := Resolve(root0, base).node.writable;
    ResolveWellFormed(root0, base);
    SweepStart(rule, opts, root0, base, es, w);
    assert es[..0] == [];
    total := Zero;
    var j := 0;
    while j < |names|
      invariant 0 <= j <= |names| && names == NamesOf(es)
      invariant fs.Valid()
      invariant fs.root == View(root0, base, es, w, Gone(rule, opts, w, es[..j]))
      invariant total == Reported(rule, opts, w, es[..j])
    {
      total := SweepOne(fs, base, names[j], rule, opts, root0, es, w, j, total);
      j := j + 1;
    }
    SweepDone(rule, opts, root0, base, es, w);
  }

  /** One listed extensionless file, at index j of the picked children of the root. */
  method NoExtensionOne(fs: FileSystem, base: seq<Name>, f: seq<Name>, opts: Options,
                        ghost root0: Node, ghost es: seq<Entry>, ghost w: bool, ghost j: nat, total0: Tally)
    returns (total: Tally)
    requires fs.Valid() && WellFormed(root0) && Resolve(root0, base) == Found(Dir(es, w))
    requires var ps := Picked(NoExtension, es);
      j < |ps| && f == base + [ps[j].name]
      && fs.root == View(root0, base, es, w, Gone(NoExtension, opts, w, ps[..j]))
      && total0 == Reported(NoExtension, opts, w, ps[..j])
    modifies fs
    ensures fs.Valid()
    ensures var ps := Picked(NoExtension, es);
      fs.root == View(root0, base, es, w, Gone(NoExtension, opts, w, ps[..j + 1]))
      && total == Reported(NoExtension, opts, w, ps[..j + 1])
  {
    ghost var ps := Picked(NoExtension, es);
    ghost var before := fs.root;
    ResolveWellFormed(root0, base);
    PickedDistinct(NoExtension, es);
    PickedMembers(NoExtension, es);
    assert ps[j] in ps;
    SweepStep(NoExtension, opts, root0, base, es, w, ps, j, before);
    var fsize := fs.Stat(f);
    var added := ListOrDelete(fs, f, opts, Tally(1, fsize));
    assert Took(before, base, ps[j].name, NoExtension, opts, added, fs.root);
    SweepAdvance(NoExtension, opts, root0, base, es, w, ps, j, before, fs.root, total0, added);
    total := total0.Plus(added);
  }

  /** The first loop of clean_standard, over the extensionless files of the directory at base (possibly none). */
  method NoExtensionListing(fs: FileSystem, base: seq<Name>, files: seq<seq<Name>>, opts: Options)
    returns (total: Tally)
    requires fs.Valid() && fs.IsDir(base)
    requires files == ChildPaths(base, Picked(NoExtension, Resolve(fs.root, base).node.entries))
    modifies fs
    ensures fs.Valid()
    ensures var d := Resolve(old(fs.root), base).node;
      total == Reported(NoExtension, opts, d.writable, d.entries)
      && fs.root == Update(old(fs.root), base, Dir(After(NoExtension, opts, d.writable, d.entries), d.writable))
  {
    ghost var root0 := fs.root;
    ghost var es := Resolve(root0, base).node.entries;
    ghost var w := Resolve(root0, base).node.writable;
    ghost var ps := Picked(NoExtension, es);
    SweepStart(NoExtension, opts, root0, base, es, w);
    assert ps[..0] == [];
    total := Zero;
    var j := 0;
    while j < |files|
      invariant 0 <= j <= |files| == |ps|
      invariant fs.Valid()
      invariant fs.root == View(root0, base, es, w, Gone(NoExtension, opts, w, ps[..j]))
      invariant total == Reported(NoExtension, opts, w, ps[..j])
    {
      total := NoExtensionOne(fs, base, files[j], opts, root0, es, w, j, total);
      j := j + 1;
    }
    SweepDonePicked(NoExtension, opts, root0, base, es, w);
  }

  /**
   * The extensionless files of one root of clean_standard: each is measured
   * by stat, then listed or deleted.
   */
  method SweepNoExtension(fs: FileSystem, base: seq<Name>, opts: Options) returns (total: Tally)
    requires fs.Valid()
    modifies fs
    ensures fs.Valid()
    ensures total == NoExtensionPass(old(fs.root), base, opts).0
    ensures fs.root == NoExtensionPass(old(fs.root), base, opts).1
  {
    var files := ListNoExtensionFiles(fs, base);
    if files == [] {
      if fs.IsDir(base) {
        var d := Resolve(fs.root, base).node;
        ResolveWellFormed(fs.root, base);
        NothingPicked(NoExtension, opts, fs.root, base, d.entries, d.writable);
      }
      return Zero;
    }
    total := NoExtensionListing(fs, base, files, opts);
  }

  /** One root of clean_standard: the extensionless files first, then the rest of the listing. */
  method CleanStandardRoot(fs: FileSystem, root: PathRef, opts: Options) returns (r: Result<Totals>)
    requires fs.Valid()
    modifies fs
    ensures fs.Valid()
    ensures r == StandardRoot(old(fs.root), fs.cwd, root, opts).0
    ensures fs.root == StandardRoot(old(fs.root), fs.cwd, root, opts).1
  {
    var base := fs.Absolute(root);
    var noext := SweepNoExtension(fs, base, opts);
    var general := Sweep(fs, base, General(root), opts);
    match general
    case Ok(t) => r := Ok(Totals(noext, t));
    case Err(e) => r := Err(e);
  }

  /**
   * clean_standard: every root that exists is cleaned in turn; an error from
   * iterdir ends the whole clean.
   */
  method CleanStandard(fs: FileSystem, opts: Options) returns (outcome: StandardOutcome)
    requires fs.Valid()
    modifies fs
    ensures fs.Valid()
    ensures outcome == Standard(old(fs.root), fs.cwd, CleanPaths, opts, Totals(Zero, Zero)).0
    ensures fs.root == Standard(old(fs.root), fs.cwd, CleanPaths, opts, Totals(Zero, Zero)).1
  {
    ghost var goal := Standard(fs.root, fs.cwd, CleanPaths, opts, Totals(Zero, Zero));
    var acc := Totals(Zero, Zero);
    var i := 0;
    while i < |CleanPaths|
      invariant 0 <= i <= |CleanPaths|
      invariant fs.Valid()
      invariant Standard(fs.root, fs.cwd, CleanPaths[i..], opts, acc) == goal
    {
      assert CleanPaths[i..][1..] == CleanPaths[i + 1..];
      if fs.Exists(fs.Absolute(CleanPaths[i])) {
        var r := CleanStandardRoot(fs, CleanPaths[i], opts);
        if r.Err? {
          return StandardCrashed(r.error);
        }
        acc := acc.Add(r.value);
      }
      i := i + 1;
    }
    return StandardDone(acc);
  }

  /** clean_logs: the rotated and archived files of /var/log, when it exists. */
  method CleanLogs(fs: FileSystem, opts: Options) returns (c: Cleanup)
    requires fs.Valid()
    modifies fs
    ensures fs.Valid()
    ensures c == Cleaning(old(fs.root), LogPath, RotatedLog(opts.aggressive), opts).0
    ensures fs.root == Cleaning(old(fs.root), LogPath, RotatedLog(opts.aggressive), opts).1
  {
    if !fs.Exists(LogPath) {
      return Absent;
    }
    var r := Sweep(fs, LogPath, RotatedLog(opts.aggressive), opts);
    c := if r.Ok? then Swept(r.value) else Crashed(r.error);
  }

  /** clean_snap_leftovers: the empty (or, aggressively, all) folders of ~/snap, when it exists. */
  method CleanSnapLeftovers(fs: FileSystem, opts: Options) returns (c: Cleanup)
    requires fs.Valid()
    modifies fs
    ensures fs.Valid()
    ensures c == Cleaning(old(fs.root), SnapPath, SnapLeftover(opts.aggressive), opts).0
    ensures fs.root == Cleaning(old(fs.root), SnapPath, SnapLeftover(opts.aggressive), opts).1
  {
    if !fs.Exists(SnapPath) {
      return Absent;
    }
    var r := Sweep(fs, SnapPath, SnapLeftover(opts.aggressive), opts);
    c := if r.Ok? then Swept(r.value) else Crashed(r.error);
  }

  /** clean_target: a missing or guarded target is refused; otherwise it is measured, then listed or deleted. */
  method CleanTarget(fs: FileSystem, target: PathRef, opts: Options) returns (outcome: TargetOutcome)
    requires fs.Valid()
    modifies fs
    ensures fs.Valid()
    ensures outcome == Target(old(fs.root), fs.Absolute(target), Str(target), opts).0
    ensures fs.root == Target(old(fs.root), fs.Absolute(target), Str(target), opts).1
  {
    var p := fs.Absolute(target);
    if !fs.Exists(p) {
      return TargetMissing;
    }
    if !IsSafeToDelete(Str(target)) {
      return TargetUnsafe;
    }
    var size, count := GetSizeAndCount(fs, p);
    if opts.listOnly {
      return TargetListed(Tally(count, size));
    }
    var ok := DeletePath(fs, p, opts.dryRun);
    outcome := if ok then TargetCleaned(Tally(count, size)) else TargetNotCleaned;
  }
}
