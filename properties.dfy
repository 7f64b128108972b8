/**
 * What the cleaner's operations guarantee, stated over the specification
 * functions the methods are proved against.
 */
module Properties {
  import opened Paths
  import opened Safety
  import opened FileTree
  import opened Rules
  import opened Sweeps
  import opened PyClean

  // ---------------------------------------------------------------------
  // delete_path

  /**
   * delete_path takes away exactly the path and what lies below it, and only
   * in a real run on an entry whose parent admits it; every other path
   * exists afterwards exactly when it did before, and one that is not on the
   * way to the parent still finds the same node.
   */
  lemma DeleteEffect(n: Node, p: seq<Name>, dryRun: bool, q: seq<Name>)
    ensures ExistsIn(AfterDelete(n, p, dryRun), q) <==>
      ExistsIn(n, q) && !(AtOrBelow(q, p) && !dryRun && Resolve(n, p).Found? && ParentWritable(n, p))
    ensures |p| > 0 && !AtOrBelow(q, p) && !AtOrBelow(p[..|p| - 1], q) ==>
      Resolve(AfterDelete(n, p, dryRun), q) == Resolve(n, q)
  {
    if !dryRun && Resolve(n, p).Found? && ParentWritable(n, p) {
      RemovedExactly(n, p, q);
      if !AtOrBelow(q, p) && !AtOrBelow(p[..|p| - 1], q) {
        RemovedKeepsOthers(n, p, q);
      }
    }
  }

  /** For a regular file, a real delete_path returns True exactly when the file is gone afterwards. */
  lemma DeleteFileReportsTruly(n: Node, p: seq<Name>)
    requires Resolve(n, p).Found? && Resolve(n, p).node.File?
    ensures DeleteReports(n, p, false) <==> !ExistsIn(AfterDelete(n, p, false), p)
  {
    DeleteEffect(n, p, false, p);
    assert AtOrBelow(p, p);
  }

  /**
   * For a directory, delete_path returns True even when rmtree could not take
   * it away: ignore_errors swallows the failure.
   */
  lemma DeleteDirectoryAlwaysReported(n: Node, p: seq<Name>, dryRun: bool)
    requires Resolve(n, p).Found? && Resolve(n, p).node.Dir?
    ensures DeleteReports(n, p, dryRun)
    ensures ExistsIn(AfterDelete(n, p, dryRun), p) <==> dryRun || !ParentWritable(n, p)
  {
    DeleteEffect(n, p, dryRun, p);
    assert AtOrBelow(p, p);
  }

  // ---------------------------------------------------------------------
  // One loop over the children of a root

  /** Listing and dry runs leave the tree as it is and report every eligible child. */
  lemma PassWithoutRemoving(n: Node, base: seq<Name>, rule: Rule, opts: Options)
    requires WellFormed(n) && (opts.listOnly || opts.dryRun)
    ensures Pass(n, base, rule, opts).1 == n
    ensures Resolve(n, base).Found? && Resolve(n, base).node.Dir? ==>
      Pass(n, base, rule, opts).0 == Ok(Candidates(rule, Resolve(n, base).node.entries))
  {
    if Resolve(n, base).Found? && Resolve(n, base).node.Dir? {
      var d := Resolve(n, base).node;
      UpdateFound(n, base);
      ReportedAllWhenNothingFails(rule, opts, d.writable, d.entries);
    }
  }

  /**
   * After a loop, a child of the root is gone exactly when the rule takes it
   * and the run removes (a real run on a writable root); every other child is
   * still found as it was.
   */
  lemma PassTakesEligible(n: Node, base: seq<Name>, rule: Rule, opts: Options, k: nat)
    requires WellFormed(n) && Resolve(n, base).Found? && Resolve(n, base).node.Dir?
    requires k < |Resolve(n, base).node.entries|
    ensures var d := Resolve(n, base).node;
      var e := d.entries[k];
      Resolve(Pass(n, base, rule, opts).1, base + [e.name]) ==
        if Eligible(rule, e) && Removes(opts, d.writable) then Missing else Found(e.node)
  {
    var d := Resolve(n, base).node;
    var es, w := d.entries, d.writable;
    var e := es[k];
    var m := Dir(After(rule, opts, w, es), w);
    ResolveWellFormed(n, base);
    ResolveUpdate(n, base, m);
    ResolveAppend(Update(n, base, m), base, e.name);
    if Removes(opts, w) {
      RemovePickedNames(rule, es);
      ChildRemoveNames(es, NameSet(Picked(rule, es)), e.name);
      PickedMembers(rule, es);
      if e.name in NameSet(Picked(rule, es)) {
        var x :| x in Picked(rule, es) && x.name == e.name;
        var j :| 0 <= j < |es| && es[j] == x;
        assert j == k;
      }
    }
    ChildAt(es, k);
  }

  // ---------------------------------------------------------------------
  // clean_standard

  /** A root of the standard clean fails exactly when it exists but is no directory: iterdir raises. */
  lemma StandardRootFails(n: Node, cwd: seq<Name>, root: PathRef, opts: Options)
    requires WellFormed(n) && ExistsIn(n, Locate(cwd, root))
    ensures StandardRoot(n, cwd, root, opts).0.Err? <==> !Resolve(n, Locate(cwd, root)).node.Dir?
    ensures StandardRoot(n, cwd, root, opts).0.Err? ==> StandardRoot(n, cwd, root, opts).0.error == NotADirectory
  {
    var base := Locate(cwd, root);
    var d := Resolve(n, base).node;
    if d.Dir? {
      ResolveUpdate(n, base, Dir(After(NoExtension, opts, d.writable, d.entries), d.writable));
    }
  }

  /** Listing and dry runs leave the tree as it is, root by root of the standard clean. */
  lemma StandardRootWithoutRemoving(n: Node, cwd: seq<Name>, root: PathRef, opts: Options)
    requires WellFormed(n) && (opts.listOnly || opts.dryRun)
    ensures StandardRoot(n, cwd, root, opts).1 == n
  {
    var base := Locate(cwd, root);
    if Resolve(n, base).Found? && Resolve(n, base).node.Dir? {
      UpdateFound(n, base);
    }
    assert NoExtensionPass(n, base, opts).1 == n;
    PassWithoutRemoving(n, base, General(root), opts);
  }

  /** Listing and dry runs of the standard clean leave the tree as it is. */
  lemma {:induction false} StandardWithoutRemoving(n: Node, cwd: seq<Name>, roots: seq<PathRef>, opts: Options, acc: Totals)
    requires WellFormed(n) && (opts.listOnly || opts.dryRun)
    ensures Standard(n, cwd, roots, opts, acc).1 == n
    decreases |roots|
  {
    if roots != [] {
      StandardRootWithoutRemoving(n, cwd, roots[0], opts);
      var step := StandardRoot(n, cwd, roots[0], opts);
      if step.0.Ok? {
        StandardWithoutRemoving(n, cwd, roots[1..], opts, acc.Add(step.0.value));
      }
      StandardWithoutRemoving(n, cwd, roots[1..], opts, acc);
    }
  }

  /**
   * On an absolute root the general loop adds nothing to the general totals
   * and changes nothing: the root ends as the extensionless pass left it.
   */
  lemma StandardRootGeneralInert(n: Node, cwd: seq<Name>, root: PathRef, opts: Options)
    requires WellFormed(n) && root.absolute
    ensures StandardRoot(n, cwd, root, opts).0.Ok? ==> StandardRoot(n, cwd, root, opts).0.value.general == Zero
    ensures StandardRoot(n, cwd, root, opts).1 == NoExtensionPass(n, Locate(cwd, root), opts).1
  {
    var base := Locate(cwd, root);
    var first := NoExtensionPass(n, base, opts);
    if Resolve(n, base).Found? && Resolve(n, base).node.Dir? {
      var d := Resolve(n, base).node;
      ResolveWellFormed(n, base);
      AfterWellFormed(NoExtension, opts, d.entries, d.writable);
      UpdateWellFormed(n, base, Dir(After(NoExtension, opts, d.writable, d.entries), d.writable));
    }
    if Resolve(first.1, base).Found? && Resolve(first.1, base).node.Dir? {
      var d := Resolve(first.1, base).node;
      GeneralRuleInert(root, opts, d.writable, d.entries);
      UpdateFound(first.1, base);
    }
  }

  /** One root of the standard clean keeps the tree well formed. */
  lemma StandardRootKeepsWellFormed(n: Node, cwd: seq<Name>, root: PathRef, opts: Options)
    requires WellFormed(n)
    ensures WellFormed(StandardRoot(n, cwd, root, opts).1)
  {
    var base := Locate(cwd, root);
    var first := NoExtensionPass(n, base, opts);
    if Resolve(n, base).Found? && Resolve(n, base).node.Dir? {
      var d := Resolve(n, base).node;
      ResolveWellFormed(n, base);
      AfterWellFormed(NoExtension, opts, d.entries, d.writable);
      UpdateWellFormed(n, base, Dir(After(NoExtension, opts, d.writable, d.entries), d.writable));
    }
    if Resolve(first.1, base).Found? && Resolve(first.1, base).node.Dir? {
      var d := Resolve(first.1, base).node;
      ResolveWellFormed(first.1, base);
      AfterWellFormed(General(root), opts, d.entries, d.writable);
      UpdateWellFormed(first.1, base, Dir(After(General(root), opts, d.writable, d.entries), d.writable));
    }
  }

  /**
   * On absolute roots the general loop reports nothing: a standard clean that
   * runs to the end adds nothing to the general totals.
   */
  lemma {:induction false} StandardGeneralInert(n: Node, cwd: seq<Name>, roots: seq<PathRef>, opts: Options, acc: Totals)
    requires WellFormed(n) && forall k :: 0 <= k < |roots| ==> roots[k].absolute
    ensures Standard(n, cwd, roots, opts, acc).0.StandardDone? ==>
      Standard(n, cwd, roots, opts, acc).0.totals.general == acc.general
    decreases |roots|
  {
    if roots != [] {
      StandardRootGeneralInert(n, cwd, roots[0], opts);
      var step := StandardRoot(n, cwd, roots[0], opts);
      if step.0.Ok? {
        StandardRootKeepsWellFormed(n, cwd, roots[0], opts);
        assert acc.Add(step.0.value).general == acc.general;
        StandardGeneralInert(step.1, cwd, roots[1..], opts, acc.Add(step.0.value));
      }
      StandardGeneralInert(n, cwd, roots[1..], opts, acc);
    }
  }

  /**
   * The roots of the standard clean are absolute, so a standard clean that
   * runs to the end reports a general total of zero: only extensionless
   * files are ever counted or removed.
   */
  lemma StandardCountsOnlyExtensionless(n: Node, cwd: seq<Name>, opts: Options)
    requires WellFormed(n)
    ensures Standard(n, cwd, CleanPaths, opts, Totals(Zero, Zero)).0.StandardDone? ==>
      Standard(n, cwd, CleanPaths, opts, Totals(Zero, Zero)).0.totals.general == Zero
  {
    StandardGeneralInert(n, cwd, CleanPaths, opts, Totals(Zero, Zero));
  }

  // ---------------------------------------------------------------------
  // clean_logs and clean_snap_leftovers

  /** clean_logs never takes /var/log/lastlog away, aggressive or not. */
  lemma LogsKeepLastLog(n: Node, opts: Options, k: nat)
    requires WellFormed(n) && Resolve(n, LogPath).Found? && Resolve(n, LogPath).node.Dir?
    requires k < |Resolve(n, LogPath).node.entries|
    requires Resolve(n, LogPath).node.entries[k].name == "lastlog"
    ensures Resolve(Cleaning(n, LogPath, RotatedLog(opts.aggressive), opts).1, LogPath + ["lastlog"])
      == Found(Resolve(n, LogPath).node.entries[k].node)
  {
    LastLogKept(opts.aggressive);
    PassTakesEligible(n, LogPath, RotatedLog(opts.aggressive), opts, k);
  }

  /** Without --aggressive, clean_snap_leftovers keeps every folder of ~/snap that holds anything. */
  lemma SnapKeepsNonEmpty(n: Node, opts: Options, k: nat)
    requires WellFormed(n) && !opts.aggressive
    requires Resolve(n, SnapPath).Found? && Resolve(n, SnapPath).node.Dir?
    requires k < |Resolve(n, SnapPath).node.entries|
    requires Resolve(n, SnapPath).node.entries[k].node.Dir?
    requires Resolve(n, SnapPath).node.entries[k].node.entries != []
    ensures Resolve(Cleaning(n, SnapPath, SnapLeftover(false), opts).1, SnapPath + [Resolve(n, SnapPath).node.entries[k].name])
      == Found(Resolve(n, SnapPath).node.entries[k].node)
  {
    PassTakesEligible(n, SnapPath, SnapLeftover(false), opts, k);
  }

  // ---------------------------------------------------------------------
  // clean_target

  /** An absolute target is never touched: it is reported missing or not safe. */
  lemma AbsoluteTargetRefused(n: Node, cwd: seq<Name>, target: PathRef, opts: Options)
    requires target.absolute
    ensures var t := Target(n, Locate(cwd, target), Str(target), opts);
      t.1 == n && (t.0 == TargetMissing || t.0 == TargetUnsafe)
  {
    SafeIffRelative(target);
  }

  /**
   * A relative target that exists, under a writable parent, is removed by a
   * real run, together with everything below it, and its measure is reported.
   */
  lemma RelativeTargetCleaned(n: Node, cwd: seq<Name>, target: PathRef, opts: Options, q: seq<Name>)
    requires !target.absolute && !opts.listOnly && !opts.dryRun
    requires ExistsIn(n, Locate(cwd, target)) && ParentWritable(n, Locate(cwd, target))
    ensures var p := Locate(cwd, target);
      var t := Target(n, p, Str(target), opts);
      t.0 == TargetCleaned(Measure(Resolve(n, p).node))
      && (ExistsIn(t.1, q) <==> ExistsIn(n, q) && !AtOrBelow(q, p))
  {
    SafeIffRelative(target);
    DeleteEffect(n, Locate(cwd, target), false, q);
  }
}
