/**
 * The classifier: which immediate children of a root each cleaning loop
 * takes, what it reports for them, and what it leaves behind.
 */
module Rules {
  import opened Paths
  import opened Safety
  import opened FileTree

  /** The eligibility rule a cleaning loop applies to each child of its root. */
  datatype Rule =
    | NoExtension                    // clean_standard, extensionless files
    | General(root: PathRef)         // clean_standard, the other children of `root`
    | RotatedLog(aggressive: bool)   // clean_logs
    | SnapLeftover(aggressive: bool) // clean_snap_leftovers

  /** The flags of one run; verbose only changes what is printed and is left out. */
  datatype Options = Options(dryRun: bool, aggressive: bool, listOnly: bool)

  const LogSuffixes: seq<string> := [".gz", ".1", ".old", ".xz", ".zip"]

  /** str.endswith with a tuple of candidate endings. */
  predicate EndsWithAny(name: string, tails: seq<string>) {
    exists k :: 0 <= k < |tails| && EndsWith(name, tails[k])
  }

  /** The log-file name test as written: suffix listed, listed ending, or aggressive and not lastlog. */
  predicate LogNameEligible(name: string, aggressive: bool) {
    Suffix(name) in LogSuffixes || EndsWithAny(name, LogSuffixes) || (aggressive && name != "lastlog")
  }

  /** A regular file whose pathlib suffix is empty. */
  predicate HasNoExtension(e: Entry) {
    e.node.File? && Suffix(e.name) == ""
  }

  predicate Eligible(rule: Rule, e: Entry) {
    match rule
    case NoExtension => HasNoExtension(e)
    case General(root) => IsSafeToDelete(Str(Slash(root, e.name))) && !HasNoExtension(e)
    case RotatedLog(aggressive) => e.node.File? && LogNameEligible(e.name, aggressive)
    case SnapLeftover(aggressive) => e.node.Dir? && (e.node.entries == [] || aggressive)
  }

  /**
   * Whether an eligible child's measure is added to the totals: when listing,
   * or when delete_path reports success (always in a dry run, always for a
   * directory, and for anything else when its parent admits unlinking).
   */
  predicate Tallied(opts: Options, writable: bool, e: Entry) {
    opts.listOnly || opts.dryRun || e.node.Dir? || writable
  }

  /** Whether the loop's deletions take effect. */
  predicate Removes(opts: Options, writable: bool) {
    !opts.listOnly && !opts.dryRun && writable
  }

  /** The eligible children, in listing order. */
  function Picked(rule: Rule, es: seq<Entry>): (r: seq<Entry>)
  {
    if es == [] then []
    else
      var last := es[|es| - 1];
      Picked(rule, es[..|es| - 1]) + (if Eligible(rule, last) then [last] else [])
  }

  /** The children the rule does not take, in listing order. */
  function Unpicked(rule: Rule, es: seq<Entry>): (r: seq<Entry>)
  {
    if es == [] then []
    else
      var last := es[|es| - 1];
      Unpicked(rule, es[..|es| - 1]) + (if Eligible(rule, last) then [] else [last])
  }

  /** What a listing would report: the measures of all eligible children. */
  function Candidates(rule: Rule, es: seq<Entry>): Tally {
    if es == [] then Zero
    else
      var last := es[|es| - 1];
      Candidates(rule, es[..|es| - 1]).Plus(if Eligible(rule, last) then Measure(last.node) else Zero)
  }

  /** What the loop reports under the given flags for a root with the given writability. */
  function Reported(rule: Rule, opts: Options, writable: bool, es: seq<Entry>): Tally {
    if es == [] then Zero
    else
      var last := es[|es| - 1];
      Reported(rule, opts, writable, es[..|es| - 1]).Plus(
        if Eligible(rule, last) && Tallied(opts, writable, last) then Measure(last.node) else Zero)
  }

  /** The root's listing after the loop. */
  function After(rule: Rule, opts: Options, writable: bool, es: seq<Entry>): seq<Entry> {
    if Removes(opts, writable) then Unpicked(rule, es) else es
  }

  // ---------------------------------------------------------------------
  // One more child at the end of the listing

  /** The measure one child adds to a report. */
  function Step(rule: Rule, opts: Options, writable: bool, e: Entry): Tally {
    if Eligible(rule, e) && Tallied(opts, writable, e) then Measure(e.node) else Zero
  }

  lemma ReportedSnoc(rule: Rule, opts: Options, writable: bool, es: seq<Entry>, e: Entry)
    ensures Reported(rule, opts, writable, es + [e]) == Reported(rule, opts, writable, es).Plus(Step(rule, opts, writable, e))
  {
    assert (es + [e])[..|es|] == es;
  }

  lemma CandidatesSnoc(rule: Rule, es: seq<Entry>, e: Entry)
    ensures Candidates(rule, es + [e]) == Candidates(rule, es).Plus(if Eligible(rule, e) then Measure(e.node) else Zero)
  {
    assert (es + [e])[..|es|] == es;
  }

  lemma PickedSnoc(rule: Rule, es: seq<Entry>, e: Entry)
    ensures Picked(rule, es + [e]) == Picked(rule, es) + (if Eligible(rule, e) then [e] else [])
  {
    assert (es + [e])[..|es|] == es;
  }

  lemma UnpickedSnoc(rule: Rule, es: seq<Entry>, e: Entry)
    ensures Unpicked(rule, es + [e]) == Unpicked(rule, es) + (if Eligible(rule, e) then [] else [e])
  {
    assert (es + [e])[..|es|] == es;
  }

  lemma DirectoriesSnoc(es: seq<Entry>, e: Entry)
    ensures DirectoriesOf(es + [e]) == DirectoriesOf(es) + (if e.node.Dir? then [e] else [])
  {
    assert (es + [e])[..|es|] == es;
  }

  lemma TotalSnoc(es: seq<Entry>, e: Entry)
    ensures Total(es + [e]) == Total(es).Plus(Measure(e.node))
  {
    assert (es + [e])[..|es|] == es;
  }

  // ---------------------------------------------------------------------
  // What the rules guarantee

  /** The loop takes exactly the eligible children of its root. */
  lemma {:induction false} PickedMembers(rule: Rule, es: seq<Entry>)
    ensures forall e :: e in Picked(rule, es) <==> e in es && Eligible(rule, e)
  {
    if es != [] {
      var init, last := es[..|es| - 1], es[|es| - 1];
      PickedMembers(rule, init);
      assert es == init + [last];
    }
  }

  /** A real run on a writable root leaves exactly the ineligible children. */
  lemma {:induction false} UnpickedMembers(rule: Rule, es: seq<Entry>)
    ensures forall e :: e in Unpicked(rule, es) <==> e in es && !Eligible(rule, e)
  {
    if es != [] {
      var init, last := es[..|es| - 1], es[|es| - 1];
      UnpickedMembers(rule, init);
      assert es == init + [last];
    }
  }

  /**
   * A listing, a dry run and a real run on a writable root report the same
   * totals: everything eligible.
   */
  lemma {:induction false} ReportedAllWhenNothingFails(rule: Rule, opts: Options, writable: bool, es: seq<Entry>)
    requires opts.listOnly || opts.dryRun || writable
    ensures Reported(rule, opts, writable, es) == Candidates(rule, es)
  {
    if es != [] {
      ReportedAllWhenNothingFails(rule, opts, writable, es[..|es| - 1]);
    }
  }

  /** A run never reports more than a listing of the same root. */
  lemma {:induction false} ReportedAtMostCandidates(rule: Rule, opts: Options, writable: bool, es: seq<Entry>)
    ensures Reported(rule, opts, writable, es).count <= Candidates(rule, es).count
    ensures Reported(rule, opts, writable, es).size <= Candidates(rule, es).size
  {
    if es != [] {
      ReportedAtMostCandidates(rule, opts, writable, es[..|es| - 1]);
    }
  }

  /**
   * On a read-only root a real run removes nothing, yet every eligible
   * directory is still reported: rmtree swallows its errors.
   */
  lemma {:induction false} ReadOnlyRootReportsDirectories(rule: Rule, opts: Options, es: seq<Entry>)
    requires !opts.listOnly && !opts.dryRun
    ensures After(rule, opts, false, es) == es
    ensures Reported(rule, opts, false, es) == Candidates(rule, DirectoriesOf(es))
  {
    if es != [] {
      var init, last := es[..|es| - 1], es[|es| - 1];
      assert es == init + [last];
      ReadOnlyRootReportsDirectories(rule, opts, init);
      ReportedSnoc(rule, opts, false, init, last);
      DirectoriesSnoc(init, last);
      if last.node.Dir? {
        CandidatesSnoc(rule, DirectoriesOf(init), last);
      } else {
        assert DirectoriesOf(es) == DirectoriesOf(init) + [];
        assert DirectoriesOf(init) + [] == DirectoriesOf(init);
      }
    }
  }

  function DirectoriesOf(es: seq<Entry>): seq<Entry> {
    if es == [] then []
    else
      var last := es[|es| - 1];
      DirectoriesOf(es[..|es| - 1]) + (if last.node.Dir? then [last] else [])
  }

  /** Reporting over the picked children alone gives the same totals. */
  lemma {:induction false} ReportedOverPicked(rule: Rule, opts: Options, writable: bool, es: seq<Entry>)
    ensures Reported(rule, opts, writable, Picked(rule, es)) == Reported(rule, opts, writable, es)
  {
    if es != [] {
      var init, last := es[..|es| - 1], es[|es| - 1];
      assert es == init + [last];
      ReportedOverPicked(rule, opts, writable, init);
      PickedSnoc(rule, init, last);
      ReportedSnoc(rule, opts, writable, init, last);
      if Eligible(rule, last) {
        ReportedSnoc(rule, opts, writable, Picked(rule, init), last);
      } else {
        assert Picked(rule, es) == Picked(rule, init) + [];
        assert Picked(rule, init) + [] == Picked(rule, init);
      }
    }
  }

  /** Picking twice picks nothing new. */
  lemma {:induction false} PickedIdempotent(rule: Rule, es: seq<Entry>)
    ensures Picked(rule, Picked(rule, es)) == Picked(rule, es)
  {
    if es != [] {
      var init, last := es[..|es| - 1], es[|es| - 1];
      assert es == init + [last];
      PickedIdempotent(rule, init);
      PickedSnoc(rule, init, last);
      if Eligible(rule, last) {
        PickedSnoc(rule, Picked(rule, init), last);
      } else {
        assert Picked(rule, init) + [] == Picked(rule, init);
      }
    }
  }

  /**
   * Removing, by name, every picked child leaves exactly the unpicked ones:
   * names are unique within a directory.
   */
  lemma RemovePickedNames(rule: Rule, es: seq<Entry>)
    requires DistinctNames(es)
    ensures RemoveNames(es, NameSet(Picked(rule, es))) == Unpicked(rule, es)
  {
    var s := NameSet(Picked(rule, es));
    PickedMembers(rule, es);
    forall k | 0 <= k < |es|
      ensures es[k].name in s <==> Eligible(rule, es[k])
    {
      if es[k].name in s {
        var e :| e in Picked(rule, es) && e.name == es[k].name;
        var j :| 0 <= j < |es| && es[j] == e;
      }
    }
    RemoveNamesAsUnpicked(rule, es, s);
  }

  lemma {:induction false} RemoveNamesAsUnpicked(rule: Rule, es: seq<Entry>, s: set<Name>)
    requires forall k :: 0 <= k < |es| ==> (es[k].name in s <==> Eligible(rule, es[k]))
    ensures RemoveNames(es, s) == Unpicked(rule, es)
  {
    if es != [] {
      var init, last := es[..|es| - 1], es[|es| - 1];
      assert es == init + [last];
      forall k | 0 <= k < |init|
        ensures init[k].name in s <==> Eligible(rule, init[k])
      {
        assert init[k] == es[k];
      }
      RemoveNamesAsUnpicked(rule, init, s);
      RemoveNamesSnoc(init, last, s);
      UnpickedSnoc(rule, init, last);
      var taken := last.name in s;
      assert taken == Eligible(rule, last);
    }
  }

  lemma {:induction false} RemoveNamesSnoc(es: seq<Entry>, x: Entry, s: set<Name>)
    ensures RemoveNames(es + [x], s) == RemoveNames(es, s) + (if x.name in s then [] else [x])
  {
    var t := if x.name in s then [] else [x];
    if es == [] {
      assert es + [x] == [x];
      assert RemoveNames([x], s) == t + RemoveNames([], s);
    } else {
      var h := if es[0].name in s then [] else [es[0]];
      assert (es + [x])[0] == es[0] && (es + [x])[1..] == es[1..] + [x];
      RemoveNamesSnoc(es[1..], x, s);
      assert RemoveNames(es + [x], s) == h + RemoveNames(es[1..] + [x], s);
      assert h + (RemoveNames(es[1..], s) + t) == (h + RemoveNames(es[1..], s)) + t;
    }
  }

  // ---------------------------------------------------------------------
  // Per-rule facts

  /**
   * The standard loop's two buckets never share a child: an extensionless file
   * goes to the first and is skipped by the second, so together they report
   * at most what the root holds.
   */
  lemma {:induction false} NoExtensionCountedOnce(root: PathRef, es: seq<Entry>)
    ensures var both := Candidates(NoExtension, es).Plus(Candidates(General(root), es));
      both.count <= Total(es).count && both.size <= Total(es).size
  {
    if es != [] {
      var init, last := es[..|es| - 1], es[|es| - 1];
      assert es == init + [last];
      NoExtensionCountedOnce(root, init);
      CandidatesSnoc(NoExtension, init, last);
      CandidatesSnoc(General(root), init, last);
      TotalSnoc(init, last);
      MeasureIsFileSizes(last.node);
    }
  }

  /** A child of an absolute root is spelled as an absolute path, which the guard refuses. */
  lemma GeneralNeverEligible(root: PathRef, e: Entry)
    requires root.absolute
    ensures !Eligible(General(root), e)
  {
    SafeIffRelative(Slash(root, e.name));
  }

  /**
   * Every child of an absolute root is spelled as an absolute path, and the
   * guard refuses those: on the absolute roots of the standard clean the
   * general rule never takes anything, so it reports nothing and removes nothing.
   */
  lemma {:induction false} GeneralRuleInert(root: PathRef, opts: Options, writable: bool, es: seq<Entry>)
    requires root.absolute
    ensures Reported(General(root), opts, writable, es) == Zero
    ensures Candidates(General(root), es) == Zero
    ensures After(General(root), opts, writable, es) == es
  {
    if es != [] {
      var init, last := es[..|es| - 1], es[|es| - 1];
      assert es == init + [last];
      GeneralRuleInert(root, opts, writable, init);
      GeneralNeverEligible(root, last);
      ReportedSnoc(General(root), opts, writable, init, last);
      CandidatesSnoc(General(root), init, last);
      UnpickedSnoc(General(root), init, last);
    }
  }

  /** On a relative root the guard does let children through: all but the extensionless files. */
  lemma RelativeRootEligible(root: PathRef, e: Entry)
    requires !root.absolute
    ensures Eligible(General(root), e) <==> !HasNoExtension(e)
  {
    SafeIffRelative(Slash(root, e.name));
  }

  /** The suffix test on log names adds nothing to the endswith test. */
  lemma LogSuffixSubsumed(name: string, aggressive: bool)
    ensures LogNameEligible(name, aggressive) <==>
      EndsWithAny(name, LogSuffixes) || (aggressive && name != "lastlog")
  {
    if Suffix(name) in LogSuffixes {
      var k :| 0 <= k < |LogSuffixes| && LogSuffixes[k] == Suffix(name);
      assert EndsWith(name, LogSuffixes[k]);
    }
  }

  /** A name without a dot ends with nothing that starts with one. */
  lemma DotlessEndsWithNoDotted(name: string, t: string)
    requires '.' !in name
    requires t != [] && t[0] == '.'
    ensures !EndsWith(name, t)
  {
    if |t| <= |name| {
      assert name[|name| - |t|..][0] == name[|name| - |t|];
    }
  }

  /** The login record is kept, aggressive or not. */
  lemma LastLogKept(aggressive: bool)
    ensures !LogNameEligible("lastlog", aggressive)
  {
    var name := "lastlog";
    assert '.' !in name;
    LogSuffixSubsumed(name, aggressive);
    forall k | 0 <= k < |LogSuffixes|
      ensures !EndsWith(name, LogSuffixes[k])
    {
      DotlessEndsWithNoDotted(name, LogSuffixes[k]);
    }
  }
}
