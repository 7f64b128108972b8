/**
 * Bookkeeping for a cleaning loop: it walks a list of children of one root
 * directory and deletes some of them, so while it runs the tree is the
 * original tree with the root's listing less the names already taken.
 */
module Sweeps {
  import opened Paths
  import opened FileTree
  import opened Rules

  /** The names a loop has taken out of its root after walking `items`. */
  function Gone(rule: Rule, opts: Options, writable: bool, items: seq<Entry>): set<Name> {
    if Removes(opts, writable) then NameSet(Picked(rule, items)) else {}
  }

  /** The whole tree while a loop is under way over the root at `base`. */
  function View(root0: Node, base: seq<Name>, es: seq<Entry>, writable: bool, gone: set<Name>): Node {
    Update(root0, base, Dir(RemoveNames(es, gone), writable))
  }

  /** Picking keeps names distinct. */
  lemma {:induction false} PickedDistinct(rule: Rule, es: seq<Entry>)
    requires DistinctNames(es)
    ensures DistinctNames(Picked(rule, es))
  {
    if es != [] {
      var init, last := es[..|es| - 1], es[|es| - 1];
      assert es == init + [last];
      assert DistinctNames(init) by {
        forall i, j | 0 <= i < j < |init|
          ensures init[i].name != init[j].name
        {
          assert init[i] == es[i] && init[j] == es[j];
        }
      }
      PickedDistinct(rule, init);
      PickedSnoc(rule, init, last);
      PickedMembers(rule, init);
      var ps := Picked(rule, init);
      if Eligible(rule, last) {
        forall i | 0 <= i < |ps|
          ensures ps[i].name != last.name
        {
          assert ps[i] in init;
          var m :| 0 <= m < |init| && init[m] == ps[i];
          assert es[m] == ps[i];
        }
        var r := ps + [last];
        forall i, j | 0 <= i < j < |r|
          ensures r[i].name != r[j].name
        {
          if j < |ps| {
            assert r[i] == ps[i] && r[j] == ps[j];
          } else {
            assert r[i] == ps[i] && r[j] == last;
          }
        }
      } else {
        assert ps + [] == ps;
      }
    }
  }

  /** Before a loop reaches a child, that child's name has not been taken. */
  lemma NotYetGone(rule: Rule, items: seq<Entry>, j: nat)
    requires DistinctNames(items) && j < |items|
    ensures items[j].name !in NameSet(Picked(rule, items[..j]))
  {
    PickedMembers(rule, items[..j]);
  }

  /** One more child walked: its name is gone exactly when the loop took and removed it. */
  lemma GoneSnoc(rule: Rule, opts: Options, writable: bool, items: seq<Entry>, j: nat)
    requires j < |items|
    ensures Gone(rule, opts, writable, items[..j + 1]) ==
      Gone(rule, opts, writable, items[..j])
      + (if Eligible(rule, items[j]) && Removes(opts, writable) then {items[j].name} else {})
  {
    assert items[..j + 1] == items[..j] + [items[j]];
    PickedSnoc(rule, items[..j], items[j]);
    var ps := Picked(rule, items[..j]);
    if Eligible(rule, items[j]) {
      assert NameSet(ps + [items[j]]) == NameSet(ps) + {items[j].name};
    } else {
      assert ps + [] == ps;
    }
  }

  /** At the start of a loop nothing is gone and the view is the tree itself. */
  lemma SweepStart(rule: Rule, opts: Options, root0: Node, base: seq<Name>, es: seq<Entry>, writable: bool)
    requires WellFormed(root0) && Resolve(root0, base) == Found(Dir(es, writable))
    ensures View(root0, base, es, writable, Gone(rule, opts, writable, [])) == root0
    ensures Reported(rule, opts, writable, []) == Zero
  {
    assert NameSet([]) == {};
    RemoveNamesNone(es, {});
    UpdateFound(root0, base);
  }

  /** Under way, a child not yet gone is found where it was, under the root's writability. */
  lemma SweepLookup(root0: Node, base: seq<Name>, es: seq<Entry>, writable: bool, gone: set<Name>, e: Entry)
    requires WellFormed(root0) && Resolve(root0, base) == Found(Dir(es, writable))
    requires e in es && e.name !in gone
    ensures Resolve(View(root0, base, es, writable, gone), base + [e.name]) == Found(e.node)
    ensures ParentWritable(View(root0, base, es, writable, gone), base + [e.name]) == writable
  {
    ResolveWellFormed(root0, base);
    var k :| 0 <= k < |es| && es[k] == e;
    ChildAt(es, k);
    ChildRemoveNames(es, gone, e.name);
    var d := Dir(RemoveNames(es, gone), writable);
    ResolveUpdate(root0, base, d);
    ResolveAppend(View(root0, base, es, writable, gone), base, e.name);
    assert (base + [e.name])[..|base|] == base;
  }

  /** Removing a child under way takes one more name out of the root's listing. */
  lemma SweepRemove(root0: Node, base: seq<Name>, es: seq<Entry>, writable: bool, gone: set<Name>, name: Name)
    requires Resolve(root0, base) == Found(Dir(es, writable))
    ensures Removed(View(root0, base, es, writable, gone), base + [name]) ==
      View(root0, base, es, writable, gone + {name})
  {
    var d := Dir(RemoveNames(es, gone), writable);
    ResolveUpdate(root0, base, d);
    assert (base + [name])[..|base|] == base;
    assert (base + [name])[|base|] == name;
    UpdateTwice(root0, base, d, Dir(RemoveNames(RemoveNames(es, gone), {name}), writable));
    RemoveNamesTwice(es, gone, {name});
  }

  /**
   * One iteration of a cleaning loop: the child is found, its parent's
   * writability is the root's, and afterwards the tree is the view with one
   * more child walked.
   */
  lemma SweepStep(rule: Rule, opts: Options, root0: Node, base: seq<Name>, es: seq<Entry>, writable: bool,
                  items: seq<Entry>, j: nat, before: Node)
    requires WellFormed(root0) && Resolve(root0, base) == Found(Dir(es, writable))
    requires DistinctNames(items) && j < |items| && items[j] in es
    requires before == View(root0, base, es, writable, Gone(rule, opts, writable, items[..j]))
    ensures Resolve(before, base + [items[j].name]) == Found(items[j].node)
    ensures ParentWritable(before, base + [items[j].name]) == writable
    ensures (if Eligible(rule, items[j]) && Removes(opts, writable)
             then Removed(before, base + [items[j].name]) else before)
      == View(root0, base, es, writable, Gone(rule, opts, writable, items[..j + 1]))
  {
    var gone := Gone(rule, opts, writable, items[..j]);
    var name := items[j].name;
    NotYetGone(rule, items, j);
    SweepLookup(root0, base, es, writable, gone, items[j]);
    GoneSnoc(rule, opts, writable, items, j);
    if Eligible(rule, items[j]) && Removes(opts, writable) {
      SweepRemove(root0, base, es, writable, gone, name);
    } else {
      assert gone + {} == gone;
    }
  }

  /** After walking the picked children (or all of them) the root holds what After says. */
  lemma SweepEnd(rule: Rule, opts: Options, writable: bool, es: seq<Entry>, items: seq<Entry>)
    requires DistinctNames(es) && Picked(rule, items) == Picked(rule, es)
    ensures RemoveNames(es, Gone(rule, opts, writable, items)) == After(rule, opts, writable, es)
  {
    if Removes(opts, writable) {
      RemovePickedNames(rule, es);
    } else {
      RemoveNamesNone(es, {});
    }
  }

  /**
   * One child handled by a loop: the child at base/name is found, the totals
   * grow by what the rule reports for it, and it is gone exactly when the
   * rule takes it and the run removes it.
   */
  ghost predicate Took(n0: Node, base: seq<Name>, name: Name, rule: Rule, opts: Options, added: Tally, n1: Node) {
    var p := base + [name];
    Resolve(n0, p).Found? &&
    var e := Entry(name, Resolve(n0, p).node);
    var w := ParentWritable(n0, p);
    added == Step(rule, opts, w, e)
    && n1 == if Eligible(rule, e) && Removes(opts, w) then Removed(n0, p) else n0
  }

  /** The loop invariant survives one child handled as Took says. */
  lemma SweepAdvance(rule: Rule, opts: Options, root0: Node, base: seq<Name>, es: seq<Entry>, writable: bool,
                     items: seq<Entry>, j: nat, before: Node, after: Node, total: Tally, added: Tally)
    requires WellFormed(root0) && Resolve(root0, base) == Found(Dir(es, writable))
    requires DistinctNames(items) && j < |items| && items[j] in es
    requires before == View(root0, base, es, writable, Gone(rule, opts, writable, items[..j]))
    requires total == Reported(rule, opts, writable, items[..j])
    requires Took(before, base, items[j].name, rule, opts, added, after)
    ensures after == View(root0, base, es, writable, Gone(rule, opts, writable, items[..j + 1]))
    ensures total.Plus(added) == Reported(rule, opts, writable, items[..j + 1])
  {
    var e := items[j];
    var p := base + [e.name];
    SweepStep(rule, opts, root0, base, es, writable, items, j, before);
    assert Entry(e.name, Resolve(before, p).node) == e;
    TookEntry(before, base, e, rule, opts, writable, added, after);
    ReportedSnocAt(rule, opts, writable, items, j);
  }

  /** What Took says of a child found as e under a root of the given writability. */
  lemma TookEntry(n0: Node, base: seq<Name>, e: Entry, rule: Rule, opts: Options, writable: bool, added: Tally, n1: Node)
    requires Resolve(n0, base + [e.name]) == Found(e.node) && ParentWritable(n0, base + [e.name]) == writable
    requires Took(n0, base, e.name, rule, opts, added, n1)
    ensures added == Step(rule, opts, writable, e)
    ensures n1 == if Eligible(rule, e) && Removes(opts, writable) then Removed(n0, base + [e.name]) else n0
  {
    assert Entry(e.name, e.node) == e;
  }

  lemma ReportedSnocAt(rule: Rule, opts: Options, writable: bool, items: seq<Entry>, j: nat)
    requires j < |items|
    ensures Reported(rule, opts, writable, items[..j + 1])
      == Reported(rule, opts, writable, items[..j]).Plus(Step(rule, opts, writable, items[j]))
  {
    assert items[..j + 1] == items[..j] + [items[j]];
    ReportedSnoc(rule, opts, writable, items[..j], items[j]);
  }

  /** When the loop has walked the whole listing, the tree is the original with the root's listing replaced by After. */
  lemma SweepDone(rule: Rule, opts: Options, root0: Node, base: seq<Name>, es: seq<Entry>, writable: bool)
    requires WellFormed(root0) && Resolve(root0, base) == Found(Dir(es, writable))
    ensures View(root0, base, es, writable, Gone(rule, opts, writable, es[..|es|]))
      == Update(root0, base, Dir(After(rule, opts, writable, es), writable))
    ensures Reported(rule, opts, writable, es[..|es|]) == Reported(rule, opts, writable, es)
  {
    assert es[..|es|] == es;
    ResolveWellFormed(root0, base);
    SweepEnd(rule, opts, writable, es, es);
  }

  /** The same, for a loop that walks only the picked children. */
  lemma SweepDonePicked(rule: Rule, opts: Options, root0: Node, base: seq<Name>, es: seq<Entry>, writable: bool)
    requires WellFormed(root0) && Resolve(root0, base) == Found(Dir(es, writable))
    ensures var ps := Picked(rule, es);
      View(root0, base, es, writable, Gone(rule, opts, writable, ps[..|ps|]))
        == Update(root0, base, Dir(After(rule, opts, writable, es), writable))
      && Reported(rule, opts, writable, ps[..|ps|]) == Reported(rule, opts, writable, es)
  {
    var ps := Picked(rule, es);
    assert ps[..|ps|] == ps;
    ResolveWellFormed(root0, base);
    PickedIdempotent(rule, es);
    SweepEnd(rule, opts, writable, es, ps);
    ReportedOverPicked(rule, opts, writable, es);
  }

  /** A loop with nothing to pick leaves the tree as it was and reports nothing. */
  lemma NothingPicked(rule: Rule, opts: Options, root0: Node, base: seq<Name>, es: seq<Entry>, writable: bool)
    requires WellFormed(root0) && Resolve(root0, base) == Found(Dir(es, writable))
    requires Picked(rule, es) == []
    ensures Update(root0, base, Dir(After(rule, opts, writable, es), writable)) == root0
    ensures Reported(rule, opts, writable, es) == Zero
  {
    ResolveWellFormed(root0, base);
    ReportedOverPicked(rule, opts, writable, es);
    RemovePickedNames(rule, es);
    assert NameSet([]) == {};
    RemoveNamesNone(es, {});
    UpdateFound(root0, base);
  }

  /** What a loop leaves of a well-formed directory is well formed. */
  lemma AfterWellFormed(rule: Rule, opts: Options, es: seq<Entry>, writable: bool)
    requires WellFormed(Dir(es, writable))
    ensures WellFormed(Dir(After(rule, opts, writable, es), writable))
  {
    if Removes(opts, writable) {
      RemovePickedNames(rule, es);
      var s := NameSet(Picked(rule, es));
      var r := RemoveNames(es, s);
      RemoveNamesDistinct(es, s);
      forall k | 0 <= k < |r|
        ensures WellFormed(r[k].node)
      {
        assert r[k] in es;
      }
    }
  }
}
