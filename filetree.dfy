/**
 * The filesystem as a value: a tree of directories whose entries are kept in
 * listing order, with the operations the cleaner's system calls perform on it.
 */
module FileTree {
  import opened Paths

  /**
   * A regular file with its st_size, a directory (whether its entries may be
   * unlinked is its `writable` flag), or an entry whose stat fails, such as a
   * dangling symbolic link: it is listed but does not exist for exists().
   */
  datatype Node = File(size: nat) | Dir(entries: seq<Entry>, writable: bool) | Dangling
  datatype Entry = Entry(name: Name, node: Node)

  /**
   * A (count, size) pair as the cleaner accumulates it. The fields are plain
   * integers; every tally the model builds is a sum of counts and st_size values.
   */
  datatype Tally = Tally(count: int, size: int) {
    function Plus(other: Tally): Tally {
      Tally(count + other.count, size + other.size)
    }
  }
  const Zero: Tally := Tally(0, 0)

  /** The errors the modelled system calls raise. */
  datatype OsError = NotFound | NotADirectory | IsADirectory | PermissionDenied
  datatype Result<T> = Ok(value: T) | Err(error: OsError)

  /** What looking a path up finds: a node, nothing (ENOENT), or a file in the way (ENOTDIR). */
  datatype Resolved = Found(node: Node) | Missing | NotADir

  predicate DistinctNames(es: seq<Entry>) {
    forall i, j :: 0 <= i < j < |es| ==> es[i].name != es[j].name
  }

  /** No directory lists the same name twice. */
  predicate WellFormed(n: Node) {
    match n
    case Dir(es, _) => DistinctNames(es) && forall k :: 0 <= k < |es| ==> WellFormed(es[k].node)
    case _ => true
  }

  /** The first entry of a listing with the given name. */
  function Child(es: seq<Entry>, name: Name): (r: Resolved)
    ensures r.Found? || r.Missing?
    ensures r.Missing? <==> forall k :: 0 <= k < |es| ==> es[k].name != name
  {
    if es == [] then Missing
    else if es[0].name == name then Found(es[0].node)
    else Child(es[1..], name)
  }

  /** One more step of a lookup below what was found so far. */
  function Descend(r: Resolved, name: Name): Resolved {
    match r
    case Found(Dir(es, _)) => Child(es, name)
    case Found(File(_)) => NotADir
    case Found(Dangling) => Missing
    case Missing => Missing
    case NotADir => NotADir
  }

  /** Lookup of the path below n. */
  function Resolve(n: Node, p: seq<Name>): Resolved
    decreases p
  {
    if p == [] then Found(n)
    else
      match n
      case Dir(es, _) =>
        (match Child(es, p[0])
         case Found(c) => Resolve(c, p[1..])
         case _ => Missing)
      case File(_) => NotADir
      case Dangling => Missing
  }

  /** Path.exists(): the lookup succeeds and the entry can be stat()ed. */
  predicate ExistsIn(n: Node, p: seq<Name>) {
    Resolve(n, p).Found? && !Resolve(n, p).node.Dangling?
  }

  /** The tree with the node at p replaced by m (no change when p is not there). */
  function Update(n: Node, p: seq<Name>, m: Node): Node
    decreases |p|, 0
  {
    if p == [] then m
    else
      match n
      case Dir(es, w) => Dir(UpdateEntries(es, p[0], p[1..], m), w)
      case _ => n
  }

  function UpdateEntries(es: seq<Entry>, name: Name, rest: seq<Name>, m: Node): (r: seq<Entry>)
    decreases |rest|, |es|
    ensures |r| == |es|
    ensures forall k :: 0 <= k < |es| ==> r[k].name == es[k].name
  {
    if es == [] then []
    else
      var e := if es[0].name == name then Entry(name, Update(es[0].node, rest, m)) else es[0];
      [e] + UpdateEntries(es[1..], name, rest, m)
  }

  /** The listing without the entries whose names are in s. */
  function RemoveNames(es: seq<Entry>, s: set<Name>): (r: seq<Entry>)
    ensures forall e :: e in r <==> e in es && e.name !in s
  {
    if es == [] then []
    else (if es[0].name in s then [] else [es[0]]) + RemoveNames(es[1..], s)
  }

  /** The names of a listing, in listing order. */
  function NamesOf(es: seq<Entry>): (r: seq<Name>)
    ensures |r| == |es| && forall k :: 0 <= k < |es| ==> r[k] == es[k].name
  {
    seq(|es|, k requires 0 <= k < |es| => es[k].name)
  }

  function NameSet(es: seq<Entry>): set<Name> {
    set e | e in es :: e.name
  }

  /** The directory holding p admits unlinking. */
  predicate ParentWritable(n: Node, p: seq<Name>) {
    |p| > 0 && Resolve(n, p[..|p| - 1]).Found? && Resolve(n, p[..|p| - 1]).node.Dir?
    && Resolve(n, p[..|p| - 1]).node.writable
  }

  /** The tree after the entry at p is taken out of its parent's listing. */
  function Removed(n: Node, p: seq<Name>): Node
    requires |p| > 0
  {
    var parent := p[..|p| - 1];
    match Resolve(n, parent)
    case Found(Dir(es, w)) => Update(n, parent, Dir(RemoveNames(es, {p[|p| - 1]}), w))
    case _ => n
  }

  /** Sum of the file sizes and number of regular files at or below n. */
  function Measure(n: Node): Tally {
    match n
    case File(s) => Tally(1, s)
    case Dangling => Zero
    case Dir(es, _) => Total(es)
  }

  function Total(es: seq<Entry>): Tally {
    if es == [] then Zero
    else Total(es[..|es| - 1]).Plus(Measure(es[|es| - 1].node))
  }

  // ---------------------------------------------------------------------
  // An independent reading of the accounting: the list of every regular
  // file's size, walking the tree.

  function FileSizes(n: Node): seq<nat> {
    match n
    case File(s) => [s]
    case Dangling => []
    case Dir(es, _) => EntryFileSizes(es)
  }

  function EntryFileSizes(es: seq<Entry>): seq<nat> {
    if es == [] then []
    else EntryFileSizes(es[..|es| - 1]) + FileSizes(es[|es| - 1].node)
  }

  function Sum(xs: seq<nat>): nat {
    if xs == [] then 0 else Sum(xs[..|xs| - 1]) + xs[|xs| - 1]
  }

  lemma {:induction false} SumAppend(xs: seq<nat>, ys: seq<nat>)
    ensures Sum(xs + ys) == Sum(xs) + Sum(ys)
    decreases |ys|
  {
    if ys != [] {
      assert (xs + ys)[..|xs + ys| - 1] == xs + ys[..|ys| - 1];
      assert (xs + ys)[|xs + ys| - 1] == ys[|ys| - 1];
      SumAppend(xs, ys[..|ys| - 1]);
    } else {
      assert xs + ys == xs;
    }
  }

  /**
   * The accountant counts exactly the regular files below a node and adds
   * exactly their sizes: directories and unstat-able entries contribute nothing.
   */
  lemma {:induction false} MeasureIsFileSizes(n: Node)
    ensures Measure(n) == Tally(|FileSizes(n)|, Sum(FileSizes(n)))
    decreases n, 1
  {
    match n
    case File(s) =>
      assert [s][..0] == [];
    case Dangling =>
    case Dir(es, _) => TotalIsFileSizes(es);
  }

  lemma {:induction false} TotalIsFileSizes(es: seq<Entry>)
    ensures Total(es) == Tally(|EntryFileSizes(es)|, Sum(EntryFileSizes(es)))
    decreases es, 0
  {
    if es != [] {
      TotalIsFileSizes(es[..|es| - 1]);
      MeasureIsFileSizes(es[|es| - 1].node);
      SumAppend(EntryFileSizes(es[..|es| - 1]), FileSizes(es[|es| - 1].node));
    }
  }

  // ---------------------------------------------------------------------
  // Lookup and update

  lemma {:induction false} ChildAt(es: seq<Entry>, k: nat)
    requires DistinctNames(es) && k < |es|
    ensures Child(es, es[k].name) == Found(es[k].node)
  {
    if k > 0 {
      assert es[0].name != es[k].name;
      assert es[1..][k - 1] == es[k];
      ChildAt(es[1..], k - 1);
    }
  }

  lemma {:induction false} ChildFoundIn(es: seq<Entry>, name: Name)
    requires Child(es, name).Found?
    ensures exists k :: 0 <= k < |es| && es[k] == Entry(name, Child(es, name).node)
  {
    if es[0].name != name {
      ChildFoundIn(es[1..], name);
      var k :| 0 <= k < |es[1..]| && es[1..][k] == Entry(name, Child(es, name).node);
      assert es[k + 1] == es[1..][k];
    }
  }

  lemma {:induction false} ChildRemoveNames(es: seq<Entry>, s: set<Name>, name: Name)
    ensures Child(RemoveNames(es, s), name) == if name in s then Missing else Child(es, name)
  {
    var r := RemoveNames(es, s);
    if name in s {
      forall k | 0 <= k < |r|
        ensures r[k].name != name
      {
        assert r[k] in r;
      }
    } else if es != [] {
      ChildRemoveNames(es[1..], s, name);
      var tail := RemoveNames(es[1..], s);
      if es[0].name in s {
        assert r == tail;
      } else {
        assert r == [es[0]] + tail;
        assert r[1..] == tail;
      }
    }
  }

  lemma {:induction false} ChildUpdateEntries(es: seq<Entry>, name: Name, rest: seq<Name>, m: Node)
    ensures Child(UpdateEntries(es, name, rest, m), name) ==
      match Child(es, name)
      case Found(c) => Found(Update(c, rest, m))
      case r => r
  {
    if es != [] && es[0].name != name {
      ChildUpdateEntries(es[1..], name, rest, m);
    }
  }

  /** Looking one name further is one Descend step. */
  lemma {:induction false} ResolveAppend(n: Node, p: seq<Name>, name: Name)
    ensures Resolve(n, p + [name]) == Descend(Resolve(n, p), name)
    decreases p
  {
    if p != [] {
      assert (p + [name])[0] == p[0] && (p + [name])[1..] == p[1..] + [name];
      if n.Dir? && Child(n.entries, p[0]).Found? {
        ResolveAppend(Child(n.entries, p[0]).node, p[1..], name);
      }
    }
  }

  /** After replacing the node at an existing path, the path finds the replacement. */
  lemma {:induction false} ResolveUpdate(n: Node, p: seq<Name>, m: Node)
    requires Resolve(n, p).Found?
    ensures Resolve(Update(n, p, m), p) == Found(m)
    decreases p
  {
    if p != [] {
      var es := n.entries;
      ChildUpdateEntries(es, p[0], p[1..], m);
      ResolveUpdate(Child(es, p[0]).node, p[1..], m);
    }
  }

  lemma {:induction false} UpdateTwice(n: Node, p: seq<Name>, a: Node, b: Node)
    ensures Update(Update(n, p, a), p, b) == Update(n, p, b)
    decreases |p|, 0
  {
    if p != [] && n.Dir? {
      UpdateEntriesTwice(n.entries, p[0], p[1..], a, b);
    }
  }

  lemma {:induction false} UpdateEntriesTwice(es: seq<Entry>, name: Name, rest: seq<Name>, a: Node, b: Node)
    ensures UpdateEntries(UpdateEntries(es, name, rest, a), name, rest, b) == UpdateEntries(es, name, rest, b)
    decreases |rest|, |es|
  {
    if es != [] {
      if es[0].name == name {
        UpdateTwice(es[0].node, rest, a, b);
      }
      UpdateEntriesTwice(es[1..], name, rest, a, b);
      assert UpdateEntries(es, name, rest, a)[1..] == UpdateEntries(es[1..], name, rest, a);
    }
  }

  /** Writing back what a path already holds changes nothing. */
  lemma {:induction false} UpdateFound(n: Node, p: seq<Name>)
    requires WellFormed(n) && Resolve(n, p).Found?
    ensures Update(n, p, Resolve(n, p).node) == n
    decreases |p|, 0
  {
    if p != [] {
      var es := n.entries;
      ChildFoundIn(es, p[0]);
      UpdateEntriesFound(es, p[0], p[1..], Resolve(n, p).node);
    }
  }

  lemma {:induction false} UpdateEntriesFound(es: seq<Entry>, name: Name, rest: seq<Name>, m: Node)
    requires DistinctNames(es) && forall k :: 0 <= k < |es| ==> WellFormed(es[k].node)
    requires Child(es, name).Found? && Resolve(Child(es, name).node, rest) == Found(m)
    ensures UpdateEntries(es, name, rest, m) == es
    decreases |rest|, 1, |es|
  {
    if es[0].name == name {
      UpdateFound(es[0].node, rest);
      UpdateEntriesAbsent(es[1..], name, rest, m);
    } else {
      UpdateEntriesFound(es[1..], name, rest, m);
    }
  }

  lemma {:induction false} UpdateEntriesAbsent(es: seq<Entry>, name: Name, rest: seq<Name>, m: Node)
    requires forall k :: 0 <= k < |es| ==> es[k].name != name
    ensures UpdateEntries(es, name, rest, m) == es
  {
    if es != [] {
      UpdateEntriesAbsent(es[1..], name, rest, m);
    }
  }

  /** A child of a directory found at p is found one name further. */
  lemma ChildOfFound(n: Node, p: seq<Name>, k: nat)
    requires WellFormed(n) && Resolve(n, p).Found? && Resolve(n, p).node.Dir?
    requires k < |Resolve(n, p).node.entries|
    ensures var e := Resolve(n, p).node.entries[k];
      Resolve(n, p + [e.name]) == Found(e.node)
      && ParentWritable(n, p + [e.name]) == Resolve(n, p).node.writable
  {
    var d := Resolve(n, p).node;
    var e := d.entries[k];
    ResolveWellFormed(n, p);
    ChildAt(d.entries, k);
    ResolveAppend(n, p, e.name);
    assert (p + [e.name])[..|p|] == p;
  }

  lemma {:induction false} ResolveWellFormed(n: Node, p: seq<Name>)
    requires WellFormed(n) && Resolve(n, p).Found?
    ensures WellFormed(Resolve(n, p).node)
    decreases p
  {
    if p != [] {
      ChildFoundIn(n.entries, p[0]);
      ResolveWellFormed(Child(n.entries, p[0]).node, p[1..]);
    }
  }

  lemma {:induction false} UpdateWellFormed(n: Node, p: seq<Name>, m: Node)
    requires WellFormed(n) && WellFormed(m)
    ensures WellFormed(Update(n, p, m))
    decreases |p|, 0
  {
    if p != [] && n.Dir? {
      UpdateEntriesWellFormed(n.entries, p[0], p[1..], m);
      var r := UpdateEntries(n.entries, p[0], p[1..], m);
      assert forall i, j :: 0 <= i < j < |r| ==> r[i].name == n.entries[i].name && r[j].name == n.entries[j].name;
      assert Update(n, p, m) == Dir(r, n.writable);
      assert forall k :: 0 <= k < |r| ==> WellFormed(r[k].node);
    }
  }

  lemma {:induction false} UpdateEntriesWellFormed(es: seq<Entry>, name: Name, rest: seq<Name>, m: Node)
    requires forall k :: 0 <= k < |es| ==> WellFormed(es[k].node)
    requires WellFormed(m)
    ensures forall k :: 0 <= k < |es| ==> WellFormed(UpdateEntries(es, name, rest, m)[k].node)
    decreases |rest|, |es|
  {
    if es != [] {
      if es[0].name == name {
        UpdateWellFormed(es[0].node, rest, m);
      }
      UpdateEntriesWellFormed(es[1..], name, rest, m);
      var r := UpdateEntries(es, name, rest, m);
      forall k | 1 <= k < |r|
        ensures WellFormed(r[k].node)
      {
        assert r[k] == UpdateEntries(es[1..], name, rest, m)[k - 1];
      }
    }
  }

  lemma {:induction false} RemoveNamesDistinct(es: seq<Entry>, s: set<Name>)
    requires DistinctNames(es)
    ensures DistinctNames(RemoveNames(es, s))
  {
    if es != [] {
      RemoveNamesDistinct(es[1..], s);
      var tail := RemoveNames(es[1..], s);
      forall e | e in tail
        ensures e.name != es[0].name
      {
        var k :| 0 <= k < |es[1..]| && es[1..][k] == e;
        assert es[k + 1] == e;
      }
    }
  }

  lemma {:induction false} RemoveNamesNone(es: seq<Entry>, s: set<Name>)
    requires forall k :: 0 <= k < |es| ==> es[k].name !in s
    ensures RemoveNames(es, s) == es
  {
    if es != [] {
      RemoveNamesNone(es[1..], s);
    }
  }

  lemma {:induction false} RemoveNamesTwice(es: seq<Entry>, s: set<Name>, t: set<Name>)
    ensures RemoveNames(RemoveNames(es, s), t) == RemoveNames(es, s + t)
  {
    if es != [] {
      RemoveNamesTwice(es[1..], s, t);
      var once := RemoveNames(es, s);
      if es[0].name !in s {
        assert once == [es[0]] + RemoveNames(es[1..], s);
        assert once[1..] == RemoveNames(es[1..], s);
      } else {
        assert once == RemoveNames(es[1..], s);
      }
    }
  }

  /** Removing a child keeps the tree well formed. */
  lemma RemovedWellFormed(n: Node, p: seq<Name>)
    requires WellFormed(n) && |p| > 0
    ensures WellFormed(Removed(n, p))
  {
    var parent := p[..|p| - 1];
    match Resolve(n, parent)
    case Found(Dir(es, w)) =>
      ResolveWellFormed(n, parent);
      RemoveNamesDistinct(es, {p[|p| - 1]});
      UpdateWellFormed(n, parent, Dir(RemoveNames(es, {p[|p| - 1]}), w));
    case _ =>
  }

  // ---------------------------------------------------------------------
  // What a removal touches

  /** q is p itself or a path below it. */
  predicate AtOrBelow(q: seq<Name>, p: seq<Name>) {
    |p| <= |q| && q[..|p|] == p
  }

  /** Looking a path up in two stages. */
  lemma {:induction false} ResolveConcat(n: Node, a: seq<Name>, b: seq<Name>)
    requires Resolve(n, a).Found?
    ensures Resolve(n, a + b) == Resolve(Resolve(n, a).node, b)
    decreases a
  {
    if a == [] {
      assert a + b == b;
    } else {
      assert (a + b)[0] == a[0] && (a + b)[1..] == a[1..] + b;
      ResolveConcat(Child(n.entries, a[0]).node, a[1..], b);
    }
  }

  /** Replacing an entry leaves the entries of other names where they were. */
  lemma {:induction false} ChildUpdateEntriesOther(es: seq<Entry>, name: Name, rest: seq<Name>, m: Node, other: Name)
    requires other != name
    ensures Child(UpdateEntries(es, name, rest, m), other) == Child(es, other)
  {
    if es != [] {
      ChildUpdateEntriesOther(es[1..], name, rest, m, other);
    }
  }

  lemma AtOrBelowTail(q: seq<Name>, p: seq<Name>)
    requires p != [] && q != [] && q[0] == p[0]
    ensures AtOrBelow(q, p) <==> AtOrBelow(q[1..], p[1..])
    ensures AtOrBelow(q, p) ==> q[|p|..] == q[1..][|p| - 1..]
  {
    if |p| <= |q| {
      assert q[..|p|] == [q[0]] + q[1..][..|p| - 1];
      assert p == [p[0]] + p[1..];
    }
  }

  /** One name down a path that both lookups follow. */
  lemma ResolveUpdateStep(n: Node, p: seq<Name>, m: Node, q: seq<Name>)
    requires Resolve(n, p).Found? && p != [] && q != [] && q[0] == p[0]
    ensures var c := Child(n.entries, p[0]).node;
      Resolve(Update(n, p, m), q) == Resolve(Update(c, p[1..], m), q[1..])
      && Resolve(n, q) == Resolve(c, q[1..])
      && Resolve(c, p[1..]).Found?
  {
    ChildUpdateEntries(n.entries, p[0], p[1..], m);
  }

  /** One name down a path that leaves p: both lookups agree from there on. */
  lemma ResolveUpdateAside(n: Node, p: seq<Name>, m: Node, q: seq<Name>)
    requires Resolve(n, p).Found? && p != [] && q != [] && q[0] != p[0]
    ensures Resolve(Update(n, p, m), q) == Resolve(n, q)
  {
    ChildUpdateEntriesOther(n.entries, p[0], p[1..], m, q[0]);
  }

  /**
   * After the node at p is replaced by m, a path exists as it did before,
   * unless it is p or lies below p, in which case it exists as it does in m.
   */
  lemma {:induction false} ExistsAfterUpdate(n: Node, p: seq<Name>, m: Node, q: seq<Name>)
    requires Resolve(n, p).Found?
    ensures ExistsIn(Update(n, p, m), q) ==
      if AtOrBelow(q, p) then ExistsIn(m, q[|p|..]) else ExistsIn(n, q)
    decreases p
  {
    if p == [] {
      assert q[|p|..] == q;
    } else if q == [] {
      assert !AtOrBelow(q, p);
    } else if q[0] == p[0] {
      var c := Child(n.entries, p[0]).node;
      ResolveUpdateStep(n, p, m, q);
      ExistsAfterUpdate(c, p[1..], m, q[1..]);
      AtOrBelowTail(q, p);
    } else {
      ResolveUpdateAside(n, p, m, q);
    }
  }

  /** A directory without one name: that name and what lies below it are gone, the rest stays. */
  lemma ExistsWithoutName(d: Node, name: Name, r: seq<Name>)
    requires d.Dir?
    ensures ExistsIn(Dir(RemoveNames(d.entries, {name}), d.writable), r)
      == (ExistsIn(d, r) && !(r != [] && r[0] == name))
  {
    if r != [] {
      ChildRemoveNames(d.entries, {name}, r[0]);
    }
  }

  lemma AtOrBelowChild(parent: seq<Name>, name: Name, r: seq<Name>)
    ensures AtOrBelow(parent + r, parent + [name]) <==> r != [] && r[0] == name
  {
    var q, p := parent + r, parent + [name];
    if r != [] && |p| <= |q| {
      assert q[..|p|] == parent + [r[0]];
    }
    if AtOrBelow(q, p) {
      assert q[|parent|] == p[|parent|];
    }
  }

  /** The lookups of a path at or below a removed entry's parent, taken from the parent. */
  lemma RemovedBelowParent(n: Node, p: seq<Name>, r: seq<Name>)
    requires ParentWritable(n, p)
    ensures var parent, name := p[..|p| - 1], p[|p| - 1];
      var d := Resolve(n, parent).node;
      ExistsIn(n, parent + r) == ExistsIn(d, r)
      && (AtOrBelow(parent + r, p) <==> r != [] && r[0] == name)
      && ExistsIn(Dir(RemoveNames(d.entries, {name}), d.writable), r)
         == (ExistsIn(d, r) && !(r != [] && r[0] == name))
  {
    var parent, name := p[..|p| - 1], p[|p| - 1];
    var d := Resolve(n, parent).node;
    ResolveConcat(n, parent, r);
    assert p == parent + [name];
    AtOrBelowChild(parent, name, r);
    ExistsWithoutName(d, name, r);
  }

  /**
   * Taking the entry at p out of its parent removes exactly p and what lies
   * below it: every other path exists afterwards exactly when it did before.
   */
  lemma RemovedExactly(n: Node, p: seq<Name>, q: seq<Name>)
    requires ParentWritable(n, p)
    ensures ExistsIn(Removed(n, p), q) <==> ExistsIn(n, q) && !AtOrBelow(q, p)
  {
    var parent, name := p[..|p| - 1], p[|p| - 1];
    var d := Resolve(n, parent).node;
    var m := Dir(RemoveNames(d.entries, {name}), d.writable);
    ExistsAfterUpdate(n, parent, m, q);
    if AtOrBelow(q, parent) {
      var r := q[|parent|..];
      assert q == parent + r;
      RemovedBelowParent(n, p, r);
    }
  }

  /** Replacing the node at p leaves every path that neither leads to p nor lies at or below it. */
  lemma {:induction false} ResolveAfterUpdateAside(n: Node, p: seq<Name>, m: Node, q: seq<Name>)
    requires Resolve(n, p).Found? && !AtOrBelow(q, p) && !AtOrBelow(p, q)
    ensures Resolve(Update(n, p, m), q) == Resolve(n, q)
    decreases p
  {
    if q[0] == p[0] {
      var c := Child(n.entries, p[0]).node;
      ResolveUpdateStep(n, p, m, q);
      AtOrBelowTail(q, p);
      AtOrBelowTail(p, q);
      ResolveAfterUpdateAside(c, p[1..], m, q[1..]);
    } else {
      ResolveUpdateAside(n, p, m, q);
    }
  }

  /**
   * Taking the entry at p out of its parent leaves every other lookup as it
   * was: a path that is neither at or below p nor on the way to p's parent
   * finds the same node, with the same size or the same entries.
   */
  lemma RemovedKeepsOthers(n: Node, p: seq<Name>, q: seq<Name>)
    requires |p| > 0 && !AtOrBelow(q, p) && !AtOrBelow(p[..|p| - 1], q)
    ensures Resolve(Removed(n, p), q) == Resolve(n, q)
  {
    var parent, name := p[..|p| - 1], p[|p| - 1];
    if Resolve(n, parent).Found? && Resolve(n, parent).node.Dir? {
      var d := Resolve(n, parent).node;
      var m := Dir(RemoveNames(d.entries, {name}), d.writable);
      if AtOrBelow(q, parent) {
        var r := q[|parent|..];
        assert q == parent + r;
        assert p == parent + [name];
        AtOrBelowChild(parent, name, r);
        ResolveUpdate(n, parent, m);
        ResolveConcat(n, parent, r);
        ResolveConcat(Update(n, parent, m), parent, r);
        ChildRemoveNames(d.entries, {name}, r[0]);
      } else {
        ResolveAfterUpdateAside(n, parent, m, q);
      }
    }
  }
}
