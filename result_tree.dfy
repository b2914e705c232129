/**
  The result tree of the search handler: every result path is split on '/'
  and folded into a prefix tree of segments, which is then rendered as nested
  <li>/<ul> markup.

  The tree of `*Node` values is kept as an arena, as the mutable state of a
  PathTree object: node i has the label `labels[i]` and the children
  `kids[i]` (indices, in list order), node 0 is the root.  A child is always
  created after its parent, so its index is larger; this is what makes the
  arena a finite tree and the renderer terminate.
 */
module ResultTree {
  import opened Wrappers
  import opened GoStrings

  datatype Arena = Arena(labels: seq<string>, kids: seq<seq<nat>>)

  const Root: nat := 0

  /** `&Node{}`: a root with the empty label and no children. */
  function Fresh(): Arena {
    Arena([""], [[]])
  }

  predicate WellFormed(a: Arena) {
    && |a.labels| == |a.kids| >= 1
    && forall i, k :: 0 <= i < |a.kids| && 0 <= k < |a.kids[i]| ==> i < a.kids[i][k] < |a.labels|
  }

  /** No parent has two children with the same label. */
  predicate DistinctSiblings(a: Arena)
    requires WellFormed(a)
  {
    forall i, k, m :: 0 <= i < |a.kids| && 0 <= k < m < |a.kids[i]| ==>
      a.labels[a.kids[i][k]] != a.labels[a.kids[i][m]]
  }

  /** No node is listed twice: not under two parents, not twice under one. */
  predicate Unshared(a: Arena)
    requires WellFormed(a)
  {
    forall i, k, j, m ::
      (0 <= i < |a.kids| && 0 <= k < |a.kids[i]| && 0 <= j < |a.kids| && 0 <= m < |a.kids[j]| &&
       a.kids[i][k] == a.kids[j][m]) ==> i == j && k == m
  }

  predicate InArena(a: Arena, ks: seq<nat>) {
    forall k :: 0 <= k < |ks| ==> ks[k] < |a.labels|
  }

  /** The inner loop over node.Children: the position of the first child with this label. */
  function FindChild(a: Arena, ks: seq<nat>, seg: string): (r: Option<nat>)
    requires InArena(a, ks)
    ensures r.Some? ==> (r.value < |ks| && a.labels[ks[r.value]] == seg &&
      forall q :: 0 <= q < r.value ==> a.labels[ks[q]] != seg)
    ensures r.None? ==> forall q :: 0 <= q < |ks| ==> a.labels[ks[q]] != seg
    decreases |ks|
  {
    if ks == [] then None
    else if a.labels[ks[0]] == seg then Some(0)
    else match FindChild(a, ks[1..], seg)
      case None => None
      case Some(p) => Some(p + 1)
  }

  /** The node reached from node i by following one child per segment, if every step exists. */
  function Trace(a: Arena, i: nat, parts: seq<string>): (r: Option<nat>)
    requires WellFormed(a) && i < |a.labels|
    ensures r.Some? ==> i <= r.value < |a.labels|
    decreases |parts|
  {
    if parts == [] then Some(i)
    else match FindChild(a, a.kids[i], parts[0])
      case None => None
      case Some(p) => Trace(a, a.kids[i][p], parts[1..])
  }

  /** `newNode := &Node{Path: label}; node.Children = append(node.Children, newNode)`. */
  function AddChild(a: Arena, i: nat, seg: string): (b: Arena)
    requires WellFormed(a) && i < |a.labels|
    ensures WellFormed(b)
  {
    Arena(a.labels + [seg], a.kids[i := a.kids[i] + [|a.labels|]] + [[]])
  }

  /**
    Folding one split path into the tree from node i: descend into the first
    child with the next label, or append a new child with that label.
   */
  function Insert(a: Arena, i: nat, parts: seq<string>): (r: Arena)
    requires WellFormed(a) && i < |a.labels|
    ensures WellFormed(r) && |a.labels| <= |r.labels|
    decreases |parts|
  {
    if parts == [] then a
    else match FindChild(a, a.kids[i], parts[0])
      case Some(p) => Insert(a, a.kids[i][p], parts[1..])
      case None => Insert(AddChild(a, i, parts[0]), |a.labels|, parts[1..])
  }

  /** The tree after folding every result, in order, into a fresh root. */
  function FoldFrom(a: Arena, results: seq<string>): (r: Arena)
    requires WellFormed(a)
    ensures WellFormed(r)
    decreases |results|
  {
    if results == [] then a
    else FoldFrom(Insert(a, Root, Split(results[0], '/')), results[1..])
  }

  function Folded(results: seq<string>): Arena {
    FoldFrom(Fresh(), results)
  }

  // ---------------------------------------------------------------- growth only

  predicate IsPrefix(x: seq<nat>, y: seq<nat>) {
    |x| <= |y| && y[..|x|] == x
  }

  /**
    `b` grows `a`: existing nodes keep their labels, and every existing child
    list is a prefix of the new one (new children only at the end).
   */
  predicate Extends(a: Arena, b: Arena) {
    && |a.labels| <= |b.labels| && |a.kids| <= |b.kids|
    && b.labels[..|a.labels|] == a.labels
    && forall j :: 0 <= j < |a.kids| ==> IsPrefix(a.kids[j], b.kids[j])
  }

  lemma ExtendsTrans(a: Arena, b: Arena, c: Arena)
    requires Extends(a, b) && Extends(b, c)
    ensures Extends(a, c)
  {
    assert c.labels[..|a.labels|] == c.labels[..|b.labels|][..|a.labels|];
    forall j | 0 <= j < |a.kids| ensures IsPrefix(a.kids[j], c.kids[j]) {
      assert c.kids[j][..|a.kids[j]|] == c.kids[j][..|b.kids[j]|][..|a.kids[j]|];
    }
  }

  lemma AddChildExtends(a: Arena, i: nat, seg: string)
    requires WellFormed(a) && i < |a.labels|
    ensures Extends(a, AddChild(a, i, seg))
  {
    var b := AddChild(a, i, seg);
    assert b.labels[..|a.labels|] == a.labels;
    forall j | 0 <= j < |a.kids| ensures IsPrefix(a.kids[j], b.kids[j]) {
      if j == i {
        assert b.kids[j][..|a.kids[j]|] == a.kids[j];
      }
    }
  }

  /** Folding a path only adds: existing nodes, labels and sibling order stay as they were. */
  lemma {:induction false} InsertExtends(a: Arena, i: nat, parts: seq<string>)
    requires WellFormed(a) && i < |a.labels|
    ensures Extends(a, Insert(a, i, parts))
    decreases |parts|
  {
    if parts == [] {
      assert a.labels[..|a.labels|] == a.labels;
      forall j | 0 <= j < |a.kids| ensures IsPrefix(a.kids[j], a.kids[j]) {
        assert a.kids[j][..|a.kids[j]|] == a.kids[j];
      }
    } else {
      match FindChild(a, a.kids[i], parts[0])
      case Some(p) =>
        InsertExtends(a, a.kids[i][p], parts[1..]);
      case None =>
        var b := AddChild(a, i, parts[0]);
        AddChildExtends(a, i, parts[0]);
        InsertExtends(b, |a.labels|, parts[1..]);
        ExtendsTrans(a, b, Insert(b, |a.labels|, parts[1..]));
    }
  }

  /** Folding from node i touches no child list of a node created before i. */
  lemma {:induction false} InsertFrame(a: Arena, i: nat, parts: seq<string>, j: nat)
    requires WellFormed(a) && i < |a.labels| && j < i
    ensures Insert(a, i, parts).kids[j] == a.kids[j]
    decreases |parts|
  {
    if parts != [] {
      match FindChild(a, a.kids[i], parts[0])
      case Some(p) =>
        InsertFrame(a, a.kids[i][p], parts[1..], j);
      case None =>
        InsertFrame(AddChild(a, i, parts[0]), |a.labels|, parts[1..], j);
    }
  }

  /** A label found among a node's children is still found there, at the same place, in a grown tree. */
  lemma FindChildStable(a: Arena, b: Arena, j: nat, seg: string)
    requires WellFormed(a) && WellFormed(b) && Extends(a, b) && j < |a.kids|
    requires FindChild(a, a.kids[j], seg).Some?
    ensures FindChild(b, b.kids[j], seg) == FindChild(a, a.kids[j], seg)
  {
    var p := FindChild(a, a.kids[j], seg).value;
    forall q | 0 <= q <= p ensures b.labels[b.kids[j][q]] == a.labels[a.kids[j][q]] {
      assert b.kids[j][q] == b.kids[j][..|a.kids[j]|][q];
      assert b.labels[a.kids[j][q]] == b.labels[..|a.labels|][a.kids[j][q]];
    }
  }

  /** A path that traces in a tree traces to the same node in every tree grown from it. */
  lemma {:induction false} TraceStable(a: Arena, b: Arena, i: nat, parts: seq<string>)
    requires WellFormed(a) && WellFormed(b) && Extends(a, b) && i < |a.labels|
    requires Trace(a, i, parts).Some?
    ensures Trace(b, i, parts) == Trace(a, i, parts)
    decreases |parts|
  {
    if parts != [] {
      FindChildStable(a, b, i, parts[0]);
      var p := FindChild(a, a.kids[i], parts[0]).value;
      assert b.kids[i][p] == b.kids[i][..|a.kids[i]|][p];
      TraceStable(a, b, a.kids[i][p], parts[1..]);
    }
  }

  // ---------------------------------------------------------------- what a fold establishes

  /** After folding a path from node i, the path traces from node i. */
  lemma {:induction false} InsertTraces(a: Arena, i: nat, parts: seq<string>)
    requires WellFormed(a) && i < |a.labels|
    ensures Trace(Insert(a, i, parts), i, parts).Some?
    decreases |parts|
  {
    if parts != [] {
      var r := Insert(a, i, parts);
      match FindChild(a, a.kids[i], parts[0])
      case Some(p) =>
        var c := a.kids[i][p];
        InsertTraces(a, c, parts[1..]);
        InsertExtends(a, c, parts[1..]);
        FindChildStable(a, r, i, parts[0]);
        assert r.kids[i][p] == r.kids[i][..|a.kids[i]|][p];
      case None =>
        var b := AddChild(a, i, parts[0]);
        var c := |a.labels|;
        FindChildAfterAdd(a, i, parts[0]);
        InsertTraces(b, c, parts[1..]);
        InsertExtends(b, c, parts[1..]);
        FindChildStable(b, r, i, parts[0]);
        assert r.kids[i][|a.kids[i]|] == r.kids[i][..|b.kids[i]|][|a.kids[i]|];
    }
  }

  /** A child appended after siblings without its label is found at the end. */
  lemma {:induction false} FindChildAppended(b: Arena, ks: seq<nat>, n: nat, seg: string)
    requires InArena(b, ks) && n < |b.labels| && b.labels[n] == seg
    requires forall q :: 0 <= q < |ks| ==> b.labels[ks[q]] != seg
    ensures FindChild(b, ks + [n], seg) == Some(|ks|)
    decreases |ks|
  {
    if ks != [] {
      assert (ks + [n])[0] == ks[0] && (ks + [n])[1..] == ks[1..] + [n];
      FindChildAppended(b, ks[1..], n, seg);
    }
  }

  lemma FindChildAfterAdd(a: Arena, i: nat, seg: string)
    requires WellFormed(a) && i < |a.labels|
    requires FindChild(a, a.kids[i], seg).None?
    ensures var b := AddChild(a, i, seg); FindChild(b, b.kids[i], seg) == Some(|a.kids[i]|)
  {
    var b := AddChild(a, i, seg);
    assert b.kids[i] == a.kids[i] + [|a.labels|];
    forall q | 0 <= q < |a.kids[i]| ensures b.labels[a.kids[i][q]] != seg {
      assert b.labels[a.kids[i][q]] == a.labels[a.kids[i][q]];
    }
    FindChildAppended(b, a.kids[i], |a.labels|, seg);
  }

  /** Folding a path whose segments already exist leaves the tree unchanged. */
  lemma {:induction false} InsertIdempotent(a: Arena, i: nat, parts: seq<string>)
    requires WellFormed(a) && i < |a.labels|
    requires Trace(a, i, parts).Some?
    ensures Insert(a, i, parts) == a
    decreases |parts|
  {
    if parts != [] {
      var p := FindChild(a, a.kids[i], parts[0]).value;
      InsertIdempotent(a, a.kids[i][p], parts[1..]);
    }
  }

  /** A new child is added only when no sibling has its label, so siblings stay distinct. */
  lemma AddChildDistinct(a: Arena, i: nat, seg: string)
    requires WellFormed(a) && i < |a.labels| && DistinctSiblings(a)
    requires FindChild(a, a.kids[i], seg).None?
    ensures DistinctSiblings(AddChild(a, i, seg))
  {
    var b := AddChild(a, i, seg);
    forall j, k, m | 0 <= j < |b.kids| && 0 <= k < m < |b.kids[j]|
      ensures b.labels[b.kids[j][k]] != b.labels[b.kids[j][m]]
    {
      if j == i && m == |a.kids[i]| {
        assert b.kids[j][k] == a.kids[i][k];
      } else {
        assert b.kids[j][k] == a.kids[j][k] && b.kids[j][m] == a.kids[j][m];
      }
    }
  }

  lemma {:induction false} InsertDistinct(a: Arena, i: nat, parts: seq<string>)
    requires WellFormed(a) && i < |a.labels| && DistinctSiblings(a)
    ensures DistinctSiblings(Insert(a, i, parts))
    decreases |parts|
  {
    if parts != [] {
      match FindChild(a, a.kids[i], parts[0])
      case Some(p) =>
        InsertDistinct(a, a.kids[i][p], parts[1..]);
      case None =>
        AddChildDistinct(a, i, parts[0]);
        InsertDistinct(AddChild(a, i, parts[0]), |a.labels|, parts[1..]);
    }
  }

  /** The new node is fresh, so it is not shared either. */
  lemma AddChildUnshared(a: Arena, i: nat, seg: string)
    requires WellFormed(a) && i < |a.labels| && Unshared(a)
    ensures Unshared(AddChild(a, i, seg))
  {
    var b := AddChild(a, i, seg);
    var n := |a.labels|;
    forall j1, k1, j2, k2 | 0 <= j1 < |b.kids| && 0 <= k1 < |b.kids[j1]| && 0 <= j2 < |b.kids| &&
      0 <= k2 < |b.kids[j2]| && b.kids[j1][k1] == b.kids[j2][k2]
      ensures j1 == j2 && k1 == k2
    {
      var new1 := j1 == i && k1 == |a.kids[i]|;
      var new2 := j2 == i && k2 == |a.kids[i]|;
      if !new1 {
        assert b.kids[j1][k1] == a.kids[j1][k1];
      }
      if !new2 {
        assert b.kids[j2][k2] == a.kids[j2][k2];
      }
    }
  }

  lemma {:induction false} InsertUnshared(a: Arena, i: nat, parts: seq<string>)
    requires WellFormed(a) && i < |a.labels| && Unshared(a)
    ensures Unshared(Insert(a, i, parts))
    decreases |parts|
  {
    if parts != [] {
      match FindChild(a, a.kids[i], parts[0])
      case Some(p) =>
        InsertUnshared(a, a.kids[i][p], parts[1..]);
      case None =>
        AddChildUnshared(a, i, parts[0]);
        InsertUnshared(AddChild(a, i, parts[0]), |a.labels|, parts[1..]);
    }
  }

  lemma {:induction false} FoldExtends(a: Arena, results: seq<string>)
    requires WellFormed(a)
    ensures Extends(a, FoldFrom(a, results))
    decreases |results|
  {
    if results == [] {
      InsertExtends(a, Root, []);
    } else {
      var b := Insert(a, Root, Split(results[0], '/'));
      InsertExtends(a, Root, Split(results[0], '/'));
      FoldExtends(b, results[1..]);
      ExtendsTrans(a, b, FoldFrom(b, results[1..]));
    }
  }

  /**
    After the fold every result's '/'-split segments trace a chain from the
    root; siblings are distinct and no node is shared.
   */
  lemma {:induction false} FoldShape(a: Arena, results: seq<string>)
    requires WellFormed(a) && DistinctSiblings(a) && Unshared(a)
    ensures var r := FoldFrom(a, results);
      && DistinctSiblings(r) && Unshared(r)
      && forall k :: 0 <= k < |results| ==> Trace(r, Root, Split(results[k], '/')).Some?
    decreases |results|
  {
    if results != [] {
      var parts := Split(results[0], '/');
      var b := Insert(a, Root, parts);
      InsertDistinct(a, Root, parts);
      InsertUnshared(a, Root, parts);
      FoldShape(b, results[1..]);
      InsertTraces(a, Root, parts);
      FoldExtends(b, results[1..]);
      TraceStable(b, FoldFrom(b, results[1..]), Root, parts);
      assert forall k :: 1 <= k < |results| ==> results[k] == results[1..][k - 1];
    }
  }

  lemma FoldedShape(results: seq<string>)
    ensures var r := Folded(results);
      && DistinctSiblings(r) && Unshared(r)
      && forall k :: 0 <= k < |results| ==> Trace(r, Root, Split(results[k], '/')).Some?
  {
    FoldShape(Fresh(), results);
  }

  lemma {:induction false} FoldAppend(a: Arena, xs: seq<string>, ys: seq<string>)
    requires WellFormed(a)
    ensures FoldFrom(a, xs + ys) == FoldFrom(FoldFrom(a, xs), ys)
    decreases |xs|
  {
    if xs == [] {
      assert xs + ys == ys;
    } else {
      assert (xs + ys)[1..] == xs[1..] + ys;
      assert (xs + ys)[0] == xs[0];
      FoldAppend(Insert(a, Root, Split(xs[0], '/')), xs[1..], ys);
    }
  }

  /** Folding results that already trace changes nothing. */
  lemma {:induction false} FoldKnown(a: Arena, ys: seq<string>)
    requires WellFormed(a)
    requires forall k :: 0 <= k < |ys| ==> Trace(a, Root, Split(ys[k], '/')).Some?
    ensures FoldFrom(a, ys) == a
    decreases |ys|
  {
    if ys != [] {
      InsertIdempotent(a, Root, Split(ys[0], '/'));
      assert forall k :: 1 <= k < |ys| ==> ys[k] == ys[1..][k - 1];
      FoldKnown(a, ys[1..]);
    }
  }

  /** Re-inserting every result a second time leaves the tree as it was. */
  lemma FoldTwice(results: seq<string>)
    ensures Folded(results + results) == Folded(results)
  {
    FoldAppend(Fresh(), results, results);
    FoldedShape(results);
    FoldKnown(Folded(results), results);
  }

  // ---------------------------------------------------------------- nothing off the path changes

  /** The nodes passed when walking from node i along `parts`, as far as each step exists. */
  function Visited(a: Arena, i: nat, parts: seq<string>): (vs: set<nat>)
    requires WellFormed(a) && i < |a.labels|
    ensures i in vs && forall v :: v in vs ==> i <= v < |a.labels|
    decreases |parts|
  {
    if parts == [] then {i}
    else match FindChild(a, a.kids[i], parts[0])
      case None => {i}
      case Some(p) => {i} + Visited(a, a.kids[i][p], parts[1..])
  }

  /** Walking m + 1 segments from node i is one step to a child, then m segments from there. */
  lemma TraceStep(a: Arena, i: nat, parts: seq<string>, m: nat)
    requires WellFormed(a) && i < |a.labels| && m < |parts|
    requires FindChild(a, a.kids[i], parts[0]).Some?
    ensures Trace(a, i, parts[..m + 1]) ==
      Trace(a, a.kids[i][FindChild(a, a.kids[i], parts[0]).value], parts[1..][..m])
  {
    assert parts[..m + 1][0] == parts[0];
    assert parts[..m + 1][1..] == parts[1..][..m];
  }

  /** The nodes passed on a walk are exactly the nodes some prefix of the path leads to. */
  lemma {:induction false} VisitedIsTrace(a: Arena, i: nat, parts: seq<string>, n: nat)
    requires WellFormed(a) && i < |a.labels|
    ensures n in Visited(a, i, parts) <==>
      exists m :: 0 <= m <= |parts| && Trace(a, i, parts[..m]) == Some(n)
    decreases |parts|
  {
    assert parts[..0] == [];
    if parts != [] && FindChild(a, a.kids[i], parts[0]).Some? {
      var c := a.kids[i][FindChild(a, a.kids[i], parts[0]).value];
      VisitedIsTrace(a, c, parts[1..], n);
      if n in Visited(a, c, parts[1..]) {
        var m :| 0 <= m <= |parts[1..]| && Trace(a, c, parts[1..][..m]) == Some(n);
        TraceStep(a, i, parts, m);
      }
      if m :| 0 < m <= |parts| && Trace(a, i, parts[..m]) == Some(n) {
        TraceStep(a, i, parts, m - 1);
      }
    } else {
      assert forall m :: 0 < m <= |parts| ==> parts[..m][0] == parts[0];
    }
  }

  /**
    Folding a path from node i adds at most one node per segment, every new
    node lies on the path, and the only child lists that change are those of
    nodes on the path: the rest of the tree is left alone.
   */
  lemma InsertOnlyAlongPath(a: Arena, i: nat, parts: seq<string>)
    requires WellFormed(a) && i < |a.labels|
    ensures var r := Insert(a, i, parts);
      && |r.labels| <= |a.labels| + |parts|
      && (forall n :: |a.labels| <= n < |r.labels| ==> n in Visited(r, i, parts))
      && (forall j :: 0 <= j < |a.kids| && r.kids[j] != a.kids[j] ==> j in Visited(r, i, parts))
  {
    InsertGrowth(a, i, parts);
    InsertNewOnPath(a, i, parts);
    InsertChangesOnPath(a, i, parts);
  }

  lemma {:induction false} InsertGrowth(a: Arena, i: nat, parts: seq<string>)
    requires WellFormed(a) && i < |a.labels|
    ensures |Insert(a, i, parts).labels| <= |a.labels| + |parts|
    decreases |parts|
  {
    if parts != [] {
      match FindChild(a, a.kids[i], parts[0])
      case Some(p) =>
        InsertGrowth(a, a.kids[i][p], parts[1..]);
      case None =>
        InsertGrowth(AddChild(a, i, parts[0]), |a.labels|, parts[1..]);
    }
  }

  /** After folding from node i, the first step from i goes where the insertion went. */
  lemma InsertFirstStep(a: Arena, i: nat, parts: seq<string>)
    requires WellFormed(a) && i < |a.labels| && parts != []
    ensures var r := Insert(a, i, parts);
      match FindChild(a, a.kids[i], parts[0])
      case Some(p) => Visited(r, i, parts) == {i} + Visited(r, a.kids[i][p], parts[1..])
      case None => Visited(r, i, parts) == {i} + Visited(r, |a.labels|, parts[1..])
  {
    var r := Insert(a, i, parts);
    match FindChild(a, a.kids[i], parts[0])
    case Some(p) =>
      InsertExtends(a, a.kids[i][p], parts[1..]);
      FindChildStable(a, r, i, parts[0]);
      assert r.kids[i][p] == r.kids[i][..|a.kids[i]|][p];
    case None =>
      var b := AddChild(a, i, parts[0]);
      FindChildAfterAdd(a, i, parts[0]);
      InsertExtends(b, |a.labels|, parts[1..]);
      FindChildStable(b, r, i, parts[0]);
      assert r.kids[i][|a.kids[i]|] == r.kids[i][..|b.kids[i]|][|a.kids[i]|];
  }

  lemma {:induction false} InsertNewOnPath(a: Arena, i: nat, parts: seq<string>)
    requires WellFormed(a) && i < |a.labels|
    ensures forall n :: |a.labels| <= n < |Insert(a, i, parts).labels| ==>
      n in Visited(Insert(a, i, parts), i, parts)
    decreases |parts|
  {
    if parts != [] {
      InsertFirstStep(a, i, parts);
      match FindChild(a, a.kids[i], parts[0])
      case Some(p) =>
        InsertNewOnPath(a, a.kids[i][p], parts[1..]);
      case None =>
        var b := AddChild(a, i, parts[0]);
        InsertNewOnPath(b, |a.labels|, parts[1..]);
    }
  }

  lemma {:induction false} InsertChangesOnPath(a: Arena, i: nat, parts: seq<string>)
    requires WellFormed(a) && i < |a.labels|
    ensures forall j :: 0 <= j < |a.kids| && Insert(a, i, parts).kids[j] != a.kids[j] ==>
      j in Visited(Insert(a, i, parts), i, parts)
    decreases |parts|
  {
    if parts != [] {
      InsertFirstStep(a, i, parts);
      match FindChild(a, a.kids[i], parts[0])
      case Some(p) =>
        InsertChangesOnPath(a, a.kids[i][p], parts[1..]);
      case None =>
        InsertChangesOnPath(AddChild(a, i, parts[0]), |a.labels|, parts[1..]);
    }
  }

  /** Node n is where some prefix of some result's segments leads from the root. */
  predicate OnResultPath(a: Arena, results: seq<string>, n: nat)
    requires WellFormed(a)
  {
    exists k, m :: 0 <= k < |results| && 0 <= m <= |Split(results[k], '/')| &&
      Trace(a, Root, Split(results[k], '/')[..m]) == Some(n)
  }

  /** Every node a fold adds lies on the path of one of the folded results. */
  lemma {:induction false} FoldOnlyResultPaths(a: Arena, results: seq<string>)
    requires WellFormed(a)
    ensures var r := FoldFrom(a, results);
      forall n :: |a.labels| <= n < |r.labels| ==> OnResultPath(r, results, n)
    decreases |results|
  {
    if results != [] {
      var parts := Split(results[0], '/');
      var b := Insert(a, Root, parts);
      var r := FoldFrom(b, results[1..]);
      InsertOnlyAlongPath(a, Root, parts);
      FoldOnlyResultPaths(b, results[1..]);
      assert var r2 := FoldFrom(b, results[1..]);
        forall n :: |b.labels| <= n < |r2.labels| ==> OnResultPath(r2, results[1..], n);
      FoldExtends(b, results[1..]);
      forall n | |a.labels| <= n < |r.labels| ensures OnResultPath(r, results, n) {
        if n < |b.labels| {
          VisitedIsTrace(b, Root, parts, n);
          var m :| 0 <= m <= |parts| && Trace(b, Root, parts[..m]) == Some(n);
          TraceStable(b, r, Root, parts[..m]);
          assert Trace(r, Root, Split(results[0], '/')[..m]) == Some(n);
        } else {
          assert OnResultPath(r, results[1..], n);
          var k, m :| 0 <= k < |results[1..]| && 0 <= m <= |Split(results[1..][k], '/')| &&
            Trace(r, Root, Split(results[1..][k], '/')[..m]) == Some(n);
          assert results[1..][k] == results[k + 1];
        }
      }
    }
  }

  /**
    The converse of FoldedShape: every node of the result tree other than the
    root is reached from the root by a prefix of some result's segments.
   */
  lemma FoldedNodesOnResultPaths(results: seq<string>)
    ensures var r := Folded(results);
      forall n :: Root < n < |r.labels| ==> OnResultPath(r, results, n)
  {
    FoldOnlyResultPaths(Fresh(), results);
    assert var r := FoldFrom(Fresh(), results);
      forall n :: |Fresh().labels| <= n < |r.labels| ==> OnResultPath(r, results, n);
  }

  // ---------------------------------------------------------------- the "/static/" prefix

  /**
    The root has the one child "", that child has the one child "static", and
    "static" has children of its own.
   */
  predicate StaticRoot(a: Arena)
    requires WellFormed(a)
  {
    && |a.kids[Root]| == 1 && a.labels[a.kids[Root][0]] == ""
    && |a.kids[a.kids[Root][0]]| == 1 && a.labels[a.kids[a.kids[Root][0]][0]] == "static"
    && |a.kids[a.kids[a.kids[Root][0]][0]]| > 0
  }

  /** Folding a non-empty path from a node leaves that node with a child. */
  lemma InsertKidsNonEmpty(a: Arena, i: nat, parts: seq<string>)
    requires WellFormed(a) && i < |a.labels| && |parts| > 0
    ensures |Insert(a, i, parts).kids[i]| > 0
  {
    InsertTraces(a, i, parts);
  }

  /** Every result starts with "/static/", so its segments start with "" and "static". */
  lemma SplitStatic(x: string)
    ensures Split("/static/" + x, '/') == ["", "static"] + Split(x, '/')
  {
    SplitAfterPiece("static", '/', x);
    SplitAfterPiece("", '/', "static/" + x);
    assert "/static/" + x == "" + ['/'] + ("static/" + x);
    assert "static/" + x == "static" + ['/'] + x;
  }

  lemma InsertStaticPath(a: Arena, rest: seq<string>)
    requires WellFormed(a) && |rest| > 0
    requires a == Fresh() || StaticRoot(a)
    ensures StaticRoot(Insert(a, Root, ["", "static"] + rest))
  {
    var parts := ["", "static"] + rest;
    assert parts[1..] == ["static"] + rest && (["static"] + rest)[1..] == rest;
    var r := Insert(a, Root, parts);
    if a == Fresh() {
      var b := AddChild(a, Root, "");
      var c := AddChild(b, 1, "static");
      assert r == Insert(b, 1, parts[1..]);
      assert b.kids[1] == [];
      assert r == Insert(c, 2, rest);
      InsertFrame(c, 2, rest, 0);
      InsertFrame(c, 2, rest, 1);
      InsertExtends(c, 2, rest);
      InsertKidsNonEmpty(c, 2, rest);
      assert r.labels[1] == r.labels[..3][1] && r.labels[2] == r.labels[..3][2];
    } else {
      var c1 := a.kids[Root][0];
      var c2 := a.kids[c1][0];
      assert FindChild(a, a.kids[Root], "") == Some(0);
      assert r == Insert(a, c1, parts[1..]);
      assert FindChild(a, a.kids[c1], "static") == Some(0);
      assert r == Insert(a, c2, rest);
      InsertFrame(a, c2, rest, Root);
      InsertFrame(a, c2, rest, c1);
      InsertExtends(a, c2, rest);
      InsertKidsNonEmpty(a, c2, rest);
      assert r.labels[c1] == r.labels[..|a.labels|][c1];
      assert r.labels[c2] == r.labels[..|a.labels|][c2];
    }
  }

  /**
    Because every result begins with "/static/", a tree of at least one result
    has a single root child labelled "" whose single child is "static".
   */
  lemma {:induction false} FoldStaticRoot(a: Arena, results: seq<string>)
    requires WellFormed(a) && (a == Fresh() || StaticRoot(a))
    requires |results| > 0 || StaticRoot(a)
    requires forall k :: 0 <= k < |results| ==> HasPrefix(results[k], "/static/")
    ensures StaticRoot(FoldFrom(a, results))
    decreases |results|
  {
    if results != [] {
      var x := results[0][8..];
      assert results[0] == "/static/" + x;
      SplitStatic(x);
      InsertStaticPath(a, Split(x, '/'));
      assert forall k :: 1 <= k < |results| ==> results[k] == results[1..][k - 1];
      FoldStaticRoot(Insert(a, Root, Split(results[0], '/')), results[1..]);
    }
  }

  // ---------------------------------------------------------------- rendering

  /** The accumulated path: '/' only after a non-empty path. */
  function Step(path: string, seg: string): string {
    (if |path| > 0 then path + "/" else path) + seg
  }

  /** A childless node's markup. */
  function Link(path: string, seg: string): string {
    "<li><a href=\"./" + path + "\">" + seg + "</a></li>"
  }

  /** A node with children: its label over the list of their markup. */
  function ListItem(seg: string, inner: string): string {
    "<li>" + seg + "<ul>" + inner + "</ul></li>"
  }

  /** renderNode: a link for a childless node, otherwise the label over a list of the children. */
  function RenderNode(a: Arena, i: nat, path: string): string
    requires WellFormed(a) && i < |a.labels|
    decreases |a.labels| - i, 1
  {
    var full := Step(path, a.labels[i]);
    if a.kids[i] == [] then Link(full, a.labels[i])
    else ListItem(a.labels[i], RenderKids(a, i, a.kids[i], full))
  }

  /** The children's renderings concatenated in list order. */
  function RenderKids(a: Arena, i: nat, ks: seq<nat>, path: string): string
    requires WellFormed(a) && i < |a.labels|
    requires forall k :: 0 <= k < |ks| ==> i < ks[k] < |a.labels|
    decreases |a.labels| - i, 0, |ks|
  {
    if ks == [] then "" else RenderNode(a, ks[0], path) + RenderKids(a, i, ks[1..], path)
  }

  /** `{{range .Children}}{{renderNode . ""}}{{end}}`: the root's children, with an empty path. */
  function RenderPage(a: Arena): string
    requires WellFormed(a)
  {
    RenderKids(a, Root, a.kids[Root], "")
  }

  /** The path renderNode accumulates along a chain of labels. */
  function PathOf(path: string, parts: seq<string>): string
    decreases |parts|
  {
    if parts == [] then path else PathOf(Step(path, parts[0]), parts[1..])
  }

  /** Once the path is non-empty, every further label is joined with '/'. */
  lemma {:induction false} PathOfNonEmpty(path: string, parts: seq<string>)
    requires |path| > 0 && |parts| > 0
    ensures PathOf(path, parts) == path + "/" + Join(parts, '/')
    decreases |parts|
  {
    if |parts| > 1 {
      PathOfNonEmpty(Step(path, parts[0]), parts[1..]);
    }
  }

  /** The link of a result leaf is the result without its leading '/': "./static/...". */
  lemma PathOfStatic(x: string)
    ensures PathOf("", Split("/static/" + x, '/')) == "static/" + x
  {
    SplitStatic(x);
    var s := Split(x, '/');
    assert (["", "static"] + s)[1..] == ["static"] + s && (["static"] + s)[1..] == s;
    assert Step("", "") == "" && Step("", "static") == "static";
    assert PathOf("", ["", "static"] + s) == PathOf("", ["static"] + s);
    assert PathOf("", ["static"] + s) == PathOf("static", s);
    PathOfNonEmpty("static", s);
    JoinSplit(x, '/');
  }

  /** Each child's rendering appears within its parent's list. */
  lemma {:induction false} KidsContainNode(a: Arena, i: nat, ks: seq<nat>, path: string, q: nat)
    requires WellFormed(a) && i < |a.labels|
    requires forall k :: 0 <= k < |ks| ==> i < ks[k] < |a.labels|
    requires q < |ks|
    ensures Contains(RenderKids(a, i, ks, path), RenderNode(a, ks[q], path))
    decreases q
  {
    var head, tail := RenderNode(a, ks[0], path), RenderKids(a, i, ks[1..], path);
    assert RenderKids(a, i, ks, path) == head + tail;
    if q == 0 {
      ContainsFront(head, tail);
    } else {
      KidsContainNode(a, i, ks[1..], path, q - 1);
      assert ks[1..][q - 1] == ks[q];
      ContainsBack(head, tail);
      ContainsTrans(RenderNode(a, ks[q], path), tail, head + tail);
    }
  }

  lemma {:induction false} TraceLastLabel(a: Arena, i: nat, parts: seq<string>)
    requires WellFormed(a) && i < |a.labels| && |parts| > 0
    requires Trace(a, i, parts).Some?
    ensures a.labels[Trace(a, i, parts).value] == parts[|parts| - 1]
    decreases |parts|
  {
    var p := FindChild(a, a.kids[i], parts[0]).value;
    if |parts| > 1 {
      TraceLastLabel(a, a.kids[i][p], parts[1..]);
    }
  }

  /**
    A childless node reached from node i along `parts` shows up inside node
    i's rendering as a link to the path accumulated along the way.
   */
  lemma {:induction false} NodeShowsLeaf(a: Arena, i: nat, path: string, parts: seq<string>)
    requires WellFormed(a) && i < |a.labels|
    requires Trace(a, i, parts).Some? && a.kids[Trace(a, i, parts).value] == []
    ensures var n := Trace(a, i, parts).value;
      Contains(RenderNode(a, i, path), Link(PathOf(Step(path, a.labels[i]), parts), a.labels[n]))
    decreases |parts|
  {
    var full := Step(path, a.labels[i]);
    if parts == [] {
      ContainsSelf(RenderNode(a, i, path));
    } else {
      var p := FindChild(a, a.kids[i], parts[0]).value;
      var c := a.kids[i][p];
      var n := Trace(a, i, parts).value;
      var link := Link(PathOf(full, parts), a.labels[n]);
      NodeShowsLeaf(a, c, full, parts[1..]);
      assert Step(full, a.labels[c]) == Step(full, parts[0]);
      KidsContainNode(a, i, a.kids[i], full, p);
      var inner := RenderKids(a, i, a.kids[i], full);
      ContainsPart("<li>" + a.labels[i] + "<ul>", inner, "</ul></li>");
      assert RenderNode(a, i, path) == "<li>" + a.labels[i] + "<ul>" + inner + "</ul></li>";
      ContainsTrans(link, RenderNode(a, c, full), inner);
      ContainsTrans(link, inner, RenderNode(a, i, path));
    }
  }

  /**
    Every childless node on the page is a link whose target is its full
    path: the labels from the root joined as renderNode joins them.
   */
  lemma LeafLinkOnPage(a: Arena, parts: seq<string>)
    requires WellFormed(a) && |parts| > 0
    requires Trace(a, Root, parts).Some? && a.kids[Trace(a, Root, parts).value] == []
    ensures Contains(RenderPage(a), Link(PathOf("", parts), parts[|parts| - 1]))
  {
    var p := FindChild(a, a.kids[Root], parts[0]).value;
    var c := a.kids[Root][p];
    TraceLastLabel(a, Root, parts);
    NodeShowsLeaf(a, c, "", parts[1..]);
    assert Step("", a.labels[c]) == Step("", parts[0]);
    KidsContainNode(a, Root, a.kids[Root], "", p);
    ContainsTrans(Link(PathOf("", parts), parts[|parts| - 1]), RenderNode(a, c, ""), RenderPage(a));
  }

  /** Children render in list order: the rendering of a split list is the two renderings appended. */
  lemma {:induction false} KidsInOrder(a: Arena, i: nat, xs: seq<nat>, ys: seq<nat>, path: string)
    requires WellFormed(a) && i < |a.labels|
    requires forall k :: 0 <= k < |xs| ==> i < xs[k] < |a.labels|
    requires forall k :: 0 <= k < |ys| ==> i < ys[k] < |a.labels|
    ensures RenderKids(a, i, xs + ys, path) == RenderKids(a, i, xs, path) + RenderKids(a, i, ys, path)
    decreases |xs|
  {
    if xs == [] {
      assert xs + ys == ys;
    } else {
      assert (xs + ys)[1..] == xs[1..] + ys;
      assert (xs + ys)[0] == xs[0];
      KidsInOrder(a, i, xs[1..], ys, path);
    }
  }

  /** The last '/'-separated segment of a path: the label of its leaf. */
  function LastSegment(s: string): string {
    var parts := Split(s, '/');
    parts[|parts| - 1]
  }

  /** The node reached along `parts` from the root exists and has no children. */
  predicate IsLeaf(a: Arena, parts: seq<string>)
    requires WellFormed(a)
  {
    Trace(a, Root, parts).Some? && a.kids[Trace(a, Root, parts).value] == []
  }

  /**
    A result "/static/x" whose node is a leaf is on the page as a link to
    "./static/x", the result itself relative to the page, naming its last
    segment.
   */
  lemma ResultLinkOnPage(a: Arena, x: string)
    requires WellFormed(a)
    requires IsLeaf(a, Split("/static/" + x, '/'))
    ensures Contains(RenderPage(a), Link("static/" + x, LastSegment(x)))
  {
    var parts := Split("/static/" + x, '/');
    var rest := Split(x, '/');
    LeafLinkOnPage(a, parts);
    var path, last := PathOf("", parts), parts[|parts| - 1];
    PathOfStatic(x);
    assert last == LastSegment(x) by {
      SplitStatic(x);
      assert parts == ["", "static"] + rest;
      assert parts[|parts| - 1] == rest[|rest| - 1];
    }
    assert Link(path, last) == Link("static/" + x, LastSegment(x));
  }

  lemma RenderOnlyKid(a: Arena, i: nat, ks: seq<nat>, path: string)
    requires WellFormed(a) && i < |a.labels| && |ks| == 1 && i < ks[0] < |a.labels|
    ensures RenderKids(a, i, ks, path) == RenderNode(a, ks[0], path)
  {
    assert ks[1..] == [];
    assert RenderKids(a, i, ks, path) == RenderNode(a, ks[0], path) + "";
  }

  lemma RenderInner(a: Arena, i: nat, path: string)
    requires WellFormed(a) && i < |a.labels| && a.kids[i] != []
    ensures RenderNode(a, i, path) == ListItem(a.labels[i], RenderKids(a, i, a.kids[i], Step(path, a.labels[i])))
  {
  }

  /**
    With the "/static/" prefix the page is one item with the empty label
    holding one item "static", inside which the corpus tree is listed.
   */
  lemma StaticPage(a: Arena)
    requires WellFormed(a) && StaticRoot(a)
    ensures var c := a.kids[a.kids[Root][0]][0];
      RenderPage(a) == ListItem("", ListItem("static", RenderKids(a, c, a.kids[c], "static")))
  {
    var c1 := a.kids[Root][0];
    var c := a.kids[c1][0];
    var inner := RenderKids(a, c, a.kids[c], "static");
    RenderOnlyKid(a, Root, a.kids[Root], "");
    RenderInner(a, c1, "");
    assert Step("", "") == "";
    RenderOnlyKid(a, c1, a.kids[c1], "");
    RenderInner(a, c, "");
    assert Step("", "static") == "static";
  }

  // ---------------------------------------------------------------- the mutable tree

  /** The tree of *Node values the handler builds, as node arena fields it updates in place. */
  class PathTree {
    var labels: seq<string>
    var kids: seq<seq<nat>>

    function View(): Arena
      reads this
    {
      Arena(labels, kids)
    }

    /** `root := &Node{}`. */
    constructor ()
      ensures View() == Fresh()
    {
      labels := [""];
      kids := [[]];
    }

    /** The loop over one result's parts: descend into a matching child or append a new one. */
    method InsertPath(parts: seq<string>)
      requires WellFormed(View())
      modifies this
      ensures View() == Insert(old(View()), Root, parts)
    {
      var node: nat := Root;
      assert parts[0..] == parts;
      for j := 0 to |parts|
        invariant WellFormed(View()) && node < |labels|
        invariant Insert(old(View()), Root, parts) == Insert(View(), node, parts[j..])
      {
        var part := parts[j];
        assert parts[j..][1..] == parts[j + 1..];
        var children := kids[node];
        var found := false;
        var k := 0;
        while k < |children|
          invariant 0 <= k <= |children|
          invariant forall q :: 0 <= q < k ==> labels[children[q]] != part
        {
          if labels[children[k]] == part {
            found := true;
            break;
          }
          k := k + 1;
        }
        if found {
          assert FindChild(View(), children, part) == Some(k);
          node := children[k];
        } else {
          assert FindChild(View(), children, part).None?;
          ghost var before := View();
          var newNode := |labels|;
          labels := labels + [part];
          kids := kids[node := kids[node] + [newNode]] + [[]];
          assert View() == AddChild(before, node, part);
          node := newNode;
        }
      }
    }

    /** renderNode: a link for a leaf, otherwise the children's markup collected in order. */
    method RenderAt(i: nat, path: string) returns (html: string)
      requires WellFormed(View()) && i < |labels|
      ensures html == RenderNode(View(), i, path)
      decreases |labels| - i
    {
      var fullPath := path;
      if |fullPath| > 0 {
        fullPath := fullPath + "/";
      }
      fullPath := fullPath + labels[i];
      if |kids[i]| == 0 {
        return "<li><a href=\"./" + fullPath + "\">" + labels[i] + "</a></li>";
      }
      var ks := kids[i];
      var children := "";
      for k := 0 to |ks|
        invariant children == RenderKids(View(), i, ks[..k], fullPath)
      {
        var child := RenderAt(ks[k], fullPath);
        assert ks[..k + 1] == ks[..k] + [ks[k]];
        KidsInOrder(View(), i, ks[..k], [ks[k]], fullPath);
        assert RenderKids(View(), i, [ks[k]], fullPath) == child + "";
        children := children + child;
      }
      assert ks[..|ks|] == ks;
      return ListItem(labels[i], children);
    }

    /** The template's `{{range .Children}}{{renderNode . ""}}{{end}}` over the root's children. */
    method RenderRoot() returns (html: string)
      requires WellFormed(View())
      ensures html == RenderPage(View())
    {
      var ks := kids[Root];
      html := "";
      for k := 0 to |ks|
        invariant html == RenderKids(View(), Root, ks[..k], "")
      {
        var item := RenderAt(ks[k], "");
        assert ks[..k + 1] == ks[..k] + [ks[k]];
        KidsInOrder(View(), Root, ks[..k], [ks[k]], "");
        assert RenderKids(View(), Root, [ks[k]], "") == item + "";
        html := html + item;
      }
      assert ks[..|ks|] == ks;
    }
  }

  /** The tree-building loop over all results. */
  method BuildTree(results: seq<string>) returns (t: PathTree)
    ensures fresh(t) && t.View() == Folded(results)
  {
    t := new PathTree();
    assert results[0..] == results;
    for i := 0 to |results|
      invariant WellFormed(t.View())
      invariant FoldFrom(t.View(), results[i..]) == Folded(results)
    {
      assert results[i..][1..] == results[i + 1..];
      t.InsertPath(Split(results[i], '/'));
    }
  }
}
