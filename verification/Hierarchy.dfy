/**
 * The workflow hierarchy: a table of rows with parent pointers, the two fields
 * derived from them (stored depth and stored root), the recursive descendant
 * query, the cycle check and the save that maintains all of it.
 *
 * A row's id is its insertion position.
 */
module Hierarchy {
  import opened Common

  type Id = nat

  datatype Row = Row(parent: Option<Id>, root: Option<Id>, depth: nat)

  type Table = seq<Row>

  // ---------------------------------------------------------------- true ancestry

  /** The parent column is a foreign key into the same table. */
  ghost predicate Closed(t: Table) {
    forall i :: 0 <= i < |t| && t[i].parent.Some? ==> t[i].parent.value < |t|
  }

  /** The k-th ancestor of j, if the parent chain is that long. */
  ghost function Ancestor(t: Table, j: Id, k: nat): (a: Option<Id>)
    requires Closed(t) && j < |t|
    ensures a.Some? ==> a.value < |t|
    decreases k
  {
    if k == 0 then Some(j)
    else if t[j].parent.None? then None
    else Ancestor(t, t[j].parent.value, k - 1)
  }

  /** j sits exactly k steps below a row without parent. */
  ghost predicate AtDepth(t: Table, j: Id, k: nat)
    requires Closed(t) && j < |t|
  {
    Ancestor(t, j, k).Some? && t[Ancestor(t, j, k).value].parent.None?
  }

  ghost predicate Rooted(t: Table, j: Id)
    requires Closed(t) && j < |t|
  {
    exists k: nat :: AtDepth(t, j, k)
  }

  /** Every parent chain ends. */
  ghost predicate Acyclic(t: Table) {
    Closed(t) && forall j :: 0 <= j < |t| ==> Rooted(t, j)
  }

  /** j lies strictly below i. */
  ghost predicate Below(t: Table, i: Id, j: Id)
    requires Closed(t) && j < |t|
  {
    exists k: nat :: k > 0 && Ancestor(t, j, k) == Some(i)
  }

  ghost function TrueDepth(t: Table, j: Id): (k: nat)
    requires Acyclic(t) && j < |t|
    ensures AtDepth(t, j, k)
  {
    assert Rooted(t, j);
    var k: nat :| AtDepth(t, j, k);
    k
  }

  ghost function TrueTop(t: Table, j: Id): Id
    requires Acyclic(t) && j < |t|
  {
    Ancestor(t, j, TrueDepth(t, j)).value
  }

  /** The stored depth and root of j say what the parent pointers say. */
  ghost predicate Accurate(t: Table, j: Id)
    requires Acyclic(t) && j < |t|
  {
    && t[j].depth == TrueDepth(t, j)
    && t[j].root == (if TrueDepth(t, j) == 0 then None else Some(TrueTop(t, j)))
  }

  ghost predicate AllAccurate(t: Table) {
    Acyclic(t) && forall j :: 0 <= j < |t| ==> Accurate(t, j)
  }

  lemma {:induction false} AncestorCompose(t: Table, j: Id, a: nat, b: nat)
    requires Closed(t) && j < |t|
    ensures Ancestor(t, j, a).None? ==> Ancestor(t, j, a + b).None?
    ensures Ancestor(t, j, a).Some? ==> Ancestor(t, j, a + b) == Ancestor(t, Ancestor(t, j, a).value, b)
    decreases a
  {
    if a > 0 && t[j].parent.Some? {
      AncestorCompose(t, t[j].parent.value, a - 1, b);
    }
  }

  lemma DepthIsUnique(t: Table, j: Id, k: nat, l: nat)
    requires Closed(t) && j < |t|
    requires AtDepth(t, j, k) && AtDepth(t, j, l)
    ensures k == l
  {
    if k < l {
      AncestorCompose(t, j, k, l - k);
    } else if l < k {
      AncestorCompose(t, j, l, k - l);
    }
  }

  /** An ancestor k steps up is k steps less deep and has the same top. */
  lemma DepthAbove(t: Table, j: Id, k: nat)
    requires Acyclic(t) && j < |t|
    requires Ancestor(t, j, k).Some?
    ensures var i := Ancestor(t, j, k).value;
            TrueDepth(t, j) == k + TrueDepth(t, i) && TrueTop(t, j) == TrueTop(t, i)
  {
    var i := Ancestor(t, j, k).value;
    AncestorCompose(t, j, k, TrueDepth(t, i));
    DepthIsUnique(t, j, TrueDepth(t, j), k + TrueDepth(t, i));
  }

  /** In an acyclic table no row lies below itself. */
  lemma NeverBelowItself(t: Table, i: Id)
    requires Acyclic(t) && i < |t|
    ensures !Below(t, i, i)
  {
    if Below(t, i, i) {
      var k: nat :| k > 0 && Ancestor(t, i, k) == Some(i);
      DepthAbove(t, i, k);
    }
  }

  /** A row that lies below another does so at one distance only. */
  lemma DistanceIsUnique(t: Table, i: Id, j: Id, k: nat, l: nat)
    requires Acyclic(t) && j < |t|
    requires Ancestor(t, j, k) == Some(i) && Ancestor(t, j, l) == Some(i)
    ensures k == l
  {
    DepthAbove(t, j, k);
    DepthAbove(t, j, l);
  }

  // ---------------------------------------------------------------- saving a row

  /** The row written for a workflow whose parent is p, from the parent's stored fields. */
  function Stamp(t: Table, p: Option<Id>): Row
    requires p.Some? ==> p.value < |t|
  {
    if p.None? then Row(None, None, 0)
    else
      var above := t[p.value];
      Row(p, if above.root.Some? then above.root else p, above.depth + 1)
  }

  /** What the cycle check must refuse. */
  ghost predicate WouldCycle(t: Table, i: Id, p: Id)
    requires Closed(t) && p < |t|
  {
    p == i || Below(t, i, p)
  }

  /** Nothing on the way up from j before step k is row i, so editing i is not seen there. */
  lemma {:induction false} EditNotSeen(t: Table, u: Table, i: Id, j: Id, k: nat)
    requires Closed(t) && Closed(u) && |t| <= |u| && j < |t|
    requires forall m :: 0 <= m < |t| && m != i ==> t[m].parent == u[m].parent
    requires forall m: nat :: m < k ==> Ancestor(t, j, m) != Some(i)
    ensures Ancestor(u, j, k) == Ancestor(t, j, k)
    decreases k
  {
    if k > 0 {
      assert Ancestor(t, j, 0) == Some(j);
      if t[j].parent.Some? {
        var q := t[j].parent.value;
        forall m: nat | m < k - 1 ensures Ancestor(t, q, m) != Some(i) {
          assert Ancestor(t, j, m + 1) == Ancestor(t, q, m);
        }
        EditNotSeen(t, u, i, q, k - 1);
      }
    }
  }

  /** A row outside the edited subtree keeps its depth and its top. */
  lemma OutsideKeepsPlace(t: Table, u: Table, i: Id, j: Id)
    requires Acyclic(t) && Closed(u) && |t| <= |u| && j < |t|
    requires forall m :: 0 <= m < |t| && m != i ==> t[m].parent == u[m].parent
    requires j != i && !Below(t, i, j)
    ensures AtDepth(u, j, TrueDepth(t, j))
    ensures Ancestor(u, j, TrueDepth(t, j)) == Some(TrueTop(t, j))
  {
    var k := TrueDepth(t, j);
    forall m: nat ensures Ancestor(t, j, m) != Some(i) {
      assert m == 0 ==> Ancestor(t, j, m) == Some(j);
    }
    EditNotSeen(t, u, i, j, k);
  }

  /** A row inside the edited subtree still finds i at the same distance. */
  lemma InsideKeepsDistance(t: Table, u: Table, i: Id, j: Id, d: nat)
    requires Acyclic(t) && Closed(u) && |t| <= |u| && j < |t|
    requires forall m :: 0 <= m < |t| && m != i ==> t[m].parent == u[m].parent
    requires Ancestor(t, j, d) == Some(i)
    ensures Ancestor(u, j, d) == Some(i)
  {
    forall m: nat | m < d ensures Ancestor(t, j, m) != Some(i) {
      if Ancestor(t, j, m) == Some(i) {
        DistanceIsUnique(t, i, j, m, d);
      }
    }
    EditNotSeen(t, u, i, j, d);
  }

  ghost function Saved(t: Table, i: Id, p: Option<Id>): Table
    requires i < |t|
    requires p.Some? ==> p.value < |t|
  {
    t[i := Stamp(t, p)]
  }

  ghost predicate Accepts(t: Table, i: Id, p: Option<Id>)
    requires Closed(t)
  {
    && (p.Some? ==> p.value < |t|)
    && (p.Some? ==> !WouldCycle(t, i, p.value))
  }

  /** Where the saved row itself ends up. */
  lemma SavedRowPlace(t: Table, i: Id, p: Option<Id>) returns (k: nat)
    requires Acyclic(t) && i < |t| && Accepts(t, i, p)
    ensures Closed(Saved(t, i, p)) && AtDepth(Saved(t, i, p), i, k)
    ensures k == if p.None? then 0 else TrueDepth(t, p.value) + 1
    ensures Ancestor(Saved(t, i, p), i, k) == Some(if p.None? then i else TrueTop(t, p.value))
  {
    var u := Saved(t, i, p);
    if p.None? {
      k := 0;
    } else {
      OutsideKeepsPlace(t, u, i, p.value);
      k := TrueDepth(t, p.value) + 1;
      assert Ancestor(u, i, k) == Ancestor(u, p.value, k - 1);
    }
  }

  /** An accepted save keeps every parent chain finite. */
  lemma SaveKeepsAcyclic(t: Table, i: Id, p: Option<Id>)
    requires Acyclic(t) && i < |t| && Accepts(t, i, p)
    ensures Acyclic(Saved(t, i, p))
  {
    var u := Saved(t, i, p);
    var k := SavedRowPlace(t, i, p);
    forall j | 0 <= j < |u| ensures Rooted(u, j) {
      if j == i {
      } else if Below(t, i, j) {
        var d: nat :| d > 0 && Ancestor(t, j, d) == Some(i);
        InsideKeepsDistance(t, u, i, j, d);
        AncestorCompose(u, j, d, k);
        assert AtDepth(u, j, d + k);
      } else {
        OutsideKeepsPlace(t, u, i, j);
      }
    }
  }

  /** Refusing exactly these parents is necessary: any of them closes a cycle. */
  lemma CyclicParentBreaksTree(t: Table, i: Id, p: Id)
    requires Acyclic(t) && i < |t| && p < |t| && WouldCycle(t, i, p)
    ensures Closed(Saved(t, i, Some(p))) && Below(Saved(t, i, Some(p)), i, i)
    ensures !Acyclic(Saved(t, i, Some(p)))
  {
    var u := Saved(t, i, Some(p));
    var d: nat := 0;
    if p != i {
      d :| d > 0 && Ancestor(t, p, d) == Some(i);
      InsideKeepsDistance(t, u, i, p, d);
    }
    assert Ancestor(u, i, d + 1) == Ancestor(u, p, d) == Some(i);
    if Acyclic(u) {
      NeverBelowItself(u, i);
    }
  }

  lemma CreateKeepsAcyclic(t: Table, p: Option<Id>)
    requires Acyclic(t)
    requires p.Some? ==> p.value < |t|
    ensures Acyclic(t + [Stamp(t, p)])
    ensures forall j :: 0 <= j < |t| ==>
              TrueDepth(t + [Stamp(t, p)], j) == TrueDepth(t, j) && TrueTop(t + [Stamp(t, p)], j) == TrueTop(t, j)
  {
    var u := t + [Stamp(t, p)];
    var i := |t|;
    assert Closed(u);
    forall j | 0 <= j < |t|
      ensures AtDepth(u, j, TrueDepth(t, j)) && Ancestor(u, j, TrueDepth(t, j)) == Some(TrueTop(t, j))
    {
      EditNotSeen(t, u, i, j, TrueDepth(t, j));
    }
    if p.None? {
      assert AtDepth(u, i, 0);
    } else {
      var k := TrueDepth(t, p.value) + 1;
      assert Ancestor(u, i, k) == Ancestor(u, p.value, k - 1);
      assert AtDepth(u, i, k);
    }
    forall j | 0 <= j < |u| ensures Rooted(u, j) {
      if j < |t| {
        assert AtDepth(u, j, TrueDepth(t, j));
      }
    }
    forall j | 0 <= j < |t|
      ensures TrueDepth(u, j) == TrueDepth(t, j)
    {
      DepthIsUnique(u, j, TrueDepth(u, j), TrueDepth(t, j));
    }
  }

  /** A new row is stamped accurately, and nobody else's place changes. */
  lemma CreateKeepsAccurate(t: Table, p: Option<Id>)
    requires AllAccurate(t)
    requires p.Some? ==> p.value < |t|
    ensures AllAccurate(t + [Stamp(t, p)])
  {
    var u := t + [Stamp(t, p)];
    CreateKeepsAcyclic(t, p);
    if p.None? {
      DepthIsUnique(u, |t|, TrueDepth(u, |t|), 0);
    } else {
      assert Ancestor(u, |t|, 1) == Ancestor(u, p.value, 0);
      DepthAbove(u, |t|, 1);
      assert Accurate(t, p.value);
    }
    forall j | 0 <= j < |u| ensures Accurate(u, j) {
      if j < |t| {
        assert Accurate(t, j);
      }
    }
  }

  ghost predicate HasChild(t: Table, i: Id) {
    exists c :: 0 <= c < |t| && t[c].parent == Some(i)
  }

  /** A saved row is stamped accurately; so is everything outside its subtree. */
  lemma SaveIsAccurateOutside(t: Table, i: Id, p: Option<Id>)
    requires AllAccurate(t) && i < |t| && Accepts(t, i, p)
    ensures Acyclic(Saved(t, i, p)) && Accurate(Saved(t, i, p), i)
    ensures forall j :: 0 <= j < |t| && !Below(t, i, j) ==> Accurate(Saved(t, i, p), j)
  {
    var u := Saved(t, i, p);
    SaveKeepsAcyclic(t, i, p);
    var k := SavedRowPlace(t, i, p);
    DepthIsUnique(u, i, TrueDepth(u, i), k);
    if p.Some? {
      assert Accurate(t, p.value);
    }
    forall j | 0 <= j < |t| && !Below(t, i, j) ensures Accurate(u, j) {
      if j != i {
        OutsideKeepsPlace(t, u, i, j);
        DepthIsUnique(u, j, TrueDepth(u, j), TrueDepth(t, j));
        assert Accurate(t, j);
      }
    }
  }

  /**
   * Moving a row does not rewrite its descendants, so the denormalised fields
   * stay right in exactly two cases: the moved row has no children, or its own
   * depth and root come out as they were.
   */
  lemma SaveKeepsAccurateExactly(t: Table, i: Id, p: Option<Id>)
    requires AllAccurate(t) && i < |t| && Accepts(t, i, p)
    ensures AllAccurate(Saved(t, i, p)) <==>
            (!HasChild(t, i) || (Stamp(t, p).depth == t[i].depth && Stamp(t, p).root == t[i].root))
  {
    var u := Saved(t, i, p);
    SaveIsAccurateOutside(t, i, p);
    var same := Stamp(t, p).depth == t[i].depth && Stamp(t, p).root == t[i].root;
    assert Accurate(t, i) && Accurate(u, i);
    if c :| 0 <= c < |t| && t[c].parent == Some(i) {
      assert Ancestor(t, c, 1) == Ancestor(t, i, 0);
      NeverBelowItself(t, i);
      assert Below(t, i, c);
      assert c != i;
      assert Ancestor(u, c, 1) == Ancestor(u, i, 0);
      DepthAbove(t, c, 1);
      DepthAbove(u, c, 1);
      assert Accurate(t, c);
      assert Accurate(u, c) ==> same;
    }
    forall j | 0 <= j < |t| && (!HasChild(t, i) || same) ensures Accurate(u, j) {
      if Below(t, i, j) {
        var d: nat :| d > 0 && Ancestor(t, j, d) == Some(i);
        AncestorCompose(t, j, d - 1, 1);
        assert HasChild(t, i);
        InsideKeepsDistance(t, u, i, j, d);
        DepthAbove(t, j, d);
        DepthAbove(u, j, d);
        NeverBelowItself(t, i);
        assert Accurate(t, j);
      }
    }
  }

  // ---------------------------------------------------------------- repairing a moved subtree

  lemma {:induction false} SameParentsSameAncestors(t: Table, u: Table, j: Id, k: nat)
    requires Closed(t) && Closed(u) && |t| == |u| && j < |t|
    requires forall m :: 0 <= m < |t| ==> t[m].parent == u[m].parent
    ensures Ancestor(u, j, k) == Ancestor(t, j, k)
    decreases k
  {
    if k > 0 && t[j].parent.Some? {
      SameParentsSameAncestors(t, u, t[j].parent.value, k - 1);
    }
  }

  lemma SameParentsSamePlaces(t: Table, u: Table)
    requires Acyclic(t) && |t| == |u|
    requires forall m :: 0 <= m < |t| ==> t[m].parent == u[m].parent
    ensures Acyclic(u)
    ensures forall j :: 0 <= j < |t| ==> TrueDepth(u, j) == TrueDepth(t, j) && TrueTop(u, j) == TrueTop(t, j)
  {
    assert Closed(u);
    forall j | 0 <= j < |t| ensures AtDepth(u, j, TrueDepth(t, j)) {
      SameParentsSameAncestors(t, u, j, TrueDepth(t, j));
    }
    forall j | 0 <= j < |u| ensures Rooted(u, j) {
      assert AtDepth(u, j, TrueDepth(t, j));
    }
    forall j | 0 <= j < |t|
      ensures TrueDepth(u, j) == TrueDepth(t, j) && TrueTop(u, j) == TrueTop(t, j)
    {
      DepthIsUnique(u, j, TrueDepth(u, j), TrueDepth(t, j));
      SameParentsSameAncestors(t, u, j, TrueDepth(t, j));
    }
  }

  /** Saving a row whose parent is accurate makes the row accurate and disturbs no one. */
  lemma ResaveHeals(t: Table, i: Id)
    requires Acyclic(t) && i < |t|
    requires t[i].parent.Some? ==> Accurate(t, t[i].parent.value)
    ensures var u := Saved(t, i, t[i].parent);
            && Acyclic(u)
            && Accurate(u, i)
            && (forall j :: 0 <= j < |t| && Accurate(t, j) ==> Accurate(u, j))
  {
    var u := Saved(t, i, t[i].parent);
    SameParentsSamePlaces(t, u);
    if t[i].parent.None? {
      assert AtDepth(t, i, 0);
      DepthIsUnique(t, i, TrueDepth(t, i), 0);
    } else {
      assert Ancestor(t, i, 1) == Ancestor(t, t[i].parent.value, 0);
      DepthAbove(t, i, 1);
    }
  }

  /** Every listed row comes after its parent, when its parent is listed too. */
  ghost predicate ParentsFirst(t: Table, order: seq<Id>) {
    && (forall k :: 0 <= k < |order| ==> order[k] < |t|)
    && (forall k :: 0 <= k < |order| && t[order[k]].parent.Some? && t[order[k]].parent.value in order ==>
          t[order[k]].parent.value in order[..k])
  }

  /** Saving the first n listed rows once more, each under the parent it already has. */
  ghost function Resaved(t: Table, order: seq<Id>, n: nat): (u: Table)
    requires Closed(t) && n <= |order|
    requires forall k :: 0 <= k < |order| ==> order[k] < |t|
    ensures Closed(u) && |u| == |t| && forall j :: 0 <= j < |t| ==> u[j].parent == t[j].parent
  {
    if n == 0 then t
    else
      var before := Resaved(t, order, n - 1);
      Saved(before, order[n - 1], before[order[n - 1]].parent)
  }

  /** Saving rows again, each after its parent, heals every one of them. */
  lemma {:induction false} ResavingHeals(t: Table, order: seq<Id>, n: nat)
    requires Acyclic(t) && ParentsFirst(t, order) && n <= |order|
    requires forall j :: 0 <= j < |t| && j !in order ==> Accurate(t, j)
    ensures Acyclic(Resaved(t, order, n))
    ensures forall j :: 0 <= j < |t| && (j !in order || j in order[..n]) ==> Accurate(Resaved(t, order, n), j)
  {
    if n > 0 {
      ResavingHeals(t, order, n - 1);
      ResaveHeals(Resaved(t, order, n - 1), order[n - 1]);
      assert order[..n] == order[..n - 1] + [order[n - 1]];
    }
  }

  /** After moving an inner row, saving everything below it again, parents first, is enough. */
  lemma MovedSubtreeHeals(t: Table, i: Id, p: Option<Id>, order: seq<Id>)
    requires AllAccurate(t) && i < |t| && Accepts(t, i, p)
    requires ParentsFirst(Saved(t, i, p), order)
    requires forall j :: 0 <= j < |t| && Below(t, i, j) ==> j in order
    ensures Closed(Saved(t, i, p)) && AllAccurate(Resaved(Saved(t, i, p), order, |order|))
  {
    SaveIsAccurateOutside(t, i, p);
    ResavingHeals(Saved(t, i, p), order, |order|);
    assert order[..|order|] == order;
  }

  // ---------------------------------------------------------------- the ancestor chain

  /** The chain from the k-th ancestor down to j. */
  ghost function Chain(t: Table, j: Id, k: nat): (c: seq<Id>)
    requires Closed(t) && j < |t| && Ancestor(t, j, k).Some?
    ensures |c| == k + 1
    decreases k
  {
    if k == 0 then [j] else Chain(t, t[j].parent.value, k - 1) + [j]
  }

  /** Position m of a chain holds the ancestor that many steps up. */
  lemma {:induction false} ChainHolds(t: Table, j: Id, k: nat, m: nat)
    requires Closed(t) && j < |t| && Ancestor(t, j, k).Some? && m <= k
    ensures Ancestor(t, j, k - m) == Some(Chain(t, j, k)[m])
    decreases k
  {
    if k == 0 || m == k {
    } else {
      ChainHolds(t, t[j].parent.value, k - 1, m);
    }
  }

  /** A shorter chain is the tail of a longer one. */
  lemma {:induction false} ChainTail(t: Table, j: Id, k: nat, l: nat)
    requires Closed(t) && j < |t| && l <= k && Ancestor(t, j, k).Some?
    ensures Ancestor(t, j, l).Some? && Chain(t, j, l) == Chain(t, j, k)[k - l..]
    decreases k
  {
    AncestorCompose(t, j, l, k - l);
    forall m | 0 <= m <= l
      ensures Chain(t, j, l)[m] == Chain(t, j, k)[k - l + m]
    {
      ChainHolds(t, j, l, m);
      ChainHolds(t, j, k, k - l + m);
    }
  }

  /** [top, ..., j] */
  ghost function FullPath(t: Table, j: Id): (c: seq<Id>)
    requires Acyclic(t) && j < |t|
    ensures |c| == TrueDepth(t, j) + 1
  {
    Chain(t, j, TrueDepth(t, j))
  }

  /** A chain one step longer at its top end. */
  lemma {:induction false} ChainExtend(t: Table, j: Id, k: nat)
    requires Closed(t) && j < |t| && Ancestor(t, j, k + 1).Some?
    ensures Ancestor(t, j, k).Some?
    ensures t[Ancestor(t, j, k).value].parent == Ancestor(t, j, k + 1)
    ensures Chain(t, j, k + 1) == [Ancestor(t, j, k + 1).value] + Chain(t, j, k)
  {
    AncestorCompose(t, j, k, 1);
    ChainTail(t, j, k + 1, k);
    ChainHolds(t, j, k + 1, 0);
  }

  // ---------------------------------------------------------------- the table

  class WorkflowTable {
    var rows: Table

    ghost predicate Valid()
      reads this
    {
      Acyclic(rows)
    }

    constructor ()
      ensures Valid() && rows == []
    {
      rows := [];
    }

    /**
     * The recursive query. Each round joins the table with the previous round's
     * rows; the outer select then keeps each matching row once, in table order.
     */
    method GetAllDescendants(id: Id) returns (found: seq<Id>)
      requires Valid()
      ensures forall k, l :: 0 <= k < l < |found| ==> found[k] < found[l]
      ensures forall j: Id :: j in found <==> j < |rows| && Below(rows, id, j)
    {
      var level := ChildrenOf([id]);
      var reached: seq<Id> := level;
      ghost var k: nat := 1;
      FirstLevel(rows, id, level);
      while level != []
        invariant k >= 1 && LevelIs(rows, id, k, level) && Gathered(rows, id, k, reached)
        decreases |rows| + |level| - |reached|, |level|
      {
        ghost var before := level;
        level := ChildrenOf(level);
        NextLevel(rows, id, k, before, level);
        GatherOneMore(rows, id, k, level, reached);
        reached := reached + level;
        k := k + 1;
      }
      NothingBeyond(rows, id, k);
      found := InTableOrder(reached);
    }

    /** The outer select: the rows whose id is among the given ones. */
    method InTableOrder(reached: seq<Id>) returns (found: seq<Id>)
      ensures forall k, l :: 0 <= k < l < |found| ==> found[k] < found[l]
      ensures forall j: Id :: j in found <==> j < |rows| && j in reached
    {
      found := [];
      for j := 0 to |rows|
        invariant forall m, l :: 0 <= m < l < |found| ==> found[m] < found[l]
        invariant forall m :: 0 <= m < |found| ==> found[m] < j
        invariant forall m: Id :: m in found <==> m < j && m in reached
      {
        if j in reached {
          found := found + [j];
        }
      }
    }

    /** One join: the ids whose parent is among the given ones, once per match. */
    method ChildrenOf(above: seq<Id>) returns (level: seq<Id>)
      requires Valid() && NoRepeats(above)
      ensures NoRepeats(level)
      ensures forall j: Id :: j in level <==> j < |rows| && rows[j].parent.Some? && rows[j].parent.value in above
    {
      level := [];
      for j := 0 to |rows|
        invariant NoRepeats(level)
        invariant forall m: Id :: m in level <==> m < j && rows[m].parent.Some? && rows[m].parent.value in above
      {
        ghost var start := level;
        for a := 0 to |above|
          invariant level == start || level == start + [j]
          invariant level == start <==> (rows[j].parent.None? || rows[j].parent.value !in above[..a])
        {
          if rows[j].parent == Some(above[a]) {
            assert rows[j].parent.value !in above[..a];
            level := level + [j];
          }
        }
        assert above[..|above|] == above;
      }
    }

    /** True exactly for the row itself and the rows below it. */
    method WouldCreateCircularReference(id: Id, parent: Option<Id>) returns (circular: bool)
      requires Valid()
      requires parent.Some? ==> parent.value < |rows|
      ensures circular <==> parent.Some? && WouldCycle(rows, id, parent.value)
    {
      if parent.None? {
        return false;
      }
      if id == parent.value {
        return true;
      }
      var descendants := GetAllDescendants(id);
      return parent.value in descendants;
    }

    /** First save of a workflow; the check never refuses a row nobody points to yet. */
    method Create(parent: Option<Id>) returns (id: Id)
      requires Valid()
      requires parent.Some? ==> parent.value < |rows|
      modifies this
      ensures Valid() && id == |old(rows)|
      ensures rows == Applied(old(rows), Insert(parent))
    {
      id := |rows|;
      var circular := WouldCreateCircularReference(id, parent);
      assert !circular;
      CreateKeepsAcyclic(rows, parent);
      rows := rows + [Stamp(rows, parent)];
    }

    /**
     * A later save. recompute is false for a partial save that leaves the parent
     * column out; the cycle check runs either way.
     */
    method Save(id: Id, parent: Option<Id>, recompute: bool) returns (ok: bool)
      requires Valid() && id < |rows|
      requires parent.Some? ==> parent.value < |rows|
      modifies this
      ensures Valid()
      ensures ok <==> parent.None? || !WouldCycle(old(rows), id, parent.value)
      ensures rows == Applied(old(rows), Update(id, parent, recompute))
    {
      var circular := WouldCreateCircularReference(id, parent);
      if circular {
        return false;
      }
      if recompute {
        SaveKeepsAcyclic(rows, id, parent);
        rows := rows[id := Stamp(rows, parent)];
      }
      return true;
    }

    /** The path reader: walks up at most the stored depth. */
    method GetWorkflowHierarchyPath(id: Id) returns (path: seq<Id>)
      requires Valid() && id < |rows|
      ensures path == FullPath(rows, id)[Max(0, TrueDepth(rows, id) - rows[id].depth)..]
      ensures Accurate(rows, id) ==> path == FullPath(rows, id)
      ensures path[|path| - 1] == id
    {
      path := [id];
      var current := id;
      ghost var top := TrueDepth(rows, id);
      var step := 0;
      while step < rows[id].depth
        invariant 0 <= step <= rows[id].depth && step <= top
        invariant Ancestor(rows, id, step) == Some(current)
        invariant path == Chain(rows, id, step)
      {
        if rows[current].parent.None? {
          DepthIsUnique(rows, id, top, step);
          break;
        }
        AncestorCompose(rows, id, step, 1);
        assert Ancestor(rows, current, 1) == Ancestor(rows, rows[current].parent.value, 0);
        ChainExtend(rows, id, step);
        DepthAbove(rows, id, step + 1);
        current := rows[current].parent.value;
        path := [current] + path;
        step := step + 1;
      }
      ChainTail(rows, id, top, step);
    }
  }

  /** j lies between 1 and k steps below id. */
  ghost predicate Within(t: Table, id: Id, j: Id, k: nat)
    requires Closed(t) && j < |t|
  {
    exists m: nat :: 1 <= m <= k && Ancestor(t, j, m) == Some(id)
  }

  lemma WithinOneMore(t: Table, id: Id, j: Id, k: nat)
    requires Closed(t) && j < |t|
    ensures Within(t, id, j, k + 1) <==> Within(t, id, j, k) || Ancestor(t, j, k + 1) == Some(id)
  {
  }

  /** level lists, once each, the rows exactly k steps below id. */
  ghost predicate LevelIs(t: Table, id: Id, k: nat, level: seq<Id>)
    requires Closed(t)
  {
    && NoRepeats(level)
    && (forall j :: j in level ==> j < |t|)
    && (forall j :: 0 <= j < |t| ==> (j in level <==> Ancestor(t, j, k) == Some(id)))
  }

  /** reached lists, once each, the rows between 1 and k steps below id. */
  ghost predicate Gathered(t: Table, id: Id, k: nat, reached: seq<Id>)
    requires Closed(t)
  {
    NoRepeats(reached) && forall j: Id :: j in reached <==> j < |t| && Within(t, id, j, k)
  }

  lemma FirstLevel(t: Table, id: Id, level: seq<Id>)
    requires Closed(t) && NoRepeats(level)
    requires forall j: Id :: j in level <==> j < |t| && t[j].parent.Some? && t[j].parent.value in [id]
    ensures LevelIs(t, id, 1, level) && Gathered(t, id, 1, level)
  {
    forall j | 0 <= j < |t| ensures j in level <==> Ancestor(t, j, 1) == Some(id) {
      assert t[j].parent.Some? ==> Ancestor(t, j, 1) == Ancestor(t, t[j].parent.value, 0);
    }
  }

  /** One more level adds rows not reached before, so there is an end to it. */
  lemma GatherOneMore(t: Table, id: Id, k: nat, level: seq<Id>, reached: seq<Id>)
    requires Acyclic(t) && LevelIs(t, id, k + 1, level) && Gathered(t, id, k, reached)
    ensures Gathered(t, id, k + 1, reached + level) && |reached + level| <= |t|
  {
    forall j | j in level ensures j !in reached {
      if j in reached {
        var m: nat :| 1 <= m <= k && Ancestor(t, j, m) == Some(id);
        DistanceIsUnique(t, id, j, m, k + 1);
      }
    }
    forall j: Id | j < |t| ensures Within(t, id, j, k + 1) <==> Within(t, id, j, k) || j in level {
      WithinOneMore(t, id, j, k);
    }
    JoinHasNoRepeats(reached, level);
    assert forall i :: 0 <= i < |reached + level| ==> (reached + level)[i] in reached + level;
    PositionsAreBounded(reached + level, |t|);
  }

  /** Where level k is empty, nothing lies deeper. */
  lemma NothingBeyond(t: Table, id: Id, k: nat)
    requires Closed(t) && LevelIs(t, id, k, [])
    ensures forall j: Id :: j < |t| ==> (Below(t, id, j) <==> Within(t, id, j, k))
  {
    forall j: Id | j < |t| && Below(t, id, j) ensures Within(t, id, j, k) {
      var m: nat :| m > 0 && Ancestor(t, j, m) == Some(id);
      if m > k {
        DeepImpliesShallow(t, id, j, k, m);
      }
    }
  }

  lemma NextLevel(t: Table, id: Id, k: nat, above: seq<Id>, level: seq<Id>)
    requires Closed(t) && LevelIs(t, id, k, above) && NoRepeats(level)
    requires forall j: Id :: j in level <==> j < |t| && t[j].parent.Some? && t[j].parent.value in above
    ensures LevelIs(t, id, k + 1, level)
  {
    forall j | 0 <= j < |t| ensures j in level <==> Ancestor(t, j, k + 1) == Some(id) {
      if t[j].parent.Some? {
        assert Ancestor(t, j, k + 1) == Ancestor(t, t[j].parent.value, k);
      }
    }
  }

  /** A row deeper than k below id has an ancestor exactly k below id. */
  lemma DeepImpliesShallow(t: Table, id: Id, j: Id, k: nat, m: nat)
    requires Closed(t) && j < |t| && k < m && Ancestor(t, j, m) == Some(id)
    ensures exists i :: 0 <= i < |t| && Ancestor(t, i, k) == Some(id)
  {
    AncestorCompose(t, j, m - k, k);
    assert Ancestor(t, Ancestor(t, j, m - k).value, k) == Some(id);
  }

  /** Saving a row under the parent it already has is never refused. */
  lemma OwnParentIsFine(t: Table, i: Id)
    requires Acyclic(t) && i < |t| && t[i].parent.Some?
    ensures !WouldCycle(t, i, t[i].parent.value)
  {
    var p := t[i].parent.value;
    assert Ancestor(t, i, 1) == Ancestor(t, p, 0);
    DepthAbove(t, i, 1);
    if Below(t, i, p) {
      var k: nat :| k > 0 && Ancestor(t, p, k) == Some(i);
      DepthAbove(t, p, k);
    }
  }

  /** In an accurate table a save that keeps the parent is accepted and changes nothing. */
  lemma KeepingTheParentIsIdle(t: Table, i: Id)
    requires AllAccurate(t) && i < |t|
    ensures Accepts(t, i, t[i].parent) && Saved(t, i, t[i].parent) == t
  {
    assert Accurate(t, i);
    if t[i].parent.Some? {
      OwnParentIsFine(t, i);
      assert Accurate(t, t[i].parent.value);
      assert Ancestor(t, i, 1) == Ancestor(t, t[i].parent.value, 0);
      DepthAbove(t, i, 1);
    } else {
      assert AtDepth(t, i, 0);
      DepthIsUnique(t, i, TrueDepth(t, i), 0);
    }
  }

  // ---------------------------------------------------------------- runs

  datatype Op =
    | Insert(parent: Option<Id>)
    | Update(id: Id, parent: Option<Id>, recompute: bool)

  /** The effect of one create or save; what the source refuses leaves the table alone. */
  ghost function Applied(t: Table, op: Op): Table
    requires Closed(t)
  {
    if op.parent.Some? && op.parent.value >= |t| then t
    else if op.Insert? then t + [Stamp(t, op.parent)]
    else if op.id < |t| && op.recompute && Accepts(t, op.id, op.parent) then Saved(t, op.id, op.parent)
    else t
  }

  lemma AppliedKeepsAcyclic(t: Table, op: Op)
    requires Acyclic(t)
    ensures Acyclic(Applied(t, op))
  {
    if op.parent.Some? && op.parent.value >= |t| {
    } else if op.Insert? {
      CreateKeepsAcyclic(t, op.parent);
    } else if op.id < |t| && Accepts(t, op.id, op.parent) {
      SaveKeepsAcyclic(t, op.id, op.parent);
    }
  }

  /** The table after a run that starts empty. */
  ghost function After(ops: seq<Op>): (t: Table)
    ensures Acyclic(t)
  {
    if ops == [] then []
    else
      var t := After(ops[..|ops| - 1]);
      AppliedKeepsAcyclic(t, ops[|ops| - 1]);
      Applied(t, ops[|ops| - 1])
  }

  /** Whatever was created and saved, no workflow is its own ancestor. */
  lemma RunsNeverCycle(ops: seq<Op>, i: Id)
    requires i < |After(ops)|
    ensures Rooted(After(ops), i) && !Below(After(ops), i, i)
  {
    NeverBelowItself(After(ops), i);
  }

  /** Saves that move a childless row, or that leave the row's own depth and root as they were. */
  ghost predicate Gentle(t: Table, op: Op)
    requires Closed(t)
  {
    op.Insert?
    || !op.recompute
    || op.id >= |t|
    || !Accepts(t, op.id, op.parent)
    || !HasChild(t, op.id)
    || (Stamp(t, op.parent).depth == t[op.id].depth && Stamp(t, op.parent).root == t[op.id].root)
  }

  /** A gentle step, and no other, keeps an accurate table accurate. */
  lemma StepKeepsAccurateExactly(t: Table, op: Op)
    requires AllAccurate(t)
    ensures AllAccurate(Applied(t, op)) <==> Gentle(t, op)
  {
    if op.parent.Some? && op.parent.value >= |t| {
    } else if op.Insert? {
      CreateKeepsAccurate(t, op.parent);
    } else if op.id < |t| && op.recompute && Accepts(t, op.id, op.parent) {
      SaveKeepsAccurateExactly(t, op.id, op.parent);
    }
  }

  /** Stored depths and roots are true now, and were at every earlier moment of the run. */
  ghost predicate AlwaysAccurate(ops: seq<Op>) {
    AllAccurate(After(ops)) && (ops != [] ==> AlwaysAccurate(ops[..|ops| - 1]))
  }

  /** Each step was gentle when it was taken. */
  ghost predicate AllGentle(ops: seq<Op>) {
    ops != [] ==> AllGentle(ops[..|ops| - 1]) && Gentle(After(ops[..|ops| - 1]), ops[|ops| - 1])
  }

  /** Every stored depth and root is true at every moment of a run exactly when all its steps are gentle. */
  lemma {:induction false} RunsStayAccurateExactly(ops: seq<Op>)
    ensures AlwaysAccurate(ops) <==> AllGentle(ops)
  {
    if ops != [] {
      var n := |ops| - 1;
      RunsStayAccurateExactly(ops[..n]);
      if AlwaysAccurate(ops[..n]) {
        StepKeepsAccurateExactly(After(ops[..n]), ops[n]);
      }
    }
  }

  /** A root, and another root with a child. */
  lemma RootWithChild() returns (ops: seq<Op>)
    ensures ops == [Insert(None), Insert(None), Insert(Some(1))] && AllAccurate(After(ops))
    ensures After(ops) == [Row(None, None, 0), Row(None, None, 0), Row(Some(1), Some(1), 1)]
  {
    ops := [Insert(None), Insert(None), Insert(Some(1))];
    assert ops[..1][..0] == [] && ops[..2][..1] == ops[..1] && ops[..3] == ops;
    assert After(ops[..1]) == [Row(None, None, 0)];
    assert After(ops[..2]) == [Row(None, None, 0), Row(None, None, 0)];
    RunsStayAccurateExactly(ops);
    assert AllGentle(ops[..1]) && AllGentle(ops[..2]);
  }

  /**
   * The smallest failure: the root with a child moves under the other root; the
   * child keeps depth 1 and its old root.
   */
  lemma InnerMoveStrandsChild()
    ensures var ops := [Insert(None), Insert(None), Insert(Some(1)), Update(1, Some(0), true)];
            && AllAccurate(After(ops[..3])) && !AllAccurate(After(ops))
            && After(ops) == [Row(None, None, 0), Row(Some(0), Some(0), 1), Row(Some(1), Some(1), 1)]
  {
    var before := RootWithChild();
    var (t, move) := (After(before), Update(1, Some(0), true));
    var ops := before + [move];
    assert ops == [Insert(None), Insert(None), Insert(Some(1)), Update(1, Some(0), true)] && ops[..3] == before;
    NotBelowRoot(t, 1, 0);
    assert t[2].parent == Some(1) && HasChild(t, 1);
    StepKeepsAccurateExactly(t, move);
  }

  /** Nothing lies above a row without parent. */
  lemma NotBelowRoot(t: Table, i: Id, j: Id)
    requires Closed(t) && j < |t| && t[j].parent.None?
    ensures !Below(t, i, j)
  {
  }
}
