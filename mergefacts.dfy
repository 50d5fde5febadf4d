/**
 * The loose SortSiblings pass over siblings at different vertices
 * (GeoGraph/Manager.cxx:482-518), entry by entry: what every entry of the
 * correlation tables holds once the node's pairs have been moved to the
 * centre vertex and every sibling pair merged there, and when the merge
 * refuses a pair.
 */
module GeoMergeFacts {
  import opened Faults
  import opened GeoNode
  import opened GeoRegistry
  import opened GeoEdits
  import opened GeoPasses
  import opened GeoSortFacts

  /** An entry moved to vertex v, its score and relation kept; a missing entry stays missing. */
  function AtVertex(e: Option<Correlation>, v: Point): (r: Option<Correlation>)
    ensures r.Some? <==> e.Some?
    ensures r.Some? ==> r.value.vtx == v && r.value.score == e.value.score && r.value.rel == e.value.rel
  {
    match e
    case None => None
    case Some(c) => Some(c.(vtx := v))
  }

  // ---------------------------------------------------------------------
  // The move of the node's pairs
  // ---------------------------------------------------------------------

  /** Sibling s is listed at position k or later. */
  ghost predicate ListedFrom(sibs: seq<nat>, k: nat, s: nat) {
    exists i :: k <= i < |sibs| && sibs[i] == s
  }

  lemma ListedUnfold(sibs: seq<nat>, k: nat, s: nat)
    requires k < |sibs|
    ensures ListedFrom(sibs, k, s) <==> sibs[k] == s || ListedFrom(sibs, k + 1, s)
  {
    if ListedFrom(sibs, k, s) {
      var i :| k <= i < |sibs| && sibs[i] == s;
      if i > k {
        assert ListedFrom(sibs, k + 1, s);
      }
    }
  }

  /** The pair {x, y} joins the node with a sibling listed at position k or later. */
  ghost predicate NodePairFrom(id: nat, sibs: seq<nat>, k: nat, x: nat, y: nat) {
    (x == id && ListedFrom(sibs, k, y)) || (y == id && ListedFrom(sibs, k, x))
  }

  /** The entry x -> y after the move from position k on. */
  ghost function MoveTarget(g: Graph, id: nat, sibs: seq<nat>, k: nat, v: Point, x: nat, y: nat): Option<Correlation> {
    if NodePairFrom(id, sibs, k, x, y) then AtVertex(EntryOf(g, x, y), v) else EntryOf(g, x, y)
  }

  /** A vertex-only edit that succeeds found both directions of its pair and moved exactly those two entries. */
  lemma VertexEditEntries(g: Graph, prohibits: (nat, Relation) -> bool, a: nat, b: nat, v: Point)
    requires EditSpec(g, prohibits, a, b, NewVertex(v)).out.Pass?
    ensures var h := EditSpec(g, prohibits, a, b, NewVertex(v)).graph;
      && h.Keys == g.Keys
      && EntryOf(g, a, b).Some? && EntryOf(g, b, a).Some?
      && forall x, y :: EntryOf(h, x, y) ==
           (if (x == a && y == b) || (x == b && y == a) then AtVertex(EntryOf(g, x, y), v) else EntryOf(g, x, y))
  {
  }

  /** The move changes no table's key set, needs both directions of every node pair, and moves exactly those entries. */
  lemma {:induction false} MoveFromEntries(g: Graph, prohibits: (nat, Relation) -> bool, id: nat, sibs: seq<nat>, v: Point, k: nat)
    requires k <= |sibs| && MoveFrom(g, prohibits, id, sibs, v, k).Ok?
    ensures var h := MoveFrom(g, prohibits, id, sibs, v, k).value;
      && h.Keys == g.Keys
      && (forall i :: k <= i < |sibs| ==> EntryOf(g, id, sibs[i]).Some? && EntryOf(g, sibs[i], id).Some?)
      && forall x, y :: EntryOf(h, x, y) == MoveTarget(g, id, sibs, k, v, x, y)
    decreases |sibs| - k
  {
    var h := MoveFrom(g, prohibits, id, sibs, v, k).value;
    if k < |sibs| {
      var h1 := EditSpec(g, prohibits, id, sibs[k], NewVertex(v)).graph;
      VertexEditEntries(g, prohibits, id, sibs[k], v);
      MoveFromEntries(h1, prohibits, id, sibs, v, k + 1);
      forall i | k <= i < |sibs| ensures EntryOf(g, id, sibs[i]).Some? && EntryOf(g, sibs[i], id).Some? {
        if i > k {
          assert EntryOf(h1, id, sibs[i]).Some? && EntryOf(h1, sibs[i], id).Some?;
        }
      }
      forall x, y ensures EntryOf(h, x, y) == MoveTarget(g, id, sibs, k, v, x, y) {
        ListedUnfold(sibs, k, x);
        ListedUnfold(sibs, k, y);
        assert EntryOf(h, x, y) == MoveTarget(h1, id, sibs, k + 1, v, x, y);
      }
    }
  }

  /** The move edits vertices only, so it never refuses a relation. */
  lemma {:induction false} MoveFromFaults(g: Graph, prohibits: (nat, Relation) -> bool, id: nat, sibs: seq<nat>, v: Point, k: nat)
    requires k <= |sibs|
    ensures MoveFrom(g, prohibits, id, sibs, v, k) != Err(NotSiblingRelation)
    decreases |sibs| - k
  {
    if k < |sibs| {
      var st := EditSpec(g, prohibits, id, sibs[k], NewVertex(v));
      if st.out.Pass? {
        MoveFromFaults(st.graph, prohibits, id, sibs, v, k + 1);
      }
    }
  }

  // ---------------------------------------------------------------------
  // The merge of the sibling pairs
  // ---------------------------------------------------------------------

  function Lo(x: nat, y: nat): nat {
    if x < y then x else y
  }

  function Hi(x: nat, y: nat): nat {
    if x < y then y else x
  }

  /**
   * The entry x -> y, one direction of the sibling pair (a, b), after the
   * merge: an existing pair keeps score and relation and moves to v; a
   * missing pair is added as a Sibling of score 0 at v, unless vetoed.
   */
  ghost function PairTarget(g: Graph, prohibits: (nat, Relation) -> bool, a: nat, b: nat, v: Point, x: nat, y: nat): Option<Correlation> {
    if EntryOf(g, a, b).Some? then AtVertex(EntryOf(g, x, y), v)
    else if Vetoed(prohibits, a, b, Sibling) then EntryOf(g, x, y)
    else Some(Correlation(0.0, v, Sibling))
  }

  /** The entry x -> y once the single pair (a, b) has been merged. */
  ghost function StepTarget(g: Graph, prohibits: (nat, Relation) -> bool, a: nat, b: nat, v: Point, x: nat, y: nat): Option<Correlation> {
    if (x == a && y == b) || (x == b && y == a) then PairTarget(g, prohibits, a, b, v, x, y) else EntryOf(g, x, y)
  }

  /** The pair {x, y} is a sibling pair (sibs[p], sibs[q]) visited at or after the cursor (i, j). */
  ghost predicate SibPairFrom(sibs: seq<nat>, i: nat, j: nat, x: nat, y: nat) {
    exists p: nat, q: nat :: Ahead(i, j, p, q, |sibs|) && ((x == sibs[p] && y == sibs[q]) || (x == sibs[q] && y == sibs[p]))
  }

  /** The entry x -> y after the pair loop from the cursor (i, j). */
  ghost function MergeTarget(g: Graph, prohibits: (nat, Relation) -> bool, sibs: seq<nat>, v: Point, i: nat, j: nat, x: nat, y: nat): Option<Correlation> {
    if SibPairFrom(sibs, i, j, x, y) then PairTarget(g, prohibits, Lo(x, y), Hi(x, y), v, x, y) else EntryOf(g, x, y)
  }

  /** The entry a -> b is missing or records a Sibling. */
  ghost predicate SiblingOrMissing(g: Graph, a: nat, b: nat) {
    EntryOf(g, a, b).Some? ==> EntryOf(g, a, b).value.rel == Sibling
  }

  /** Merging one pair refuses exactly an existing entry that is not a Sibling. */
  lemma MergePairRefuses(g: Graph, prohibits: (nat, Relation) -> bool, a: nat, b: nat, v: Point)
    ensures LinkPair(g, prohibits, a, b, v, true) == Err(NotSiblingRelation) <==> a in g && !SiblingOrMissing(g, a, b)
  {
  }

  /** Merging one pair of distinct siblings writes exactly the two entries of that pair. */
  lemma MergePairEntries(g: Graph, prohibits: (nat, Relation) -> bool, a: nat, b: nat, v: Point)
    requires a != b && LinkPair(g, prohibits, a, b, v, true).Ok?
    ensures var h := LinkPair(g, prohibits, a, b, v, true).value;
      && h.Keys == g.Keys
      && SiblingOrMissing(g, a, b)
      && forall x, y :: EntryOf(h, x, y) == StepTarget(g, prohibits, a, b, v, x, y)
  {
    if b in g[a] {
      VertexEditEntries(g, prohibits, a, b, v);
    }
  }

  /** The pair visited at the cursor (i, j) is not visited again after it. */
  lemma MergeStepSame(sibs: seq<nat>, i: nat, j: nat, x: nat, y: nat)
    requires i < j < |sibs| && StrictlyIncreasing(sibs)
    requires (x == sibs[i] && y == sibs[j]) || (x == sibs[j] && y == sibs[i])
    ensures SibPairFrom(sibs, i, j, x, y) && !SibPairFrom(sibs, i, j + 1, x, y)
    ensures Lo(x, y) == sibs[i] && Hi(x, y) == sibs[j]
  {
    assert Ahead(i, j, i, j, |sibs|);
    forall p: nat, q: nat | Ahead(i, j + 1, p, q, |sibs|)
      ensures !((x == sibs[p] && y == sibs[q]) || (x == sibs[q] && y == sibs[p]))
    {
      assert sibs[i] < sibs[j] && sibs[p] < sibs[q];
      assert i < p ==> sibs[i] < sibs[p];
      assert j < q ==> sibs[j] < sibs[q];
    }
  }

  /** Any other pair is still to come after the cursor (i, j) exactly when it is still to come at it. */
  lemma MergeStepOther(sibs: seq<nat>, i: nat, j: nat, x: nat, y: nat)
    requires i < j < |sibs|
    requires !((x == sibs[i] && y == sibs[j]) || (x == sibs[j] && y == sibs[i]))
    ensures SibPairFrom(sibs, i, j, x, y) <==> SibPairFrom(sibs, i, j + 1, x, y)
  {
    if SibPairFrom(sibs, i, j, x, y) {
      var p: nat, q: nat :| Ahead(i, j, p, q, |sibs|) && ((x == sibs[p] && y == sibs[q]) || (x == sibs[q] && y == sibs[p]));
      assert Ahead(i, j + 1, p, q, |sibs|);
    }
    if SibPairFrom(sibs, i, j + 1, x, y) {
      var p: nat, q: nat :| Ahead(i, j + 1, p, q, |sibs|) && ((x == sibs[p] && y == sibs[q]) || (x == sibs[q] && y == sibs[p]));
      assert Ahead(i, j, p, q, |sibs|);
    }
  }

  /** The pair (i, j) written from g to h1, then the loop from (i, j + 1) from h1 to h, amount to the loop from (i, j). */
  lemma MergeStepCombines(g: Graph, h1: Graph, h: Graph, prohibits: (nat, Relation) -> bool, sibs: seq<nat>, v: Point, i: nat, j: nat)
    requires i < j < |sibs| && StrictlyIncreasing(sibs)
    requires forall x, y :: EntryOf(h1, x, y) == StepTarget(g, prohibits, sibs[i], sibs[j], v, x, y)
    requires forall x, y :: EntryOf(h, x, y) == MergeTarget(h1, prohibits, sibs, v, i, j + 1, x, y)
    ensures forall x, y :: EntryOf(h, x, y) == MergeTarget(g, prohibits, sibs, v, i, j, x, y)
  {
    var a, b := sibs[i], sibs[j];
    forall x, y ensures EntryOf(h, x, y) == MergeTarget(g, prohibits, sibs, v, i, j, x, y) {
      assert EntryOf(h, x, y) == MergeTarget(h1, prohibits, sibs, v, i, j + 1, x, y);
      assert EntryOf(h1, x, y) == StepTarget(g, prohibits, a, b, v, x, y);
      if (x == a && y == b) || (x == b && y == a) {
        MergeStepSame(sibs, i, j, x, y);
      } else {
        MergeStepOther(sibs, i, j, x, y);
        var lo, hi := Lo(x, y), Hi(x, y);
        assert EntryOf(h1, lo, hi) == StepTarget(g, prohibits, a, b, v, lo, hi);
      }
    }
  }

  /** Moving the cursor past the end of a row changes which pairs are still to come in no way. */
  lemma NextRowSame(sibs: seq<nat>, i: nat, j: nat, x: nat, y: nat)
    requires i < |sibs| <= j
    ensures SibPairFrom(sibs, i, j, x, y) <==> SibPairFrom(sibs, i + 1, i + 2, x, y)
  {
    if SibPairFrom(sibs, i, j, x, y) {
      var p: nat, q: nat :| Ahead(i, j, p, q, |sibs|) && ((x == sibs[p] && y == sibs[q]) || (x == sibs[q] && y == sibs[p]));
      assert Ahead(i + 1, i + 2, p, q, |sibs|);
    }
    if SibPairFrom(sibs, i + 1, i + 2, x, y) {
      var p: nat, q: nat :| Ahead(i + 1, i + 2, p, q, |sibs|) && ((x == sibs[p] && y == sibs[q]) || (x == sibs[q] && y == sibs[p]));
      assert Ahead(i, j, p, q, |sibs|);
    }
  }

  /**
   * The pair loop from (i, j) changes no table's key set, needs every
   * existing pair ahead of the cursor to be a Sibling, and leaves every
   * entry as MergeTarget describes.
   */
  lemma {:induction false} LinkFromEntries(g: Graph, prohibits: (nat, Relation) -> bool, sibs: seq<nat>, v: Point, i: nat, j: nat)
    requires i < j && i <= |sibs| && j <= |sibs| + 1 && StrictlyIncreasing(sibs)
    requires LinkFrom(g, prohibits, sibs, v, true, i, j).Ok?
    ensures var h := LinkFrom(g, prohibits, sibs, v, true, i, j).value;
      && h.Keys == g.Keys
      && (forall p: nat, q: nat :: Ahead(i, j, p, q, |sibs|) ==> SiblingOrMissing(g, sibs[p], sibs[q]))
      && forall x, y :: EntryOf(h, x, y) == MergeTarget(g, prohibits, sibs, v, i, j, x, y)
    decreases |sibs| - i, |sibs| + 1 - j
  {
    var h := LinkFrom(g, prohibits, sibs, v, true, i, j).value;
    if i == |sibs| {
      forall x, y ensures !SibPairFrom(sibs, i, j, x, y) { }
    } else if j >= |sibs| {
      LinkFromEntries(g, prohibits, sibs, v, i + 1, i + 2);
      forall x, y ensures EntryOf(h, x, y) == MergeTarget(g, prohibits, sibs, v, i, j, x, y) {
        NextRowSame(sibs, i, j, x, y);
      }
      forall p: nat, q: nat | Ahead(i, j, p, q, |sibs|) ensures SiblingOrMissing(g, sibs[p], sibs[q]) {
        assert Ahead(i + 1, i + 2, p, q, |sibs|);
      }
    } else {
      var a, b := sibs[i], sibs[j];
      var h1 := LinkPair(g, prohibits, a, b, v, true).value;
      MergePairEntries(g, prohibits, a, b, v);
      LinkFromEntries(h1, prohibits, sibs, v, i, j + 1);
      MergeStepCombines(g, h1, h, prohibits, sibs, v, i, j);
      forall p: nat, q: nat | Ahead(i, j, p, q, |sibs|) ensures SiblingOrMissing(g, sibs[p], sibs[q]) {
        if p != i || q != j {
          assert Ahead(i, j + 1, p, q, |sibs|);
          assert sibs[p] < sibs[q] && a < b;
          assert EntryOf(h1, sibs[p], sibs[q]) == EntryOf(g, sibs[p], sibs[q]);
        }
      }
    }
  }

  /** Some existing sibling pair ahead of the cursor is not a Sibling. */
  ghost predicate RefusedAhead(g: Graph, sibs: seq<nat>, i: nat, j: nat) {
    exists p: nat, q: nat :: Ahead(i, j, p, q, |sibs|) && !SiblingOrMissing(g, sibs[p], sibs[q])
  }

  /** The pair loop refuses with NotSiblingRelation only on an existing non-Sibling pair still ahead of it. */
  lemma {:induction false} LinkFromRefuses(g: Graph, prohibits: (nat, Relation) -> bool, sibs: seq<nat>, v: Point, i: nat, j: nat)
    requires i < j && i <= |sibs| && j <= |sibs| + 1 && StrictlyIncreasing(sibs)
    requires LinkFrom(g, prohibits, sibs, v, true, i, j) == Err(NotSiblingRelation)
    ensures RefusedAhead(g, sibs, i, j)
    decreases |sibs| - i, |sibs| + 1 - j
  {
    if j >= |sibs| {
      LinkFromRefuses(g, prohibits, sibs, v, i + 1, i + 2);
      var p: nat, q: nat :| Ahead(i + 1, i + 2, p, q, |sibs|) && !SiblingOrMissing(g, sibs[p], sibs[q]);
      assert Ahead(i, j, p, q, |sibs|);
    } else {
      var a, b := sibs[i], sibs[j];
      MergePairRefuses(g, prohibits, a, b, v);
      if LinkPair(g, prohibits, a, b, v, true) == Err(NotSiblingRelation) {
        assert Ahead(i, j, i, j, |sibs|);
      } else {
        var h1 := LinkPair(g, prohibits, a, b, v, true).value;
        MergePairEntries(g, prohibits, a, b, v);
        LinkFromRefuses(h1, prohibits, sibs, v, i, j + 1);
        var p: nat, q: nat :| Ahead(i, j + 1, p, q, |sibs|) && !SiblingOrMissing(h1, sibs[p], sibs[q]);
        assert Ahead(i, j, p, q, |sibs|);
        assert sibs[p] < sibs[q] && a < b;
        assert EntryOf(h1, sibs[p], sibs[q]) == EntryOf(g, sibs[p], sibs[q]);
      }
    }
  }

  // ---------------------------------------------------------------------
  // The whole loose merge
  // ---------------------------------------------------------------------

  /**
   * The entry x -> y after the loose merge at v: sibling pairs as
   * PairTarget says, the node's pairs with its siblings moved to v with
   * score and relation kept, every other entry unchanged.
   */
  ghost function LooseTarget(g: Graph, prohibits: (nat, Relation) -> bool, id: nat, sibs: seq<nat>, v: Point, x: nat, y: nat): Option<Correlation> {
    if SibPairFrom(sibs, 0, 1, x, y) then PairTarget(g, prohibits, Lo(x, y), Hi(x, y), v, x, y)
    else if NodePairFrom(id, sibs, 0, x, y) then AtVertex(EntryOf(g, x, y), v)
    else EntryOf(g, x, y)
  }

  /**
   * The loose pass over siblings at different vertices, when it succeeds,
   * keeps every id, leaves every entry as LooseTarget describes, and found
   * every existing sibling pair recorded as a Sibling; it fails with
   * NotSiblingRelation only when some existing sibling pair is not one.
   */
  lemma LooseMergeExact(g: Graph, env: Env, id: nat)
    requires id in g && env.loose
    requires var sibs := PeersWith(g[id], Sibling);
      |sibs| >= 2 && !SameVertex(g[id], sibs, g[id][sibs[0]].vtx)
    ensures var sibs := PeersWith(g[id], Sibling);
      var nv := env.center(Vertices(g[id], sibs));
      SortSiblingsSpec(g, env, id).Ok? ==>
        var h := SortSiblingsSpec(g, env, id).value;
        && h.Keys == g.Keys
        && (forall p: nat, q: nat :: 0 <= p < q < |sibs| ==> SiblingOrMissing(g, sibs[p], sibs[q]))
        && forall x, y :: EntryOf(h, x, y) == LooseTarget(g, env.prohibits, id, sibs, nv, x, y)
    ensures var sibs := PeersWith(g[id], Sibling);
      SortSiblingsSpec(g, env, id) == Err(NotSiblingRelation) ==>
        exists p: nat, q: nat :: 0 <= p < q < |sibs| && !SiblingOrMissing(g, sibs[p], sibs[q])
  {
    var sibs := PeersWith(g[id], Sibling);
    var nv := env.center(Vertices(g[id], sibs));
    LooseMergeUnfolds(g, env, id);
    MoveFromFaults(g, env.prohibits, id, sibs, nv, 0);
    var mv := MoveFrom(g, env.prohibits, id, sibs, nv, 0);
    if mv.Ok? {
      var hm := mv.value;
      MoveFromEntries(g, env.prohibits, id, sibs, nv, 0);
      LooseMergeRelations(g, hm, id, sibs, nv);
      if SortSiblingsSpec(g, env, id).Ok? {
        var h := SortSiblingsSpec(g, env, id).value;
        LinkFromEntries(hm, env.prohibits, sibs, nv, 0, 1);
        forall p: nat, q: nat | 0 <= p < q < |sibs| ensures SiblingOrMissing(g, sibs[p], sibs[q]) {
          assert Ahead(0, 1, p, q, |sibs|);
        }
        LooseMergeCombines(g, hm, h, env.prohibits, id, sibs, nv);
      } else if SortSiblingsSpec(g, env, id) == Err(NotSiblingRelation) {
        LinkFromRefuses(hm, env.prohibits, sibs, nv, 0, 1);
        var p: nat, q: nat :| Ahead(0, 1, p, q, |sibs|) && !SiblingOrMissing(hm, sibs[p], sibs[q]);
        assert !SiblingOrMissing(g, sibs[p], sibs[q]);
      }
    }
  }

  /** The move keeps the relation of every entry, and which entries exist. */
  lemma LooseMergeRelations(g: Graph, hm: Graph, id: nat, sibs: seq<nat>, v: Point)
    requires forall x, y :: EntryOf(hm, x, y) == MoveTarget(g, id, sibs, 0, v, x, y)
    ensures forall a, b :: SiblingOrMissing(hm, a, b) <==> SiblingOrMissing(g, a, b)
  {
    forall a, b ensures SiblingOrMissing(hm, a, b) <==> SiblingOrMissing(g, a, b) {
      assert EntryOf(hm, a, b) == MoveTarget(g, id, sibs, 0, v, a, b);
    }
  }

  /** The move followed by the pair loop leaves every entry as LooseTarget describes. */
  lemma LooseMergeCombines(g: Graph, hm: Graph, h: Graph, prohibits: (nat, Relation) -> bool, id: nat, sibs: seq<nat>, v: Point)
    requires forall i :: 0 <= i < |sibs| ==> EntryOf(g, id, sibs[i]).Some? && EntryOf(g, sibs[i], id).Some?
    requires forall x, y :: EntryOf(hm, x, y) == MoveTarget(g, id, sibs, 0, v, x, y)
    requires forall x, y :: EntryOf(h, x, y) == MergeTarget(hm, prohibits, sibs, v, 0, 1, x, y)
    ensures forall x, y :: EntryOf(h, x, y) == LooseTarget(g, prohibits, id, sibs, v, x, y)
  {
    forall x, y ensures EntryOf(h, x, y) == LooseTarget(g, prohibits, id, sibs, v, x, y) {
      if SibPairFrom(sibs, 0, 1, x, y) {
        var a, b := Lo(x, y), Hi(x, y);
        assert EntryOf(hm, a, b) == MoveTarget(g, id, sibs, 0, v, a, b);
        assert EntryOf(hm, x, y) == MoveTarget(g, id, sibs, 0, v, x, y);
        if NodePairFrom(id, sibs, 0, x, y) {
          var i :| 0 <= i < |sibs| && (sibs[i] == x || sibs[i] == y);
          assert EntryOf(g, a, b).Some?;
        }
      }
    }
  }
}
