/**
 * What SortSiblings guarantees (GeoGraph/Manager.cxx:437-538): the strict
 * mode keeps only the first sibling with the strictly highest positive
 * score; the loose mode moves every sibling correlation to one merged
 * vertex without losing a correlation, or, when the siblings already agree,
 * re-creates every sibling pair as a fresh Sibling correlation.
 */
module GeoSortFacts {
  import opened Faults
  import opened GeoNode
  import opened GeoRegistry
  import opened GeoEdits
  import opened GeoPasses
  import opened GeoPassFacts

  /** A node with at most one sibling is left alone, and so is one whose siblings share a vertex in the strict mode. */
  lemma SortSiblingsQuiet(g: Graph, env: Env, id: nat)
    requires id in g
    ensures !SeveralPeers(g[id], Sibling) ==> SortSiblingsSpec(g, env, id) == Ok(g)
    ensures var sibs := PeersWith(g[id], Sibling);
      |sibs| >= 2 && !env.loose && SameVertex(g[id], sibs, g[id][sibs[0]].vtx) ==> SortSiblingsSpec(g, env, id) == Ok(g)
  {
    PeerCount(g[id], Sibling);
  }

  // ---------------------------------------------------------------------
  // The strict mode: the best sibling
  // ---------------------------------------------------------------------

  /** Position b holds the first strictly highest score among the positions from k on. */
  ghost predicate FirstMax(m: CorrMap, sibs: seq<nat>, k: nat, b: nat)
    requires k <= b < |sibs|
  {
    && (forall i :: k <= i < b ==> GetScore(m, sibs[i]) < GetScore(m, sibs[b]))
    && (forall i :: b < i < |sibs| ==> GetScore(m, sibs[i]) <= GetScore(m, sibs[b]))
  }

  /**
   * The running maximum keeps its current choice when no later score beats
   * the current top, and otherwise picks the first strictly highest one.
   */
  lemma {:induction false} BestFromChoice(m: CorrMap, sibs: seq<nat>, k: nat, top: real, best: Option<nat>)
    requires k <= |sibs|
    ensures (forall i :: k <= i < |sibs| ==> GetScore(m, sibs[i]) <= top) ==> BestFrom(m, sibs, k, top, best) == best
    ensures (exists i :: k <= i < |sibs| && GetScore(m, sibs[i]) > top) ==>
      exists b :: k <= b < |sibs| && GetScore(m, sibs[b]) > top && FirstMax(m, sibs, k, b)
                  && BestFrom(m, sibs, k, top, best) == Some(sibs[b])
    decreases |sibs| - k
  {
    if k < |sibs| {
      var s := GetScore(m, sibs[k]);
      if s > top {
        BestFromChoice(m, sibs, k + 1, s, Some(sibs[k]));
        if exists i :: k + 1 <= i < |sibs| && GetScore(m, sibs[i]) > s {
          var b :| k + 1 <= b < |sibs| && GetScore(m, sibs[b]) > s && FirstMax(m, sibs, k + 1, b)
                   && BestFrom(m, sibs, k + 1, s, Some(sibs[k])) == Some(sibs[b]);
          assert FirstMax(m, sibs, k, b);
        } else {
          assert FirstMax(m, sibs, k, k);
        }
      } else {
        BestFromChoice(m, sibs, k + 1, top, best);
        if exists i :: k <= i < |sibs| && GetScore(m, sibs[i]) > top {
          var i :| k <= i < |sibs| && GetScore(m, sibs[i]) > top;
          assert k + 1 <= i;
          var b :| k + 1 <= b < |sibs| && GetScore(m, sibs[b]) > top && FirstMax(m, sibs, k + 1, b)
                   && BestFrom(m, sibs, k + 1, top, best) == Some(sibs[b]);
          assert FirstMax(m, sibs, k, b);
        }
      }
    }
  }

  /**
   * The strict mode keeps no sibling when no score is positive, and
   * otherwise the first sibling whose score is strictly the highest.
   */
  lemma BestSiblingChoice(m: CorrMap, sibs: seq<nat>)
    ensures BestSibling(m, sibs).None? <==> forall i :: 0 <= i < |sibs| ==> GetScore(m, sibs[i]) <= 0.0
    ensures BestSibling(m, sibs).Some? ==>
      exists b :: 0 <= b < |sibs| && BestSibling(m, sibs) == Some(sibs[b]) && GetScore(m, sibs[b]) > 0.0 && FirstMax(m, sibs, 0, b)
  {
    BestFromChoice(m, sibs, 0, 0.0, None);
  }

  /** Scores 2, 9 and 4 keep the second sibling; a tie keeps the earlier one; no positive score keeps none. */
  lemma BestSiblingExamples()
    ensures BestSibling(map[3 := Correlation(2.0, Origin, Sibling), 5 := Correlation(9.0, Origin, Sibling),
                            8 := Correlation(4.0, Origin, Sibling)], [3, 5, 8]) == Some(5)
    ensures BestSibling(map[3 := Correlation(4.0, Origin, Sibling), 5 := Correlation(4.0, Origin, Sibling)], [3, 5]) == Some(3)
    ensures BestSibling(map[3 := Correlation(0.0, Origin, Sibling), 5 := Correlation(-2.0, Origin, Sibling)], [3, 5]) == None
  {
    var m1 := map[3 := Correlation(2.0, Origin, Sibling), 5 := Correlation(9.0, Origin, Sibling), 8 := Correlation(4.0, Origin, Sibling)];
    assert GetScore(m1, 3) == 2.0 && GetScore(m1, 5) == 9.0 && GetScore(m1, 8) == 4.0;
    var m2 := map[3 := Correlation(4.0, Origin, Sibling), 5 := Correlation(4.0, Origin, Sibling)];
    assert GetScore(m2, 3) == 4.0 && GetScore(m2, 5) == 4.0;
    var m3 := map[3 := Correlation(0.0, Origin, Sibling), 5 := Correlation(-2.0, Origin, Sibling)];
    assert GetScore(m3, 3) == 0.0 && GetScore(m3, 5) == -2.0;
  }

  /** The pair (a, b) is recorded in neither direction. */
  ghost predicate Unlinked(h: Graph, a: nat, b: nat) {
    (a in h ==> b !in h[a]) && (b in h ==> a !in h[b])
  }

  /** Sibling s is listed at position k or later and is not the kept one. */
  ghost predicate DropListed(sibs: seq<nat>, keep: Option<nat>, k: nat, s: nat) {
    keep != Some(s) && exists i :: k <= i < |sibs| && sibs[i] == s
  }

  /** The pair {x, y} joins `id` with a sibling the drop loop erases from position k on. */
  ghost predicate Dropped(id: nat, sibs: seq<nat>, keep: Option<nat>, k: nat, x: nat, y: nat) {
    (x == id && DropListed(sibs, keep, k, y)) || (y == id && DropListed(sibs, keep, k, x))
  }

  lemma DropListedUnfold(sibs: seq<nat>, keep: Option<nat>, k: nat, s: nat)
    requires k < |sibs|
    ensures DropListed(sibs, keep, k, s) <==> (keep != Some(s) && sibs[k] == s) || DropListed(sibs, keep, k + 1, s)
  {
    if DropListed(sibs, keep, k, s) {
      var i :| k <= i < |sibs| && sibs[i] == s;
      if i > k {
        assert DropListed(sibs, keep, k + 1, s);
      }
    }
  }

  /**
   * Dropping erases the pair (id, s) of every sibling from position k on
   * except the kept one, and every other correlation stays.
   */
  lemma {:induction false} DropFromFacts(g: Graph, id: nat, sibs: seq<nat>, keep: Option<nat>, k: nat)
    requires k <= |sibs|
    ensures DropFrom(g, id, sibs, keep, k).Ok? ==>
      var h := DropFrom(g, id, sibs, keep, k).value;
      && Shrinks(g, h)
      && (forall i :: k <= i < |sibs| && keep != Some(sibs[i]) ==> Unlinked(h, id, sibs[i]))
      && (keep.Some? && id in g && keep.value in g[id] ==> keep.value in h[id])
      && (forall x, y :: x in g && y in g[x] ==> (y in h[x] <==> !Dropped(id, sibs, keep, k, x, y)))
    decreases |sibs| - k
  {
    if k < |sibs| && DropFrom(g, id, sibs, keep, k).Ok? {
      var h := DropFrom(g, id, sibs, keep, k).value;
      var h1 := DropUnfolds(g, id, sibs, keep, k);
      DropFromFacts(h1, id, sibs, keep, k + 1);
      ShrinksTransitive(g, h1, h);
      forall i | k <= i < |sibs| && keep != Some(sibs[i]) ensures Unlinked(h, id, sibs[i]) {
        if i == k {
          UnlinkedStays(h1, h, id, sibs[k]);
        }
      }
      forall x, y | x in g && y in g[x]
        ensures y in h[x] <==> !Dropped(id, sibs, keep, k, x, y)
      {
        DropListedUnfold(sibs, keep, k, x);
        DropListedUnfold(sibs, keep, k, y);
      }
    }
  }

  /** A pair missing from a graph stays missing from any graph that shrinks it. */
  lemma UnlinkedStays(g: Graph, h: Graph, a: nat, b: nat)
    requires Unlinked(g, a, b) && Shrinks(g, h)
    ensures Unlinked(h, a, b)
  {
  }

  /** One step of the drop loop: the graph h1 after sibling k, already unlinked from `id` unless kept. */
  lemma DropUnfolds(g: Graph, id: nat, sibs: seq<nat>, keep: Option<nat>, k: nat) returns (h1: Graph)
    requires k < |sibs| && DropFrom(g, id, sibs, keep, k).Ok?
    ensures Shrinks(g, h1)
    ensures DropFrom(g, id, sibs, keep, k) == DropFrom(h1, id, sibs, keep, k + 1)
    ensures keep != Some(sibs[k]) ==> Unlinked(h1, id, sibs[k])
    ensures keep.Some? && id in g && keep.value in g[id] ==> keep.value in h1[id]
    ensures forall x, y :: x in g && y in g[x] ==>
      (y in h1[x] <==> !(keep != Some(sibs[k]) && ((x == id && y == sibs[k]) || (y == id && x == sibs[k]))))
  {
    if keep == Some(sibs[k]) {
      h1 := g;
    } else {
      h1 := EraseSpec(g, id, sibs[k]).value;
      EraseShrinks(g, id, sibs[k]);
      EraseOutcome(g, id, sibs[k]);
    }
  }

  /**
   * In the strict mode, among several siblings at different vertices only
   * the best one stays correlated with the node; the pass only erases.
   */
  lemma StrictSortKeepsBest(g: Graph, env: Env, id: nat)
    requires id in g && !env.loose
    requires SortSiblingsSpec(g, env, id).Ok?
    ensures Shrinks(g, SortSiblingsSpec(g, env, id).value)
    ensures var h := SortSiblingsSpec(g, env, id).value;
      var sibs := PeersWith(g[id], Sibling);
      var best := BestSibling(g[id], sibs);
      |sibs| >= 2 && !SameVertex(g[id], sibs, g[id][sibs[0]].vtx) ==>
        && (forall s: nat :: IsPeer(g[id], s, Sibling) && best != Some(s) ==> Unlinked(h, id, s))
        && (best.Some? ==> IsPeer(h[id], best.value, Sibling))
        && (forall x, y :: x in g && y in g[x] ==>
              (y in h[x] <==> !RivalPair(g[id], best, id, x, y)))
  {
    PeerCount(g[id], Sibling);
    var sibs := PeersWith(g[id], Sibling);
    if |sibs| >= 2 && !SameVertex(g[id], sibs, g[id][sibs[0]].vtx) {
      var best := BestSibling(g[id], sibs);
      DropFromFacts(g, id, sibs, best, 0);
      BestSiblingChoice(g[id], sibs);
      var h := SortSiblingsSpec(g, env, id).value;
      forall s: nat | IsPeer(g[id], s, Sibling) && best != Some(s)
        ensures Unlinked(h, id, s)
      {
        var i :| 0 <= i < |sibs| && sibs[i] == s;
      }
      if best.Some? {
        var b :| 0 <= b < |sibs| && best == Some(sibs[b]);
        assert IsPeer(g[id], sibs[b], Sibling);
        assert h[id][sibs[b]] == g[id][sibs[b]];
      }
      RivalsAreDropped(g, h, id, sibs, best);
    }
  }

  /** Over the node's own siblings, the pairs the drop loop erases are exactly those of the rival siblings. */
  lemma RivalsAreDropped(g: Graph, h: Graph, id: nat, sibs: seq<nat>, best: Option<nat>)
    requires id in g && sibs == PeersWith(g[id], Sibling) && h.Keys == g.Keys
    requires forall x, y :: x in g && y in g[x] ==> (y in h[x] <==> !Dropped(id, sibs, best, 0, x, y))
    ensures forall x, y :: x in g && y in g[x] ==>
      (y in h[x] <==> !RivalPair(g[id], best, id, x, y))
  {
    forall x, y | x in g && y in g[x]
      ensures y in h[x] <==> !RivalPair(g[id], best, id, x, y)
    {
      RivalIsListed(g[id], sibs, best, x);
      RivalIsListed(g[id], sibs, best, y);
    }
  }

  lemma RivalIsListed(m: CorrMap, sibs: seq<nat>, best: Option<nat>, s: nat)
    requires sibs == PeersWith(m, Sibling)
    ensures RivalSibling(m, best, s) <==> DropListed(sibs, best, 0, s)
  {
    if RivalSibling(m, best, s) {
      var i :| 0 <= i < |sibs| && sibs[i] == s;
    }
  }

  /** s is a sibling of the node other than the best-scored one. */
  ghost predicate RivalSibling(m: CorrMap, best: Option<nat>, s: nat) {
    IsPeer(m, s, Sibling) && best != Some(s)
  }

  /** The pair {x, y} joins node `id`, whose table is m, with one of its rival siblings. */
  ghost predicate RivalPair(m: CorrMap, best: Option<nat>, id: nat, x: nat, y: nat) {
    (x == id && RivalSibling(m, best, y)) || (y == id && RivalSibling(m, best, x))
  }

  // ---------------------------------------------------------------------
  // The loose mode, siblings at different vertices: the merge
  // ---------------------------------------------------------------------

  /** Both directions of the pair (a, b) are recorded, at vertex v. */
  ghost predicate Aligned(h: Graph, a: nat, b: nat, v: Point) {
    a in h && b in h && b in h[a] && a in h[b] && h[a][b].vtx == v && h[b][a].vtx == v
  }

  /** The entry x -> y of g is still in h, and still at v if it was at v. */
  ghost predicate StillAt(g: Graph, h: Graph, v: Point, x: nat, y: nat) {
    x in g && y in g[x] ==> x in h && y in h[x] && (g[x][y].vtx == v ==> h[x][y].vtx == v)
  }

  /** No correlation of g is lost in h, and none at vertex v moves away from it. */
  ghost predicate KeepsAt(g: Graph, h: Graph, v: Point) {
    h.Keys == g.Keys && forall x, y :: StillAt(g, h, v, x, y)
  }

  lemma KeepsAtReflexive(g: Graph, v: Point)
    ensures KeepsAt(g, g, v)
  {
    forall x, y ensures StillAt(g, g, v, x, y) { }
  }

  lemma KeepsAtTransitive(g: Graph, h1: Graph, h2: Graph, v: Point)
    requires KeepsAt(g, h1, v) && KeepsAt(h1, h2, v)
    ensures KeepsAt(g, h2, v)
  {
    forall x, y ensures StillAt(g, h2, v, x, y) {
      assert StillAt(g, h1, v, x, y);
      assert StillAt(h1, h2, v, x, y);
    }
  }

  lemma AlignedKept(g: Graph, h: Graph, a: nat, b: nat, v: Point)
    requires KeepsAt(g, h, v) && Aligned(g, a, b, v)
    ensures Aligned(h, a, b, v)
  {
    assert StillAt(g, h, v, a, b);
    assert StillAt(g, h, v, b, a);
  }

  /** A vertex-only edit that succeeds moves both directions of its pair to v and loses nothing. */
  lemma VertexEditAligns(g: Graph, prohibits: (nat, Relation) -> bool, a: nat, b: nat, v: Point)
    requires EditSpec(g, prohibits, a, b, NewVertex(v)).out.Pass?
    ensures KeepsAt(g, EditSpec(g, prohibits, a, b, NewVertex(v)).graph, v)
    ensures Aligned(EditSpec(g, prohibits, a, b, NewVertex(v)).graph, a, b, v)
  {
    var h := EditSpec(g, prohibits, a, b, NewVertex(v)).graph;
    forall x, y ensures StillAt(g, h, v, x, y) { }
  }

  /** The merge settles the pair (a, b) unless the pair is missing and adding it is vetoed. */
  ghost predicate Due(g: Graph, prohibits: (nat, Relation) -> bool, a: nat, b: nat) {
    !Vetoed(prohibits, a, b, Sibling) || (a in g && b in g[a])
  }

  lemma DueKept(g: Graph, h: Graph, prohibits: (nat, Relation) -> bool, a: nat, b: nat, v: Point)
    requires KeepsAt(g, h, v) && Due(g, prohibits, a, b)
    ensures Due(h, prohibits, a, b)
  {
    assert StillAt(g, h, v, a, b);
  }

  /** Merging one pair loses nothing and leaves the pair at v whenever it is due. */
  lemma MergePairAligns(g: Graph, prohibits: (nat, Relation) -> bool, a: nat, b: nat, v: Point)
    requires LinkPair(g, prohibits, a, b, v, true).Ok?
    ensures KeepsAt(g, LinkPair(g, prohibits, a, b, v, true).value, v)
    ensures Due(g, prohibits, a, b) ==> Aligned(LinkPair(g, prohibits, a, b, v, true).value, a, b, v)
  {
    var h := LinkPair(g, prohibits, a, b, v, true).value;
    if b in g[a] {
      VertexEditAligns(g, prohibits, a, b, v);
    } else if Vetoed(prohibits, a, b, Sibling) {
      KeepsAtReflexive(g, v);
    } else {
      forall x, y ensures StillAt(g, h, v, x, y) { }
    }
  }

  /** The pair (p, q), p < q, is visited by the pair loop at or after the cursor (i, j). */
  predicate Ahead(i: nat, j: nat, p: nat, q: nat, n: nat) {
    p < q < n && (i < p || (i == p && j <= q))
  }

  /** A due pair ahead of the cursor in g ends aligned at v in h. */
  ghost predicate MergedFrom(g: Graph, h: Graph, prohibits: (nat, Relation) -> bool, sibs: seq<nat>, v: Point,
                             i: nat, j: nat, p: nat, q: nat) {
    Ahead(i, j, p, q, |sibs|) && Due(g, prohibits, sibs[p], sibs[q]) ==> Aligned(h, sibs[p], sibs[q], v)
  }

  lemma {:induction false} LinkFromMerges(g: Graph, prohibits: (nat, Relation) -> bool, sibs: seq<nat>, v: Point, i: nat, j: nat)
    requires i <= |sibs| && j <= |sibs| + 1
    requires LinkFrom(g, prohibits, sibs, v, true, i, j).Ok?
    ensures KeepsAt(g, LinkFrom(g, prohibits, sibs, v, true, i, j).value, v)
    ensures forall p: nat, q: nat :: MergedFrom(g, LinkFrom(g, prohibits, sibs, v, true, i, j).value, prohibits, sibs, v, i, j, p, q)
    decreases |sibs| - i, |sibs| + 1 - j
  {
    var h := LinkFrom(g, prohibits, sibs, v, true, i, j).value;
    if i == |sibs| {
      KeepsAtReflexive(g, v);
      forall p: nat, q: nat ensures MergedFrom(g, h, prohibits, sibs, v, i, j, p, q) { }
    } else if j >= |sibs| {
      LinkFromMerges(g, prohibits, sibs, v, i + 1, i + 2);
      forall p: nat, q: nat ensures MergedFrom(g, h, prohibits, sibs, v, i, j, p, q) {
        assert MergedFrom(g, h, prohibits, sibs, v, i + 1, i + 2, p, q);
      }
    } else {
      var h1 := LinkPair(g, prohibits, sibs[i], sibs[j], v, true).value;
      MergePairAligns(g, prohibits, sibs[i], sibs[j], v);
      LinkFromMerges(h1, prohibits, sibs, v, i, j + 1);
      KeepsAtTransitive(g, h1, h, v);
      forall p: nat, q: nat ensures MergedFrom(g, h, prohibits, sibs, v, i, j, p, q) {
        if Ahead(i, j, p, q, |sibs|) && Due(g, prohibits, sibs[p], sibs[q]) {
          if p == i && q == j {
            AlignedKept(h1, h, sibs[i], sibs[j], v);
          } else {
            DueKept(g, h1, prohibits, sibs[p], sibs[q], v);
            assert MergedFrom(h1, h, prohibits, sibs, v, i, j + 1, p, q);
          }
        }
      }
    }
  }

  lemma {:induction false} MoveFromAligns(g: Graph, prohibits: (nat, Relation) -> bool, id: nat, sibs: seq<nat>, v: Point, k: nat)
    requires k <= |sibs|
    requires MoveFrom(g, prohibits, id, sibs, v, k).Ok?
    ensures KeepsAt(g, MoveFrom(g, prohibits, id, sibs, v, k).value, v)
    ensures forall i :: k <= i < |sibs| ==> Aligned(MoveFrom(g, prohibits, id, sibs, v, k).value, id, sibs[i], v)
    decreases |sibs| - k
  {
    var h := MoveFrom(g, prohibits, id, sibs, v, k).value;
    if k == |sibs| {
      KeepsAtReflexive(g, v);
    } else {
      var st := EditSpec(g, prohibits, id, sibs[k], NewVertex(v));
      VertexEditAligns(g, prohibits, id, sibs[k], v);
      MoveFromAligns(st.graph, prohibits, id, sibs, v, k + 1);
      KeepsAtTransitive(g, st.graph, h, v);
      AlignedKept(st.graph, h, id, sibs[k], v);
    }
  }

  /** The loose merge at different vertices is the move to the centre followed by the pair loop. */
  lemma LooseMergeUnfolds(g: Graph, env: Env, id: nat)
    requires id in g && env.loose
    requires var sibs := PeersWith(g[id], Sibling);
      |sibs| >= 2 && !SameVertex(g[id], sibs, g[id][sibs[0]].vtx)
    ensures var sibs := PeersWith(g[id], Sibling);
      var nv := env.center(Vertices(g[id], sibs));
      SortSiblingsSpec(g, env, id) ==
        (var hm :- MoveFrom(g, env.prohibits, id, sibs, nv, 0); LinkFrom(hm, env.prohibits, sibs, nv, true, 0, 1))
  {
    PeerCount(g[id], Sibling);
  }

  /**
   * The loose merge of siblings at different vertices loses no correlation,
   * leaves the node's correlation with every sibling (both directions) at
   * the merged vertex, and every sibling pair that existed or could be
   * added at that vertex too.
   */
  lemma LooseMergeAligns(g: Graph, env: Env, id: nat)
    requires id in g && env.loose
    requires var sibs := PeersWith(g[id], Sibling);
      |sibs| >= 2 && !SameVertex(g[id], sibs, g[id][sibs[0]].vtx)
    requires SortSiblingsSpec(g, env, id).Ok?
    ensures var sibs := PeersWith(g[id], Sibling);
      var nv := env.center(Vertices(g[id], sibs));
      var h := SortSiblingsSpec(g, env, id).value;
      && KeepsAt(g, h, nv)
      && (forall s: nat :: IsPeer(g[id], s, Sibling) ==> Aligned(h, id, s, nv))
      && (forall p, q :: 0 <= p < q < |sibs| && Due(g, env.prohibits, sibs[p], sibs[q]) ==> Aligned(h, sibs[p], sibs[q], nv))
  {
    var sibs := PeersWith(g[id], Sibling);
    var nv := env.center(Vertices(g[id], sibs));
    LooseMergeUnfolds(g, env, id);
    var hm := MoveFrom(g, env.prohibits, id, sibs, nv, 0).value;
    MoveFromAligns(g, env.prohibits, id, sibs, nv, 0);
    LinkFromMerges(hm, env.prohibits, sibs, nv, 0, 1);
    var h := LinkFrom(hm, env.prohibits, sibs, nv, true, 0, 1).value;
    KeepsAtTransitive(g, hm, h, nv);
    forall s: nat | IsPeer(g[id], s, Sibling) ensures Aligned(h, id, s, nv) {
      var i :| 0 <= i < |sibs| && sibs[i] == s;
      AlignedKept(hm, h, id, s, nv);
    }
    forall p: nat, q: nat | 0 <= p < q < |sibs| && Due(g, env.prohibits, sibs[p], sibs[q])
      ensures Aligned(h, sibs[p], sibs[q], nv)
    {
      DueKept(g, hm, env.prohibits, sibs[p], sibs[q], nv);
      assert MergedFrom(hm, h, env.prohibits, sibs, nv, 0, 1, p, q);
    }
  }

  // ---------------------------------------------------------------------
  // The loose mode, siblings at one vertex: every pair re-created
  // ---------------------------------------------------------------------

  /** The entry x holds for y, if any. */
  ghost function EntryOf(h: Graph, x: nat, y: nat): Option<Correlation> {
    if x in h && y in h[x] then Some(h[x][y]) else None
  }

  /**
   * The pair (a, b) after re-creation: a fresh Sibling correlation of score
   * 0 at v in both directions, or, when the addition is vetoed, no entry of
   * a for b (the old one was erased first).
   */
  ghost predicate Recreated(h: Graph, prohibits: (nat, Relation) -> bool, a: nat, b: nat, v: Point) {
    if Vetoed(prohibits, a, b, Sibling) then EntryOf(h, a, b) == None
    else EntryOf(h, a, b) == Some(Correlation(0.0, v, Sibling)) && EntryOf(h, b, a) == Some(Correlation(0.0, v, Sibling))
  }

  /** Re-creating one pair of distinct nodes touches only the two entries of that pair. */
  lemma RecreatePair(g: Graph, prohibits: (nat, Relation) -> bool, a: nat, b: nat, v: Point)
    requires a != b
    requires LinkPair(g, prohibits, a, b, v, false).Ok?
    ensures LinkPair(g, prohibits, a, b, v, false).value.Keys == g.Keys
    ensures Recreated(LinkPair(g, prohibits, a, b, v, false).value, prohibits, a, b, v)
    ensures forall x, y :: !((x == a && y == b) || (x == b && y == a)) ==>
      EntryOf(LinkPair(g, prohibits, a, b, v, false).value, x, y) == EntryOf(g, x, y)
  {
  }

  /** Re-created pairs ahead of the cursor; pairs behind it keep their entries. */
  ghost predicate RecreatedFrom(h: Graph, prohibits: (nat, Relation) -> bool, sibs: seq<nat>, v: Point, i: nat, j: nat, p: nat, q: nat) {
    Ahead(i, j, p, q, |sibs|) ==> Recreated(h, prohibits, sibs[p], sibs[q], v)
  }

  ghost predicate BehindKept(g: Graph, h: Graph, sibs: seq<nat>, i: nat, j: nat, p: nat, q: nat) {
    p < q < |sibs| && !Ahead(i, j, p, q, |sibs|) ==>
      EntryOf(h, sibs[p], sibs[q]) == EntryOf(g, sibs[p], sibs[q]) && EntryOf(h, sibs[q], sibs[p]) == EntryOf(g, sibs[q], sibs[p])
  }

  lemma {:induction false} LinkFromRecreates(g: Graph, prohibits: (nat, Relation) -> bool, sibs: seq<nat>, v: Point, i: nat, j: nat)
    requires i < j && i <= |sibs| && j <= |sibs| + 1 && StrictlyIncreasing(sibs)
    requires LinkFrom(g, prohibits, sibs, v, false, i, j).Ok?
    ensures LinkFrom(g, prohibits, sibs, v, false, i, j).value.Keys == g.Keys
    ensures forall p: nat, q: nat :: RecreatedFrom(LinkFrom(g, prohibits, sibs, v, false, i, j).value, prohibits, sibs, v, i, j, p, q)
    ensures forall p: nat, q: nat :: BehindKept(g, LinkFrom(g, prohibits, sibs, v, false, i, j).value, sibs, i, j, p, q)
    ensures forall x, y :: x !in sibs || y !in sibs ==>
      EntryOf(LinkFrom(g, prohibits, sibs, v, false, i, j).value, x, y) == EntryOf(g, x, y)
    decreases |sibs| - i, |sibs| + 1 - j
  {
    var h := LinkFrom(g, prohibits, sibs, v, false, i, j).value;
    if i == |sibs| {
      forall p: nat, q: nat ensures RecreatedFrom(h, prohibits, sibs, v, i, j, p, q) { }
      forall p: nat, q: nat ensures BehindKept(g, h, sibs, i, j, p, q) { }
    } else if j >= |sibs| {
      LinkFromRecreates(g, prohibits, sibs, v, i + 1, i + 2);
      forall p: nat, q: nat ensures RecreatedFrom(h, prohibits, sibs, v, i, j, p, q) {
        assert RecreatedFrom(h, prohibits, sibs, v, i + 1, i + 2, p, q);
      }
      forall p: nat, q: nat ensures BehindKept(g, h, sibs, i, j, p, q) {
        assert BehindKept(g, h, sibs, i + 1, i + 2, p, q);
      }
    } else {
      var h1 := LinkPair(g, prohibits, sibs[i], sibs[j], v, false).value;
      RecreatePair(g, prohibits, sibs[i], sibs[j], v);
      LinkFromRecreates(h1, prohibits, sibs, v, i, j + 1);
      RecreateStepCombines(g, h1, h, prohibits, sibs, v, i, j, j + 1);
    }
  }

  /** The pair (i, j) re-created from g to h1, then the rest of the walk from h1 to h, amount to the walk from g to h. */
  lemma RecreateStepCombines(g: Graph, h1: Graph, h: Graph, prohibits: (nat, Relation) -> bool, sibs: seq<nat>, v: Point, i: nat, j: nat, next: nat)
    requires i < j < |sibs| && next == j + 1 && StrictlyIncreasing(sibs)
    requires h1.Keys == g.Keys && Recreated(h1, prohibits, sibs[i], sibs[j], v)
    requires forall x, y :: !((x == sibs[i] && y == sibs[j]) || (x == sibs[j] && y == sibs[i])) ==>
      EntryOf(h1, x, y) == EntryOf(g, x, y)
    requires h.Keys == h1.Keys
    requires forall p: nat, q: nat :: RecreatedFrom(h, prohibits, sibs, v, i, next, p, q)
    requires forall p: nat, q: nat :: BehindKept(h1, h, sibs, i, next, p, q)
    requires forall x, y :: x !in sibs || y !in sibs ==> EntryOf(h, x, y) == EntryOf(h1, x, y)
    ensures h.Keys == g.Keys
    ensures forall p: nat, q: nat :: RecreatedFrom(h, prohibits, sibs, v, i, j, p, q)
    ensures forall p: nat, q: nat :: BehindKept(g, h, sibs, i, j, p, q)
    ensures forall x, y :: x !in sibs || y !in sibs ==> EntryOf(h, x, y) == EntryOf(g, x, y)
  {
    var a, b := sibs[i], sibs[j];
    forall p: nat, q: nat ensures RecreatedFrom(h, prohibits, sibs, v, i, j, p, q) {
      if p == i && q == j {
        assert BehindKept(h1, h, sibs, i, j + 1, p, q);
      } else {
        assert RecreatedFrom(h, prohibits, sibs, v, i, j + 1, p, q);
      }
    }
    forall p: nat, q: nat ensures BehindKept(g, h, sibs, i, j, p, q) {
      if p < q < |sibs| && !Ahead(i, j, p, q, |sibs|) {
        assert BehindKept(h1, h, sibs, i, j + 1, p, q);
        assert sibs[p] < sibs[q] && a < b;
        assert sibs[p] != a || sibs[q] != b;
      }
    }
    forall x, y | x !in sibs || y !in sibs ensures EntryOf(h, x, y) == EntryOf(g, x, y) {
      assert EntryOf(h1, x, y) == EntryOf(g, x, y);
    }
  }

  /**
   * The loose pass over siblings that already share a vertex re-creates
   * every sibling pair at that vertex with score 0 (or leaves it erased when
   * vetoed), and changes no entry that is not between two siblings.
   */
  lemma LooseRecreates(g: Graph, env: Env, id: nat)
    requires id in g && env.loose
    requires var sibs := PeersWith(g[id], Sibling);
      |sibs| >= 2 && SameVertex(g[id], sibs, g[id][sibs[0]].vtx)
    requires SortSiblingsSpec(g, env, id).Ok?
    ensures var sibs := PeersWith(g[id], Sibling);
      var h := SortSiblingsSpec(g, env, id).value;
      && h.Keys == g.Keys
      && (forall p, q :: 0 <= p < q < |sibs| ==> Recreated(h, env.prohibits, sibs[p], sibs[q], g[id][sibs[0]].vtx))
      && (forall x, y :: x !in sibs || y !in sibs ==> EntryOf(h, x, y) == EntryOf(g, x, y))
  {
    PeerCount(g[id], Sibling);
    var sibs := PeersWith(g[id], Sibling);
    var v1 := g[id][sibs[0]].vtx;
    LinkFromRecreates(g, env.prohibits, sibs, v1, 0, 1);
    var h := SortSiblingsSpec(g, env, id).value;
    forall p: nat, q: nat | 0 <= p < q < |sibs| ensures Recreated(h, env.prohibits, sibs[p], sibs[q], v1) {
      assert RecreatedFrom(h, env.prohibits, sibs, v1, 0, 1, p, q);
    }
  }
}
