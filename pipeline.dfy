/**
 * ResolveSiblingsWithDifferentParent (GeoGraph/Manager.cxx:681-763) and the
 * conflict-resolution pipeline (GeoGraph/Manager.cxx:304-354): in the
 * strict mode every pass, and so the whole pipeline, only erases
 * correlations and keeps a symmetric graph symmetric.
 */
module GeoPipelineFacts {
  import opened Faults
  import opened GeoNode
  import opened GeoRegistry
  import opened GeoEdits
  import opened GeoPasses
  import opened GeoPassFacts
  import opened GeoSortFacts

  // ---------------------------------------------------------------------
  // ResolveSiblingsWithDifferentParent
  // ---------------------------------------------------------------------

  lemma {:induction false} ResolveSiblingsShrinks(g: Graph, id: nat, p: nat, sibs: seq<nat>, k: nat)
    requires k <= |sibs|
    ensures ResolveSiblingsFrom(g, id, p, sibs, k).Ok? ==> Shrinks(g, ResolveSiblingsFrom(g, id, p, sibs, k).value)
    decreases |sibs| - k
  {
    if k < |sibs| && ResolveSiblingsFrom(g, id, p, sibs, k).Ok? {
      var h := ResolveSiblingsFrom(g, id, p, sibs, k).value;
      var h1 := ResolveSiblingsNext(g, id, p, sibs, k);
      ResolveSiblingsShrinks(h1, id, p, sibs, k + 1);
      ShrinksTransitive(g, h1, h);
    }
  }

  /** One successful step of the sibling loop only erases, and the loop goes on from the graph it leaves. */
  lemma ResolveSiblingsNext(g: Graph, id: nat, p: nat, sibs: seq<nat>, k: nat) returns (h1: Graph)
    requires k < |sibs| && ResolveSiblingsFrom(g, id, p, sibs, k).Ok?
    ensures Shrinks(g, h1)
    ensures ResolveSiblingsFrom(h1, id, p, sibs, k + 1) == ResolveSiblingsFrom(g, id, p, sibs, k)
  {
    var s := sibs[k];
    if !HasParent(g[s]).value || GetParent(g[s]).value == p {
      h1 := g;
    } else {
      var sp := GetParent(g[s]).value;
      if |sibs| > 1 {
        h1 := EraseSpec(g, id, s).value;
        EraseShrinks(g, id, s);
      } else {
        match ChooseDrop(GetScore(g[id], p), GetScore(g[id], s), GetScore(g[s], sp))
        case DropSiblingParent =>
          h1 := EraseSpec(g, s, sp).value;
          EraseShrinks(g, s, sp);
        case DropParent =>
          h1 := EraseSpec(g, id, p).value;
          EraseShrinks(g, id, p);
        case DropSibling =>
          h1 := EraseSpec(g, id, s).value;
          EraseShrinks(g, id, s);
      }
    }
  }

  /** Every sibling from position k on is known and has no parent, or the parent p. */
  ghost predicate AgreeFrom(g: Graph, p: nat, sibs: seq<nat>, k: nat) {
    forall i :: k <= i < |sibs| ==>
      sibs[i] in g && HasParent(g[sibs[i]]).Ok? && (HasParent(g[sibs[i]]).value ==> GetParent(g[sibs[i]]) == Ok(p))
  }

  lemma {:induction false} ResolveSiblingsAgree(g: Graph, id: nat, p: nat, sibs: seq<nat>, k: nat)
    requires k <= |sibs| && AgreeFrom(g, p, sibs, k)
    ensures ResolveSiblingsFrom(g, id, p, sibs, k) == Ok(g)
    decreases |sibs| - k
  {
    if k < |sibs| {
      ResolveSiblingsAgree(g, id, p, sibs, k + 1);
    }
  }

  /** The table records a single parent, and it is not p. */
  predicate ForeignParent(m: CorrMap, p: nat) {
    HasParent(m) == Ok(true) && GetParent(m) != Ok(p)
  }

  /** Sibling s, listed at position k or later, is a known node with a parent other than p in g0. */
  ghost predicate ForeignListed(g0: Graph, p: nat, sibs: seq<nat>, k: nat, s: nat) {
    s in g0 && ForeignParent(g0[s], p) && exists i :: k <= i < |sibs| && sibs[i] == s
  }

  /** The pair {x, y} joins `id` with a sibling listed from position k on whose parent is not p. */
  ghost predicate ForeignPair(g0: Graph, id: nat, p: nat, sibs: seq<nat>, k: nat, x: nat, y: nat) {
    (x == id && ForeignListed(g0, p, sibs, k, y)) || (y == id && ForeignListed(g0, p, sibs, k, x))
  }

  lemma ForeignListedUnfold(g0: Graph, p: nat, sibs: seq<nat>, k: nat, s: nat)
    requires k < |sibs|
    ensures ForeignListed(g0, p, sibs, k, s) <==>
      (sibs[k] == s && s in g0 && ForeignParent(g0[s], p)) || ForeignListed(g0, p, sibs, k + 1, s)
  {
    if ForeignListed(g0, p, sibs, k, s) {
      var i :| k <= i < |sibs| && sibs[i] == s;
      if i > k {
        assert ForeignListed(g0, p, sibs, k + 1, s);
      }
    }
  }

  /**
   * With several siblings, the loop from position k on erases exactly the
   * pairs of the node with the siblings whose parent (in the graph g0 the
   * pass started from) is not p.  The current graph g differs from g0 only
   * in pairs of the node with the siblings already handled.
   */
  lemma {:induction false} ResolveSeveralExact(g0: Graph, g: Graph, id: nat, p: nat, sibs: seq<nat>, k: nat)
    requires k <= |sibs| && |sibs| > 1 && StrictlyIncreasing(sibs)
    requires id in g0 && forall s :: s in sibs ==> IsPeer(g0[id], s, Sibling)
    requires SubGraph(g, g0) && PeersWith(g[id], Parent) == PeersWith(g0[id], Parent)
    requires forall i :: k <= i < |sibs| && sibs[i] != id && sibs[i] in g0 ==> g[sibs[i]] == g0[sibs[i]]
    ensures ResolveSiblingsFrom(g, id, p, sibs, k).Ok? ==>
      var h := ResolveSiblingsFrom(g, id, p, sibs, k).value;
      && Shrinks(g, h)
      && forall x, y :: x in g && y in g[x] ==> (y in h[x] <==> !ForeignPair(g0, id, p, sibs, k, x, y))
    decreases |sibs| - k
  {
    if k < |sibs| && ResolveSiblingsFrom(g, id, p, sibs, k).Ok? {
      var h := ResolveSiblingsFrom(g, id, p, sibs, k).value;
      var h1 := ResolveSeveralStep(g0, g, id, p, sibs, k);
      ResolveSeveralExact(g0, h1, id, p, sibs, k + 1);
      ShrinksTransitive(g, h1, h);
      ForeignCombine(g0, g, h1, h, id, p, sibs, k);
    } else {
      ResolveSiblingsShrinks(g, id, p, sibs, k);
    }
  }

  /** Sibling k's own step followed by the rest of the loop erases the foreign pairs from position k on. */
  lemma ForeignCombine(g0: Graph, g: Graph, h1: Graph, h: Graph, id: nat, p: nat, sibs: seq<nat>, k: nat)
    requires k < |sibs| && h1.Keys == g.Keys && SubGraph(h, h1)
    requires forall x, y :: x in g && y in g[x] ==>
      (y in h1[x] <==> !(sibs[k] in g0 && ForeignParent(g0[sibs[k]], p) && ((x == id && y == sibs[k]) || (y == id && x == sibs[k]))))
    requires forall x, y :: x in h1 && y in h1[x] ==> (y in h[x] <==> !ForeignPair(g0, id, p, sibs, k + 1, x, y))
    ensures forall x, y :: x in g && y in g[x] ==> (y in h[x] <==> !ForeignPair(g0, id, p, sibs, k, x, y))
  {
    forall x, y | x in g && y in g[x]
      ensures y in h[x] <==> !ForeignPair(g0, id, p, sibs, k, x, y)
    {
      ForeignListedUnfold(g0, p, sibs, k, x);
      ForeignListedUnfold(g0, p, sibs, k, y);
    }
  }

  /** One step of the several-sibling loop: the graph after sibling k, which lost exactly its pair with the node if its parent is foreign. */
  lemma ResolveSeveralStep(g0: Graph, g: Graph, id: nat, p: nat, sibs: seq<nat>, k: nat) returns (h1: Graph)
    requires k < |sibs| && |sibs| > 1 && StrictlyIncreasing(sibs)
    requires id in g0 && forall s :: s in sibs ==> IsPeer(g0[id], s, Sibling)
    requires SubGraph(g, g0) && PeersWith(g[id], Parent) == PeersWith(g0[id], Parent)
    requires forall i :: k <= i < |sibs| && sibs[i] != id && sibs[i] in g0 ==> g[sibs[i]] == g0[sibs[i]]
    requires ResolveSiblingsFrom(g, id, p, sibs, k).Ok?
    ensures ResolveSiblingsFrom(g, id, p, sibs, k) == ResolveSiblingsFrom(h1, id, p, sibs, k + 1)
    ensures SubGraph(h1, g0) && PeersWith(h1[id], Parent) == PeersWith(g0[id], Parent)
    ensures forall i :: k + 1 <= i < |sibs| && sibs[i] != id && sibs[i] in g0 ==> h1[sibs[i]] == g0[sibs[i]]
    ensures Shrinks(g, h1)
    ensures forall x, y :: x in g && y in g[x] ==>
      (y in h1[x] <==> !(sibs[k] in g0 && ForeignParent(g0[sibs[k]], p) && ((x == id && y == sibs[k]) || (y == id && x == sibs[k]))))
  {
    var s := sibs[k];
    if s == id {
      SameParents(g[id], g0[id]);
    }
    assert ForeignParent(g[s], p) == ForeignParent(g0[s], p);
    if !ForeignParent(g0[s], p) {
      h1 := g;
      assert SubGraph(g, g);
    } else {
      h1 := EraseBoth(g, id, s);
      EraseOutcome(g, id, s);
      EraseShrinks(g, id, s);
      SiblingEraseKeeps(g0, g, id, sibs, k);
    }
  }

  /** Erasing the node's pair with sibling k keeps the tables the later steps consult. */
  lemma SiblingEraseKeeps(g0: Graph, g: Graph, id: nat, sibs: seq<nat>, k: nat)
    requires k < |sibs| && StrictlyIncreasing(sibs)
    requires id in g0 && forall s :: s in sibs ==> IsPeer(g0[id], s, Sibling)
    requires SubGraph(g, g0) && sibs[k] in g && PeersWith(g[id], Parent) == PeersWith(g0[id], Parent)
    requires forall i :: k <= i < |sibs| && sibs[i] != id && sibs[i] in g0 ==> g[sibs[i]] == g0[sibs[i]]
    ensures var h1 := EraseBoth(g, id, sibs[k]);
      && SubGraph(h1, g0) && PeersWith(h1[id], Parent) == PeersWith(g0[id], Parent)
      && forall i :: k + 1 <= i < |sibs| && sibs[i] != id && sibs[i] in g0 ==> h1[sibs[i]] == g0[sibs[i]]
  {
    var s := sibs[k];
    var h1 := EraseBoth(g, id, s);
    EraseShrinks(g, id, s);
    SubGraphTransitive(h1, g, g0);
    forall t | t in sibs && t in g[id] ensures g[id][t].rel != Parent {
      assert IsPeer(g0[id], t, Sibling);
    }
    EraseKeepsParents(g, id, s, sibs);
    forall i | k + 1 <= i < |sibs| && sibs[i] != id && sibs[i] in g0
      ensures h1[sibs[i]] == g0[sibs[i]]
    {
      assert sibs[k] < sibs[i];
    }
  }

  /**
   * A node without conflict is untouched, and so is one whose siblings all
   * have no parent or the node's own parent; otherwise the pass only erases.
   */
  lemma ResolveSiblingsFacts(g: Graph, id: nat)
    ensures id in g && HasConflict(g[id]) == Ok(false) ==> ResolveSiblingsSpec(g, id) == Ok(g)
    ensures ResolveSiblingsSpec(g, id).Ok? ==> Shrinks(g, ResolveSiblingsSpec(g, id).value)
    ensures id in g && HasConflict(g[id]) == Ok(true) &&
      (forall s :: IsPeer(g[id], s, Sibling) ==>
         s in g && HasParent(g[s]).Ok? && (HasParent(g[s]).value ==> GetParent(g[s]) == GetParent(g[id])))
      ==> ResolveSiblingsSpec(g, id) == Ok(g)
  {
    if id in g && HasConflict(g[id]) == Ok(true) {
      var p := GetParent(g[id]).value;
      var sibs := GetSiblings(g[id]).value;
      ResolveSiblingsShrinks(g, id, p, sibs, 0);
      if forall s :: IsPeer(g[id], s, Sibling) ==>
           s in g && HasParent(g[s]).Ok? && (HasParent(g[s]).value ==> GetParent(g[s]) == GetParent(g[id])) {
        forall i | 0 <= i < |sibs|
          ensures sibs[i] in g && HasParent(g[sibs[i]]).Ok? && (HasParent(g[sibs[i]]).value ==> GetParent(g[sibs[i]]) == Ok(p))
        {
          assert IsPeer(g[id], sibs[i], Sibling);
        }
        ResolveSiblingsAgree(g, id, p, sibs, 0);
      }
    }
  }

  /** s is a sibling of node id, known, and its single parent is not p. */
  ghost predicate ForeignSibling(g: Graph, id: nat, p: nat, s: nat)
    requires id in g
  {
    IsPeer(g[id], s, Sibling) && s in g && ForeignParent(g[s], p)
  }

  /** The pair {x, y} joins node id with one of its siblings whose parent is not p. */
  ghost predicate ForeignSiblingPair(g: Graph, id: nat, p: nat, x: nat, y: nat)
    requires id in g
  {
    (x == id && ForeignSibling(g, id, p, y)) || (y == id && ForeignSibling(g, id, p, x))
  }

  lemma ForeignIsListed(g: Graph, id: nat, p: nat, sibs: seq<nat>, s: nat)
    requires id in g && forall t :: t in sibs <==> IsPeer(g[id], t, Sibling)
    ensures ForeignSibling(g, id, p, s) <==> ForeignListed(g, p, sibs, 0, s)
  {
    if ForeignSibling(g, id, p, s) {
      var i :| 0 <= i < |sibs| && sibs[i] == s;
    }
  }

  /**
   * A node in conflict with several siblings loses exactly its correlations
   * with the siblings that record a single parent other than its own; every
   * other correlation stays.
   */
  lemma ResolveSiblingsSeveral(g: Graph, id: nat)
    ensures ResolveSiblingsSpec(g, id).Ok? && HasConflict(g[id]) == Ok(true) && SeveralPeers(g[id], Sibling) ==>
      var h := ResolveSiblingsSpec(g, id).value;
      var p := GetParent(g[id]).value;
      && Shrinks(g, h)
      && forall x, y :: x in g && y in g[x] ==> (y in h[x] <==> !ForeignSiblingPair(g, id, p, x, y))
  {
    if ResolveSiblingsSpec(g, id).Ok? && HasConflict(g[id]) == Ok(true) && SeveralPeers(g[id], Sibling) {
      var h := ResolveSiblingsSpec(g, id).value;
      var p := GetParent(g[id]).value;
      var sibs := GetSiblings(g[id]).value;
      PeerCount(g[id], Sibling);
      assert sibs == PeersWith(g[id], Sibling);
      assert SubGraph(g, g);
      ResolveSeveralExact(g, g, id, p, sibs, 0);
      forall x, y | x in g && y in g[x]
        ensures y in h[x] <==> !ForeignSiblingPair(g, id, p, x, y)
      {
        ForeignIsListed(g, id, p, sibs, x);
        ForeignIsListed(g, id, p, sibs, y);
      }
    }
  }

  /** The pair the single-sibling rule erases: (s, sp), (id, p) or (id, s). */
  function DroppedPair(d: Drop, id: nat, p: nat, s: nat, sp: nat): (nat, nat) {
    match d
    case DropSiblingParent => (s, sp)
    case DropParent => (id, p)
    case DropSibling => (id, s)
  }

  /**
   * A node in conflict with a single sibling whose parent sp is not its own
   * loses exactly one pair, the one of the three correlations (node-parent,
   * node-sibling, sibling-parent) whose loss keeps the highest combined score.
   */
  lemma ResolveSiblingsSingle(g: Graph, id: nat)
    ensures ResolveSiblingsSpec(g, id).Ok? && HasConflict(g[id]) == Ok(true) && !SeveralPeers(g[id], Sibling) ==>
      var h := ResolveSiblingsSpec(g, id).value;
      var p := GetParent(g[id]).value;
      var s := GetSiblings(g[id]).value[0];
      s in g && ForeignParent(g[s], p) ==>
        var sp := GetParent(g[s]).value;
        var pair := DroppedPair(ChooseDrop(GetScore(g[id], p), GetScore(g[id], s), GetScore(g[s], sp)), id, p, s, sp);
        && Shrinks(g, h)
        && forall x, y :: x in g && y in g[x] ==> (y in h[x] <==> !((x == pair.0 && y == pair.1) || (x == pair.1 && y == pair.0)))
  {
    if ResolveSiblingsSpec(g, id).Ok? && HasConflict(g[id]) == Ok(true) && !SeveralPeers(g[id], Sibling) {
      var p := GetParent(g[id]).value;
      var sibs := GetSiblings(g[id]).value;
      PeerCount(g[id], Sibling);
      assert sibs == PeersWith(g[id], Sibling);
      assert |sibs| == 1;
      var s := sibs[0];
      if s in g && ForeignParent(g[s], p) {
        var sp := GetParent(g[s]).value;
        var pair := DroppedPair(ChooseDrop(GetScore(g[id], p), GetScore(g[id], s), GetScore(g[s], sp)), id, p, s, sp);
        assert ResolveSiblingsFrom(g, id, p, sibs, 0) == EraseSpec(g, pair.0, pair.1);
        EraseOutcome(g, pair.0, pair.1);
        EraseShrinks(g, pair.0, pair.1);
      }
    }
  }

  // ---------------------------------------------------------------------
  // The pipeline in the strict mode
  // ---------------------------------------------------------------------

  lemma StrictSortShrinks(g: Graph, env: Env, id: nat)
    requires !env.loose
    ensures SortSiblingsSpec(g, env, id).Ok? ==> Shrinks(g, SortSiblingsSpec(g, env, id).value)
  {
    if id in g && SortSiblingsSpec(g, env, id).Ok? {
      StrictSortKeepsBest(g, env, id);
    }
  }

  lemma PassOneShrinks(g: Graph, env: Env, pass: Pass, id: nat)
    requires !env.loose
    ensures PassOne(g, env, pass, id).Ok? ==> Shrinks(g, PassOne(g, env, pass, id).value)
  {
    match pass
    case BestParentPass => FindBestParentFacts(g, env, id);
    case ParentSiblingPass => ParentSiblingFacts(g, env, id);
    case RemoveSiblingPass => RemoveSiblingFacts(g, id);
    case SortSiblingsPass => StrictSortShrinks(g, env, id);
  }

  lemma {:induction false} PassFromShrinks(g: Graph, env: Env, pass: Pass, ids: seq<nat>, k: nat)
    requires !env.loose && k <= |ids|
    ensures PassFrom(g, env, pass, ids, k).Ok? ==> Shrinks(g, PassFrom(g, env, pass, ids, k).value)
    decreases |ids| - k
  {
    if k == |ids| {
      assert SubGraph(g, g);
    } else if PassFrom(g, env, pass, ids, k).Ok? {
      var h1 := PassOne(g, env, pass, ids[k]).value;
      PassOneShrinks(g, env, pass, ids[k]);
      PassFromShrinks(h1, env, pass, ids, k + 1);
      ShrinksTransitive(g, h1, PassFrom(g, env, pass, ids, k).value);
    }
  }

  /** In the strict mode conflict resolution only erases correlations, and keeps a symmetric graph symmetric. */
  lemma StrictResolveShrinks(g: Graph, env: Env, ids: seq<nat>)
    requires !env.loose
    ensures ResolveConflictsSpec(g, env, ids).Ok? ==> Shrinks(g, ResolveConflictsSpec(g, env, ids).value)
  {
    if ResolveConflictsSpec(g, env, ids).Ok? {
      var g1 := PassFrom(g, env, BestParentPass, ids, 0).value;
      var g2 := PassFrom(g1, env, ParentSiblingPass, ids, 0).value;
      var g3 := PassFrom(g2, env, RemoveSiblingPass, ids, 0).value;
      var h := PassFrom(g3, env, SortSiblingsPass, ids, 0).value;
      PassFromShrinks(g, env, BestParentPass, ids, 0);
      PassFromShrinks(g1, env, ParentSiblingPass, ids, 0);
      PassFromShrinks(g2, env, RemoveSiblingPass, ids, 0);
      PassFromShrinks(g3, env, SortSiblingsPass, ids, 0);
      ShrinksTransitive(g, g1, g2);
      ShrinksTransitive(g, g2, g3);
      ShrinksTransitive(g, g3, h);
    }
  }
}
