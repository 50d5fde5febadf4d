/**
 * What the conflict-resolution passes guarantee: the strategy-driven and
 * the strict passes only erase, keep the tables symmetric, and erase
 * exactly what their rule names; the loose sibling merge leaves every
 * sibling pair at the merged vertex.
 */
module GeoPassFacts {
  import opened Faults
  import opened GeoNode
  import opened GeoRegistry
  import opened GeoEdits
  import opened GeoPasses

  /** h is g with some correlations erased, and erasing kept a symmetric graph symmetric. */
  ghost predicate Shrinks(g: Graph, h: Graph) {
    SubGraph(h, g) && (Symmetric(g) ==> Symmetric(h))
  }

  lemma ShrinksTransitive(g: Graph, h1: Graph, h2: Graph)
    requires Shrinks(g, h1) && Shrinks(h1, h2)
    ensures Shrinks(g, h2)
  {
    SubGraphTransitive(h2, h1, g);
  }

  lemma EraseShrinks(g: Graph, a: nat, b: nat)
    ensures EraseSpec(g, a, b).Ok? ==> Shrinks(g, EraseSpec(g, a, b).value)
  {
    if a in g && b in g {
      EraseKeepsSymmetry(g, a, b);
    }
  }

  // ---------------------------------------------------------------------
  // Erasing the negative proposals of a strategy
  // ---------------------------------------------------------------------

  /** Proposal p names the pair {x, y}, in either order. */
  predicate Joins(p: Proposal, x: nat, y: nat) {
    (p.a == x && p.b == y) || (p.a == y && p.b == x)
  }

  /** The pair {x, y} is named by a proposal with a negative score at position k or later. */
  ghost predicate Cut(ps: seq<Proposal>, k: nat, x: nat, y: nat) {
    exists i :: k <= i < |ps| && ps[i].corr.score < 0.0 && Joins(ps[i], x, y)
  }

  lemma CutUnfold(ps: seq<Proposal>, k: nat, x: nat, y: nat)
    requires k < |ps|
    ensures Cut(ps, k, x, y) <==> (ps[k].corr.score < 0.0 && Joins(ps[k], x, y)) || Cut(ps, k + 1, x, y)
  {
    if Cut(ps, k, x, y) {
      var i :| k <= i < |ps| && ps[i].corr.score < 0.0 && Joins(ps[i], x, y);
      if i > k {
        assert Cut(ps, k + 1, x, y);
      }
    }
  }

  /** Every negatively scored proposal from position k on names two known nodes. */
  ghost predicate Resolvable(g: Graph, ps: seq<Proposal>, k: nat) {
    forall i :: k <= i < |ps| && ps[i].corr.score < 0.0 ==> ps[i].a in g && ps[i].b in g
  }

  /** Pruning succeeds exactly when every negatively scored pair names known nodes. */
  lemma {:induction false} PruneOk(g: Graph, ps: seq<Proposal>, k: nat)
    requires k <= |ps|
    ensures PruneFrom(g, ps, k).Ok? <==> Resolvable(g, ps, k)
    decreases |ps| - k
  {
    if k < |ps| {
      var p := ps[k];
      if p.corr.score < 0.0 && p.a in g && p.b in g {
        PruneOk(EraseBoth(g, p.a, p.b), ps, k + 1);
      } else if p.corr.score >= 0.0 {
        PruneOk(g, ps, k + 1);
      }
    }
  }

  /** Pruning removes exactly the correlations of the negatively scored pairs, and nothing else changes. */
  lemma {:induction false} PruneExact(g: Graph, ps: seq<Proposal>, k: nat)
    requires k <= |ps|
    ensures PruneFrom(g, ps, k).Ok? ==>
      var h := PruneFrom(g, ps, k).value;
      && Shrinks(g, h)
      && forall x, y :: x in g && y in g[x] ==> (y in h[x] <==> !Cut(ps, k, x, y))
    decreases |ps| - k
  {
    if k < |ps| && PruneFrom(g, ps, k).Ok? {
      var p := ps[k];
      var h := PruneFrom(g, ps, k).value;
      var h1 := if p.corr.score < 0.0 then EraseBoth(g, p.a, p.b) else g;
      EraseShrinks(g, p.a, p.b);
      assert PruneFrom(h1, ps, k + 1) == Ok(h);
      PruneExact(h1, ps, k + 1);
      ShrinksTransitive(g, h1, h);
      forall x, y | x in g && y in g[x]
        ensures y in h[x] <==> !Cut(ps, k, x, y)
      {
        CutUnfold(ps, k, x, y);
      }
    }
  }

  // ---------------------------------------------------------------------
  // FindBestParent
  // ---------------------------------------------------------------------

  /**
   * A node with fewer than two Parent correlations is left alone; otherwise
   * exactly the pairs the strategy scores negatively are erased.
   */
  lemma FindBestParentFacts(g: Graph, env: Env, id: nat)
    ensures FindBestParentSpec(g, env, id).Err? <==>
      (id !in g || (SeveralPeers(g[id], Parent) && !Resolvable(g, env.bestParent(g, id, PeersWith(g[id], Parent)), 0)))
    ensures id in g && !SeveralPeers(g[id], Parent) ==> FindBestParentSpec(g, env, id) == Ok(g)
    ensures FindBestParentSpec(g, env, id).Ok? ==>
      var h := FindBestParentSpec(g, env, id).value;
      && Shrinks(g, h)
      && forall x, y :: x in g && y in g[x] ==>
           (y in h[x] <==> !(SeveralPeers(g[id], Parent) && Cut(env.bestParent(g, id, PeersWith(g[id], Parent)), 0, x, y)))
  {
    if id in g {
      PeerCount(g[id], Parent);
      var parents := PeersWith(g[id], Parent);
      if |parents| >= 2 {
        PruneOk(g, env.bestParent(g, id, parents), 0);
        PruneExact(g, env.bestParent(g, id, parents), 0);
      }
    }
  }

  // ---------------------------------------------------------------------
  // ParentIsSiblingsSibling
  // ---------------------------------------------------------------------

  lemma {:induction false} ParentSiblingFromShrinks(g: Graph, env: Env, id: nat, p: nat, sibs: seq<nat>, k: nat)
    requires k <= |sibs|
    ensures ParentSiblingFrom(g, env, id, p, sibs, k).Ok? ==> Shrinks(g, ParentSiblingFrom(g, env, id, p, sibs, k).value)
    decreases |sibs| - k
  {
    if k < |sibs| {
      var s := sibs[k];
      if s in g {
        if p !in g[s] || g[s][p].rel == Parent {
          ParentSiblingFromShrinks(g, env, id, p, sibs, k + 1);
        } else {
          var ps := env.parentSibling(g, id, p, s);
          PruneExact(g, ps, 0);
          if PruneFrom(g, ps, 0).Ok? {
            var h1 := PruneFrom(g, ps, 0).value;
            ParentSiblingFromShrinks(h1, env, id, p, sibs, k + 1);
            if ParentSiblingFrom(g, env, id, p, sibs, k).Ok? {
              ShrinksTransitive(g, h1, ParentSiblingFrom(g, env, id, p, sibs, k).value);
            }
          }
        }
      }
    }
  }

  /** A sibling that is not correlated with the parent, or records it as its Parent, is skipped. */
  lemma {:induction false} ParentSiblingSkips(g: Graph, env: Env, id: nat, p: nat, sibs: seq<nat>, k: nat)
    requires k <= |sibs|
    requires forall i :: k <= i < |sibs| ==> sibs[i] in g && (p !in g[sibs[i]] || g[sibs[i]][p].rel == Parent)
    ensures ParentSiblingFrom(g, env, id, p, sibs, k) == Ok(g)
    decreases |sibs| - k
  {
    if k < |sibs| {
      ParentSiblingSkips(g, env, id, p, sibs, k + 1);
    }
  }

  /**
   * The pair {x, y} is named with a negative score by the strategy when it
   * is consulted for one of the siblings from position k on, each time on
   * the graph the earlier siblings have left; skipped siblings cut nothing.
   */
  ghost predicate StrategyCut(g: Graph, env: Env, id: nat, p: nat, sibs: seq<nat>, k: nat, x: nat, y: nat)
    requires k <= |sibs|
    decreases |sibs| - k
  {
    if k == |sibs| || sibs[k] !in g then false
    else if p !in g[sibs[k]] || g[sibs[k]][p].rel == Parent then StrategyCut(g, env, id, p, sibs, k + 1, x, y)
    else
      var ps := env.parentSibling(g, id, p, sibs[k]);
      Cut(ps, 0, x, y) || (PruneFrom(g, ps, 0).Ok? && StrategyCut(PruneFrom(g, ps, 0).value, env, id, p, sibs, k + 1, x, y))
  }

  /** The sibling loop erases exactly the pairs some consulted strategy cuts; every other correlation stays. */
  lemma {:induction false} ParentSiblingExact(g: Graph, env: Env, id: nat, p: nat, sibs: seq<nat>, k: nat)
    requires k <= |sibs|
    ensures ParentSiblingFrom(g, env, id, p, sibs, k).Ok? ==>
      var h := ParentSiblingFrom(g, env, id, p, sibs, k).value;
      && Shrinks(g, h)
      && forall x, y :: x in g && y in g[x] ==> (y in h[x] <==> !StrategyCut(g, env, id, p, sibs, k, x, y))
    decreases |sibs| - k
  {
    ParentSiblingFromShrinks(g, env, id, p, sibs, k);
    if k < |sibs| && ParentSiblingFrom(g, env, id, p, sibs, k).Ok? {
      var s := sibs[k];
      var h := ParentSiblingFrom(g, env, id, p, sibs, k).value;
      if p !in g[s] || g[s][p].rel == Parent {
        ParentSiblingExact(g, env, id, p, sibs, k + 1);
      } else {
        var ps := env.parentSibling(g, id, p, s);
        PruneExact(g, ps, 0);
        var h1 := PruneFrom(g, ps, 0).value;
        assert ParentSiblingFrom(h1, env, id, p, sibs, k + 1) == Ok(h);
        ParentSiblingExact(h1, env, id, p, sibs, k + 1);
        ParentSiblingFromShrinks(h1, env, id, p, sibs, k + 1);
        forall x, y | x in g && y in g[x]
          ensures y in h[x] <==> !StrategyCut(g, env, id, p, sibs, k, x, y)
        {
          if !Cut(ps, 0, x, y) {
            assert y in h1[x];
          }
        }
      }
    }
  }

  /**
   * A node not in conflict is untouched; otherwise the pass only erases,
   * exactly the pairs the strategy cuts for its siblings, and changes
   * nothing when every sibling is either uncorrelated with the parent or
   * records it as its Parent.
   */
  lemma ParentSiblingFacts(g: Graph, env: Env, id: nat)
    ensures id in g && HasConflict(g[id]) == Ok(false) ==> ParentSiblingSpec(g, env, id) == Ok(g)
    ensures ParentSiblingSpec(g, env, id).Ok? ==> Shrinks(g, ParentSiblingSpec(g, env, id).value)
    ensures id in g && HasConflict(g[id]) == Ok(true) &&
      (forall s :: IsPeer(g[id], s, Sibling) ==> s in g && (GetParent(g[id]).value !in g[s] || g[s][GetParent(g[id]).value].rel == Parent))
      ==> ParentSiblingSpec(g, env, id) == Ok(g)
    ensures ParentSiblingSpec(g, env, id).Ok? && HasConflict(g[id]) == Ok(true) ==>
      var h := ParentSiblingSpec(g, env, id).value;
      var p := GetParent(g[id]).value;
      var sibs := GetSiblings(g[id]).value;
      forall x, y :: x in g && y in g[x] ==> (y in h[x] <==> !StrategyCut(g, env, id, p, sibs, 0, x, y))
  {
    if id in g && HasConflict(g[id]) == Ok(true) {
      var sibs := GetSiblings(g[id]).value;
      var p := GetParent(g[id]).value;
      ParentSiblingFromShrinks(g, env, id, p, sibs, 0);
      ParentSiblingExact(g, env, id, p, sibs, 0);
      if forall s :: IsPeer(g[id], s, Sibling) ==> s in g && (p !in g[s] || g[s][p].rel == Parent) {
        ParentSiblingSkips(g, env, id, p, sibs, 0);
      }
    }
  }

  // ---------------------------------------------------------------------
  // IfConflictRemoveSibling
  // ---------------------------------------------------------------------

  /** Sibling s, listed at position k or later, has no parent or a parent other than p. */
  /** Two tables with the same Parent peers answer hasParent and getParent alike. */
  lemma SameParents(m1: CorrMap, m2: CorrMap)
    requires PeersWith(m1, Parent) == PeersWith(m2, Parent)
    ensures HasParent(m1) == HasParent(m2) && GetParent(m1) == GetParent(m2)
  {
  }

  /** Removing a peer that is not a Parent keeps the Parent peers. */
  lemma RemoveNonParent(m: CorrMap, t: nat)
    requires !IsPeer(m, t, Parent)
    ensures PeersWith(m - {t}, Parent) == PeersWith(m, Parent)
  {
    var r := m - {t};
    var before := set q | q in m && m[q].rel == Parent;
    var after := set q | q in r && r[q].rel == Parent;
    assert after == before;
    assert PeersWith(r, Parent) == SortedKeys(after);
    assert PeersWith(m, Parent) == SortedKeys(before);
  }

  /** Two tables with the same Parent peers get the same verdict. */
  lemma SameDisowned(m1: CorrMap, m2: CorrMap, p: nat)
    requires PeersWith(m1, Parent) == PeersWith(m2, Parent)
    ensures Disowned(m1, p) == Disowned(m2, p)
  {
    SameParents(m1, m2);
  }

  /** No listed sibling is recorded as a Parent in table m. */
  ghost predicate NoParentAmong(m: CorrMap, sibs: seq<nat>) {
    forall s :: s in sibs && s in m ==> m[s].rel != Parent
  }

  /** Erasing the node's pair with a listed sibling keeps the node's Parent peers. */
  lemma EraseKeepsParents(g: Graph, id: nat, s: nat, sibs: seq<nat>)
    requires id in g && s in g && s in sibs && NoParentAmong(g[id], sibs)
    ensures var h := EraseBoth(g, id, s);
      PeersWith(h[id], Parent) == PeersWith(g[id], Parent) && NoParentAmong(h[id], sibs)
  {
    RemoveNonParent(g[id], s);
    if s == id {
      RemoveNonParent(g[id] - {s}, s);
      assert EraseBoth(g, id, s)[id] == g[id] - {s} - {s};
    } else {
      assert EraseBoth(g, id, s)[id] == g[id] - {s};
    }
  }

  ghost predicate DisownedFrom(g: Graph, p: nat, sibs: seq<nat>, k: nat, s: nat) {
    exists i :: k <= i < |sibs| && sibs[i] == s && s in g && Disowned(g[s], p) == Ok(true)
  }

  lemma DisownedUnfold(g: Graph, p: nat, sibs: seq<nat>, k: nat, t: nat)
    requires k < |sibs|
    ensures DisownedFrom(g, p, sibs, k, t) <==>
      (sibs[k] == t && t in g && Disowned(g[t], p) == Ok(true)) || DisownedFrom(g, p, sibs, k + 1, t)
  {
    if DisownedFrom(g, p, sibs, k, t) {
      var i :| k <= i < |sibs| && sibs[i] == t && t in g && Disowned(g[t], p) == Ok(true);
      if i > k {
        assert DisownedFrom(g, p, sibs, k + 1, t);
      }
    }
  }

  /** Erasing the pair (id, s) does not change the verdict on the siblings listed after s. */
  lemma DisownedAfterErase(g: Graph, id: nat, s: nat, p: nat, sibs: seq<nat>, k: nat, t: nat)
    requires id in g && s in g && s in sibs && NoParentAmong(g[id], sibs)
    requires forall i :: k <= i < |sibs| ==> sibs[i] != s
    ensures DisownedFrom(EraseBoth(g, id, s), p, sibs, k, t) <==> DisownedFrom(g, p, sibs, k, t)
  {
    var h := EraseBoth(g, id, s);
    EraseKeepsParents(g, id, s, sibs);
    if t == id {
      SameDisowned(h[id], g[id], p);
    }
    if DisownedFrom(h, p, sibs, k, t) {
      var i :| k <= i < |sibs| && sibs[i] == t && t in h && Disowned(h[t], p) == Ok(true);
      assert t != id ==> h[t] == g[t];
    }
    if DisownedFrom(g, p, sibs, k, t) {
      var i :| k <= i < |sibs| && sibs[i] == t && t in g && Disowned(g[t], p) == Ok(true);
      assert t != id ==> h[t] == g[t];
    }
  }

  /** The correlation of x with y survives in h unless it joins id to a disowned sibling. */
  ghost predicate Survives(g: Graph, h: Graph, id: nat, p: nat, sibs: seq<nat>, k: nat, x: nat, y: nat) {
    x in h && (y in h[x] <==> !((x == id && DisownedFrom(g, p, sibs, k, y)) || (y == id && DisownedFrom(g, p, sibs, k, x))))
  }

  /** The correlations that survive in h: those of g except the pairs (id, s) for disowned siblings s. */
  ghost predicate KeepsAllBut(g: Graph, h: Graph, id: nat, p: nat, sibs: seq<nat>, k: nat) {
    forall x: nat, y: nat :: x in g && y in g[x] ==> Survives(g, h, id, p, sibs, k, x, y)
  }

  /** One step of the loop: the verdict on sibs[k] and the verdicts after it combine. */
  lemma RemoveSiblingStep(g: Graph, h1: Graph, h: Graph, id: nat, p: nat, sibs: seq<nat>, k: nat)
    requires k < |sibs| && id in g && sibs[k] in g && Disowned(g[sibs[k]], p).Ok? && NoParentAmong(g[id], sibs)
    requires forall i :: k + 1 <= i < |sibs| ==> sibs[i] != sibs[k]
    requires h1 == if Disowned(g[sibs[k]], p).value then EraseBoth(g, id, sibs[k]) else g
    requires SubGraph(h, h1) && KeepsAllBut(h1, h, id, p, sibs, k + 1)
    ensures KeepsAllBut(g, h, id, p, sibs, k)
  {
    var s := sibs[k];
    var drop := Disowned(g[s], p).value;
    forall x: nat, y: nat | x in g && y in g[x]
      ensures Survives(g, h, id, p, sibs, k, x, y)
    {
      DisownedUnfold(g, p, sibs, k, x);
      DisownedUnfold(g, p, sibs, k, y);
      if drop {
        DisownedAfterErase(g, id, s, p, sibs, k + 1, x);
        DisownedAfterErase(g, id, s, p, sibs, k + 1, y);
      }
      assert x in h1;
      if y !in h1[x] {
        assert y !in h[x];
      } else {
        assert Survives(h1, h, id, p, sibs, k + 1, x, y);
      }
    }
  }

  /** One successful step of the sibling loop, with the graph it leaves named. */
  lemma RemoveSiblingNext(g: Graph, id: nat, p: nat, sibs: seq<nat>, k: nat) returns (h1: Graph)
    requires k < |sibs| && id in g && StrictlyIncreasing(sibs) && NoParentAmong(g[id], sibs)
    requires RemoveSiblingFrom(g, id, p, sibs, k).Ok?
    ensures sibs[k] in g && Disowned(g[sibs[k]], p).Ok?
    ensures h1 == if Disowned(g[sibs[k]], p).value then EraseBoth(g, id, sibs[k]) else g
    ensures Shrinks(g, h1) && id in h1 && NoParentAmong(h1[id], sibs)
    ensures Disowned(h1[id], p) == Disowned(g[id], p)
    ensures forall t :: t in g && t != id && t != sibs[k] ==> t in h1 && h1[t] == g[t]
    ensures forall i :: k + 1 <= i < |sibs| ==> sibs[i] != sibs[k]
    ensures RemoveSiblingFrom(h1, id, p, sibs, k + 1) == RemoveSiblingFrom(g, id, p, sibs, k)
  {
    var s := sibs[k];
    h1 := if Disowned(g[s], p).value then EraseBoth(g, id, s) else g;
    EraseShrinks(g, id, s);
    EraseKeepsParents(g, id, s, sibs);
    SameDisowned(h1[id], g[id], p);
    forall i | k + 1 <= i < |sibs| ensures sibs[i] != s {
      assert sibs[k] < sibs[i];
    }
  }

  lemma {:induction false} RemoveSiblingExact(g: Graph, id: nat, p: nat, sibs: seq<nat>, k: nat)
    requires k <= |sibs| && id in g && StrictlyIncreasing(sibs) && NoParentAmong(g[id], sibs)
    ensures RemoveSiblingFrom(g, id, p, sibs, k).Ok? ==>
      var h := RemoveSiblingFrom(g, id, p, sibs, k).value;
      Shrinks(g, h) && KeepsAllBut(g, h, id, p, sibs, k)
    decreases |sibs| - k
  {
    if k < |sibs| && RemoveSiblingFrom(g, id, p, sibs, k).Ok? {
      var h := RemoveSiblingFrom(g, id, p, sibs, k).value;
      var h1 := RemoveSiblingNext(g, id, p, sibs, k);
      RemoveSiblingExact(h1, id, p, sibs, k + 1);
      ShrinksTransitive(g, h1, h);
      RemoveSiblingStep(g, h1, h, id, p, sibs, k);
    } else if k == |sibs| {
      forall t ensures !DisownedFrom(g, p, sibs, k, t) { }
    }
  }

  /** Every sibling's parent check succeeded on a successful run. */
  lemma {:induction false} RemoveSiblingOk(g: Graph, id: nat, p: nat, sibs: seq<nat>, k: nat, i: nat)
    requires k <= i < |sibs| && id in g && StrictlyIncreasing(sibs) && NoParentAmong(g[id], sibs)
    requires RemoveSiblingFrom(g, id, p, sibs, k).Ok?
    ensures sibs[i] in g && Disowned(g[sibs[i]], p).Ok?
    decreases |sibs| - k
  {
    var h1 := RemoveSiblingNext(g, id, p, sibs, k);
    if k < i {
      RemoveSiblingOk(h1, id, p, sibs, k + 1, i);
      assert sibs[k] < sibs[i];
      if sibs[i] != id {
        assert h1[sibs[i]] == g[sibs[i]];
      }
    }
  }

  /** One successful step of the sibling loop only erases, and the loop goes on from the graph it leaves. */
  lemma RemoveSiblingUnfolds(g: Graph, id: nat, p: nat, sibs: seq<nat>, k: nat) returns (h1: Graph)
    requires k < |sibs| && RemoveSiblingFrom(g, id, p, sibs, k).Ok?
    ensures Shrinks(g, h1)
    ensures RemoveSiblingFrom(g, id, p, sibs, k) == RemoveSiblingFrom(h1, id, p, sibs, k + 1)
  {
    var s := sibs[k];
    if Disowned(g[s], p).value {
      h1 := EraseSpec(g, id, s).value;
      EraseShrinks(g, id, s);
    } else {
      h1 := g;
    }
  }

  lemma {:induction false} RemoveSiblingShrinks(g: Graph, id: nat, p: nat, sibs: seq<nat>, k: nat)
    requires k <= |sibs|
    ensures RemoveSiblingFrom(g, id, p, sibs, k).Ok? ==> Shrinks(g, RemoveSiblingFrom(g, id, p, sibs, k).value)
    decreases |sibs| - k
  {
    if k < |sibs| && RemoveSiblingFrom(g, id, p, sibs, k).Ok? {
      var h1 := RemoveSiblingUnfolds(g, id, p, sibs, k);
      RemoveSiblingShrinks(h1, id, p, sibs, k + 1);
      ShrinksTransitive(g, h1, RemoveSiblingFrom(g, id, p, sibs, k).value);
    }
  }

  /** A node not in conflict is untouched; otherwise the pass only erases. */
  lemma RemoveSiblingFacts(g: Graph, id: nat)
    ensures id in g && HasConflict(g[id]) == Ok(false) ==> RemoveSiblingSpec(g, id) == Ok(g)
    ensures RemoveSiblingSpec(g, id).Ok? ==> Shrinks(g, RemoveSiblingSpec(g, id).value)
  {
    if id in g && HasConflict(g[id]) == Ok(true) {
      RemoveSiblingShrinks(g, id, GetParent(g[id]).value, GetSiblings(g[id]).value, 0);
    }
  }

  /**
   * For a node in conflict with parent P, exactly the correlations between
   * the node and those siblings that have no Parent, or whose Parent is not
   * P, are erased.
   */
  lemma RemoveSiblingErasesDisowned(g: Graph, id: nat)
    requires id in g && HasConflict(g[id]) == Ok(true)
    requires RemoveSiblingSpec(g, id).Ok?
    ensures RemoveSiblingSpec(g, id).value.Keys == g.Keys
    ensures var h := RemoveSiblingSpec(g, id).value;
      var p := GetParent(g[id]).value;
      forall x, y :: x in g && y in g[x] ==>
        (y in h[x] <==> !(  (x == id && IsPeer(g[id], y, Sibling) && y in g && !IsPeer(g[y], p, Parent))
                         || (y == id && IsPeer(g[id], x, Sibling) && !IsPeer(g[x], p, Parent))))
  {
    var sibs := GetSiblings(g[id]).value;
    var p := GetParent(g[id]).value;
    RemoveSiblingShrinks(g, id, p, sibs, 0);
    assert RemoveSiblingSpec(g, id) == RemoveSiblingFrom(g, id, p, sibs, 0);
    assert NoParentAmong(g[id], sibs) by {
      forall s | s in sibs && s in g[id] ensures g[id][s].rel != Parent {
        assert IsPeer(g[id], s, Sibling);
      }
    }
    RemoveSiblingExact(g, id, p, sibs, 0);
    assert KeepsAllBut(g, RemoveSiblingSpec(g, id).value, id, p, sibs, 0);
    forall t | t in g
      ensures DisownedFrom(g, p, sibs, 0, t) <==> IsPeer(g[id], t, Sibling) && !IsPeer(g[t], p, Parent)
    {
      if IsPeer(g[id], t, Sibling) {
        var i :| 0 <= i < |sibs| && sibs[i] == t;
        RemoveSiblingOk(g, id, p, sibs, 0, i);
      }
    }
    forall y | y !in g ensures !DisownedFrom(g, p, sibs, 0, y) { }
  }
}
