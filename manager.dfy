/**
 * The Manager (GeoGraph/Manager.h, GeoGraph/Manager.cxx): it owns the node
 * registry, writes correlations on both ends of a pair, runs the conflict
 * resolution passes and assembles the tree.  Every method is proved against
 * the specification function of its operation: the outcome it reports and
 * the registry it leaves are the Result that function gives for the
 * registry it started from.  Where the source throws, the method reports
 * the failure and the registry it leaves behind is not specified.
 */
module GeoManager {
  import opened Faults
  import opened GeoNode
  import opened GeoRegistry
  import opened GeoEdits
  import opened GeoPasses
  import opened GeoAssembly

  /** An outcome and the state left behind, read as the Result a specification function gives. */
  function Reported<T>(out: Outcome, now: T): Result<T> {
    if out.Pass? then Ok(now) else Err(out.error)
  }

  class Manager {
    /** _coll: the registry of nodes. */
    const coll: NodeCollection
    /** isProhibited of the node with the given id. */
    const prohibits: (nat, Relation) -> bool
    /** _algoMultipleParents: its proposals for a node with several parents. */
    const bestParent: (Graph, nat, seq<nat>) -> seq<Proposal>
    /** _algoParentIsSiblingsSibling: its proposals for a (node, parent, sibling) triple. */
    const parentSibling: (Graph, nat, nat, nat) -> seq<Proposal>
    /** Centre of the bounding sphere of a list of points. */
    const center: seq<Point> -> Point
    /** _loose: merge siblings instead of keeping the best one. */
    var loose: bool

    ghost predicate Valid()
      reads this, coll
    {
      coll.Valid()
    }

    /** What the passes consult besides the correlations. */
    function Settings(): Env
      reads this
    {
      Env(prohibits, bestParent, parentSibling, center, loose)
    }

    /** The manager starts with an empty registry in strict mode. */
    constructor (prohibits: (nat, Relation) -> bool, bestParent: (Graph, nat, seq<nat>) -> seq<Proposal>,
                 parentSibling: (Graph, nat, nat, nat) -> seq<Proposal>, center: seq<Point> -> Point)
      ensures Valid() && fresh(coll)
      ensures coll.Graph() == map[] && coll.ids == [] && coll.heads == []
      ensures this.prohibits == prohibits && this.bestParent == bestParent
      ensures this.parentSibling == parentSibling && this.center == center && !loose
    {
      coll := new NodeCollection();
      this.prohibits := prohibits;
      this.bestParent := bestParent;
      this.parentSibling := parentSibling;
      this.center := center;
      loose := false;
    }

    /** setLoose. */
    method SetLoose(on: bool)
      modifies this
      ensures loose == on
      ensures Settings() == old(Settings()).(loose := on)
    {
      loose := on;
    }

    // -------------------------------------------------------------------
    // One node at a time: each call changes one node object
    // -------------------------------------------------------------------

    /** addCorrelation on the node `owner`. */
    method WriteEntry(owner: nat, peer: nat, c: Correlation)
      requires Valid() && owner in coll.Graph()
      modifies coll.nodes
      ensures Valid()
      ensures coll.Graph() == Write(old(coll.Graph()), owner, peer, c)
      ensures coll.Links() == old(coll.Links())
    {
      var n := coll.nodes[coll.nMap[owner]];
      n.AddCorrelation(peer, c.score, c.vtx, c.rel);
      ViewsAfterTableChange(coll, n);
    }

    /** The editCorrelation overload for the change `ch`, on the node `owner`. */
    method EditEntry(owner: nat, peer: nat, ch: Change) returns (out: Outcome)
      requires Valid() && owner in coll.Graph()
      modifies coll.nodes
      ensures Valid()
      ensures out == if peer in old(coll.Graph())[owner] then Pass else Fail(CorrelationNotFound)
      ensures coll.Graph() == old(coll.Graph())[owner := Edited(old(coll.Graph())[owner], peer, ch)]
      ensures out.Fail? ==> coll.Graph() == old(coll.Graph())
      ensures coll.Links() == old(coll.Links())
    {
      var n := coll.nodes[coll.nMap[owner]];
      out := n.Edit(peer, ch);
      ViewsAfterTableChange(coll, n);
      if out.Fail? {
        assert n.corr == old(n.corr);
        assert old(coll.Graph())[owner] == old(n.corr);
      }
    }

    /** eraseCorrelation on the node `owner`. */
    method EraseEntry(owner: nat, peer: nat)
      requires Valid() && owner in coll.Graph()
      modifies coll.nodes
      ensures Valid()
      ensures coll.Graph() == old(coll.Graph())[owner := old(coll.Graph())[owner] - {peer}]
      ensures coll.Links() == old(coll.Links())
    {
      var n := coll.nodes[coll.nMap[owner]];
      n.EraseCorrelation(peer);
      ViewsAfterTableChange(coll, n);
    }

    /** addChild on the node `p`. */
    method AddChildAt(p: nat, c: nat)
      requires Valid() && p in coll.Graph()
      modifies coll.nodes
      ensures Valid()
      ensures coll.State() == AddChildLink(old(coll.State()), p, c)
    {
      var n := coll.nodes[coll.nMap[p]];
      n.AddChild(c);
      ViewsAfterLinkChange(coll, n);
    }

    /** setParent on the node `c`. */
    method SetParentAt(c: nat, p: nat)
      requires Valid() && c in coll.Graph()
      modifies coll.nodes
      ensures Valid()
      ensures coll.State() == SetParentLink(old(coll.State()), c, p)
    {
      var n := coll.nodes[coll.nMap[c]];
      n.SetParent(p);
      ViewsAfterLinkChange(coll, n);
    }

    // -------------------------------------------------------------------
    // Correlation edits on both ends (Manager.cxx:148-302)
    // -------------------------------------------------------------------

    /** The two NodeExists checks every two-sided edit starts with. */
    method BothExist(id1: nat, id2: nat) returns (known: bool)
      requires Valid()
      ensures known <==> id1 in coll.Graph() && id2 in coll.Graph()
      ensures coll.Graph() == old(coll.Graph()) && coll.Links() == old(coll.Links())
    {
      known := coll.NodeExists(id1);
      ViewsKept(coll);
      if known {
        known := coll.NodeExists(id2);
        ViewsKept(coll);
      }
    }

    /**
     * AddCorrelation: both nodes must exist; a prohibited relation is
     * silently skipped; otherwise id2 records `rel` for id1 and id1 records
     * its inverse for id2.
     */
    method AddCorrelation(id1: nat, id2: nat, score: real, vtx: Point, rel: Relation) returns (out: Outcome)
      requires Valid()
      modifies coll.nodes
      ensures Valid()
      ensures AddSpec(old(coll.Graph()), prohibits, id1, id2, Correlation(score, vtx, rel)) == Reported(out, coll.Graph())
      ensures out.Fail? ==> coll.Graph() == old(coll.Graph())
      ensures coll.Links() == old(coll.Links())
    {
      var known := BothExist(id1, id2);
      if !known {
        return Fail(NodeNotFound);
      }
      if Vetoed(prohibits, id1, id2, rel) {
        return Pass;
      }
      WriteBoth(id1, id2, Correlation(score, vtx, rel));
      out := Pass;
    }

    /** id2 records `c` for id1, then id1 records its mirror image for id2. */
    method WriteBoth(id1: nat, id2: nat, c: Correlation)
      requires Valid() && id1 in coll.Graph() && id2 in coll.Graph()
      modifies coll.nodes
      ensures Valid()
      ensures coll.Graph() == Write(Write(old(coll.Graph()), id2, id1, c), id1, id2, Mirror(c))
      ensures coll.Links() == old(coll.Links())
    {
      WriteEntry(id2, id1, c);
      WriteEntry(id1, id2, Mirror(c));
    }

    /**
     * The four EditCorrelation overloads, one per form of `ch`: id2's entry
     * for id1 is edited, then id1's entry for id2 with the mirrored change.
     */
    method EditCorrelation(id1: nat, id2: nat, ch: Change) returns (out: Outcome)
      requires Valid()
      modifies coll.nodes
      ensures Valid()
      ensures Step(coll.Graph(), out) == EditSpec(old(coll.Graph()), prohibits, id1, id2, ch)
      ensures coll.Links() == old(coll.Links())
    {
      var known := BothExist(id1, id2);
      if !known {
        return Fail(NodeNotFound);
      }
      if VetoedChange(prohibits, id1, id2, ch) {
        return Pass;
      }
      out := EditBothEntries(id1, id2, ch);
    }

    /** id2's entry for id1 edited, then id1's entry for id2 with the mirrored change. */
    method EditBothEntries(id1: nat, id2: nat, ch: Change) returns (out: Outcome)
      requires Valid() && id1 in coll.Graph() && id2 in coll.Graph()
      modifies coll.nodes
      ensures Valid()
      ensures Step(coll.Graph(), out) == EditBoth(old(coll.Graph()), id1, id2, ch)
      ensures coll.Links() == old(coll.Links())
    {
      ghost var g := coll.Graph();
      out := EditEntry(id2, id1, ch);
      if out.Fail? {
        assert id1 !in g[id2];
        return;
      }
      ghost var g1 := g[id2 := Edited(g[id2], id1, ch)];
      assert coll.Graph() == g1;
      out := EditEntry(id1, id2, MirrorChange(ch));
      assert out.Fail? <==> id2 !in g1[id1];
    }

    /** EraseCorrelation: both nodes must exist; each forgets the other. */
    method EraseCorrelation(id1: nat, id2: nat) returns (out: Outcome)
      requires Valid()
      modifies coll.nodes
      ensures Valid()
      ensures EraseSpec(old(coll.Graph()), id1, id2) == Reported(out, coll.Graph())
      ensures out.Fail? ==> coll.Graph() == old(coll.Graph())
      ensures coll.Links() == old(coll.Links())
    {
      var known := BothExist(id1, id2);
      if !known {
        return Fail(NodeNotFound);
      }
      EraseBothAt(id1, id2);
      out := Pass;
    }

    /** Each of the two nodes forgets the other. */
    method EraseBothAt(id1: nat, id2: nat)
      requires Valid() && id1 in coll.Graph() && id2 in coll.Graph()
      modifies coll.nodes
      ensures Valid()
      ensures coll.Graph() == EraseBoth(old(coll.Graph()), id1, id2)
      ensures coll.Links() == old(coll.Links())
    {
      EraseEntry(id1, id2);
      EraseEntry(id2, id1);
    }

    /** Erase the pair of every proposal with a negative score, in the strategy's order. */
    method Prune(ps: seq<Proposal>) returns (out: Outcome)
      requires Valid()
      modifies coll.nodes
      ensures Valid()
      ensures PruneFrom(old(coll.Graph()), ps, 0) == Reported(out, coll.Graph())
      ensures coll.Links() == old(coll.Links())
    {
      var k := 0;
      while k < |ps|
        invariant k <= |ps|
        invariant Valid()
        invariant PruneFrom(old(coll.Graph()), ps, 0) == PruneFrom(coll.Graph(), ps, k)
        invariant coll.Links() == old(coll.Links())
      {
        out := PruneStep(ps, k);
        if out.Fail? {
          return;
        }
        k := k + 1;
      }
      out := Pass;
    }

    /** The loop body of Prune at proposal k. */
    method PruneStep(ps: seq<Proposal>, k: nat) returns (out: Outcome)
      requires Valid() && k < |ps|
      modifies coll.nodes
      ensures Valid()
      ensures PruneFrom(old(coll.Graph()), ps, k)
              == if out.Pass? then PruneFrom(coll.Graph(), ps, k + 1) else Err(out.error)
      ensures coll.Links() == old(coll.Links())
    {
      out := Pass;
      if ps[k].corr.score < 0.0 {
        out := EraseCorrelation(ps[k].a, ps[k].b);
      }
    }

    /** GetNode(id).getCorrelations(): the table of a registered node; an unknown id fails. */
    method CorrsAt(id: nat) returns (r: Result<CorrMap>)
      requires Valid()
      ensures r == if id in coll.Graph() then Ok(coll.Graph()[id]) else Err(NodeNotFound)
      ensures coll.Graph() == old(coll.Graph()) && coll.Links() == old(coll.Links())
    {
      var n := coll.GetNode(id);
      ViewsKept(coll);
      if n.Err? {
        return Err(n.error);
      }
      r := Ok(n.value.corr);
    }

    // -------------------------------------------------------------------
    // FindBestParent (Manager.cxx:384-416)
    // -------------------------------------------------------------------

    /** A node with two or more Parent peers asks the strategy which pairs to drop. */
    method FindBestParent(id: nat) returns (out: Outcome)
      requires Valid()
      modifies coll.nodes
      ensures Valid()
      ensures FindBestParentSpec(old(coll.Graph()), Settings(), id) == Reported(out, coll.Graph())
      ensures coll.Links() == old(coll.Links())
    {
      var r := CorrsAt(id);
      if r.Err? {
        return Fail(r.error);
      }
      var parents := PeersWith(r.value, Parent);
      if |parents| < 2 {
        return Pass;
      }
      out := Prune(bestParent(coll.Graph(), id, parents));
    }

    // -------------------------------------------------------------------
    // ParentIsSiblingsSibling (Manager.cxx:787-822)
    // -------------------------------------------------------------------

    /** A node with a parent and siblings: each sibling related to the parent otherwise than as its child goes to the strategy. */
    method ParentIsSiblingsSibling(id: nat) returns (out: Outcome)
      requires Valid()
      modifies coll.nodes
      ensures Valid()
      ensures ParentSiblingSpec(old(coll.Graph()), Settings(), id) == Reported(out, coll.Graph())
      ensures coll.Links() == old(coll.Links())
    {
      var r := CorrsAt(id);
      if r.Err? {
        return Fail(r.error);
      }
      var conflict := HasConflict(r.value);
      if conflict.Err? {
        return Fail(conflict.error);
      }
      if !conflict.value {
        return Pass;
      }
      var sibs := GetSiblings(r.value).value;
      var p := GetParent(r.value).value;
      out := ParentSiblingLoop(id, p, sibs);
    }

    /** The sibling loop of ParentIsSiblingsSibling. */
    method ParentSiblingLoop(id: nat, p: nat, sibs: seq<nat>) returns (out: Outcome)
      requires Valid()
      modifies coll.nodes
      ensures Valid()
      ensures ParentSiblingFrom(old(coll.Graph()), Settings(), id, p, sibs, 0) == Reported(out, coll.Graph())
      ensures coll.Links() == old(coll.Links())
    {
      ghost var spec := ParentSiblingFrom(coll.Graph(), Settings(), id, p, sibs, 0);
      var k := 0;
      while k < |sibs|
        invariant k <= |sibs|
        invariant Valid()
        invariant spec == ParentSiblingFrom(coll.Graph(), Settings(), id, p, sibs, k)
        invariant coll.Links() == old(coll.Links())
      {
        out := ParentSiblingStep(id, p, sibs, k);
        if out.Fail? {
          return;
        }
        k := k + 1;
      }
      out := Pass;
    }

    /** One iteration of that loop, for the sibling at position k. */
    method ParentSiblingStep(id: nat, p: nat, sibs: seq<nat>, k: nat) returns (out: Outcome)
      requires Valid() && k < |sibs|
      modifies coll.nodes
      ensures Valid()
      ensures ParentSiblingFrom(old(coll.Graph()), Settings(), id, p, sibs, k) ==
              if out.Pass? then ParentSiblingFrom(coll.Graph(), Settings(), id, p, sibs, k + 1) else Err(out.error)
      ensures coll.Links() == old(coll.Links())
    {
      var r := CorrsAt(sibs[k]);
      if r.Err? {
        return Fail(r.error);
      }
      out := Pass;
      if p in r.value && r.value[p].rel != Parent {
        out := Prune(parentSibling(coll.Graph(), id, p, sibs[k]));
      }
    }

    // -------------------------------------------------------------------
    // IfConflictRemoveSibling (Manager.cxx:907-925)
    // -------------------------------------------------------------------

    /** A node with a parent and siblings forgets every sibling without the same parent. */
    method IfConflictRemoveSibling(id: nat) returns (out: Outcome)
      requires Valid()
      modifies coll.nodes
      ensures Valid()
      ensures RemoveSiblingSpec(old(coll.Graph()), id) == Reported(out, coll.Graph())
      ensures coll.Links() == old(coll.Links())
    {
      var r := CorrsAt(id);
      if r.Err? {
        return Fail(r.error);
      }
      var conflict := HasConflict(r.value);
      if conflict.Err? {
        return Fail(conflict.error);
      }
      if !conflict.value {
        return Pass;
      }
      var sibs := GetSiblings(r.value).value;
      var p := GetParent(r.value).value;
      out := RemoveSiblingLoop(id, p, sibs);
    }

    /** The sibling loop of IfConflictRemoveSibling. */
    method RemoveSiblingLoop(id: nat, p: nat, sibs: seq<nat>) returns (out: Outcome)
      requires Valid()
      modifies coll.nodes
      ensures Valid()
      ensures RemoveSiblingFrom(old(coll.Graph()), id, p, sibs, 0) == Reported(out, coll.Graph())
      ensures coll.Links() == old(coll.Links())
    {
      ghost var spec := RemoveSiblingFrom(coll.Graph(), id, p, sibs, 0);
      var k := 0;
      while k < |sibs|
        invariant k <= |sibs|
        invariant Valid()
        invariant spec == RemoveSiblingFrom(coll.Graph(), id, p, sibs, k)
        invariant coll.Links() == old(coll.Links())
      {
        out := RemoveSiblingStep(id, p, sibs, k);
        if out.Fail? {
          return;
        }
        k := k + 1;
      }
      out := Pass;
    }

    /** The sibling loop at position k: a sibling with another parent loses its correlation with `id`. */
    method RemoveSiblingStep(id: nat, p: nat, sibs: seq<nat>, k: nat) returns (out: Outcome)
      requires Valid() && k < |sibs|
      modifies coll.nodes
      ensures Valid()
      ensures RemoveSiblingFrom(old(coll.Graph()), id, p, sibs, k)
              == if out.Pass? then RemoveSiblingFrom(coll.Graph(), id, p, sibs, k + 1) else Err(out.error)
      ensures coll.Links() == old(coll.Links())
    {
      var r := CorrsAt(sibs[k]);
      if r.Err? {
        return Fail(r.error);
      }
      var drop := Disowned(r.value, p);
      if drop.Err? {
        return Fail(drop.error);
      }
      out := Pass;
      if drop.value {
        out := EraseCorrelation(id, sibs[k]);
      }
    }

    // -------------------------------------------------------------------
    // ResolveSiblingsWithDifferentParent (Manager.cxx:681-763)
    // -------------------------------------------------------------------

    /** A node with a parent and siblings: every sibling with another parent is reconciled. */
    method ResolveSiblingsWithDifferentParent(id: nat) returns (out: Outcome)
      requires Valid()
      modifies coll.nodes
      ensures Valid()
      ensures ResolveSiblingsSpec(old(coll.Graph()), id) == Reported(out, coll.Graph())
      ensures coll.Links() == old(coll.Links())
    {
      var r := CorrsAt(id);
      if r.Err? {
        return Fail(r.error);
      }
      var conflict := HasConflict(r.value);
      if conflict.Err? {
        return Fail(conflict.error);
      }
      if !conflict.value {
        return Pass;
      }
      var p := GetParent(r.value).value;
      var sibs := GetSiblings(r.value).value;
      out := ResolveSiblingsLoop(id, p, sibs);
    }

    /** The sibling loop of ResolveSiblingsWithDifferentParent. */
    method ResolveSiblingsLoop(id: nat, p: nat, sibs: seq<nat>) returns (out: Outcome)
      requires Valid()
      modifies coll.nodes
      ensures Valid()
      ensures ResolveSiblingsFrom(old(coll.Graph()), id, p, sibs, 0) == Reported(out, coll.Graph())
      ensures coll.Links() == old(coll.Links())
    {
      ghost var spec := ResolveSiblingsFrom(coll.Graph(), id, p, sibs, 0);
      var k := 0;
      while k < |sibs|
        invariant k <= |sibs|
        invariant Valid()
        invariant spec == ResolveSiblingsFrom(coll.Graph(), id, p, sibs, k)
        invariant coll.Links() == old(coll.Links())
      {
        out := ReconcileSibling(id, p, sibs, k);
        if out.Fail? {
          return;
        }
        k := k + 1;
      }
      out := Pass;
    }

    /** One iteration of that loop, for the sibling at position k. */
    method ReconcileSibling(id: nat, p: nat, sibs: seq<nat>, k: nat) returns (out: Outcome)
      requires Valid() && k < |sibs|
      modifies coll.nodes
      ensures Valid()
      ensures ResolveSiblingsFrom(old(coll.Graph()), id, p, sibs, k) ==
              if out.Pass? then ResolveSiblingsFrom(coll.Graph(), id, p, sibs, k + 1) else Err(out.error)
      ensures coll.Links() == old(coll.Links())
    {
      var s := sibs[k];
      var r := CorrsAt(s);
      if r.Err? {
        return Fail(r.error);
      }
      var hp := HasParent(r.value);
      if hp.Err? {
        return Fail(hp.error);
      }
      if !hp.value {
        return Pass;
      }
      var sp := GetParent(r.value).value;
      if sp == p {
        return Pass;
      }
      if |sibs| > 1 {
        out := EraseCorrelation(id, s);
        return;
      }
      var own := CorrsAt(id);
      if own.Err? {
        return Fail(own.error);
      }
      var d := ChooseDrop(GetScore(own.value, p), GetScore(own.value, s), GetScore(r.value, sp));
      match d
      case DropSiblingParent => out := EraseCorrelation(s, sp);
      case DropParent => out := EraseCorrelation(id, p);
      case DropSibling => out := EraseCorrelation(id, s);
    }

    // -------------------------------------------------------------------
    // SortSiblings (Manager.cxx:431-538)
    // -------------------------------------------------------------------

    /** Several siblings are linked to each other (loose) or reduced to the best one (strict). */
    method SortSiblings(id: nat) returns (out: Outcome)
      requires Valid()
      modifies coll.nodes
      ensures Valid()
      ensures SortSiblingsSpec(old(coll.Graph()), Settings(), id) == Reported(out, coll.Graph())
      ensures coll.Links() == old(coll.Links())
    {
      var r := CorrsAt(id);
      if r.Err? {
        return Fail(r.error);
      }
      var m := r.value;
      if !HasSiblings(m) {
        return Pass;
      }
      var sibs := GetSiblings(m).value;
      if |sibs| == 1 {
        return Pass;
      }
      var same := AllSame(m, sibs, m[sibs[0]].vtx);
      ViewsKept(coll);
      out := SortMany(id, m, sibs, same);
    }

    /** Several siblings: linked to each other if they agree, else merged (loose) or reduced to the best (strict). */
    method SortMany(id: nat, m: CorrMap, sibs: seq<nat>, same: bool) returns (out: Outcome)
      requires Valid() && id in coll.Graph() && coll.Graph()[id] == m
      requires GetSiblings(m) == Ok(sibs) && |sibs| > 1
      requires same == SameVertex(m, sibs, m[sibs[0]].vtx)
      modifies coll.nodes
      ensures Valid()
      ensures SortSiblingsSpec(old(coll.Graph()), Settings(), id) == Reported(out, coll.Graph())
      ensures coll.Links() == old(coll.Links())
    {
      if same {
        if loose {
          out := RecreateAll(sibs, m[sibs[0]].vtx);
        } else {
          out := Pass;
        }
      } else {
        out := SortDiffering(id, m, sibs);
      }
    }

    /** Siblings whose vertices differ: merged at the centre (loose) or reduced to the best (strict). */
    method SortDiffering(id: nat, m: CorrMap, sibs: seq<nat>) returns (out: Outcome)
      requires Valid() && forall s :: s in sibs ==> s in m
      modifies coll.nodes
      ensures Valid()
      ensures (if loose then
                 var nv := center(Vertices(m, sibs));
                 var h :- MoveFrom(old(coll.Graph()), prohibits, id, sibs, nv, 0);
                 LinkFrom(h, prohibits, sibs, nv, true, 0, 1)
               else DropFrom(old(coll.Graph()), id, sibs, BestSibling(m, sibs), 0))
              == Reported(out, coll.Graph())
      ensures coll.Links() == old(coll.Links())
    {
      if loose {
        out := Spread(id, m, sibs);
      } else {
        out := KeepBest(id, m, sibs);
      }
    }

    /** The strict mode with differing vertices: only the best-scored sibling keeps its pair with `id`. */
    method KeepBest(id: nat, m: CorrMap, sibs: seq<nat>) returns (out: Outcome)
      requires Valid()
      modifies coll.nodes
      ensures Valid()
      ensures DropFrom(old(coll.Graph()), id, sibs, BestSibling(m, sibs), 0) == Reported(out, coll.Graph())
      ensures coll.Links() == old(coll.Links())
    {
      var keep := PickBest(m, sibs);
      ViewsKept(coll);
      out := DropAll(id, sibs, keep);
    }

    /** The loose mode with differing vertices: every pair moved to the centre, then the siblings linked to each other. */
    method Spread(id: nat, m: CorrMap, sibs: seq<nat>) returns (out: Outcome)
      requires Valid() && forall s :: s in sibs ==> s in m
      modifies coll.nodes
      ensures Valid()
      ensures (var nv := center(Vertices(m, sibs));
               var h :- MoveFrom(old(coll.Graph()), prohibits, id, sibs, nv, 0);
               LinkFrom(h, prohibits, sibs, nv, true, 0, 1)) == Reported(out, coll.Graph())
      ensures coll.Links() == old(coll.Links())
    {
      var vs := VertexList(m, sibs);
      ViewsKept(coll);
      out := MoveThenLink(id, sibs, center(vs));
    }

    /** Every pair with `id` moved to the vertex nv, then the siblings linked to each other there. */
    method MoveThenLink(id: nat, sibs: seq<nat>, nv: Point) returns (out: Outcome)
      requires Valid()
      modifies coll.nodes
      ensures Valid()
      ensures (var h :- MoveFrom(old(coll.Graph()), prohibits, id, sibs, nv, 0);
               LinkFrom(h, prohibits, sibs, nv, true, 0, 1)) == Reported(out, coll.Graph())
      ensures coll.Links() == old(coll.Links())
    {
      out := MoveAll(id, sibs, nv);
      if out.Fail? {
        return;
      }
      out := MergeAll(sibs, nv);
    }

    /** The vertex comparison loop: does every sibling entry carry the first sibling's vertex? */
    method AllSame(m: CorrMap, sibs: seq<nat>, v: Point) returns (same: bool)
      requires |sibs| >= 1 && (forall s :: s in sibs ==> s in m) && m[sibs[0]].vtx == v
      ensures same == SameVertex(m, sibs, v)
    {
      same := true;
      var i := 1;
      while i < |sibs|
        invariant 1 <= i <= |sibs|
        invariant forall j :: 0 <= j < i ==> m[sibs[j]].vtx == v
      {
        if m[sibs[i]].vtx != v {
          same := false;
          break;
        }
        i := i + 1;
      }
    }

    /** The list of the siblings' vertices. */
    method VertexList(m: CorrMap, sibs: seq<nat>) returns (vs: seq<Point>)
      requires forall s :: s in sibs ==> s in m
      ensures vs == Vertices(m, sibs)
    {
      vs := [];
      for k := 0 to |sibs|
        invariant vs == Vertices(m, sibs[..k])
      {
        assert sibs[..k + 1] == sibs[..k] + [sibs[k]];
        vs := vs + [m[sibs[k]].vtx];
      }
      assert sibs[..|sibs|] == sibs;
    }

    /** Every sibling's pair with `id` moved to vertex v. */
    method MoveAll(id: nat, sibs: seq<nat>, v: Point) returns (out: Outcome)
      requires Valid()
      modifies coll.nodes
      ensures Valid()
      ensures MoveFrom(old(coll.Graph()), prohibits, id, sibs, v, 0) == Reported(out, coll.Graph())
      ensures coll.Links() == old(coll.Links())
    {
      ghost var spec := MoveFrom(coll.Graph(), prohibits, id, sibs, v, 0);
      var k := 0;
      while k < |sibs|
        invariant k <= |sibs|
        invariant Valid()
        invariant spec == MoveFrom(coll.Graph(), prohibits, id, sibs, v, k)
        invariant coll.Links() == old(coll.Links())
      {
        out := MoveStep(id, sibs, v, k);
        if out.Fail? {
          return;
        }
        k := k + 1;
      }
      out := Pass;
    }

    /** The move loop at position k: the pair (id, sibs[k]) gets vertex v and the loop goes on from k + 1. */
    method MoveStep(id: nat, sibs: seq<nat>, v: Point, k: nat) returns (out: Outcome)
      requires Valid() && k < |sibs|
      modifies coll.nodes
      ensures Valid()
      ensures MoveFrom(old(coll.Graph()), prohibits, id, sibs, v, k)
              == if out.Pass? then MoveFrom(coll.Graph(), prohibits, id, sibs, v, k + 1) else Err(out.error)
      ensures coll.Links() == old(coll.Links())
    {
      out := EditCorrelation(id, sibs[k], NewVertex(v));
    }

    /** The loop over sibling pairs (i, j), i < j, when every sibling agrees on the vertex: each pair re-created as Sibling. */
    method RecreateAll(sibs: seq<nat>, v: Point) returns (out: Outcome)
      requires Valid()
      modifies coll.nodes
      ensures Valid()
      ensures LinkFrom(old(coll.Graph()), prohibits, sibs, v, false, 0, 1) == Reported(out, coll.Graph())
      ensures coll.Links() == old(coll.Links())
    {
      ghost var spec := LinkFrom(coll.Graph(), prohibits, sibs, v, false, 0, 1);
      var i := 0;
      while i < |sibs|
        invariant i <= |sibs|
        invariant Valid()
        invariant spec == LinkFrom(coll.Graph(), prohibits, sibs, v, false, i, i + 1)
        invariant coll.Links() == old(coll.Links())
      {
        out := RecreateRow(sibs, v, i);
        if out.Fail? {
          return;
        }
        i := i + 1;
      }
      out := Pass;
    }

    /** The inner loop: sibling i paired again with every later sibling. */
    method RecreateRow(sibs: seq<nat>, v: Point, i: nat) returns (out: Outcome)
      requires Valid() && i < |sibs|
      modifies coll.nodes
      ensures Valid()
      ensures LinkFrom(old(coll.Graph()), prohibits, sibs, v, false, i, i + 1) ==
              if out.Pass? then LinkFrom(coll.Graph(), prohibits, sibs, v, false, i, |sibs|) else Err(out.error)
      ensures coll.Links() == old(coll.Links())
    {
      ghost var spec := LinkFrom(coll.Graph(), prohibits, sibs, v, false, i, i + 1);
      ghost var links := coll.Links();
      var j := i + 1;
      while j < |sibs|
        invariant i + 1 <= j <= |sibs|
        invariant Valid()
        invariant spec == LinkFrom(coll.Graph(), prohibits, sibs, v, false, i, j)
        invariant coll.Links() == links
      {
        out := RecreateStep(sibs, v, i, j);
        if out.Fail? {
          return;
        }
        j := j + 1;
      }
      out := Pass;
    }

    /** The inner loop at (i, j): the pair is re-created and the loop goes on from j + 1. */
    method RecreateStep(sibs: seq<nat>, v: Point, i: nat, j: nat) returns (out: Outcome)
      requires Valid() && i < j < |sibs|
      modifies coll.nodes
      ensures Valid()
      ensures LinkFrom(old(coll.Graph()), prohibits, sibs, v, false, i, j) ==
              if out.Pass? then LinkFrom(coll.Graph(), prohibits, sibs, v, false, i, j + 1) else Err(out.error)
      ensures coll.Links() == old(coll.Links())
    {
      var r := CorrsAt(sibs[i]);
      if r.Err? {
        return Fail(r.error);
      }
      out := RecreatePair(sibs[i], sibs[j], v, r.value);
    }

    /** The loop over sibling pairs (i, j), i < j, after the move to the centre; the outer loop stops before the last sibling, whose row is empty. */
    method MergeAll(sibs: seq<nat>, v: Point) returns (out: Outcome)
      requires Valid()
      modifies coll.nodes
      ensures Valid()
      ensures LinkFrom(old(coll.Graph()), prohibits, sibs, v, true, 0, 1) == Reported(out, coll.Graph())
      ensures coll.Links() == old(coll.Links())
    {
      ghost var spec := LinkFrom(coll.Graph(), prohibits, sibs, v, true, 0, 1);
      var i := 0;
      while i + 1 < |sibs|
        invariant i <= |sibs|
        invariant Valid()
        invariant spec == LinkFrom(coll.Graph(), prohibits, sibs, v, true, i, i + 1)
        invariant coll.Links() == old(coll.Links())
      {
        out := MergeRow(sibs, v, i);
        if out.Fail? {
          return;
        }
        i := i + 1;
      }
      out := Pass;
    }

    /** The inner loop: sibling i merged with every later sibling. */
    method MergeRow(sibs: seq<nat>, v: Point, i: nat) returns (out: Outcome)
      requires Valid() && i < |sibs|
      modifies coll.nodes
      ensures Valid()
      ensures LinkFrom(old(coll.Graph()), prohibits, sibs, v, true, i, i + 1) ==
              if out.Pass? then LinkFrom(coll.Graph(), prohibits, sibs, v, true, i, |sibs|) else Err(out.error)
      ensures coll.Links() == old(coll.Links())
    {
      ghost var spec := LinkFrom(coll.Graph(), prohibits, sibs, v, true, i, i + 1);
      ghost var links := coll.Links();
      var j := i + 1;
      while j < |sibs|
        invariant i + 1 <= j <= |sibs|
        invariant Valid()
        invariant spec == LinkFrom(coll.Graph(), prohibits, sibs, v, true, i, j)
        invariant coll.Links() == links
      {
        out := MergeStep(sibs, v, i, j);
        if out.Fail? {
          return;
        }
        j := j + 1;
      }
      out := Pass;
    }

    /** The inner loop at (i, j): the pair is merged and the loop goes on from j + 1. */
    method MergeStep(sibs: seq<nat>, v: Point, i: nat, j: nat) returns (out: Outcome)
      requires Valid() && i < j < |sibs|
      modifies coll.nodes
      ensures Valid()
      ensures LinkFrom(old(coll.Graph()), prohibits, sibs, v, true, i, j) ==
              if out.Pass? then LinkFrom(coll.Graph(), prohibits, sibs, v, true, i, j + 1) else Err(out.error)
      ensures coll.Links() == old(coll.Links())
    {
      var r := CorrsAt(sibs[i]);
      if r.Err? {
        return Fail(r.error);
      }
      out := MergePair(sibs[i], sibs[j], v, r.value);
    }

    /** An existing Sibling pair gets the new vertex; any other existing relation is refused; a missing pair is added. */
    method MergePair(a: nat, b: nat, v: Point, row: CorrMap) returns (out: Outcome)
      requires Valid() && a in coll.Graph() && coll.Graph()[a] == row
      modifies coll.nodes
      ensures Valid()
      ensures LinkPair(old(coll.Graph()), prohibits, a, b, v, true) == Reported(out, coll.Graph())
      ensures coll.Links() == old(coll.Links())
    {
      if b in row {
        if row[b].rel != Sibling {
          return Fail(NotSiblingRelation);
        }
        out := EditCorrelation(a, b, NewVertex(v));
      } else {
        out := AddCorrelation(a, b, 0.0, v, Sibling);
      }
    }

    /** An existing pair is erased, then the Sibling pair is added. */
    method RecreatePair(a: nat, b: nat, v: Point, row: CorrMap) returns (out: Outcome)
      requires Valid() && a in coll.Graph() && coll.Graph()[a] == row
      modifies coll.nodes
      ensures Valid()
      ensures LinkPair(old(coll.Graph()), prohibits, a, b, v, false) == Reported(out, coll.Graph())
      ensures coll.Links() == old(coll.Links())
    {
      if b in row {
        ghost var g := coll.Graph();
        out := EraseCorrelation(a, b);
        if out.Fail? {
          return;
        }
        assert EraseSpec(g, a, b) == Ok(coll.Graph());
      }
      out := AddCorrelation(a, b, 0.0, v, Sibling);
    }

    /** The running maximum of the strict mode. */
    method PickBest(m: CorrMap, sibs: seq<nat>) returns (best: Option<nat>)
      ensures best == BestSibling(m, sibs)
    {
      var top := 0.0;
      best := None;
      for k := 0 to |sibs|
        invariant BestSibling(m, sibs) == BestFrom(m, sibs, k, top, best)
      {
        var score := GetScore(m, sibs[k]);
        if score > top {
          top := score;
          best := Some(sibs[k]);
        }
      }
    }

    /** Every sibling but the kept one forgets `id`. */
    method DropAll(id: nat, sibs: seq<nat>, keep: Option<nat>) returns (out: Outcome)
      requires Valid()
      modifies coll.nodes
      ensures Valid()
      ensures DropFrom(old(coll.Graph()), id, sibs, keep, 0) == Reported(out, coll.Graph())
      ensures coll.Links() == old(coll.Links())
    {
      ghost var spec := DropFrom(coll.Graph(), id, sibs, keep, 0);
      ghost var links := coll.Links();
      var k := 0;
      while k < |sibs|
        invariant k <= |sibs|
        invariant Valid()
        invariant spec == DropFrom(coll.Graph(), id, sibs, keep, k)
        invariant coll.Links() == links
      {
        out := DropStep(id, sibs, keep, k);
        if out.Fail? {
          return;
        }
        k := k + 1;
      }
      out := Pass;
    }

    /** The loop body of DropAll at sibling k. */
    method DropStep(id: nat, sibs: seq<nat>, keep: Option<nat>, k: nat) returns (out: Outcome)
      requires Valid() && k < |sibs|
      modifies coll.nodes
      ensures Valid()
      ensures DropFrom(old(coll.Graph()), id, sibs, keep, k)
              == if out.Pass? then DropFrom(coll.Graph(), id, sibs, keep, k + 1) else Err(out.error)
      ensures coll.Links() == old(coll.Links())
    {
      out := Pass;
      if keep != Some(sibs[k]) {
        out := EraseCorrelation(id, sibs[k]);
      }
    }

    // -------------------------------------------------------------------
    // The pipeline (Manager.cxx:304-382, 418-428, 765-774, 885-894)
    // -------------------------------------------------------------------

    /** One pass for one node. */
    method PassStep(pass: Pass, id: nat) returns (out: Outcome)
      requires Valid()
      modifies coll.nodes
      ensures Valid()
      ensures PassOne(old(coll.Graph()), Settings(), pass, id) == Reported(out, coll.Graph())
      ensures coll.Links() == old(coll.Links())
    {
      match pass
      case BestParentPass => out := FindBestParent(id);
      case ParentSiblingPass => out := ParentIsSiblingsSibling(id);
      case RemoveSiblingPass => out := IfConflictRemoveSibling(id);
      case SortSiblingsPass => out := SortSiblings(id);
    }

    /** One pass over every node, in the order of the id list. */
    method RunPass(pass: Pass, ids: seq<nat>) returns (out: Outcome)
      requires Valid()
      modifies coll.nodes
      ensures Valid()
      ensures PassFrom(old(coll.Graph()), Settings(), pass, ids, 0) == Reported(out, coll.Graph())
      ensures coll.Links() == old(coll.Links())
    {
      ghost var env := Settings();
      ghost var spec := PassFrom(coll.Graph(), env, pass, ids, 0);
      ghost var links := coll.Links();
      var k := 0;
      while k < |ids|
        invariant k <= |ids|
        invariant Valid() && env == Settings()
        invariant spec == PassFrom(coll.Graph(), env, pass, ids, k)
        invariant coll.Links() == links
      {
        out := PassAt(pass, ids, k);
        if out.Fail? {
          return;
        }
        k := k + 1;
      }
      out := Pass;
    }

    /** The pass loop at position k: the pass runs on ids[k] and the loop goes on from k + 1. */
    method PassAt(pass: Pass, ids: seq<nat>, k: nat) returns (out: Outcome)
      requires Valid() && k < |ids|
      modifies coll.nodes
      ensures Valid()
      ensures PassFrom(old(coll.Graph()), Settings(), pass, ids, k)
              == if out.Pass? then PassFrom(coll.Graph(), Settings(), pass, ids, k + 1) else Err(out.error)
      ensures coll.Links() == old(coll.Links())
    {
      out := PassStep(pass, ids[k]);
    }

    /** ResolveConflicts: the four passes in their fixed order. */
    method ResolveConflicts() returns (out: Outcome)
      requires Valid()
      modifies coll.nodes
      ensures Valid()
      ensures ResolveConflictsSpec(old(coll.Graph()), Settings(), old(coll.ids)) == Reported(out, coll.Graph())
      ensures coll.Links() == old(coll.Links())
    {
      var ids := coll.ids;
      out := RunPass(BestParentPass, ids);
      if out.Fail? {
        return;
      }
      out := LaterPasses(ids);
    }

    /** The last three passes of ResolveConflicts. */
    method LaterPasses(ids: seq<nat>) returns (out: Outcome)
      requires Valid()
      modifies coll.nodes
      ensures Valid()
      ensures (var g2 :- PassFrom(old(coll.Graph()), Settings(), ParentSiblingPass, ids, 0);
               var g3 :- PassFrom(g2, Settings(), RemoveSiblingPass, ids, 0);
               PassFrom(g3, Settings(), SortSiblingsPass, ids, 0))
              == Reported(out, coll.Graph())
      ensures coll.Links() == old(coll.Links())
    {
      out := RunPass(ParentSiblingPass, ids);
      if out.Fail? {
        return;
      }
      out := LastPasses(ids);
    }

    /** The last two passes of ResolveConflicts. */
    method LastPasses(ids: seq<nat>) returns (out: Outcome)
      requires Valid()
      modifies coll.nodes
      ensures Valid()
      ensures (var g3 :- PassFrom(old(coll.Graph()), Settings(), RemoveSiblingPass, ids, 0);
               PassFrom(g3, Settings(), SortSiblingsPass, ids, 0))
              == Reported(out, coll.Graph())
      ensures coll.Links() == old(coll.Links())
    {
      out := RunPass(RemoveSiblingPass, ids);
      if out.Fail? {
        return;
      }
      out := RunPass(SortSiblingsPass, ids);
    }

    // -------------------------------------------------------------------
    // MakeTree (Manager.cxx:43-144)
    // -------------------------------------------------------------------

    /** MakeTree: the root list is cleared, then every id is placed, including the aggregates appended on the way. */
    method MakeTree() returns (out: Outcome)
      requires Valid()
      modifies coll, coll.nodes
      ensures Valid()
      ensures MakeTreeSpec(old(coll.State()), prohibits) == Reported(out, coll.State())
    {
      coll.ClearTree();
      ViewsKept(coll);
      out := Walk();
    }

    /** The MakeTree loop over the id list, which grows by the aggregates created on the way. */
    method Walk() returns (out: Outcome)
      requires Valid()
      modifies coll, coll.nodes
      ensures Valid()
      ensures AssembleFrom(old(coll.State()), prohibits, 0, old(|coll.ids|)) == Reported(out, coll.State())
    {
      ghost var n0 := |coll.ids|;
      ghost var cur := coll.State();
      ghost var spec := AssembleFrom(cur, prohibits, 0, n0);
      var n := 0;
      while n < |coll.ids|
        invariant Valid() && cur == coll.State()
        invariant Bounded(cur, n, n0)
        invariant spec == AssembleFrom(cur, prohibits, n, n0)
        invariant Grew(coll)
        decreases 2 * n0 - n
      {
        out, cur := PlaceAt(n, n0, cur);
        if out.Fail? {
          return;
        }
        n := n + 1;
      }
      out := Pass;
    }

    /** The MakeTree loop at position n, from forest f: the node there is placed and the walk goes on from n + 1 in the new forest f1. */
    method PlaceAt(n: nat, ghost n0: nat, ghost f: Forest) returns (out: Outcome, ghost f1: Forest)
      requires Valid() && f == coll.State() && Bounded(f, n, n0) && n < |f.ids|
      modifies coll, coll.nodes
      ensures Valid() && f1 == coll.State()
      ensures out.Pass? ==> Bounded(f1, n + 1, n0)
      ensures AssembleFrom(f, prohibits, n, n0) == if out.Pass? then AssembleFrom(f1, prohibits, n + 1, n0) else Err(out.error)
      ensures Grew(coll)
    {
      AssembleStep(f, prohibits, n, n0);
      out := Place(coll.ids[n]);
      f1 := coll.State();
    }

    /** One iteration of the MakeTree loop, for the node `id`: a node already in the tree is skipped. */
    method Place(id: nat) returns (out: Outcome)
      requires Valid()
      modifies coll, coll.nodes
      ensures Valid()
      ensures PlaceSpec(old(coll.State()), prohibits, id) == Reported(out, coll.State())
      ensures Grew(coll)
    {
      var placed := coll.NodeAdded(id);
      ViewsKept(coll);
      if placed {
        return Pass;
      }
      var r := CorrsAt(id);
      assert coll.heads == old(coll.heads) && coll.ids == old(coll.ids) && coll.nodes == old(coll.nodes);
      if r.Err? {
        return Fail(r.error);
      }
      out := PlaceNew(id, r.value);
    }

    /** A node not yet in the tree: a root if primary, then hung and aggregated. */
    method PlaceNew(id: nat, m: CorrMap) returns (out: Outcome)
      requires Valid() && id in coll.Graph() && coll.Graph()[id] == m
      modifies coll, coll.nodes
      ensures Valid()
      ensures PlaceNode(if IsPrimary(m) then old(coll.State()).(heads := old(coll.heads) + [id]) else old(coll.State()), prohibits, id, m)
              == Reported(out, coll.State())
      ensures Grew(coll)
    {
      if IsPrimary(m) {
        coll.AddPrimaryNode(id);
        ViewsKept(coll);
      }
      out := HangAndGroup(id, m);
    }

    /** The node is hung below its parent and, when it has siblings and no conflict, aggregated with them. */
    method HangAndGroup(id: nat, m: CorrMap) returns (out: Outcome)
      requires Valid() && id in coll.Graph() && coll.Graph()[id] == m
      modifies coll, coll.nodes
      ensures Valid()
      ensures PlaceNode(old(coll.State()), prohibits, id, m) == Reported(out, coll.State())
      ensures Grew(coll)
    {
      out := Attach(id, m);
      if out.Fail? {
        return;
      }
      ghost var f1 := coll.State();
      assert AttachToParent(old(coll.State()), id, m) == Ok(f1);
      var conflict := HasConflict(m).value;
      if conflict || !HasSiblings(m) {
        return Pass;
      }
      out := Aggregate(id, m);
    }

    /** A node with a parent is appended to the parent's children and records the parent. */
    method Attach(id: nat, m: CorrMap) returns (out: Outcome)
      requires Valid() && id in coll.Graph() && coll.Graph()[id] == m
      modifies coll.nodes
      ensures Valid()
      ensures AttachToParent(old(coll.State()), id, m) == Reported(out, coll.State())
    {
      var hp := HasParent(m);
      if hp.Err? {
        return Fail(hp.error);
      }
      if !hp.value {
        return Pass;
      }
      var p := GetParent(m).value;
      var known := coll.NodeExists(p);
      ViewsKept(coll);
      if !known {
        return Fail(NodeNotFound);
      }
      Hang(p, id);
      out := Pass;
    }

    /** A node whose only relatives are siblings gets a fresh aggregate parent, which becomes a root. */
    method Aggregate(id: nat, m: CorrMap) returns (out: Outcome)
      requires Valid() && id in coll.Graph() && coll.Graph()[id] == m
      modifies coll, coll.nodes
      ensures Valid()
      ensures GeoAssembly.Aggregate(old(coll.State()), prohibits, id, m) == Reported(out, coll.State())
      ensures Grew(coll)
    {
      var got := GetSiblings(m);
      if got.Err? {
        return Fail(got.error);
      }
      var sibs := got.value;
      if |sibs| > 1 {
        var same := AllSame(m, sibs, m[sibs[0]].vtx);
        ViewsKept(coll);
        if !same {
          return Fail(SiblingVerticesDiffer);
        }
      }
      var agg := AggregateId(id, sibs[0]);
      var taken := coll.NodeExists(agg);
      ViewsKept(coll);
      if taken {
        return Fail(IdCollision);
      }
      out := Build(id, agg, sibs);
    }

    /** The aggregate is registered, adopts `id` and every sibling, and becomes a root. */
    method Build(id: nat, agg: nat, sibs: seq<nat>) returns (out: Outcome)
      requires Valid() && id in coll.Graph() && agg !in coll.Graph()
      modifies coll, coll.nodes
      ensures Valid()
      ensures (match AdoptFrom(AdoptStep(Register(old(coll.State()), agg), prohibits, agg, id), prohibits, agg, sibs, 0)
               case Err(e) => Err(e)
               case Ok(f3) => Ok(f3.(heads := f3.heads + [agg])))
              == Reported(out, coll.State())
      ensures Grew(coll)
    {
      Host(id, agg);
      out := Gather(agg, sibs);
    }

    /** The aggregate adopts every sibling and then becomes a root. */
    method Gather(agg: nat, sibs: seq<nat>) returns (out: Outcome)
      requires Valid() && agg in coll.Graph()
      modifies coll, coll.nodes
      ensures Valid() && coll.nodes == old(coll.nodes)
      ensures (match AdoptFrom(old(coll.State()), prohibits, agg, sibs, 0)
               case Err(e) => Err(e)
               case Ok(f) => Ok(f.(heads := f.heads + [agg])))
              == Reported(out, coll.State())
    {
      out := AdoptAll(agg, sibs);
      if out.Fail? {
        return;
      }
      label Adopted:
      coll.AddPrimaryNode(agg);
      ViewsKept@Adopted(coll);
    }

    /** The aggregate node is registered and made the parent of `id`. */
    method Host(id: nat, agg: nat)
      requires Valid() && id in coll.Graph() && agg !in coll.Graph()
      modifies coll, coll.nodes
      ensures Valid()
      ensures coll.State() == AdoptStep(Register(old(coll.State()), agg), prohibits, agg, id)
      ensures Grew(coll)
    {
      assert agg !in coll.nMap;
      var n := coll.AddFresh(agg);
      Adopt(agg, id);
    }

    /** The sibling loop of the aggregate. */
    method AdoptAll(agg: nat, sibs: seq<nat>) returns (out: Outcome)
      requires Valid() && agg in coll.Graph()
      modifies coll.nodes
      ensures Valid()
      ensures AdoptFrom(old(coll.State()), prohibits, agg, sibs, 0) == Reported(out, coll.State())
    {
      ghost var spec := AdoptFrom(coll.State(), prohibits, agg, sibs, 0);
      var k := 0;
      while k < |sibs|
        invariant k <= |sibs|
        invariant Valid() && agg in coll.Graph()
        invariant spec == AdoptFrom(coll.State(), prohibits, agg, sibs, k)
      {
        ghost var f := coll.State();
        out := AdoptOne(agg, sibs[k]);
        if out.Fail? {
          return;
        }
        assert AdoptFrom(f, prohibits, agg, sibs, k) == AdoptFrom(coll.State(), prohibits, agg, sibs, k + 1);
        k := k + 1;
      }
      out := Pass;
    }

    /** One sibling becomes a child of the aggregate; an unknown sibling fails. */
    method AdoptOne(agg: nat, s: nat) returns (out: Outcome)
      requires Valid() && agg in coll.Graph()
      modifies coll.nodes
      ensures Valid()
      ensures out == if s in old(coll.Graph()) then Pass else Fail(NodeNotFound)
      ensures out.Pass? ==> coll.State() == AdoptStep(old(coll.State()), prohibits, agg, s)
    {
      var known := coll.NodeExists(s);
      ViewsKept(coll);
      if !known {
        return Fail(NodeNotFound);
      }
      Adopt(agg, s);
      out := Pass;
    }

    /** addChild and setParent on the two ends, then the pair correlated as parent and child. */
    method Adopt(p: nat, c: nat)
      requires Valid() && p in coll.Graph() && c in coll.Graph()
      modifies coll.nodes
      ensures Valid()
      ensures coll.State() == AdoptStep(old(coll.State()), prohibits, p, c)
    {
      Hang(p, c);
      LinkAsParent(p, c);
    }

    /** The pair correlated as parent and child, with weight 1 and the origin as vertex; the links are untouched. */
    method LinkAsParent(p: nat, c: nat)
      requires Valid() && p in coll.Graph() && c in coll.Graph()
      modifies coll.nodes
      ensures Valid()
      ensures coll.State() == LinkParent(old(coll.State()), prohibits, p, c)
    {
      ghost var heads, ids, nodes := coll.heads, coll.ids, coll.nodes;
      var linked := AddCorrelation(p, c, 1.0, Origin, Parent);
      assert coll.heads == heads && coll.ids == ids && coll.nodes == nodes;
      StateFrom(coll);
    }

    /** addChild on the parent, then setParent on the child. */
    method Hang(p: nat, c: nat)
      requires Valid() && p in coll.Graph() && c in coll.Graph()
      modifies coll.nodes
      ensures Valid()
      ensures coll.State() == SetParentLink(AddChildLink(old(coll.State()), p, c), c, p)
    {
      AddChildAt(p, c);
      SetParentAt(c, p);
    }
  }
}
