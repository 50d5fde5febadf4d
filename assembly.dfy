/**
 * Tree assembly, MakeTree (GeoGraph/Manager.cxx:43-144), as a function of the
 * registry's state.  Nodes are visited in insertion order; a node already
 * reachable from a root is skipped, a primary node becomes a root, a node
 * with a parent is hung below it, and a node with siblings only gets a new
 * aggregate parent that becomes a root.  The id list grows while it is
 * walked, but only aggregates are appended and each is a root by the time
 * the walk reaches it, so the walk ends.
 */
module GeoAssembly {
  import opened Faults
  import opened GeoNode
  import opened GeoRegistry
  import opened GeoEdits

  /** Every node has both a correlation table and tree links. */
  ghost predicate Coherent(f: Forest) {
    f.graph.Keys == f.links.Keys
  }

  /** addChild on node p. */
  function AddChildLink(f: Forest, p: nat, c: nat): Forest
    requires p in f.links
  {
    f.(links := f.links[p := f.links[p].(children := f.links[p].children + [c])])
  }

  /** setParent on node c. */
  function SetParentLink(f: Forest, c: nat, p: nat): Forest
    requires c in f.links
  {
    f.(links := f.links[c := f.links[c].(parent := Some(p))])
  }

  /** AddCorrelation(p, c, 1, origin, Parent): p recorded as the parent of c, unless vetoed. */
  function LinkParent(f: Forest, prohibits: (nat, Relation) -> bool, p: nat, c: nat): Forest
    requires p in f.graph && c in f.graph
  {
    f.(graph := AddSpec(f.graph, prohibits, p, c, Correlation(1.0, Origin, Parent)).value)
  }

  /** The id of the node created to host a node and its siblings. */
  function AggregateId(id: nat, firstSibling: nat): nat {
    id * 10 + firstSibling * 100 + 1
  }

  /** A node with a parent is appended to the parent's children and records the parent. */
  function AttachToParent(f: Forest, id: nat, m: CorrMap): Result<Forest>
    requires Coherent(f) && id in f.graph
  {
    match HasParent(m)
    case Err(e) => Err(e)
    case Ok(hp) =>
      if !hp then Ok(f)
      else
        match GetParent(m)
        case Err(e) => Err(e)
        case Ok(p) =>
          if p !in f.graph then Err(NodeNotFound)
          else Ok(SetParentLink(AddChildLink(f, p, id), id, p))
  }

  /**
   * One adoption step: the sibling is appended to the aggregate's children,
   * records the aggregate as its parent, and the pair is correlated as
   * parent and child.
   */
  function AdoptStep(f: Forest, prohibits: (nat, Relation) -> bool, agg: nat, s: nat): Forest
    requires Coherent(f) && agg in f.graph && s in f.graph
  {
    LinkParent(SetParentLink(AddChildLink(f, agg, s), s, agg), prohibits, agg, s)
  }

  /** Every sibling from position k on becomes a child of the aggregate `agg`; an unknown sibling fails the walk. */
  function AdoptFrom(f: Forest, prohibits: (nat, Relation) -> bool, agg: nat, sibs: seq<nat>, k: nat): Result<Forest>
    requires Coherent(f) && agg in f.graph && k <= |sibs|
    decreases |sibs| - k
  {
    if k == |sibs| then Ok(f)
    else if sibs[k] !in f.graph then Err(NodeNotFound)
    else AdoptFrom(AdoptStep(f, prohibits, agg, sibs[k]), prohibits, agg, sibs, k + 1)
  }

  /** A node whose only relatives are siblings gets a fresh aggregate parent, which becomes a root. */
  function Aggregate(f: Forest, prohibits: (nat, Relation) -> bool, id: nat, m: CorrMap): Result<Forest>
    requires Coherent(f) && id in f.graph
  {
    match GetSiblings(m)
    case Err(e) => Err(e)
    case Ok(sibs) =>
      if |sibs| > 1 && !SameVertex(m, sibs, m[sibs[0]].vtx) then Err(SiblingVerticesDiffer)
      else
        var agg := AggregateId(id, sibs[0]);
        if agg in f.graph then Err(IdCollision)
        else
          var f1 := SetParentLink(AddChildLink(Register(f, agg), agg, id), id, agg);
          var f2 := LinkParent(f1, prohibits, agg, id);
          match AdoptFrom(f2, prohibits, agg, sibs, 0)
          case Err(e) => Err(e)
          case Ok(f3) => Ok(f3.(heads := f3.heads + [agg]))
  }

  /** One iteration of the MakeTree loop, for the node `id`. */
  function PlaceSpec(f: Forest, prohibits: (nat, Relation) -> bool, id: nat): Result<Forest>
    requires Coherent(f)
  {
    if Placed(f.links, f.heads, id, f.count) then Ok(f)
    else if id !in f.graph then Err(NodeNotFound)
    else
      var m := f.graph[id];
      PlaceNode(if IsPrimary(m) then f.(heads := f.heads + [id]) else f, prohibits, id, m)
  }

  /** A node not yet in the tree, after it became a root if primary: hung below its parent, then aggregated. */
  function PlaceNode(f: Forest, prohibits: (nat, Relation) -> bool, id: nat, m: CorrMap): Result<Forest>
    requires Coherent(f) && id in f.graph
  {
    var f1 :- AttachToParent(f, id, m);
    match HasConflict(m)
    case Err(e) => Err(e)
    case Ok(conflict) =>
      if conflict || !HasSiblings(m) then Ok(f1)
      else Aggregate(f1, prohibits, id, m)
  }

  /**
   * What keeps the walk finite: positions at or past the original length n0
   * hold aggregates, which are roots, and at most one is appended per
   * position below n0.
   */
  ghost predicate Bounded(f: Forest, n: nat, n0: nat) {
    && n <= |f.ids| <= n0 + (if n < n0 then n else n0)
    && forall k :: n0 <= k < |f.ids| ==> f.ids[k] in f.heads
  }

  /** The walk from position n on. */
  function AssembleFrom(f: Forest, prohibits: (nat, Relation) -> bool, n: nat, n0: nat): Result<Forest>
    requires Coherent(f) && Bounded(f, n, n0)
    decreases 2 * n0 - n
  {
    if n >= |f.ids| then Ok(f)
    else
      match PlaceSpec(f, prohibits, f.ids[n])
      case Err(e) => Err(e)
      case Ok(f1) =>
        PlaceGrows(f, prohibits, f.ids[n]);
        AssembleFrom(f1, prohibits, n + 1, n0)
  }

  /** MakeTree: the root list is cleared, then every node is visited in insertion order. */
  function MakeTreeSpec(f: Forest, prohibits: (nat, Relation) -> bool): Result<Forest>
    requires Coherent(f)
  {
    AssembleFrom(f.(heads := []), prohibits, 0, |f.ids|)
  }

  // ---------------------------------------------------------------------
  // Facts about one iteration
  // ---------------------------------------------------------------------

  /** Adopting fails exactly when some remaining sibling is unknown. */
  lemma {:induction false} AdoptOk(f: Forest, prohibits: (nat, Relation) -> bool, agg: nat, sibs: seq<nat>, k: nat)
    requires Coherent(f) && agg in f.graph && k <= |sibs|
    ensures AdoptFrom(f, prohibits, agg, sibs, k).Ok? <==> forall i :: k <= i < |sibs| ==> sibs[i] in f.graph
    decreases |sibs| - k
  {
    if k < |sibs| && sibs[k] in f.graph {
      AdoptStepLinks(f, prohibits, agg, sibs[k]);
      AdoptOk(AdoptStep(f, prohibits, agg, sibs[k]), prohibits, agg, sibs, k + 1);
    }
  }

  /** Adopting keeps both key sets, the roots, the ids and the node count. */
  lemma {:induction false} AdoptKeeps(f: Forest, prohibits: (nat, Relation) -> bool, agg: nat, sibs: seq<nat>, k: nat)
    requires Coherent(f) && agg in f.graph && k <= |sibs|
    ensures AdoptFrom(f, prohibits, agg, sibs, k).Ok? ==>
      var f1 := AdoptFrom(f, prohibits, agg, sibs, k).value;
      f1.graph.Keys == f.graph.Keys && Coherent(f1) && f1.heads == f.heads && f1.ids == f.ids && f1.count == f.count
    decreases |sibs| - k
  {
    if k < |sibs| && sibs[k] in f.graph {
      AdoptStepLinks(f, prohibits, agg, sibs[k]);
      AdoptKeeps(AdoptStep(f, prohibits, agg, sibs[k]), prohibits, agg, sibs, k + 1);
    }
  }

  /** x is none of the siblings from position k on. */
  predicate Outside(sibs: seq<nat>, k: nat, x: nat) {
    forall i :: k <= i < |sibs| ==> sibs[i] != x
  }

  lemma AdoptStepLinks(f: Forest, prohibits: (nat, Relation) -> bool, agg: nat, s: nat)
    requires Coherent(f) && agg in f.graph && s in f.graph
    ensures Coherent(AdoptStep(f, prohibits, agg, s))
    ensures var l := AdoptStep(f, prohibits, agg, s).links;
      && l.Keys == f.links.Keys
      && l[agg].children == f.links[agg].children + [s]
      && l[s].parent == Some(agg)
      && (s != agg ==> l[agg].parent == f.links[agg].parent)
      && (forall x :: x in f.links && x != agg && x != s ==> l[x] == f.links[x])
  {
  }

  /** Adopting appends the remaining siblings to the aggregate's children. */
  lemma {:induction false} AdoptChildren(f: Forest, prohibits: (nat, Relation) -> bool, agg: nat, sibs: seq<nat>, k: nat)
    requires Coherent(f) && agg in f.graph && k <= |sibs|
    ensures AdoptFrom(f, prohibits, agg, sibs, k).Ok? ==>
      var l := AdoptFrom(f, prohibits, agg, sibs, k).value.links;
      agg in l && l[agg].children == f.links[agg].children + sibs[k..]
    decreases |sibs| - k
  {
    if k < |sibs| && sibs[k] in f.graph {
      var f2 := AdoptStep(f, prohibits, agg, sibs[k]);
      AdoptStepLinks(f, prohibits, agg, sibs[k]);
      AdoptChildren(f2, prohibits, agg, sibs, k + 1);
      assert sibs[k..] == [sibs[k]] + sibs[k + 1..];
    }
  }

  /** Adopting leaves the links of every node other than the aggregate and the remaining siblings alone. */
  lemma {:induction false} AdoptFrame(f: Forest, prohibits: (nat, Relation) -> bool, agg: nat, sibs: seq<nat>, k: nat)
    requires Coherent(f) && agg in f.graph && k <= |sibs|
    ensures AdoptFrom(f, prohibits, agg, sibs, k).Ok? ==>
      var l := AdoptFrom(f, prohibits, agg, sibs, k).value.links;
      && l.Keys == f.links.Keys
      && (forall x :: x in f.links && x != agg && Outside(sibs, k, x) ==> l[x] == f.links[x])
      && (Outside(sibs, k, agg) ==> l[agg].parent == f.links[agg].parent)
    decreases |sibs| - k
  {
    if k < |sibs| && sibs[k] in f.graph {
      var f2 := AdoptStep(f, prohibits, agg, sibs[k]);
      AdoptStepLinks(f, prohibits, agg, sibs[k]);
      AdoptFrame(f2, prohibits, agg, sibs, k + 1);
    }
  }

  /** Adopting gives every remaining sibling the aggregate as parent. */
  lemma {:induction false} AdoptParents(f: Forest, prohibits: (nat, Relation) -> bool, agg: nat, sibs: seq<nat>, k: nat)
    requires Coherent(f) && agg in f.graph && k <= |sibs|
    ensures AdoptFrom(f, prohibits, agg, sibs, k).Ok? ==>
      var l := AdoptFrom(f, prohibits, agg, sibs, k).value.links;
      forall i :: k <= i < |sibs| ==> sibs[i] in l && l[sibs[i]].parent == Some(agg)
    decreases |sibs| - k
  {
    if k < |sibs| && sibs[k] in f.graph && AdoptFrom(f, prohibits, agg, sibs, k).Ok? {
      var s := sibs[k];
      var f2 := AdoptStep(f, prohibits, agg, s);
      var l := AdoptFrom(f2, prohibits, agg, sibs, k + 1).value.links;
      AdoptStepLinks(f, prohibits, agg, s);
      AdoptParents(f2, prohibits, agg, sibs, k + 1);
      AdoptFrame(f2, prohibits, agg, sibs, k + 1);
      if Outside(sibs, k + 1, s) {
        if s == agg {
          assert l[agg].parent == f2.links[agg].parent;
        } else {
          assert l[s] == f2.links[s];
        }
      } else {
        var i :| k + 1 <= i < |sibs| && sibs[i] == s;
      }
    }
  }

  /** One iteration only grows the root list, appends at most one id, which is then a root, and keeps both key sets equal. */
  lemma PlaceGrows(f: Forest, prohibits: (nat, Relation) -> bool, id: nat)
    requires Coherent(f)
    ensures id in f.heads ==> PlaceSpec(f, prohibits, id) == Ok(f)
    ensures PlaceSpec(f, prohibits, id).Ok? ==>
      var f1 := PlaceSpec(f, prohibits, id).value;
      && Coherent(f1)
      && (forall x :: x in f.heads ==> x in f1.heads)
      && |f.ids| <= |f1.ids| <= |f.ids| + 1 && f1.ids[..|f.ids|] == f.ids
      && (forall k :: |f.ids| <= k < |f1.ids| ==> f1.ids[k] in f1.heads)
  {
    if id in f.heads {
      var i :| 0 <= i < |f.heads| && f.heads[i] == id;
      assert Placed(f.links, f.heads, id, f.count);
    }
    if !Placed(f.links, f.heads, id, f.count) && id in f.graph && PlaceSpec(f, prohibits, id).Ok? {
      var m := f.graph[id];
      var f1 := if IsPrimary(m) then f.(heads := f.heads + [id]) else f;
      var f2 := AttachToParent(f1, id, m).value;
      if HasConflict(m) == Ok(false) && HasSiblings(m) {
        var sibs := GetSiblings(m).value;
        var agg := AggregateId(id, sibs[0]);
        var g1 := SetParentLink(AddChildLink(Register(f2, agg), agg, id), id, agg);
        AdoptKeeps(LinkParent(g1, prohibits, agg, id), prohibits, agg, sibs, 0);
      }
    }
  }

  /**
   * One step of the walk: a successful placement keeps the walk bounded and
   * leaves the rest of the walk to do; a failed one is the walk's failure.
   */
  lemma AssembleStep(f: Forest, prohibits: (nat, Relation) -> bool, n: nat, n0: nat)
    requires Coherent(f) && Bounded(f, n, n0) && n < |f.ids|
    ensures PlaceSpec(f, prohibits, f.ids[n]).Err? ==>
      AssembleFrom(f, prohibits, n, n0) == Err(PlaceSpec(f, prohibits, f.ids[n]).error)
    ensures PlaceSpec(f, prohibits, f.ids[n]).Ok? ==>
      var f1 := PlaceSpec(f, prohibits, f.ids[n]).value;
      && Coherent(f1) && Bounded(f1, n + 1, n0)
      && AssembleFrom(f, prohibits, n, n0) == AssembleFrom(f1, prohibits, n + 1, n0)
  {
    PlaceGrows(f, prohibits, f.ids[n]);
  }

  /** A primary node that is not yet placed becomes a root, and nothing else changes. */
  lemma PlaceRoot(f: Forest, prohibits: (nat, Relation) -> bool, id: nat)
    requires Coherent(f) && id in f.graph && !Placed(f.links, f.heads, id, f.count) && IsPrimary(f.graph[id])
    ensures PlaceSpec(f, prohibits, id) == Ok(f.(heads := f.heads + [id]))
  {
    var m := f.graph[id];
    assert forall p :: !IsPeer(m, p, Parent);
    assert forall s :: !IsPeer(m, s, Sibling);
  }

  /**
   * A node with exactly one parent is appended to that parent's children and
   * records it; this fails exactly when the parent is not registered.
   */
  lemma PlaceChild(f: Forest, prohibits: (nat, Relation) -> bool, id: nat, p: nat)
    requires Coherent(f) && id in f.graph && !Placed(f.links, f.heads, id, f.count)
    requires IsPeer(f.graph[id], p, Parent) && !SeveralPeers(f.graph[id], Parent)
    ensures PlaceSpec(f, prohibits, id).Err? <==> p !in f.graph
    ensures PlaceSpec(f, prohibits, id).Err? ==> PlaceSpec(f, prohibits, id).error == NodeNotFound
    ensures PlaceSpec(f, prohibits, id).Ok? ==>
      var f1 := PlaceSpec(f, prohibits, id).value;
      && f1.graph == f.graph && f1.heads == f.heads && f1.ids == f.ids
      && f1.links[id].parent == Some(p)
      && f1.links[p].children == f.links[p].children + [id]
      && forall x :: x in f.links && x != id && x != p ==> f1.links[x] == f.links[x]
  {
    var m := f.graph[id];
    assert !IsPrimary(m) by { assert m[p].rel == Parent; }
    assert GetParent(m) == Ok(p);
  }

  /** A node with siblings and no parent is handed to the aggregate step unchanged. */
  lemma PlaceIsAggregate(f: Forest, prohibits: (nat, Relation) -> bool, id: nat)
    requires Coherent(f) && id in f.graph && !Placed(f.links, f.heads, id, f.count)
    requires (forall p :: !IsPeer(f.graph[id], p, Parent)) && HasSiblings(f.graph[id])
    ensures PlaceSpec(f, prohibits, id) == Aggregate(f, prohibits, id, f.graph[id])
  {
    var m := f.graph[id];
    assert !IsPrimary(m) by {
      var s :| IsPeer(m, s, Sibling);
    }
    assert HasParent(m) == Ok(false);
    assert HasConflict(m) == Ok(false);
  }

  /**
   * The aggregate step fails when the siblings' vertices differ, when the
   * aggregate id is taken, or when a sibling is not registered.
   */
  lemma AggregateFails(f: Forest, prohibits: (nat, Relation) -> bool, id: nat)
    requires Coherent(f) && id in f.graph && HasSiblings(f.graph[id])
    ensures var m := f.graph[id];
      var sibs := GetSiblings(m).value;
      var agg := AggregateId(id, sibs[0]);
      var r := Aggregate(f, prohibits, id, m);
      && (!SameVertex(m, sibs, m[sibs[0]].vtx) ==> r == Err(SiblingVerticesDiffer))
      && (SameVertex(m, sibs, m[sibs[0]].vtx) && agg in f.graph ==> r == Err(IdCollision))
      && (SameVertex(m, sibs, m[sibs[0]].vtx) && agg !in f.graph ==>
            (r.Ok? <==> forall i :: 0 <= i < |sibs| ==> sibs[i] in f.graph || sibs[i] == agg))
  {
    var m := f.graph[id];
    var sibs := GetSiblings(m).value;
    var agg := AggregateId(id, sibs[0]);
    if |sibs| <= 1 {
      assert SameVertex(m, sibs, m[sibs[0]].vtx);
    }
    if SameVertex(m, sibs, m[sibs[0]].vtx) && agg !in f.graph {
      var g1 := SetParentLink(AddChildLink(Register(f, agg), agg, id), id, agg);
      AdoptOk(LinkParent(g1, prohibits, agg, id), prohibits, agg, sibs, 0);
    }
  }

  /**
   * A successful aggregate step registers the aggregate as a new root whose
   * children are the node followed by its siblings, each of which records
   * the aggregate as parent.
   */
  lemma AggregateBuilds(f: Forest, prohibits: (nat, Relation) -> bool, id: nat)
    requires Coherent(f) && id in f.graph
    ensures var r := Aggregate(f, prohibits, id, f.graph[id]);
      r.Ok? ==>
        var sibs := GetSiblings(f.graph[id]).value;
        var agg := AggregateId(id, sibs[0]);
        && agg !in f.graph
        && r.value.ids == f.ids + [agg] && r.value.heads == f.heads + [agg]
        && r.value.graph.Keys == f.graph.Keys + {agg} && Coherent(r.value)
        && agg in r.value.links && id in r.value.links
        && r.value.links[agg].children == [id] + sibs
        && r.value.links[id].parent == Some(agg)
        && (forall i :: 0 <= i < |sibs| ==> sibs[i] in r.value.links && r.value.links[sibs[i]].parent == Some(agg))
        && (agg !in sibs ==> r.value.links[agg].parent == None)
  {
    var m := f.graph[id];
    if Aggregate(f, prohibits, id, m).Ok? {
      AggregateUnfolds(f, prohibits, id);
      var sibs := GetSiblings(m).value;
      var agg := AggregateId(id, sibs[0]);
      var g2 := Hosted(f, prohibits, agg, id);
      HostedFacts(f, prohibits, agg, id);
      AdoptKeeps(g2, prohibits, agg, sibs, 0);
      AdoptChildren(g2, prohibits, agg, sibs, 0);
      AdoptFrame(g2, prohibits, agg, sibs, 0);
      AdoptParents(g2, prohibits, agg, sibs, 0);
      assert sibs[0..] == sibs;
      if id !in sibs {
        assert Outside(sibs, 0, id);
      }
      if agg !in sibs {
        assert Outside(sibs, 0, agg);
      }
    }
  }

  /** The forest once the aggregate `agg` is registered and has adopted `id`. */
  function Hosted(f: Forest, prohibits: (nat, Relation) -> bool, agg: nat, id: nat): Forest
    requires Coherent(f) && id in f.graph
  {
    LinkParent(SetParentLink(AddChildLink(Register(f, agg), agg, id), id, agg), prohibits, agg, id)
  }

  /** A successful aggregation is the sibling adoption from the hosted forest, then the aggregate made a root. */
  lemma AggregateUnfolds(f: Forest, prohibits: (nat, Relation) -> bool, id: nat)
    requires Coherent(f) && id in f.graph && Aggregate(f, prohibits, id, f.graph[id]).Ok?
    ensures GetSiblings(f.graph[id]).Ok?
    ensures var sibs := GetSiblings(f.graph[id]).value;
      var agg := AggregateId(id, sibs[0]);
      && agg !in f.graph
      && AdoptFrom(Hosted(f, prohibits, agg, id), prohibits, agg, sibs, 0).Ok?
      && var f3 := AdoptFrom(Hosted(f, prohibits, agg, id), prohibits, agg, sibs, 0).value;
         Aggregate(f, prohibits, id, f.graph[id]) == Ok(f3.(heads := f3.heads + [agg]))
  {
  }

  /** The hosted forest: one more id, the aggregate an unparented node whose only child is `id`. */
  lemma HostedFacts(f: Forest, prohibits: (nat, Relation) -> bool, agg: nat, id: nat)
    requires Coherent(f) && id in f.graph && agg !in f.graph
    ensures var g := Hosted(f, prohibits, agg, id);
      && Coherent(g) && g.ids == f.ids + [agg] && g.heads == f.heads && g.graph.Keys == f.graph.Keys + {agg}
      && g.links[agg] == Link(None, [id]) && g.links[id].parent == Some(agg)
  {
  }
}
