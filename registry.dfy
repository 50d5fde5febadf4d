/**
 * The node registry (GeoGraph/NodeCollection.h, GeoGraph/NodeCollection.cxx):
 * it owns every node, keeps their ids unique, remembers insertion order and
 * the roots of the assembled tree, and answers reachability queries over the
 * children links.
 */
module GeoRegistry {
  import opened Faults
  import opened GeoNode

  /** Every registered node's correlation table, by node id. */
  type Graph = map<nat, CorrMap>

  /** The assembled-tree fields of one node. */
  datatype Link = Link(parent: Option<nat>, children: seq<nat>)

  /**
   * Everything tree assembly reads or writes: the correlation tables, the
   * tree links, the root list, the insertion-ordered id list and the number
   * of stored nodes.
   */
  datatype Forest = Forest(graph: Graph, links: map<nat, Link>, heads: seq<nat>, ids: seq<nat>, count: nat)

  /** The forest after registering a fresh node `id` with no links and no correlations. */
  function Register(f: Forest, id: nat): (r: Forest)
    ensures r.graph.Keys == f.graph.Keys + {id} && r.links.Keys == f.links.Keys + {id}
  {
    f.(graph := f.graph[id := map[]], links := f.links[id := Link(None, [])], ids := f.ids + [id], count := f.count + 1)
  }

  // ---------------------------------------------------------------------
  // Reachability through children links
  // ---------------------------------------------------------------------

  /** `search` is reached from `top` through between 1 and `depth` children links. */
  function Reaches(links: map<nat, Link>, search: nat, top: nat, depth: nat): bool
    decreases depth
  {
    depth > 0 && top in links &&
    exists i :: 0 <= i < |links[top].children| &&
      (links[top].children[i] == search || Reaches(links, search, links[top].children[i], depth - 1))
  }

  /** `p` walks down children links, one link per step. */
  ghost predicate IsChildPath(links: map<nat, Link>, p: seq<nat>) {
    forall i :: 0 <= i < |p| - 1 ==> p[i] in links && p[i + 1] in links[p[i]].children
  }

  /** Reaches holds exactly when some downward path of 1 to `depth` links joins the two ids. */
  lemma {:induction false} ReachesIffPath(links: map<nat, Link>, search: nat, top: nat, depth: nat)
    ensures Reaches(links, search, top, depth) <==>
      exists p :: 2 <= |p| <= depth + 1 && p[0] == top && p[|p| - 1] == search && IsChildPath(links, p)
    decreases depth
  {
    if Reaches(links, search, top, depth) {
      var kids := links[top].children;
      var i :| 0 <= i < |kids| && (kids[i] == search || Reaches(links, search, kids[i], depth - 1));
      if kids[i] == search {
        var p := [top, search];
        assert IsChildPath(links, p);
      } else {
        ReachesIffPath(links, search, kids[i], depth - 1);
        var q :| 2 <= |q| <= depth && q[0] == kids[i] && q[|q| - 1] == search && IsChildPath(links, q);
        var p := [top] + q;
        assert forall j :: 0 < j < |p| - 1 ==> p[j] == q[j - 1] && p[j + 1] == q[j];
        assert IsChildPath(links, p);
      }
    }
    if exists p :: 2 <= |p| <= depth + 1 && p[0] == top && p[|p| - 1] == search && IsChildPath(links, p) {
      var p :| 2 <= |p| <= depth + 1 && p[0] == top && p[|p| - 1] == search && IsChildPath(links, p);
      var kids := links[top].children;
      assert p[1] in kids;
      var i :| 0 <= i < |kids| && kids[i] == p[1];
      if |p| > 2 {
        var q := p[1..];
        assert IsChildPath(links, q) by {
          forall j | 0 <= j < |q| - 1 ensures q[j] in links && q[j + 1] in links[q[j]].children {
            assert q[j] == p[j + 1] && q[j + 1] == p[j + 2];
          }
        }
        ReachesIffPath(links, search, p[1], depth - 1);
        assert Reaches(links, search, kids[i], depth - 1);
      }
    }
  }

  /** Reaching through more links never loses an answer. */
  lemma {:induction false} ReachesMonotone(links: map<nat, Link>, search: nat, top: nat, d1: nat, d2: nat)
    requires d1 <= d2 && Reaches(links, search, top, d1)
    ensures Reaches(links, search, top, d2)
    decreases d1
  {
    var kids := links[top].children;
    var i :| 0 <= i < |kids| && (kids[i] == search || Reaches(links, search, kids[i], d1 - 1));
    if kids[i] != search {
      ReachesMonotone(links, search, kids[i], d1 - 1, d2 - 1);
    }
  }

  /** Reachability composes: a descendant of a descendant is a descendant. */
  lemma {:induction false} ReachesTransitive(links: map<nat, Link>, a: nat, b: nat, c: nat, d1: nat, d2: nat)
    requires Reaches(links, b, a, d1) && Reaches(links, c, b, d2)
    ensures Reaches(links, c, a, d1 + d2)
    decreases d1
  {
    var kids := links[a].children;
    var i :| 0 <= i < |kids| && (kids[i] == b || Reaches(links, b, kids[i], d1 - 1));
    if kids[i] == b {
      ReachesMonotone(links, c, b, d2, d1 + d2 - 1);
    } else {
      ReachesTransitive(links, kids[i], b, c, d1 - 1, d2);
    }
  }

  /** No id occurs twice in s. */
  ghost predicate Distinct(s: seq<nat>) {
    forall i, j :: 0 <= i < j < |s| ==> s[i] != s[j]
  }

  /** A sequence without repetitions drawn from a set is no longer than the set is large. */
  lemma {:induction false} DistinctWithin(s: seq<nat>, keys: set<nat>)
    requires Distinct(s) && forall i :: 0 <= i < |s| ==> s[i] in keys
    ensures |s| <= |keys|
    decreases |s|
  {
    if |s| > 0 {
      var last := s[|s| - 1];
      var t := s[..|s| - 1];
      assert forall i :: 0 <= i < |t| ==> t[i] == s[i] && t[i] != last;
      DistinctWithin(t, keys - {last});
    }
  }

  /** Any downward path can be shortened to one of at most as many links as there are linked ids. */
  lemma {:induction false} ShortestPath(links: map<nat, Link>, p: seq<nat>) returns (q: seq<nat>)
    requires 2 <= |p| && IsChildPath(links, p)
    ensures 2 <= |q| <= |links.Keys| + 1 && q[0] == p[0] && q[|q| - 1] == p[|p| - 1] && IsChildPath(links, q)
    decreases |p|
  {
    var front := p[..|p| - 1];
    if Distinct(front) {
      assert forall i :: 0 <= i < |front| ==> front[i] == p[i] && p[i] in links;
      DistinctWithin(front, links.Keys);
      q := p;
    } else {
      var i, j :| 0 <= i < j < |front| && front[i] == front[j];
      var r := p[..i] + p[j..];
      assert |r| == |p| - (j - i) && r[0] == p[0] && r[|r| - 1] == p[|p| - 1];
      assert IsChildPath(links, r) by {
        forall k | 0 <= k < |r| - 1 ensures r[k] in links && r[k + 1] in links[r[k]].children {
          if k < i - 1 {
            assert r[k] == p[k] && r[k + 1] == p[k + 1];
          } else if k == i - 1 {
            assert r[k] == p[i - 1] && r[k + 1] == p[j] == p[i];
          } else {
            assert r[k] == p[k + j - i] && r[k + 1] == p[k + 1 + j - i];
          }
        }
      }
      q := ShortestPath(links, r);
    }
  }

  /** A search as deep as there are linked ids already finds every descendant, however deep. */
  lemma ReachesSaturates(links: map<nat, Link>, search: nat, top: nat, depth: nat, bound: nat)
    requires |links.Keys| <= bound && Reaches(links, search, top, depth)
    ensures Reaches(links, search, top, bound)
  {
    ReachesIffPath(links, search, top, depth);
    var p :| 2 <= |p| <= depth + 1 && p[0] == top && p[|p| - 1] == search && IsChildPath(links, p);
    var q := ShortestPath(links, p);
    ReachesIffPath(links, search, top, bound);
  }

  /** A set that an injective map sends below n has at most n elements. */
  lemma {:induction false} InjectiveWithin(keys: set<nat>, f: map<nat, nat>, n: nat)
    requires forall k :: k in keys ==> k in f && f[k] < n
    requires forall k1, k2 :: k1 in keys && k2 in keys && f[k1] == f[k2] ==> k1 == k2
    ensures |keys| <= n
    decreases n
  {
    if n > 0 {
      var below := set k | k in keys && f[k] < n - 1;
      InjectiveWithin(below, f, n - 1);
      if exists k :: k in keys && f[k] == n - 1 {
        var top :| top in keys && f[top] == n - 1;
        assert keys == below + {top};
      } else {
        assert keys == below;
      }
    }
  }

  /** NodeAdded: `id` is a root, or a descendant of one within `depth` links. */
  function Placed(links: map<nat, Link>, heads: seq<nat>, id: nat, depth: nat): bool {
    exists i :: 0 <= i < |heads| && (heads[i] == id || Reaches(links, id, heads[i], depth))
  }

  /**
   * `nMap` sends every stored id to the position of the node carrying it,
   * and every position is reached that way, so no two stored nodes share an
   * id; `idxMap` names the id at every occupied position.  Node ids are
   * constant, so this is a property of the three values alone.
   */
  ghost predicate Indexed(nodes: seq<Node>, nMap: map<nat, nat>, idxMap: map<nat, nat>) {
    && (forall k {:trigger nMap[k]} :: k in nMap ==> nMap[k] < |nodes| && nodes[nMap[k]].id == k)
    && (forall i {:trigger nodes[i]} :: 0 <= i < |nodes| ==> nodes[i].id in nMap && nMap[nodes[i].id] == i)
    && (forall i {:trigger nodes[i]} :: 0 <= i < |nodes| ==> i in idxMap && idxMap[i] == nodes[i].id)
  }

  /** Each stored id with the node object carrying it. */
  function TableOf(nodes: seq<Node>, nMap: map<nat, nat>): map<nat, Node>
    requires forall k :: k in nMap ==> nMap[k] < |nodes|
  {
    map k | k in nMap :: nodes[nMap[k]]
  }

  /** Storing a node under a new id keeps the index consistent and adds exactly that id. */
  lemma AppendIndexed(nodes: seq<Node>, nMap: map<nat, nat>, idxMap: map<nat, nat>, n: Node)
    requires Indexed(nodes, nMap, idxMap) && n.id !in nMap
    ensures Indexed(nodes + [n], nMap[n.id := |nodes|], idxMap[|nodes| := n.id])
    ensures TableOf(nodes + [n], nMap[n.id := |nodes|]) == TableOf(nodes, nMap)[n.id := n]
  {
    var nodes', nMap', idxMap' := nodes + [n], nMap[n.id := |nodes|], idxMap[|nodes| := n.id];
    forall i | 0 <= i < |nodes'|
      ensures nodes'[i].id in nMap' && nMap'[nodes'[i].id] == i
      ensures i in idxMap' && idxMap'[i] == nodes'[i].id
    {
      if i < |nodes| {
        assert nodes'[i] == nodes[i];
      }
    }
    forall k | k in nMap'
      ensures nMap'[k] < |nodes'| && nodes'[nMap'[k]].id == k
    {
      if k != n.id {
        assert nodes'[nMap'[k]] == nodes[nMap[k]];
      }
    }
    assert TableOf(nodes', nMap') == TableOf(nodes, nMap)[n.id := n] by {
      forall k | k in nMap
        ensures TableOf(nodes', nMap')[k] == TableOf(nodes, nMap)[k]
      {
        assert nodes'[nMap'[k]] == nodes[nMap[k]];
      }
      assert TableOf(nodes', nMap').Keys == TableOf(nodes, nMap).Keys + {n.id};
    }
  }

  /** The correlation tables of the nodes in `t`. */
  function CorrsOf(t: map<nat, Node>): Graph
    reads t.Values
  {
    map k | k in t :: t[k].corr
  }

  /** The tree links of the nodes in `t`. */
  function LinksOf(t: map<nat, Node>): map<nat, Link>
    reads t.Values
  {
    map k | k in t :: Link(t[k].parentId, t[k].children)
  }

  /** Putting node `n` under its id changes both views at that id alone. */
  lemma ViewsPut(t: map<nat, Node>, n: Node)
    ensures CorrsOf(t[n.id := n]) == CorrsOf(t)[n.id := n.corr]
    ensures LinksOf(t[n.id := n]) == LinksOf(t)[n.id := Link(n.parentId, n.children)]
  {
  }

  /** When the table gains node `n` and no node object changes, both views gain `n` alone. */
  twostate lemma ViewsAfterPut(c: NodeCollection, new n: Node)
    requires old(c.Valid()) && c.Valid()
    requires c.Table() == old(c.Table())[n.id := n]
    requires unchanged(old(c.Table()).Values)
    ensures c.Graph() == old(c.Graph())[n.id := n.corr]
    ensures c.Links() == old(c.Links())[n.id := Link(n.parentId, n.children)]
  {
    ViewsPut(old(c.Table()), n);
  }

  /** The node `n` is stored under its id, and every other stored node object is as it was. */
  twostate predicate OnlyNodeChanged(c: NodeCollection, new n: Node)
    reads c, c.nodes
  {
    && old(c.Valid())
    && c.nodes == old(c.nodes) && c.nMap == old(c.nMap) && c.idxMap == old(c.idxMap)
    && n.id in c.nMap && c.nodes[c.nMap[n.id]] == n
    && forall i :: 0 <= i < |c.nodes| && c.nodes[i] != n ==> unchanged(c.nodes[i])
  }

  /** A change to one node's correlation table alone changes the correlation view at its id alone. */
  twostate lemma ViewsAfterTableChange(c: NodeCollection, new n: Node)
    requires OnlyNodeChanged(c, n)
    requires n.parentId == old(n.parentId) && n.children == old(n.children)
    ensures c.Valid()
    ensures c.Graph() == old(c.Graph())[n.id := n.corr]
    ensures c.Links() == old(c.Links())
  {
    var t := c.Table();
    assert t == old(c.Table());
    forall k | k in t && k != n.id
      ensures t[k].corr == old(t[k].corr) && t[k].parentId == old(t[k].parentId) && t[k].children == old(t[k].children)
    {
      assert t[k] == c.nodes[c.nMap[k]] && t[k].id == k;
    }
  }

  /** A change to one node's tree links alone changes the link view at its id alone. */
  twostate lemma ViewsAfterLinkChange(c: NodeCollection, new n: Node)
    requires OnlyNodeChanged(c, n)
    requires n.corr == old(n.corr)
    ensures c.Valid()
    ensures c.Graph() == old(c.Graph())
    ensures c.Links() == old(c.Links())[n.id := Link(n.parentId, n.children)]
  {
    var t := c.Table();
    assert t == old(c.Table());
    forall k | k in t && k != n.id
      ensures t[k].corr == old(t[k].corr) && t[k].parentId == old(t[k].parentId) && t[k].children == old(t[k].children)
    {
      assert t[k] == c.nodes[c.nMap[k]] && t[k].id == k;
    }
  }

  /** When the store and no stored node object change, neither view does (the id and root lists may). */
  twostate lemma ViewsKept(c: NodeCollection)
    requires old(c.Valid()) && c.nodes == old(c.nodes) && c.nMap == old(c.nMap) && c.idxMap == old(c.idxMap)
    requires forall i :: 0 <= i < |c.nodes| ==> unchanged(c.nodes[i])
    ensures c.Valid() && c.Graph() == old(c.Graph()) && c.Links() == old(c.Links())
    ensures c.State() == old(c.State()).(heads := c.heads, ids := c.ids)
  {
    var t := c.Table();
    forall k | k in t ensures t[k].corr == old(t[k].corr) && t[k].parentId == old(t[k].parentId) && t[k].children == old(t[k].children) {
      assert t[k] == c.nodes[c.nMap[k]];
    }
  }

  /** Every node now in the store was already there or has just been allocated. */
  twostate predicate Grew(c: NodeCollection)
    reads c
  {
    forall i :: 0 <= i < |c.nodes| ==> c.nodes[i] in old(c.nodes) || fresh(c.nodes[i])
  }

  /** With the id list, the root list and the store size kept, the forest view changes only through the two views. */
  twostate lemma StateFrom(c: NodeCollection)
    requires old(c.Valid()) && c.Valid()
    requires c.heads == old(c.heads) && c.ids == old(c.ids) && |c.nodes| == old(|c.nodes|)
    ensures c.State() == old(c.State()).(graph := c.Graph(), links := c.Links())
  {
  }

  // ---------------------------------------------------------------------
  // The collection
  // ---------------------------------------------------------------------

  class NodeCollection {
    /** _nodes: every stored node, in insertion order. */
    var nodes: seq<Node>
    /** _n_map: node id -> position in `nodes`. */
    var nMap: map<nat, nat>
    /** _IDs: ids in insertion order (GetNodeIDs). */
    var ids: seq<nat>
    /** _idx_map: position -> node id. */
    var idxMap: map<nat, nat>
    /** _head_node_v: roots of the assembled tree. */
    var heads: seq<nat>

    /**
     * nMap sends every stored id to the position of the node carrying it;
     * hence no two stored nodes share an id.  idxMap names the node at
     * every occupied position.
     */
    ghost predicate Valid()
      reads this
    {
      Indexed(nodes, nMap, idxMap)
    }

    /** The guarantee of the collection: stored ids are unique. */
    lemma IdsUnique()
      requires Valid()
      ensures forall i, j :: 0 <= i < j < |nodes| ==> nodes[i].id != nodes[j].id
    {
      forall i, j | 0 <= i < j < |nodes| ensures nodes[i].id != nodes[j].id {
        assert nMap[nodes[i].id] == i && nMap[nodes[j].id] == j;
      }
    }

    /** Each stored id with the node object carrying it. */
    function Table(): (t: map<nat, Node>)
      reads this
      requires Valid()
      ensures t.Keys == nMap.Keys
    {
      TableOf(nodes, nMap)
    }

    /** There are no more linked ids than stored nodes. */
    lemma LinkedWithin()
      requires Valid()
      ensures |Links().Keys| <= |nodes|
    {
      forall k1, k2 | k1 in nMap && k2 in nMap && nMap[k1] == nMap[k2] ensures k1 == k2 {
        assert nodes[nMap[k1]].id == k1 && nodes[nMap[k2]].id == k2;
      }
      InjectiveWithin(nMap.Keys, nMap, |nodes|);
    }

    /** The depth NodeAdded searches to, the number of stored nodes, finds every id placed at any depth. */
    lemma PlacedAtAnyDepth(id: nat, depth: nat)
      requires Valid()
      ensures Placed(Links(), heads, id, depth) ==> Placed(Links(), heads, id, |nodes|)
    {
      if Placed(Links(), heads, id, depth) {
        var i :| 0 <= i < |heads| && (heads[i] == id || Reaches(Links(), id, heads[i], depth));
        if heads[i] != id {
          LinkedWithin();
          ReachesSaturates(Links(), id, heads[i], depth, |nodes|);
        }
      }
    }

    /** The correlation table of every stored node, by id. */
    function Graph(): (g: Graph)
      reads this, nodes
      requires Valid()
      ensures g.Keys == nMap.Keys
    {
      CorrsOf(Table())
    }

    /** The parent and children of every stored node, by id. */
    function Links(): (l: map<nat, Link>)
      reads this, nodes
      requires Valid()
      ensures l.Keys == nMap.Keys
    {
      LinksOf(Table())
    }

    /** Everything tree assembly reads or writes. */
    function State(): (f: Forest)
      reads this, nodes
      requires Valid()
      ensures f.graph.Keys == f.links.Keys
    {
      Forest(Graph(), Links(), heads, ids, |nodes|)
    }

    constructor ()
      ensures Valid() && nodes == [] && ids == [] && heads == []
      ensures nMap == map[] && idxMap == map[]
    {
      nodes := [];
      nMap := map[];
      ids := [];
      idxMap := map[];
      heads := [];
    }

    /** NodeExists: scan the stored nodes for one carrying `id`. */
    method NodeExists(id: nat) returns (b: bool)
      requires Valid()
      ensures b <==> exists i :: 0 <= i < |nodes| && nodes[i].id == id
      ensures b <==> id in nMap
    {
      for i := 0 to |nodes|
        invariant forall j :: 0 <= j < i ==> nodes[j].id != id
      {
        if nodes[i].id == id {
          return true;
        }
      }
      return false;
    }

    /** AddNode: register a fresh node; fails if the id is already stored. */
    method AddNode(id: nat) returns (out: Outcome)
      requires Valid()
      modifies this
      ensures Valid()
      ensures out == if id in old(nMap) then Fail(DuplicateNode) else Pass
      ensures out.Fail? ==> unchanged(this)
      ensures out.Pass? ==> |nodes| == old(|nodes|) + 1 && nodes[..old(|nodes|)] == old(nodes)
      ensures out.Pass? ==> fresh(nodes[old(|nodes|)]) && nodes[old(|nodes|)].id == id
      ensures out.Pass? ==> nMap == old(nMap)[id := old(|nodes|)] && idxMap == old(idxMap)[old(|nodes|) := id]
      ensures out.Pass? ==> State() == Register(old(State()), id)
    {
      var known := NodeExists(id);
      ViewsKept(this);
      if known {
        out := Fail(DuplicateNode);
        return;
      }
      out := Pass;
      var n := AddFresh(id);
      assert nodes[..old(|nodes|)] == old(nodes);
    }

    /** AddNode once the id is known to be new: a fresh node `n` with no correlations and no links is appended. */
    method AddFresh(id: nat) returns (n: Node)
      requires Valid() && id !in nMap
      modifies this
      ensures Valid()
      ensures fresh(n) && n.id == id && nodes == old(nodes) + [n] && Grew(this)
      ensures nMap == old(nMap)[id := old(|nodes|)] && idxMap == old(idxMap)[old(|nodes|) := id]
      ensures State() == Register(old(State()), id)
    {
      n := new Node(id);
      ghost var f := State();
      assert f == old(State());
      Append(n);
      assert n.corr == map[] && n.parentId == None && n.children == [];
    }

    /** Store an already-built node under its id; the shared tail of AddNode. */
    method Append(n: Node)
      requires Valid() && n.id !in nMap
      modifies this
      ensures Valid()
      ensures nodes == old(nodes) + [n]
      ensures nMap == old(nMap)[n.id := old(|nodes|)] && idxMap == old(idxMap)[old(|nodes|) := n.id]
      ensures ids == old(ids) + [n.id] && heads == old(heads)
      ensures Graph() == old(Graph())[n.id := n.corr]
      ensures Links() == old(Links())[n.id := Link(n.parentId, n.children)]
    {
      AppendIndexed(nodes, nMap, idxMap, n);
      var idx := |nodes|;
      nodes := nodes + [n];
      nMap := nMap[n.id := idx];
      ids := ids + [n.id];
      idxMap := idxMap[idx := n.id];
      ViewsAfterPut(this, n);
    }

    /** AddPrimaryNode: append `id` to the root list, unconditionally. */
    method AddPrimaryNode(id: nat)
      requires Valid()
      modifies this
      ensures Valid()
      ensures heads == old(heads) + [id]
      ensures nodes == old(nodes) && nMap == old(nMap) && ids == old(ids) && idxMap == old(idxMap)
    {
      heads := heads + [id];
    }

    /** GetNode: the node carrying `id`; fails for an unknown id. */
    method GetNode(id: nat) returns (r: Result<Node>)
      requires Valid()
      ensures r.Ok? <==> id in nMap
      ensures r.Ok? ==> r.value == nodes[nMap[id]] && r.value.id == id
      ensures r.Ok? ==> r.value.corr == Graph()[id] && Link(r.value.parentId, r.value.children) == Links()[id]
      ensures r.Err? ==> r.error == NodeNotFound
    {
      var known := NodeExists(id);
      if !known {
        return Err(NodeNotFound);
      }
      r := Ok(nodes[nMap[id]]);
    }

    /** FindID: the id stored at position `idx`; fails for a position never assigned. */
    function FindID(idx: nat): (r: Result<nat>)
      reads this
      requires Valid()
      ensures r.Err? <==> idx !in idxMap
      ensures r.Err? ==> r.error == IndexOutOfBounds
      ensures idx < |nodes| ==> r == Ok(nodes[idx].id)
    {
      if idx in idxMap then Ok(idxMap[idx]) else Err(IndexOutOfBounds)
    }

    /**
     * IsSubNode: is `search` reached from `top` through one or more children
     * links?  The walk is cut off after `depth` links.
     */
    method IsSubNode(search: nat, top: nat, depth: nat) returns (found: bool)
      requires Valid()
      ensures found == Reaches(Links(), search, top, depth)
      decreases depth
    {
      if depth == 0 || top !in nMap {
        return false;
      }
      var kids := nodes[nMap[top]].children;
      assert kids == Links()[top].children;
      for i := 0 to |kids|
        invariant forall j :: 0 <= j < i ==> kids[j] != search && !Reaches(Links(), search, kids[j], depth - 1)
      {
        if kids[i] == search {
          return true;
        }
        found := IsSubNode(search, kids[i], depth - 1);
        if found {
          return true;
        }
      }
      return false;
    }

    /** NodeAdded: is `id` a root or a descendant of a root? */
    method NodeAdded(id: nat) returns (found: bool)
      requires Valid()
      ensures found == Placed(Links(), heads, id, |nodes|)
    {
      for i := 0 to |heads|
        invariant forall j :: 0 <= j < i ==> heads[j] != id && !Reaches(Links(), id, heads[j], |nodes|)
      {
        if heads[i] == id {
          return true;
        }
        found := IsSubNode(id, heads[i], |nodes|);
        if found {
          return true;
        }
      }
      return false;
    }

    /** Clear: empty the node store and the id -> position map. */
    method Clear()
      requires Valid()
      modifies this
      ensures Valid()
      ensures nodes == [] && nMap == map[] && Graph() == map[]
      ensures ids == old(ids) && idxMap == old(idxMap) && heads == old(heads)
    {
      nodes := [];
      nMap := map[];
    }

    /** ClearTree: empty the root list. */
    method ClearTree()
      requires Valid()
      modifies this
      ensures Valid()
      ensures heads == []
      ensures nodes == old(nodes) && nMap == old(nMap) && ids == old(ids) && idxMap == old(idxMap)
    {
      heads := [];
    }
  }
}
