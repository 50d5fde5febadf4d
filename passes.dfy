/**
 * The conflict-resolution passes of the Manager (GeoGraph/Manager.cxx:304-925),
 * stated as functions of the correlation view.  Each loop of the source is a
 * recursion over the work that remains (`...From(g, ..., k)` runs the loop
 * from position k on), so a failure at any point is the failure of the
 * whole pass.  The strategies, the bounding-sphere centre and the
 * prohibition check live in an `Env`.
 */
module GeoPasses {
  import opened Faults
  import opened GeoNode
  import opened GeoRegistry
  import opened GeoEdits

  /** One entry of a strategy's answer: the pair (a, b) and the correlation proposed for it. */
  datatype Proposal = Proposal(a: nat, b: nat, corr: Correlation)

  /** What the passes consult besides the correlations themselves. */
  datatype Env = Env(
    prohibits: (nat, Relation) -> bool,
    /** the multiple-parents strategy: node, its Parent peers -> proposals in pair order */
    bestParent: (Graph, nat, seq<nat>) -> seq<Proposal>,
    /** the parent-is-sibling's-sibling strategy: node, parent, sibling -> proposals in pair order */
    parentSibling: (Graph, nat, nat, nat) -> seq<Proposal>,
    /** centre of the bounding sphere of a list of points */
    center: seq<Point> -> Point,
    loose: bool)

  /** The pair of every proposal from position k on whose score is negative is erased, in order. */
  function PruneFrom(g: Graph, ps: seq<Proposal>, k: nat): Result<Graph>
    requires k <= |ps|
    decreases |ps| - k
  {
    if k == |ps| then Ok(g)
    else if ps[k].corr.score < 0.0 then
      var h :- EraseSpec(g, ps[k].a, ps[k].b);
      PruneFrom(h, ps, k + 1)
    else PruneFrom(g, ps, k + 1)
  }

  // ---------------------------------------------------------------------
  // FindBestParent (Manager.cxx:372-416)
  // ---------------------------------------------------------------------

  function FindBestParentSpec(g: Graph, env: Env, id: nat): Result<Graph> {
    if id !in g then Err(NodeNotFound)
    else
      var parents := PeersWith(g[id], Parent);
      if |parents| < 2 then Ok(g)
      else PruneFrom(g, env.bestParent(g, id, parents), 0)
  }

  // ---------------------------------------------------------------------
  // ParentIsSiblingsSibling (Manager.cxx:776-822)
  // ---------------------------------------------------------------------

  function ParentSiblingSpec(g: Graph, env: Env, id: nat): Result<Graph> {
    if id !in g then Err(NodeNotFound)
    else
      var conflict :- HasConflict(g[id]);
      if !conflict then Ok(g)
      else
        match GetSiblings(g[id])
        case Err(e) => Err(e)
        case Ok(sibs) =>
          match GetParent(g[id])
          case Err(e) => Err(e)
          case Ok(p) => ParentSiblingFrom(g, env, id, p, sibs, 0)
  }

  /** Sibling s is left alone unless it is correlated with the parent by something other than Parent. */
  function ParentSiblingFrom(g: Graph, env: Env, id: nat, p: nat, sibs: seq<nat>, k: nat): Result<Graph>
    requires k <= |sibs|
    decreases |sibs| - k
  {
    if k == |sibs| then Ok(g)
    else
      var s := sibs[k];
      if s !in g then Err(NodeNotFound)
      else if p !in g[s] || g[s][p].rel == Parent then ParentSiblingFrom(g, env, id, p, sibs, k + 1)
      else
        var h :- PruneFrom(g, env.parentSibling(g, id, p, s), 0);
        ParentSiblingFrom(h, env, id, p, sibs, k + 1)
  }

  // ---------------------------------------------------------------------
  // IfConflictRemoveSibling (Manager.cxx:896-925)
  // ---------------------------------------------------------------------

  /** A sibling whose table names no parent, or a parent other than p, loses its sibling link. */
  function Disowned(m: CorrMap, p: nat): (r: Result<bool>)
    ensures r.Err? <==> SeveralPeers(m, Parent)
    ensures r.Ok? ==> (r.value <==> !IsPeer(m, p, Parent))
  {
    var hp :- HasParent(m);
    if !hp then Ok(true)
    else
      match GetParent(m)
      case Err(e) => Err(e)
      case Ok(q) => Ok(q != p)
  }

  function RemoveSiblingSpec(g: Graph, id: nat): Result<Graph> {
    if id !in g then Err(NodeNotFound)
    else
      var conflict :- HasConflict(g[id]);
      if !conflict then Ok(g)
      else
        match GetSiblings(g[id])
        case Err(e) => Err(e)
        case Ok(sibs) =>
          match GetParent(g[id])
          case Err(e) => Err(e)
          case Ok(p) => RemoveSiblingFrom(g, id, p, sibs, 0)
  }

  function RemoveSiblingFrom(g: Graph, id: nat, p: nat, sibs: seq<nat>, k: nat): Result<Graph>
    requires k <= |sibs|
    decreases |sibs| - k
  {
    if k == |sibs| then Ok(g)
    else
      var s := sibs[k];
      if s !in g then Err(NodeNotFound)
      else
        var drop :- Disowned(g[s], p);
        if drop then
          var h :- EraseSpec(g, id, s);
          RemoveSiblingFrom(h, id, p, sibs, k + 1)
        else RemoveSiblingFrom(g, id, p, sibs, k + 1)
  }

  // ---------------------------------------------------------------------
  // SortSiblings (Manager.cxx:431-538)
  // ---------------------------------------------------------------------

  /** The vertices recorded for the siblings, in sibling order. */
  function Vertices(m: CorrMap, sibs: seq<nat>): (r: seq<Point>)
    requires forall s :: s in sibs ==> s in m
    ensures |r| == |sibs| && forall i :: 0 <= i < |sibs| ==> r[i] == m[sibs[i]].vtx
  {
    seq(|sibs|, i requires 0 <= i < |sibs| => m[sibs[i]].vtx)
  }

  /** The vertex-only edit of the pair (id, s) for every sibling s from position k on. */
  function MoveFrom(g: Graph, prohibits: (nat, Relation) -> bool, id: nat, sibs: seq<nat>, v: Point, k: nat): Result<Graph>
    requires k <= |sibs|
    decreases |sibs| - k
  {
    if k == |sibs| then Ok(g)
    else
      var st := EditSpec(g, prohibits, id, sibs[k], NewVertex(v));
      if st.out.Fail? then Err(st.out.error)
      else MoveFrom(st.graph, prohibits, id, sibs, v, k + 1)
  }

  /**
   * One sibling pair (a, b) made a Sibling correlation at vertex v.
   * Merging edits the vertex of an existing Sibling pair and refuses any
   * other relation; re-creating erases an existing pair first.  A missing
   * pair is added with score 0.
   */
  function LinkPair(g: Graph, prohibits: (nat, Relation) -> bool, a: nat, b: nat, v: Point, merge: bool): Result<Graph> {
    if a !in g then Err(NodeNotFound)
    else if merge then
      if b in g[a] then
        if g[a][b].rel != Sibling then Err(NotSiblingRelation)
        else
          var st := EditSpec(g, prohibits, a, b, NewVertex(v));
          if st.out.Fail? then Err(st.out.error) else Ok(st.graph)
      else AddSpec(g, prohibits, a, b, Correlation(0.0, v, Sibling))
    else
      var h :- if b in g[a] then EraseSpec(g, a, b) else Ok(g);
      AddSpec(h, prohibits, a, b, Correlation(0.0, v, Sibling))
  }

  /**
   * The nested pair loop: every pair (sibs[i], sibs[j]) with i < j, row by
   * row, starting from the cursor (i, j).
   */
  function LinkFrom(g: Graph, prohibits: (nat, Relation) -> bool, sibs: seq<nat>, v: Point, merge: bool, i: nat, j: nat): Result<Graph>
    requires i <= |sibs| && j <= |sibs| + 1
    decreases |sibs| - i, |sibs| + 1 - j
  {
    if i == |sibs| then Ok(g)
    else if j >= |sibs| then LinkFrom(g, prohibits, sibs, v, merge, i + 1, i + 2)
    else
      var h :- LinkPair(g, prohibits, sibs[i], sibs[j], v, merge);
      LinkFrom(h, prohibits, sibs, v, merge, i, j + 1)
  }

  /** The running maximum of the strict mode: a later sibling wins only with a strictly higher score. */
  function BestFrom(m: CorrMap, sibs: seq<nat>, k: nat, top: real, best: Option<nat>): Option<nat>
    requires k <= |sibs|
    decreases |sibs| - k
  {
    if k == |sibs| then best
    else if GetScore(m, sibs[k]) > top then BestFrom(m, sibs, k + 1, GetScore(m, sibs[k]), Some(sibs[k]))
    else BestFrom(m, sibs, k + 1, top, best)
  }

  /** The sibling the strict mode keeps, starting from a best score of 0 and no sibling. */
  function BestSibling(m: CorrMap, sibs: seq<nat>): Option<nat> {
    BestFrom(m, sibs, 0, 0.0, None)
  }

  /** Erase the pair (id, s) for every sibling s from position k on, except the kept one. */
  function DropFrom(g: Graph, id: nat, sibs: seq<nat>, keep: Option<nat>, k: nat): Result<Graph>
    requires k <= |sibs|
    decreases |sibs| - k
  {
    if k == |sibs| then Ok(g)
    else if keep == Some(sibs[k]) then DropFrom(g, id, sibs, keep, k + 1)
    else
      var h :- EraseSpec(g, id, sibs[k]);
      DropFrom(h, id, sibs, keep, k + 1)
  }

  function SortSiblingsSpec(g: Graph, env: Env, id: nat): Result<Graph> {
    if id !in g then Err(NodeNotFound)
    else if !HasSiblings(g[id]) then Ok(g)
    else
      match GetSiblings(g[id])
      case Err(e) => Err(e)
      case Ok(sibs) =>
        if |sibs| == 1 then Ok(g)
        else
          var m := g[id];
          var v1 := m[sibs[0]].vtx;
          if SameVertex(m, sibs, v1) then
            if env.loose then LinkFrom(g, env.prohibits, sibs, v1, false, 0, 1) else Ok(g)
          else if env.loose then
            var nv := env.center(Vertices(m, sibs));
            var h :- MoveFrom(g, env.prohibits, id, sibs, nv, 0);
            LinkFrom(h, env.prohibits, sibs, nv, true, 0, 1)
          else DropFrom(g, id, sibs, BestSibling(m, sibs), 0)
  }

  // ---------------------------------------------------------------------
  // ResolveSiblingsWithDifferentParent (Manager.cxx:681-763)
  // ---------------------------------------------------------------------

  /** Which correlation the three-way comparison gives up. */
  datatype Drop = DropSiblingParent | DropParent | DropSibling

  /** The score of the two correlations that survive a choice. */
  function KeptScore(d: Drop, parentScore: real, sibScore: real, sibParentScore: real): real {
    match d
    case DropSiblingParent => parentScore + sibScore
    case DropParent => sibParentScore + sibScore
    case DropSibling => parentScore + sibParentScore
  }

  /** Cases A, B and C of the comparison: the surviving pair always has the highest combined score. */
  function ChooseDrop(parentScore: real, sibScore: real, sibParentScore: real): (d: Drop)
    ensures forall o: Drop :: KeptScore(o, parentScore, sibScore, sibParentScore) <= KeptScore(d, parentScore, sibScore, sibParentScore)
  {
    var a := parentScore + sibScore;
    var b := sibParentScore + sibScore;
    var c := parentScore + sibParentScore;
    if a > b && a > c then DropSiblingParent
    else if b > c then DropParent
    else DropSibling
  }

  function ResolveSiblingsSpec(g: Graph, id: nat): Result<Graph> {
    if id !in g then Err(NodeNotFound)
    else
      var conflict :- HasConflict(g[id]);
      if !conflict then Ok(g)
      else
        match GetParent(g[id])
        case Err(e) => Err(e)
        case Ok(p) =>
          match GetSiblings(g[id])
          case Err(e) => Err(e)
          case Ok(sibs) => ResolveSiblingsFrom(g, id, p, sibs, 0)
  }

  function ResolveSiblingsFrom(g: Graph, id: nat, p: nat, sibs: seq<nat>, k: nat): Result<Graph>
    requires k <= |sibs|
    decreases |sibs| - k
  {
    if k == |sibs| then Ok(g)
    else
      var s := sibs[k];
      if s !in g then Err(NodeNotFound)
      else
        var hp :- HasParent(g[s]);
        if !hp then ResolveSiblingsFrom(g, id, p, sibs, k + 1)
        else
          match GetParent(g[s])
          case Err(e) => Err(e)
          case Ok(sp) =>
            if sp == p then ResolveSiblingsFrom(g, id, p, sibs, k + 1)
            else if |sibs| > 1 then
              var h :- EraseSpec(g, id, s);
              ResolveSiblingsFrom(h, id, p, sibs, k + 1)
            else if id !in g then Err(NodeNotFound)
            else
              var d := ChooseDrop(GetScore(g[id], p), GetScore(g[id], s), GetScore(g[s], sp));
              var h :- match d
                       case DropSiblingParent => EraseSpec(g, s, sp)
                       case DropParent => EraseSpec(g, id, p)
                       case DropSibling => EraseSpec(g, id, s);
              ResolveSiblingsFrom(h, id, p, sibs, k + 1)
  }

  // ---------------------------------------------------------------------
  // The pipeline (Manager.cxx:304-370, 418-428, 765-774, 885-894)
  // ---------------------------------------------------------------------

  datatype Pass = BestParentPass | ParentSiblingPass | RemoveSiblingPass | SortSiblingsPass

  function PassOne(g: Graph, env: Env, pass: Pass, id: nat): Result<Graph> {
    match pass
    case BestParentPass => FindBestParentSpec(g, env, id)
    case ParentSiblingPass => ParentSiblingSpec(g, env, id)
    case RemoveSiblingPass => RemoveSiblingSpec(g, id)
    case SortSiblingsPass => SortSiblingsSpec(g, env, id)
  }

  /** One pass over the id snapshot, from position k on. */
  function PassFrom(g: Graph, env: Env, pass: Pass, ids: seq<nat>, k: nat): Result<Graph>
    requires k <= |ids|
    decreases |ids| - k
  {
    if k == |ids| then Ok(g)
    else
      var h :- PassOne(g, env, pass, ids[k]);
      PassFrom(h, env, pass, ids, k + 1)
  }

  /** The four passes in their fixed order. */
  function ResolveConflictsSpec(g: Graph, env: Env, ids: seq<nat>): Result<Graph> {
    var g1 :- PassFrom(g, env, BestParentPass, ids, 0);
    var g2 :- PassFrom(g1, env, ParentSiblingPass, ids, 0);
    var g3 :- PassFrom(g2, env, RemoveSiblingPass, ids, 0);
    PassFrom(g3, env, SortSiblingsPass, ids, 0)
  }
}
