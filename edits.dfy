/**
 * The symmetric correlation edits of the Manager (GeoGraph/Manager.cxx:148-302),
 * stated on the registry's correlation view `Graph` (node id -> table).
 *
 * Direction: for AddCorrelation(id1, id2, ..., type) the relation `type` is
 * what id1 is with respect to id2, so it is stored in id2's table under key
 * id1, and the inverse relation is stored in id1's table under key id2.
 */
module GeoEdits {
  import opened Faults
  import opened GeoNode
  import opened GeoRegistry

  /** Graph after a two-sided edit, and whether the edit failed (possibly after the first write). */
  datatype Step = Step(graph: Graph, out: Outcome)

  /** The prohibition check: id1 refuses the inverse relation, or id2 refuses `rel`. */
  function Vetoed(prohibits: (nat, Relation) -> bool, id1: nat, id2: nat, rel: Relation): bool {
    prohibits(id1, Inverse(rel)) || prohibits(id2, rel)
  }

  /** Only the edits that set a relation consult the prohibition check. */
  function VetoedChange(prohibits: (nat, Relation) -> bool, id1: nat, id2: nat, ch: Change): bool {
    match ch
    case Whole(c) => Vetoed(prohibits, id1, id2, c.rel)
    case NewRelation(rel) => Vetoed(prohibits, id1, id2, rel)
    case _ => false
  }

  /** One entry of one table overwritten. */
  function Write(g: Graph, owner: nat, peer: nat, c: Correlation): Graph
    requires owner in g
  {
    var row: CorrMap := g[owner][peer := c];
    g[owner := row]
  }

  /** AddCorrelation: both directions written, unless an id is unknown or the relation is vetoed. */
  function AddSpec(g: Graph, prohibits: (nat, Relation) -> bool, id1: nat, id2: nat, c: Correlation): Result<Graph> {
    if id1 !in g || id2 !in g then Err(NodeNotFound)
    else if Vetoed(prohibits, id1, id2, c.rel) then Ok(g)
    else Ok(Write(Write(g, id2, id1, c), id1, id2, Mirror(c)))
  }

  /**
   * The four EditCorrelation overloads: id2's entry for id1 is edited first,
   * then id1's entry for id2 with the mirrored change.  Each side fails when
   * its entry is missing; a failure on the second side keeps the first write.
   */
  function EditSpec(g: Graph, prohibits: (nat, Relation) -> bool, id1: nat, id2: nat, ch: Change): Step {
    if id1 !in g || id2 !in g then Step(g, Fail(NodeNotFound))
    else if VetoedChange(prohibits, id1, id2, ch) then Step(g, Pass)
    else EditBoth(g, id1, id2, ch)
  }

  /** The two one-sided edits of EditSpec, once both nodes are known and the change is allowed. */
  function EditBoth(g: Graph, id1: nat, id2: nat, ch: Change): Step
    requires id1 in g && id2 in g
  {
    if id1 !in g[id2] then Step(g, Fail(CorrelationNotFound))
    else
      var row2: CorrMap := Edited(g[id2], id1, ch);
      var g1 := g[id2 := row2];
      if id2 !in g1[id1] then Step(g1, Fail(CorrelationNotFound))
      else
        var row1: CorrMap := Edited(g1[id1], id2, MirrorChange(ch));
        Step(g1[id1 := row1], Pass)
  }

  /** Both directions of a pair removed. */
  function EraseBoth(g: Graph, a: nat, b: nat): Graph
    requires a in g && b in g
  {
    var rowA: CorrMap := g[a] - {b};
    var g1 := g[a := rowA];
    var rowB: CorrMap := g1[b] - {a};
    g1[b := rowB]
  }

  /** EraseCorrelation: fails on an unknown id, otherwise removes both directions. */
  function EraseSpec(g: Graph, a: nat, b: nat): Result<Graph> {
    if a !in g || b !in g then Err(NodeNotFound) else Ok(EraseBoth(g, a, b))
  }

  /** Every correlation is recorded at both ends, each end holding the other's mirror image. */
  ghost predicate Symmetric(g: Graph) {
    forall a, b :: a in g && b in g[a] ==> b in g && a in g[b] && g[b][a] == Mirror(g[a][b])
  }

  /** `h` holds a subset of the correlations of `g`, unmodified: the passes only ever erase. */
  ghost predicate SubGraph(h: Graph, g: Graph) {
    h.Keys == g.Keys && forall a, b :: a in h && b in h[a] ==> b in g[a] && h[a][b] == g[a][b]
  }

  // ---------------------------------------------------------------------
  // AddCorrelation
  // ---------------------------------------------------------------------

  /** Unknown ids fail; a veto succeeds without change; otherwise exactly the two entries are written. */
  lemma AddOutcome(g: Graph, prohibits: (nat, Relation) -> bool, id1: nat, id2: nat, c: Correlation)
    ensures AddSpec(g, prohibits, id1, id2, c).Err? <==> id1 !in g || id2 !in g
    ensures AddSpec(g, prohibits, id1, id2, c).Err? ==> AddSpec(g, prohibits, id1, id2, c).error == NodeNotFound
    ensures id1 in g && id2 in g && Vetoed(prohibits, id1, id2, c.rel) ==> AddSpec(g, prohibits, id1, id2, c) == Ok(g)
    ensures id1 in g && id2 in g && !Vetoed(prohibits, id1, id2, c.rel) && id1 != id2 ==>
      var h := AddSpec(g, prohibits, id1, id2, c).value;
      && h.Keys == g.Keys
      && id1 in h[id2] && h[id2][id1] == c
      && id2 in h[id1] && h[id1][id2] == c.(rel := Inverse(c.rel))
      && (forall a, b :: a in g && (a != id1 || b != id2) && (a != id2 || b != id1) ==>
            (b in h[a] <==> b in g[a]) && (b in g[a] ==> h[a][b] == g[a][b]))
    ensures id1 in g && id1 == id2 && !Vetoed(prohibits, id1, id1, c.rel) ==>
      var h := AddSpec(g, prohibits, id1, id2, c).value;
      && h.Keys == g.Keys
      && id1 in h[id1] && h[id1][id1] == Mirror(c)
      && (forall a, b :: a in g && (a != id1 || b != id1) ==>
            (b in h[a] <==> b in g[a]) && (b in g[a] ==> h[a][b] == g[a][b]))
  {
  }

  /**
   * A node correlated with itself keeps only the second write, the mirror:
   * a self Parent correlation leaves a Child self entry, which is not its own
   * mirror, so the graph is no longer symmetric.
   */
  lemma AddSelfParentBreaksSymmetry(g: Graph, prohibits: (nat, Relation) -> bool, id: nat, c: Correlation)
    requires id in g && c.rel == Parent && !Vetoed(prohibits, id, id, c.rel)
    ensures AddSpec(g, prohibits, id, id, c).Ok? && !Symmetric(AddSpec(g, prohibits, id, id, c).value)
  {
    var h := AddSpec(g, prohibits, id, id, c).value;
    assert h[id][id] == Mirror(c) && Mirror(c).rel == Child;
  }

  /** Adding a correlation between two distinct nodes keeps the graph symmetric. */
  lemma AddKeepsSymmetry(g: Graph, prohibits: (nat, Relation) -> bool, id1: nat, id2: nat, c: Correlation)
    requires Symmetric(g) && id1 != id2
    ensures AddSpec(g, prohibits, id1, id2, c).Ok? ==> Symmetric(AddSpec(g, prohibits, id1, id2, c).value)
  {
    if id1 in g && id2 in g && !Vetoed(prohibits, id1, id2, c.rel) {
      var h := AddSpec(g, prohibits, id1, id2, c).value;
      forall a, b | a in h && b in h[a]
        ensures b in h && a in h[b] && h[b][a] == Mirror(h[a][b])
      {
        MirrorInvolution(c);
        if (a == id1 && b == id2) || (a == id2 && b == id1) {
        } else {
          assert b in g[a] && h[a][b] == g[a][b];
          assert a in g[b] && g[b][a] == Mirror(g[a][b]);
        }
      }
    }
  }

  // ---------------------------------------------------------------------
  // EditCorrelation
  // ---------------------------------------------------------------------

  /** A vetoed edit changes nothing and succeeds; unknown ids fail without change. */
  lemma EditVeto(g: Graph, prohibits: (nat, Relation) -> bool, id1: nat, id2: nat, ch: Change)
    ensures (id1 !in g || id2 !in g) ==> EditSpec(g, prohibits, id1, id2, ch) == Step(g, Fail(NodeNotFound))
    ensures id1 in g && id2 in g && VetoedChange(prohibits, id1, id2, ch) ==> EditSpec(g, prohibits, id1, id2, ch) == Step(g, Pass)
    ensures (ch.NewScore? || ch.NewVertex?) ==> !VetoedChange(prohibits, id1, id2, ch)
  {
  }

  /** The score-only and vertex-only edits never change a relation, nor which entries exist. */
  lemma FieldEditKeepsRelations(g: Graph, prohibits: (nat, Relation) -> bool, id1: nat, id2: nat, ch: Change)
    requires ch.NewScore? || ch.NewVertex?
    ensures var h := EditSpec(g, prohibits, id1, id2, ch).graph;
      h.Keys == g.Keys && forall a, b :: a in g && b in g[a] ==> b in h[a] && h[a][b].rel == g[a][b].rel
    ensures var h := EditSpec(g, prohibits, id1, id2, ch).graph;
      forall a :: a in h ==> h[a].Keys == g[a].Keys
  {
    assert MirrorChange(ch) == ch;
    if id1 in g && id2 in g && id1 in g[id2] {
      FieldEditKeepsRow(g, id2, id1, ch);
      var g1 := g[id2 := Edited(g[id2], id1, ch)];
      FieldEditKeepsRow(g1, id1, id2, ch);
      assert EditSpec(g, prohibits, id1, id2, ch).graph == if id2 in g1[id1] then g1[id1 := Edited(g1[id1], id2, ch)] else g1;
    }
  }

  /** One field edit of one table keeps its keys and every relation. */
  lemma FieldEditKeepsRow(g: Graph, owner: nat, peer: nat, ch: Change)
    requires owner in g && (ch.NewScore? || ch.NewVertex?)
    ensures var h := g[owner := Edited(g[owner], peer, ch)];
      h.Keys == g.Keys && (forall a :: a in h ==> h[a].Keys == g[a].Keys)
      && forall a, b :: a in g && b in g[a] ==> h[a][b].rel == g[a][b].rel
  {
  }

  /**
   * On a symmetric graph a two-sided edit of distinct nodes either fails
   * before writing anything, or succeeds; either way symmetry is kept and
   * the pair ends up holding the edited value and its mirror.
   */
  lemma EditKeepsSymmetry(g: Graph, prohibits: (nat, Relation) -> bool, id1: nat, id2: nat, ch: Change)
    requires Symmetric(g) && id1 != id2
    ensures EditSpec(g, prohibits, id1, id2, ch).out.Fail? ==> EditSpec(g, prohibits, id1, id2, ch).graph == g
    ensures Symmetric(EditSpec(g, prohibits, id1, id2, ch).graph)
    ensures var s := EditSpec(g, prohibits, id1, id2, ch);
      s.out.Pass? && s.graph != g ==>
        id1 in g[id2] && s.graph[id2][id1] == Apply(g[id2][id1], ch) && s.graph[id1][id2] == Mirror(s.graph[id2][id1])
  {
    var s := EditSpec(g, prohibits, id1, id2, ch);
    if id1 in g && id2 in g && !VetoedChange(prohibits, id1, id2, ch) && id1 in g[id2] {
      assert id2 in g[id1];
      var old21 := g[id2][id1];
      var new21 := Apply(old21, ch);
      MirrorInvolution(old21);
      assert Apply(g[id1][id2], MirrorChange(ch)) == Mirror(new21) by {
        assert g[id1][id2] == Mirror(old21);
      }
      var h := s.graph;
      forall a, b | a in h && b in h[a]
        ensures b in h && a in h[b] && h[b][a] == Mirror(h[a][b])
      {
        MirrorInvolution(new21);
        if (a == id1 && b == id2) || (a == id2 && b == id1) {
        } else {
          assert b in g[a] && h[a][b] == g[a][b];
          assert a in g[b] && g[b][a] == Mirror(g[a][b]);
        }
      }
    }
  }

  // ---------------------------------------------------------------------
  // EraseCorrelation
  // ---------------------------------------------------------------------

  /** Erase removes both directions, touches nothing else, and a second erase changes nothing. */
  lemma EraseOutcome(g: Graph, a: nat, b: nat)
    ensures EraseSpec(g, a, b).Err? <==> a !in g || b !in g
    ensures EraseSpec(g, a, b).Ok? ==>
      var h := EraseSpec(g, a, b).value;
      && h.Keys == g.Keys
      && b !in h[a] && a !in h[b]
      && (forall x, y :: x in g && (x != a || y != b) && (x != b || y != a) ==>
            (y in h[x] <==> y in g[x]) && (y in g[x] ==> h[x][y] == g[x][y]))
      && EraseSpec(h, a, b) == Ok(h)
  {
    if a in g && b in g {
      var h := EraseBoth(g, a, b);
      assert h[a] - {b} == h[a] && h[b] - {a} == h[b];
      assert EraseBoth(h, a, b) == h;
    }
  }

  /** Erasing keeps a symmetric graph symmetric, and only removes correlations. */
  lemma EraseKeepsSymmetry(g: Graph, a: nat, b: nat)
    requires a in g && b in g
    ensures SubGraph(EraseBoth(g, a, b), g)
    ensures Symmetric(g) ==> Symmetric(EraseBoth(g, a, b))
  {
    var h := EraseBoth(g, a, b);
    if Symmetric(g) {
      forall x, y | x in h && y in h[x]
        ensures y in h && x in h[y] && h[y][x] == Mirror(h[x][y])
      {
        assert y in g[x] && h[x][y] == g[x][y];
        assert x in g[y] && g[y][x] == Mirror(g[x][y]);
      }
    }
  }

  /** SubGraph is a preorder: passes built from erasures only erase. */
  lemma SubGraphTransitive(h1: Graph, h2: Graph, g: Graph)
    requires SubGraph(h1, h2) && SubGraph(h2, g)
    ensures SubGraph(h1, g)
  {
  }
}
