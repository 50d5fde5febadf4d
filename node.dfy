/**
 * The node record and its correlation table (GeoGraph/Node.h, GeoGraph/Node.cxx).
 *
 * A node keeps one correlation per peer id.  The entry a node holds for a
 * peer records what the PEER is to this node: an entry with relation Parent
 * names this node's parent.  The read-only queries scan the table in
 * ascending peer-id order, as iteration over an ordered map does, and are
 * modelled as functions of the table; the mutators are methods of the class.
 */
module GeoNode {
  import opened Faults

  datatype Relation = Parent | Child | Sibling | Unknown

  /** A 3-D point; the model only ever compares points for equality. */
  datatype Point = Point(x: real, y: real, z: real)

  /** The default-constructed three-dimensional point. */
  const Origin: Point := Point(0.0, 0.0, 0.0)

  datatype Correlation = Correlation(score: real, vtx: Point, rel: Relation)

  /** Peer id -> correlation; keys are unique by construction. */
  type CorrMap = map<nat, Correlation>

  /** The relation the other end of a pair records: Child and Parent swap, the rest map to themselves. */
  function Inverse(r: Relation): Relation {
    match r
    case Sibling => Sibling
    case Child => Parent
    case Parent => Child
    case Unknown => Unknown
  }

  /** The same correlation seen from the peer's side. */
  function Mirror(c: Correlation): Correlation {
    c.(rel := Inverse(c.rel))
  }

  lemma MirrorInvolution(c: Correlation)
    ensures Mirror(Mirror(c)) == c
    ensures Inverse(Inverse(c.rel)) == c.rel
  {
  }

  /** The four forms of an edit: the whole record, or one of its fields. */
  datatype Change =
    | Whole(c: Correlation)
    | NewScore(score: real)
    | NewVertex(vtx: Point)
    | NewRelation(rel: Relation)

  function Apply(c: Correlation, ch: Change): (r: Correlation)
    ensures ch.NewScore? ==> r.vtx == c.vtx && r.rel == c.rel
    ensures ch.NewVertex? ==> r.score == c.score && r.rel == c.rel
    ensures ch.NewRelation? ==> r.score == c.score && r.vtx == c.vtx
  {
    match ch
    case Whole(n) => n
    case NewScore(s) => c.(score := s)
    case NewVertex(v) => c.(vtx := v)
    case NewRelation(t) => c.(rel := t)
  }

  /** The same edit applied from the other end of the pair. */
  function MirrorChange(ch: Change): Change {
    match ch
    case Whole(c) => Whole(Mirror(c))
    case NewRelation(t) => NewRelation(Inverse(t))
    case _ => ch
  }

  /** The table after an edit of the entry for `peer`; unchanged when there is none. */
  function Edited(m: CorrMap, peer: nat, ch: Change): CorrMap {
    if peer in m then m[peer := Apply(m[peer], ch)] else m
  }

  // ---------------------------------------------------------------------
  // Ordered peer sets (the iteration order of the correlation map)
  // ---------------------------------------------------------------------

  ghost predicate StrictlyIncreasing(s: seq<nat>) {
    forall i, j :: 0 <= i < j < |s| ==> s[i] < s[j]
  }

  predicate LowerBound(m: nat, s: set<nat>) {
    forall x :: x in s ==> m <= x
  }

  lemma {:induction false} MinimumExists(s: set<nat>)
    requires s != {}
    ensures exists m :: m in s && LowerBound(m, s)
  {
    var y :| y in s;
    var r := s - {y};
    if r == {} {
      assert s == {y};
      assert LowerBound(y, s);
    } else {
      MinimumExists(r);
      var m :| m in r && LowerBound(m, r);
      var low := if y < m then y else m;
      forall x | x in s ensures low <= x {
        if x != y {
          assert x in r;
        }
      }
      assert low in s && LowerBound(low, s);
    }
  }

  function Minimum(s: set<nat>): (m: nat)
    requires s != {}
    ensures m in s && forall x :: x in s ==> m <= x
  {
    MinimumExists(s);
    var m :| m in s && LowerBound(m, s);
    m
  }

  /** The elements of `s` in ascending order. */
  function SortedKeys(s: set<nat>): (r: seq<nat>)
    ensures StrictlyIncreasing(r)
    ensures forall k :: k in r <==> k in s
    decreases s
  {
    if s == {} then []
    else
      var m := Minimum(s);
      var rest := SortedKeys(s - {m});
      assert forall k :: k in rest ==> m < k;
      [m] + rest
  }

  ghost predicate IsPeer(m: CorrMap, k: nat, rel: Relation) {
    k in m && m[k].rel == rel
  }

  /** At least two distinct peers carry relation `rel`. */
  ghost predicate SeveralPeers(m: CorrMap, rel: Relation) {
    exists a, b :: a != b && IsPeer(m, a, rel) && IsPeer(m, b, rel)
  }

  /** The peers recorded with relation `rel`, in ascending id order. */
  function PeersWith(m: CorrMap, rel: Relation): (r: seq<nat>)
    ensures StrictlyIncreasing(r)
    ensures forall k :: k in r <==> IsPeer(m, k, rel)
  {
    SortedKeys(set k | k in m && m[k].rel == rel)
  }

  lemma {:induction false} TwoOrMore(s: seq<nat>)
    requires StrictlyIncreasing(s)
    ensures |s| >= 2 <==> exists a, b :: a != b && a in s && b in s
  {
    if |s| >= 2 {
      assert s[0] < s[1];
      assert s[0] in s && s[1] in s;
    }
    if exists a, b :: a != b && a in s && b in s {
      var a, b :| a != b && a in s && b in s;
      var i :| 0 <= i < |s| && s[i] == a;
      var j :| 0 <= j < |s| && s[j] == b;
      assert i != j;
    }
  }

  lemma PeerCount(m: CorrMap, rel: Relation)
    ensures |PeersWith(m, rel)| >= 2 <==> SeveralPeers(m, rel)
    ensures |PeersWith(m, rel)| >= 1 <==> exists k :: IsPeer(m, k, rel)
  {
    var ps := PeersWith(m, rel);
    TwoOrMore(ps);
    if |ps| >= 1 {
      assert IsPeer(m, ps[0], rel);
    }
    if SeveralPeers(m, rel) {
      var a, b :| a != b && IsPeer(m, a, rel) && IsPeer(m, b, rel);
      assert a in ps && b in ps;
    }
  }

  // ---------------------------------------------------------------------
  // Read-only queries of Node.cxx
  // ---------------------------------------------------------------------

  /** getScore: the stored score, or the sentinel -1 when the peer is absent. */
  function GetScore(m: CorrMap, peer: nat): (r: real)
    ensures peer !in m ==> r == -1.0
    ensures peer in m ==> r == m[peer].score
  {
    if peer in m then m[peer].score else -1.0
  }

  /** isPrimary: no entry is Parent or Sibling (Child entries do not matter). */
  function IsPrimary(m: CorrMap): (r: bool)
    ensures r <==> forall k :: k in m ==> m[k].rel != Parent && m[k].rel != Sibling
  {
    var primary := |PeersWith(m, Parent)| == 0 && |PeersWith(m, Sibling)| == 0;
    PeerCount(m, Parent);
    PeerCount(m, Sibling);
    assert forall k :: k in m && m[k].rel == Parent ==> IsPeer(m, k, Parent);
    assert forall k :: k in m && m[k].rel == Sibling ==> IsPeer(m, k, Sibling);
    primary
  }

  /** hasConflict: fails on more than one Parent; otherwise one Parent and some Sibling. */
  function HasConflict(m: CorrMap): (r: Result<bool>)
    ensures r.Err? <==> SeveralPeers(m, Parent)
    ensures r.Err? ==> r.error == MultipleParents
    ensures r.Ok? ==> (r.value <==> (exists p :: IsPeer(m, p, Parent)) && (exists s :: IsPeer(m, s, Sibling)))
  {
    PeerCount(m, Parent);
    PeerCount(m, Sibling);
    var parents := |PeersWith(m, Parent)|;
    var siblings := |PeersWith(m, Sibling)|;
    if parents > 1 then Err(MultipleParents)
    else Ok(parents > 0 && siblings > 0)
  }

  /** hasParent: fails on more than one Parent; otherwise whether there is one. */
  function HasParent(m: CorrMap): (r: Result<bool>)
    ensures r.Err? <==> SeveralPeers(m, Parent)
    ensures r.Err? ==> r.error == MultipleParents
    ensures r.Ok? ==> (r.value <==> exists p :: IsPeer(m, p, Parent))
  {
    PeerCount(m, Parent);
    var parents := |PeersWith(m, Parent)|;
    if parents > 1 then Err(MultipleParents)
    else Ok(parents == 1)
  }

  /** getParent: the unique Parent peer; fails when there are several or none. */
  function GetParent(m: CorrMap): (r: Result<nat>)
    ensures r.Ok? ==> IsPeer(m, r.value, Parent) && forall k :: IsPeer(m, k, Parent) ==> k == r.value
    ensures r.Err? ==>
              || (r.error == MultipleParents && SeveralPeers(m, Parent))
              || (r.error == NoParent && forall k :: !IsPeer(m, k, Parent))
  {
    PeerCount(m, Parent);
    var parents := PeersWith(m, Parent);
    if |parents| > 1 then Err(MultipleParents)
    else if |parents| == 0 then Err(NoParent)
    else
      assert forall k :: IsPeer(m, k, Parent) ==> k == parents[0];
      Ok(parents[0])
  }

  /** hasSiblings: at least one Sibling entry. */
  function HasSiblings(m: CorrMap): (r: bool)
    ensures r <==> exists s :: IsPeer(m, s, Sibling)
  {
    PeerCount(m, Sibling);
    |PeersWith(m, Sibling)| >= 1
  }

  /** getSiblings: every Sibling peer in ascending id order; fails when there is none. */
  function GetSiblings(m: CorrMap): (r: Result<seq<nat>>)
    ensures r.Err? <==> forall s :: !IsPeer(m, s, Sibling)
    ensures r.Err? ==> r.error == NoSiblings
    ensures r.Ok? ==> |r.value| >= 1 && StrictlyIncreasing(r.value)
    ensures r.Ok? ==> forall s :: s in r.value <==> IsPeer(m, s, Sibling)
  {
    PeerCount(m, Sibling);
    var siblings := PeersWith(m, Sibling);
    if |siblings| == 0 then Err(NoSiblings) else Ok(siblings)
  }

  /** Every listed sibling's entry carries vertex v. */
  predicate SameVertex(m: CorrMap, sibs: seq<nat>, v: Point)
    requires forall s :: s in sibs ==> s in m
  {
    forall i :: 0 <= i < |sibs| ==> m[sibs[i]].vtx == v
  }

  // ---------------------------------------------------------------------
  // The node record (Node.h) and its mutators (Node.cxx)
  // ---------------------------------------------------------------------

  class Node {
    /** The unique id the node was created with; never reassigned. */
    const id: nat
    /** Parent id assigned during tree assembly; None until setParent is called. */
    var parentId: Option<nat>
    /** Children ids, append-only. */
    var children: seq<nat>
    var corr: CorrMap

    constructor (n: nat)
      ensures id == n && parentId == None && children == [] && corr == map[]
    {
      id := n;
      parentId := None;
      children := [];
      corr := map[];
    }

    /** addChild: push `c` at the end of the children list. */
    method AddChild(c: nat)
      modifies this
      ensures children == old(children) + [c]
      ensures parentId == old(parentId) && corr == old(corr)
    {
      children := children + [c];
    }

    /** setParent: overwrite the parent id. */
    method SetParent(p: nat)
      modifies this
      ensures parentId == Some(p)
      ensures children == old(children) && corr == old(corr)
    {
      parentId := Some(p);
    }

    /** addCorrelation: upsert the entry for `peer`. */
    method AddCorrelation(peer: nat, score: real, vtx: Point, rel: Relation)
      modifies this
      ensures corr == old(corr)[peer := Correlation(score, vtx, rel)]
      ensures parentId == old(parentId) && children == old(children)
    {
      corr := corr[peer := Correlation(score, vtx, rel)];
    }

    /** editCorrelation (score, vertex and relation): fails when there is no entry for `peer`. */
    method EditCorrelation(peer: nat, score: real, vtx: Point, rel: Relation) returns (out: Outcome)
      modifies this
      ensures out == if peer in old(corr) then Pass else Fail(CorrelationNotFound)
      ensures corr == Edited(old(corr), peer, Whole(Correlation(score, vtx, rel)))
      ensures parentId == old(parentId) && children == old(children)
    {
      if peer !in corr {
        return Fail(CorrelationNotFound);
      }
      corr := corr[peer := Correlation(score, vtx, rel)];
      out := Pass;
    }

    /** editCorrelation (score only). */
    method EditScore(peer: nat, score: real) returns (out: Outcome)
      modifies this
      ensures out == if peer in old(corr) then Pass else Fail(CorrelationNotFound)
      ensures corr == Edited(old(corr), peer, NewScore(score))
      ensures parentId == old(parentId) && children == old(children)
    {
      if peer !in corr {
        return Fail(CorrelationNotFound);
      }
      corr := corr[peer := corr[peer].(score := score)];
      out := Pass;
    }

    /** editCorrelation (vertex only). */
    method EditVertex(peer: nat, vtx: Point) returns (out: Outcome)
      modifies this
      ensures out == if peer in old(corr) then Pass else Fail(CorrelationNotFound)
      ensures corr == Edited(old(corr), peer, NewVertex(vtx))
      ensures parentId == old(parentId) && children == old(children)
    {
      if peer !in corr {
        return Fail(CorrelationNotFound);
      }
      corr := corr[peer := corr[peer].(vtx := vtx)];
      out := Pass;
    }

    /** editCorrelation (relation only). */
    method EditRelation(peer: nat, rel: Relation) returns (out: Outcome)
      modifies this
      ensures out == if peer in old(corr) then Pass else Fail(CorrelationNotFound)
      ensures corr == Edited(old(corr), peer, NewRelation(rel))
      ensures parentId == old(parentId) && children == old(children)
    {
      if peer !in corr {
        return Fail(CorrelationNotFound);
      }
      corr := corr[peer := corr[peer].(rel := rel)];
      out := Pass;
    }

    /** The editCorrelation overload that matches the form of `ch`. */
    method Edit(peer: nat, ch: Change) returns (out: Outcome)
      modifies this
      ensures out == if peer in old(corr) then Pass else Fail(CorrelationNotFound)
      ensures corr == Edited(old(corr), peer, ch)
      ensures parentId == old(parentId) && children == old(children)
    {
      match ch
      case Whole(c) => out := EditCorrelation(peer, c.score, c.vtx, c.rel);
      case NewScore(s) => out := EditScore(peer, s);
      case NewVertex(v) => out := EditVertex(peer, v);
      case NewRelation(r) => out := EditRelation(peer, r);
    }

    /** eraseCorrelation: drop the entry for `peer`, if any. */
    method EraseCorrelation(peer: nat)
      modifies this
      ensures corr == old(corr) - {peer}
      ensures parentId == old(parentId) && children == old(children)
    {
      corr := corr - {peer};
    }
  }

  // ---------------------------------------------------------------------
  // Properties of the table operations
  // ---------------------------------------------------------------------

  /** An edit either fails and leaves the table alone, or touches only the entry for `peer`. */
  lemma EditTouchesOnlyPeer(m: CorrMap, peer: nat, ch: Change)
    ensures Edited(m, peer, ch).Keys == m.Keys
    ensures forall k :: k in m && k != peer ==> Edited(m, peer, ch)[k] == m[k]
    ensures peer in m && ch.NewScore? ==> Edited(m, peer, ch)[peer] == m[peer].(score := ch.score)
    ensures peer in m && ch.NewVertex? ==> Edited(m, peer, ch)[peer] == m[peer].(vtx := ch.vtx)
    ensures peer in m && ch.NewRelation? ==> Edited(m, peer, ch)[peer] == m[peer].(rel := ch.rel)
  {
  }

  /** Erasing twice is the same as erasing once, and erasing leaves the other entries alone. */
  lemma EraseIdempotent(m: CorrMap, peer: nat)
    ensures (m - {peer}) - {peer} == m - {peer}
    ensures peer !in m ==> m - {peer} == m
    ensures forall k :: k in m && k != peer ==> k in m - {peer} && (m - {peer})[k] == m[k]
  {
  }
}
