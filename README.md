# GeoGraph tree assembly, modelled in Dafny

GeoGraph builds a hierarchy of reconstructed objects from pairwise
correlations. Every object is a `Node` with an id, an optional parent, a
list of children and a correlation table. The table maps each peer id to a
score, a vertex and a relation: Parent, Child, Sibling or Unknown. A
`NodeCollection` stores the nodes, indexes them by id and keeps the list of
root ("head") nodes. The `Manager` does the rest:

- it records, edits and erases correlations, always at both ends of a pair;
- `ResolveConflicts` runs four clean-up passes over every node;
- `MakeTree` turns the surviving correlations into parent and child links.
  It creates an aggregate parent for groups of siblings that have no parent.

The model keeps the source's imperative shape. `Node`, `NodeCollection`
and `Manager` are classes whose methods update fields in place. Every
method is proved against a pure specification function over two abstract
views of the collection:

- `Graph()`: id to correlation table;
- `Links()`: id to parent and children.

The properties the source promises are proved as lemmas about those
functions. Among them:

- every edit between two distinct nodes keeps the correlation graph symmetric; a node correlated with itself as Parent or Child breaks symmetry, because the second write leaves the mirror;
- the strict-mode passes only ever erase correlations;
- on success, FindBestParent, ParentIsSiblingsSibling, IfConflictRemoveSibling,
  the strict sibling sort and ResolveSiblingsWithDifferentParent each erase an
  exactly characterised set of pairs and keep every other correlation;
- the strict sibling sort keeps the node's correlation with the best-scored
  sibling only;
- the loose merge gives every entry a stated value: sibling pairs and the
  node's pairs at the merged vertex, missing sibling pairs added with score 0,
  all other entries unchanged; it fails only on a sibling pair that records
  another relation;
- the tree walk terminates although it appends aggregates to the list it walks;
- each aggregate becomes a root whose children are the whole sibling group.

Modules:

| file | module | contents |
|---|---|---|
| faults.dfy | Faults | error kinds, `Result`, `Outcome`, `Option` |
| node.dfy | GeoNode | correlations, the node queries, class `Node` |
| registry.dfy | GeoRegistry | class `NodeCollection`, its views, reachability |
| edits.dfy | GeoEdits | two-sided add / edit / erase as functions, symmetry |
| passes.dfy | GeoPasses | the conflict passes as functions |
| passfacts.dfy | GeoPassFacts | what FindBestParent, ParentIsSiblingsSibling and IfConflictRemoveSibling do |
| sortfacts.dfy | GeoSortFacts | what SortSiblings does, strict and loose |
| mergefacts.dfy | GeoMergeFacts | the loose sibling merge, entry by entry |
| pipeline.dfy | GeoPipelineFacts | ResolveSiblingsWithDifferentParent and the whole pipeline |
| assembly.dfy | GeoAssembly | MakeTree as a function over a forest |
| manager.dfy | GeoManager | class `Manager`, every method proved against the functions above |

Parts of the model stand in for code outside it:

- The two strategy objects are constant function-valued fields of the
  Manager. These are `AlgoMultipleParentsHighScore` (used by
  FindBestParent) and `AlgoParentIsSiblingsSibling`. Each returns the
  scored pairs it proposes, in the order of the source's `std::map`.
- The bounding-sphere centre used by the loose sibling merge is also such
  a field.
- So is the relation veto `isProhibited`.

Every ordered walk over a `std::map` (the peers of a node, the siblings)
is modelled as the ascending list of keys.

## Model

| member | source | states |
|---|---|---|
| GeoNode.Node.constructor | GeoGraph/Node.h:55 | a new node carries its id, no children and no correlations; its parent starts as `None` (see Left out) |
| GeoNode.Node.AddChild | GeoGraph/Node.h:121 | the child id is appended at the end of the children list; parent and correlations unchanged |
| GeoNode.Node.SetParent | GeoGraph/Node.h:124 | the parent id is overwritten; children and correlations unchanged |
| GeoNode.Node.AddCorrelation | GeoGraph/Node.cxx:8-21 | the entry for the peer is inserted or overwritten with the given score, vertex and relation; nothing else changes |
| GeoNode.Node.EditCorrelation | GeoGraph/Node.cxx:24-43 | fails with "correlation not found" and changes nothing when the peer has no entry; otherwise replaces the whole entry |
| GeoNode.Node.EditScore | GeoGraph/Node.cxx:46-62 | same failure case; otherwise only the score of that entry changes |
| GeoNode.Node.EditVertex | GeoGraph/Node.cxx:65-81 | same failure case; otherwise only the vertex of that entry changes |
| GeoNode.Node.EditRelation | GeoGraph/Node.cxx:84-100 | same failure case; otherwise only the relation of that entry changes |
| GeoNode.Node.Edit | GeoGraph/Node.cxx:24-100 | dispatches to the overload that matches the form of the change, with that overload's outcome and new table |
| GeoNode.Node.EraseCorrelation | GeoGraph/Node.cxx:103-115 | the peer's entry is removed if present; links unchanged |
| GeoNode.EditTouchesOnlyPeer | GeoGraph/Node.cxx:24-100 | an edit keeps the table's keys and every other entry, and a field edit changes only its one field |
| GeoNode.EraseIdempotent | GeoGraph/Node.cxx:103-115 | erasing twice equals erasing once, erasing an absent peer is a no-op, and other entries survive |
| GeoNode.Apply | GeoGraph/Node.cxx:46-100 | a score, vertex or relation edit leaves the other two fields of the correlation alone |
| GeoNode.GetScore | GeoGraph/Node.cxx:117-125 | the stored score of a present peer, or the sentinel -1 for an absent one |
| GeoNode.IsPrimary | GeoGraph/Node.cxx:128-143 | true exactly when no entry is Parent or Sibling |
| GeoNode.HasConflict | GeoGraph/Node.cxx:147-171 | fails exactly when two or more peers are Parent; otherwise true iff there is a Parent and a Sibling |
| GeoNode.HasParent | GeoGraph/Node.cxx:175-193 | fails exactly when two or more peers are Parent; otherwise true iff one peer is Parent |
| GeoNode.GetParent | GeoGraph/Node.cxx:197-218 | returns the unique Parent peer; fails when there are several or none |
| GeoNode.HasSiblings | GeoGraph/Node.cxx:222-237 | true iff some peer is Sibling |
| GeoNode.GetSiblings | GeoGraph/Node.cxx:241-256 | fails iff there is no Sibling; otherwise exactly the Sibling peers, in ascending id order |
| GeoNode.PeersWith | GeoGraph/Manager.cxx:372-418 | the peers with a given relation, strictly ascending, exactly those with that relation (the parent list handed to the strategy) |
| GeoNode.SortedKeys | GeoGraph/Node.cxx:241-256 | the elements of a key set, strictly ascending, with the same members (the iteration order of `std::map`) |
| GeoRegistry.NodeCollection.constructor | GeoGraph/NodeCollection.h:35 | an empty, consistent collection with no roots |
| GeoRegistry.NodeCollection.IdsUnique | GeoGraph/NodeCollection.cxx:91-107 | the index invariant implies that no two stored nodes share an id |
| GeoRegistry.NodeCollection.NodeExists | GeoGraph/NodeCollection.cxx:9-18 | true iff some stored node carries the id, which is iff the id is indexed |
| GeoRegistry.NodeCollection.AddNode | GeoGraph/NodeCollection.cxx:91-107 | a duplicate id fails and changes nothing; otherwise one fresh empty node is appended, indexed under the id and its position, and the forest is the old one with that node registered |
| GeoRegistry.NodeCollection.AddFresh | GeoGraph/NodeCollection.cxx:97-106 | a fresh node with the given id is appended and indexed; the forest is the old one with that node registered |
| GeoRegistry.NodeCollection.Append | GeoGraph/NodeCollection.cxx:99-106 | the node is stored at the end; both views gain exactly its entry and the index stays consistent |
| GeoRegistry.NodeCollection.AddPrimaryNode | GeoGraph/NodeCollection.cxx:110-115 | the id is appended to the root list, with no check; nothing else changes |
| GeoRegistry.NodeCollection.GetNode | GeoGraph/NodeCollection.cxx:118-124 | succeeds iff the id is stored, returning the node that carries it, with its table and links; an unknown id fails with "node not found" |
| GeoRegistry.NodeCollection.FindID | GeoGraph/NodeCollection.cxx:128-134 | fails iff the position was never assigned; otherwise the id last stored at that position, which after `Clear` may be that of a removed node |
| GeoRegistry.NodeCollection.IsSubNode | GeoGraph/NodeCollection.cxx:41-56 | the depth-first search answers exactly the reachability relation `Reaches` over the children links |
| GeoRegistry.NodeCollection.NodeAdded | GeoGraph/NodeCollection.cxx:22-37 | true iff the id is a root or is reached from some root |
| GeoRegistry.NodeCollection.Clear | GeoGraph/NodeCollection.h:47 | the node store and the id map are emptied; the root list is untouched |
| GeoRegistry.NodeCollection.ClearTree | GeoGraph/Manager.cxx:48 | the root list is emptied; the nodes are untouched |
| GeoRegistry.ReachesIffPath | GeoGraph/NodeCollection.cxx:41-56 | the search succeeds exactly when a downward path of 1 to `depth` children links joins the two ids |
| GeoRegistry.ReachesMonotone | GeoGraph/NodeCollection.cxx:41-56 | searching deeper never loses an answer |
| GeoRegistry.ReachesTransitive | GeoGraph/NodeCollection.cxx:41-56 | a descendant of a descendant is a descendant |
| GeoRegistry.ShortestPath | GeoGraph/NodeCollection.cxx:41-56 | every downward path can be shortened, keeping its ends, to at most as many links as there are linked ids |
| GeoRegistry.ReachesSaturates | GeoGraph/NodeCollection.cxx:22-37 | a search at least as deep as the number of linked ids finds every descendant at any depth |
| GeoRegistry.NodeCollection.LinkedWithin | GeoGraph/NodeCollection.cxx:91-107 | a consistent collection has no more linked ids than stored nodes |
| GeoRegistry.NodeCollection.PlacedAtAnyDepth | GeoGraph/NodeCollection.cxx:22-37 | an id that is a root or a descendant of one at any depth is found at the depth NodeAdded uses, the number of stored nodes |
| GeoRegistry.AppendIndexed | GeoGraph/NodeCollection.cxx:99-106 | storing a node under a new id keeps the index consistent and adds exactly that id |
| GeoRegistry.Register | GeoGraph/NodeCollection.cxx:91-107 | registering adds the id with an empty table and empty links, and keeps every other id |
| GeoEdits.AddOutcome | GeoGraph/Manager.cxx:148-181 | an unknown id fails and changes nothing; a vetoed relation succeeds and changes nothing; otherwise, for distinct ids, id2's entry for id1 holds the correlation, id1's entry for id2 holds its mirror, and nothing else changes; for a node correlated with itself the second write wins, so its self entry holds the mirror and nothing else changes |
| GeoEdits.AddSelfParentBreaksSymmetry | GeoGraph/Manager.cxx:177-178 | a self correlation of relation Parent leaves a Child self entry, which is not its own mirror, so the graph stops being symmetric; this is why symmetry is proved for distinct ids only |
| GeoEdits.AddKeepsSymmetry | GeoGraph/Manager.cxx:148-181 | adding a correlation between two distinct nodes keeps the graph symmetric |
| GeoEdits.EditVeto | GeoGraph/Manager.cxx:184-285 | unknown ids fail without change; a vetoed relation edit succeeds without change |
| GeoEdits.FieldEditKeepsRelations | GeoGraph/Manager.cxx:220-251 | score-only and vertex-only edits never change a relation, nor which entries exist |
| GeoEdits.FieldEditKeepsRow | GeoGraph/Node.cxx:46-81 | a field edit of one table keeps its keys and relations |
| GeoEdits.EditKeepsSymmetry | GeoGraph/Manager.cxx:184-285 | on a symmetric graph a two-sided edit of distinct nodes fails before writing, or succeeds leaving the edited value at one end and its mirror at the other; symmetry is kept either way |
| GeoEdits.EraseOutcome | GeoGraph/Manager.cxx:289-302 | an unknown id fails; otherwise both directions are removed, nothing else changes, and a second erase is a no-op |
| GeoEdits.EraseKeepsSymmetry | GeoGraph/Manager.cxx:289-302 | erasing keeps a symmetric graph symmetric and only removes correlations |
| GeoEdits.SubGraphTransitive | GeoGraph/Manager.cxx:304-356 | "only erases" composes across passes |
| GeoPasses.ChooseDrop | GeoGraph/Manager.cxx:726-760 | the case chosen among A, B and C leaves the pair of correlations with the highest combined score |
| GeoPassFacts.PruneOk | GeoGraph/Manager.cxx:407-415 | erasing the strategy's negatively scored pairs succeeds exactly when each of them names two known nodes |
| GeoPassFacts.PruneExact | GeoGraph/Manager.cxx:407-415 | on success exactly the correlations of the negatively scored pairs are gone, and the result only erases |
| GeoPassFacts.FindBestParentFacts | GeoGraph/Manager.cxx:372-418 | fails iff the node is unknown or the strategy names an unknown node; a node with fewer than two parents is untouched; otherwise exactly the pairs the strategy scores negatively are erased |
| GeoPassFacts.ParentSiblingSkips | GeoGraph/Manager.cxx:776-823 | a sibling not correlated with the parent, or recording it as its Parent, is skipped |
| GeoPassFacts.ParentSiblingFacts | GeoGraph/Manager.cxx:776-823 | a node without conflict is untouched; otherwise the pass only erases, exactly the pairs `StrategyCut` names are gone, and nothing changes when every sibling is uncorrelated with the parent or its child |
| GeoPassFacts.ParentSiblingExact | GeoGraph/Manager.cxx:790-820 | the sibling loop from any position erases exactly the pairs the strategy scores negatively for each sibling it does not skip, each proposal taken on the graph left by the earlier siblings, and keeps every other correlation |
| GeoPassFacts.RemoveSiblingFacts | GeoGraph/Manager.cxx:896-925 | a node without conflict is untouched; otherwise the pass only erases |
| GeoPassFacts.RemoveSiblingErasesDisowned | GeoGraph/Manager.cxx:896-925 | for any node in conflict with parent P (including one listed among its own siblings), exactly the pairs between the node and the siblings with no Parent, or a Parent other than P, are erased (both directions), and no id is lost |
| GeoPassFacts.RemoveSiblingExact | GeoGraph/Manager.cxx:906-922 | the sibling loop from any position keeps every correlation except those of the node with disowned siblings |
| GeoPassFacts.RemoveSiblingOk | GeoGraph/Manager.cxx:910-921 | on a successful run every listed sibling is known and its parent query succeeded |
| GeoPassFacts.ShrinksTransitive | GeoGraph/Manager.cxx:304-356 | chaining two erasing steps is an erasing step that keeps symmetry |
| GeoPassFacts.EraseShrinks | GeoGraph/Manager.cxx:289-302 | one two-sided erase only erases and keeps symmetry |
| GeoSortFacts.SortSiblingsQuiet | GeoGraph/Manager.cxx:437-539 | a node with at most one sibling is untouched, and in the strict mode so is one whose siblings share a vertex |
| GeoSortFacts.BestSiblingChoice | GeoGraph/Manager.cxx:521-529 | no sibling is kept iff no score is positive; otherwise the kept one is the first with strictly the highest score |
| GeoSortFacts.BestSiblingExamples | GeoGraph/Manager.cxx:521-529 | scores 2, 9, 4 keep the second sibling; a tie keeps the earlier one; no positive score keeps none |
| GeoSortFacts.BestFromChoice | GeoGraph/Manager.cxx:523-529 | the running maximum keeps its choice unless a later score is strictly higher, and then picks the first strictly highest |
| GeoSortFacts.DropFromFacts | GeoGraph/Manager.cxx:532-535 | the drop loop erases both directions of the node's pair with every remaining sibling except the kept one; an entry survives iff it is not such a pair |
| GeoSortFacts.StrictSortKeepsBest | GeoGraph/Manager.cxx:520-536 | in the strict mode, among siblings at different vertices only the best one stays correlated with the node; an entry is erased iff it joins the node with another sibling |
| GeoSortFacts.VertexEditAligns | GeoGraph/Manager.cxx:500-501 | a successful vertex-only edit moves both directions of its pair to the new vertex and loses nothing |
| GeoSortFacts.MergePairAligns | GeoGraph/Manager.cxx:505-515 | merging one pair loses nothing, and leaves the pair at the vertex unless it was missing and its addition is vetoed |
| GeoSortFacts.LinkFromMerges | GeoGraph/Manager.cxx:503-517 | the pair loop in merge mode leaves every due pair ahead of the cursor aligned at the vertex and loses nothing |
| GeoSortFacts.MoveFromAligns | GeoGraph/Manager.cxx:499-501 | the move loop leaves every sibling pair with the node at the centre and loses nothing |
| GeoSortFacts.LooseMergeAligns | GeoGraph/Manager.cxx:485-518 | the loose merge of siblings at different vertices loses no correlation, and leaves the node's pair with every sibling, and every sibling pair that existed or could be added, at the merged vertex |
| GeoMergeFacts.AtVertex | GeoGraph/Node.cxx:65-81 | moving an entry to a vertex keeps its presence, score and relation and sets the vertex |
| GeoMergeFacts.MoveFromEntries | GeoGraph/Manager.cxx:499-501 | the move loop keeps the ids, moves both directions of the node's pair with each remaining sibling to the centre with score and relation kept, and leaves every other entry as it was |
| GeoMergeFacts.MoveFromFaults | GeoGraph/Manager.cxx:499-501 | the move loop never fails with "not a sibling relation" |
| GeoMergeFacts.MergePairRefuses | GeoGraph/Manager.cxx:506-509 | merging one pair fails with "not a sibling relation" exactly when its entry exists and records another relation |
| GeoMergeFacts.MergePairEntries | GeoGraph/Manager.cxx:505-515 | merging one pair of distinct siblings writes both directions as `PairTarget` says (moved, added as a score-0 Sibling, or left alone when vetoed) and no other entry |
| GeoMergeFacts.LinkFromEntries | GeoGraph/Manager.cxx:503-517 | the pair loop from any cursor, when it succeeds, keeps the ids, found every pair ahead recorded as Sibling or missing, and leaves every entry as `MergeTarget` says |
| GeoMergeFacts.LinkFromRefuses | GeoGraph/Manager.cxx:503-517 | the pair loop fails with "not a sibling relation" only when some pair ahead of the cursor exists with another relation |
| GeoMergeFacts.LooseMergeExact | GeoGraph/Manager.cxx:485-518 | the loose merge of siblings at different vertices, on success, keeps the ids, found every sibling pair Sibling or missing, and leaves every entry as `LooseTarget` says: sibling pairs moved or added as score-0 Siblings at the centre, the node's pairs moved with score and relation kept, everything else unchanged; its "not a sibling relation" failure means some sibling pair records another relation |
| GeoSortFacts.RecreatePair | GeoGraph/Manager.cxx:469-476 | re-creating one pair of distinct nodes touches only the two entries of that pair |
| GeoSortFacts.LinkFromRecreates | GeoGraph/Manager.cxx:466-478 | the re-creation loop re-creates every pair ahead of the cursor and keeps every other entry |
| GeoSortFacts.LooseRecreates | GeoGraph/Manager.cxx:464-480 | over siblings that share a vertex, the loose pass re-creates every sibling pair at that vertex with score 0 (or leaves it erased when vetoed) and changes no other entry |
| GeoPipelineFacts.ResolveSiblingsFacts | GeoGraph/Manager.cxx:681-763 | a node without conflict is untouched, and so is one whose siblings all have no parent or the same parent; otherwise the pass only erases |
| GeoPipelineFacts.ResolveSiblingsAgree | GeoGraph/Manager.cxx:695-761 | siblings without a parent or with the node's parent are skipped |
| GeoPipelineFacts.ResolveSeveralExact | GeoGraph/Manager.cxx:699-716 | with several siblings, the loop from any position erases exactly the node's pairs with the siblings ahead whose single parent is not the node's, and keeps every other correlation |
| GeoPipelineFacts.ResolveSiblingsSeveral | GeoGraph/Manager.cxx:681-716 | a node in conflict with several siblings loses exactly its pairs with the siblings that record another single parent; every other correlation stays |
| GeoPipelineFacts.ResolveSiblingsSingle | GeoGraph/Manager.cxx:718-759 | a node in conflict with a single sibling that records another parent loses exactly the one pair case A, B or C selects from the three scores; every other correlation stays |
| GeoPipelineFacts.StrictSortShrinks | GeoGraph/Manager.cxx:437-539 | in the strict mode SortSiblings only erases |
| GeoPipelineFacts.PassOneShrinks | GeoGraph/Manager.cxx:304-356 | in the strict mode each pass on one node only erases |
| GeoPipelineFacts.PassFromShrinks | GeoGraph/Manager.cxx:360-369 | in the strict mode a pass over the id list only erases |
| GeoPipelineFacts.StrictResolveShrinks | GeoGraph/Manager.cxx:304-356 | in the strict mode the whole conflict resolution only erases correlations and keeps a symmetric graph symmetric |
| GeoAssembly.AdoptOk | GeoGraph/Manager.cxx:119-130 | adopting the siblings fails exactly when one of them is unknown |
| GeoAssembly.AdoptKeeps | GeoGraph/Manager.cxx:119-130 | adopting keeps both key sets, the roots, the ids and the node count |
| GeoAssembly.AdoptChildren | GeoGraph/Manager.cxx:119-130 | adopting appends the siblings, in order, to the aggregate's children |
| GeoAssembly.AdoptParents | GeoGraph/Manager.cxx:119-130 | adopting gives every sibling the aggregate as parent |
| GeoAssembly.AdoptFrame | GeoGraph/Manager.cxx:119-130 | adopting leaves the links of every other node alone |
| GeoAssembly.PlaceGrows | GeoGraph/Manager.cxx:56-141 | one iteration only grows the root list, appends at most one id, which is then a root, and keeps the two key sets equal |
| GeoAssembly.AssembleStep | GeoGraph/Manager.cxx:56-141 | a successful iteration keeps the walk bounded, so it terminates although it appends to the list it walks; a failed iteration is the walk's failure |
| GeoAssembly.PlaceRoot | GeoGraph/Manager.cxx:62-72 | a primary node not yet placed becomes a root and nothing else changes |
| GeoAssembly.PlaceChild | GeoGraph/Manager.cxx:74-79 | a node with one parent is appended to its children and records it; this fails exactly when the parent is not registered |
| GeoAssembly.PlaceIsAggregate | GeoGraph/Manager.cxx:95-140 | a node with siblings and no parent goes to the aggregate step unchanged |
| GeoAssembly.AggregateFails | GeoGraph/Manager.cxx:104-130 | aggregation fails when the siblings' vertices differ, when the aggregate id is taken, or when a sibling is unknown |
| GeoAssembly.AggregateBuilds | GeoGraph/Manager.cxx:113-132 | a successful aggregation registers the aggregate `id*10 + firstSibling*100 + 1` as a new root whose children are the node followed by its siblings, each recording the aggregate as parent |
| GeoAssembly.HostedFacts | GeoGraph/Manager.cxx:113-122 | the registered aggregate adds one id, has no parent and has the node as its only child |
| GeoAssembly.AggregateUnfolds | GeoGraph/Manager.cxx:113-132 | a successful aggregation is the sibling adoption from the hosted forest, then the aggregate made a root |
| GeoManager.Manager.constructor | GeoGraph/Manager.cxx:10-24 | a manager starts with an empty registry in strict mode |
| GeoManager.Manager.SetLoose | GeoGraph/Manager.h:96 | only the loose flag changes |
| GeoManager.Manager.AddCorrelation | GeoGraph/Manager.cxx:148-181 | outcome and new correlation graph are those of `AddSpec` (see AddOutcome); tree links unchanged |
| GeoManager.Manager.EditCorrelation | GeoGraph/Manager.cxx:184-285 | all four overloads: outcome and new graph are those of `EditSpec`, including the failure on the second side that keeps the first write; links unchanged |
| GeoManager.Manager.EraseCorrelation | GeoGraph/Manager.cxx:289-302 | outcome and new graph are those of `EraseSpec` (see EraseOutcome); links unchanged |
| GeoManager.Manager.Prune | GeoGraph/Manager.cxx:407-415 | the erasure loop over the strategy's proposals ends in the state `PruneFrom` gives (see PruneExact) |
| GeoManager.Manager.FindBestParent | GeoGraph/Manager.cxx:372-418 | outcome and new graph are those of `FindBestParentSpec` (see FindBestParentFacts) |
| GeoManager.Manager.ParentIsSiblingsSibling | GeoGraph/Manager.cxx:776-823 | outcome and new graph are those of `ParentSiblingSpec` (see ParentSiblingFacts, ParentSiblingExact) |
| GeoManager.Manager.IfConflictRemoveSibling | GeoGraph/Manager.cxx:896-925 | outcome and new graph are those of `RemoveSiblingSpec` (see RemoveSiblingErasesDisowned) |
| GeoManager.Manager.ResolveSiblingsWithDifferentParent | GeoGraph/Manager.cxx:681-763 | outcome and new graph are those of `ResolveSiblingsSpec` (see ResolveSiblingsFacts, ResolveSiblingsSeveral, ResolveSiblingsSingle) |
| GeoManager.Manager.SortSiblings | GeoGraph/Manager.cxx:437-539 | outcome and new graph are those of `SortSiblingsSpec` (see StrictSortKeepsBest, LooseMergeExact, LooseRecreates) |
| GeoManager.Manager.AllSame | GeoGraph/Manager.cxx:454-462 | the comparison loop answers true iff every sibling's entry carries the first sibling's vertex |
| GeoManager.Manager.VertexList | GeoGraph/Manager.cxx:487-490 | the siblings' vertices in sibling order, handed to the bounding-sphere centre |
| GeoManager.Manager.MoveAll | GeoGraph/Manager.cxx:499-501 | the move loop ends in the state `MoveFrom` gives (see MoveFromAligns, MoveFromEntries) |
| GeoManager.Manager.RecreateAll | GeoGraph/Manager.cxx:466-478 | the pair loop ends in the state the re-creating `LinkFrom` gives (see LinkFromRecreates) |
| GeoManager.Manager.MergeAll | GeoGraph/Manager.cxx:503-517 | the pair loop ends in the state the merging `LinkFrom` gives (see LinkFromMerges, LinkFromEntries, LinkFromRefuses) |
| GeoManager.Manager.PickBest | GeoGraph/Manager.cxx:521-529 | the running-maximum loop returns `BestSibling` (see BestSiblingChoice) |
| GeoManager.Manager.DropAll | GeoGraph/Manager.cxx:532-535 | the drop loop ends in the state `DropFrom` gives (see DropFromFacts) |
| GeoManager.Manager.RunPass | GeoGraph/Manager.cxx:360-369 | a pass over the id list ends in the state `PassFrom` gives |
| GeoManager.Manager.ResolveConflicts | GeoGraph/Manager.cxx:304-356 | the four passes in order; outcome and new graph are those of `ResolveConflictsSpec` (see StrictResolveShrinks); links unchanged |
| GeoManager.Manager.MakeTree | GeoGraph/Manager.cxx:43-144 | outcome and new forest (correlations, links, roots and ids) are those of `MakeTreeSpec` (see AssembleStep, PlaceChild, AggregateBuilds) |
| GeoManager.Manager.Attach | GeoGraph/Manager.cxx:74-79 | a node with a parent is appended to that parent's children and records it; an unknown parent fails |
| GeoManager.Manager.Aggregate | GeoGraph/Manager.cxx:95-140 | the state `Aggregate` gives: vertex check, id collision check, adoption, new root |
| GeoManager.Manager.AdoptAll | GeoGraph/Manager.cxx:119-130 | the adoption loop ends in the state `AdoptFrom` gives (see AdoptChildren, AdoptParents) |

## Left out

- Printing: verbose output, the debug print in `hasConflict` and both `Diagram` overloads.
- `setObjects` is not modelled. It only calls `AddNode` with the ids 0, 2, 4, …, and `AddNode` is modelled.
- `SiblingDoesNotHaveSameParent` and `SortSiblingsAndParent` are commented out of `ResolveConflicts`, so they are not modelled.
- `ResolveSiblingsWithDifferentParent` is modelled but is not part of the `ResolveConflicts` pipeline, because the source does not call it there.
- The strategy classes (`AlgoMultipleParentsHighScore`, `AlgoParentIsSiblingsSibling`), the bounding-sphere centre and `isProhibited` are parameters. Their bodies are not part of this model. `bestSibling = -1` becomes `None`.
- The two strategies are taken to read the collection without modifying it: each is a pure function from the correlation graph to its scored proposals. The "only erases" and exact-erasure results for FindBestParent and ParentIsSiblingsSibling (FindBestParentFacts, ParentSiblingExact) rest on that.
- Scores are `real`, not `double`. Rounding is not modelled.
- `size_t` ids are unbounded naturals. The aggregate id `id*10 + firstSibling*100 + 1` does not wrap around.
- GeoManager.Manager.ResolveConflicts: the state after a failed pass is not specified beyond what the passes' own contracts give. The source throws part-way through a loop, and callers cannot rely on that state.
- GeoManager.Manager.FindBestParent, GeoManager.Manager.ParentIsSiblingsSibling, GeoManager.Manager.IfConflictRemoveSibling, GeoManager.Manager.SortSiblings, GeoManager.Manager.ResolveSiblingsWithDifferentParent, GeoManager.Manager.Prune: on failure the method returns the error, and the correlation graph it leaves behind is whatever the writes made before the throwing call; no contract describes that partial state.
- GeoManager.Manager.MakeTree: on failure the forest keeps the writes made before the failing lookup (for example, `addChild(sib)` at Manager.cxx:126 runs before `GetNode(sib)` fails at Manager.cxx:127); no contract describes that partial state. The model checks each sibling before linking it (`AdoptOne`), so it fails one step earlier than the source and does not make that `addChild` write.
- The pass lemmas (ParentSiblingExact, ResolveSeveralExact, LooseMergeExact and the others) describe successful runs only; a failed run is characterised by when it fails, not by the state it leaves.
- GeoRegistry.NodeCollection.IsSubNode: the depth-first search carries an explicit depth bound (the number of stored nodes), so it terminates even on cyclic links. An unknown `top` answers false. In the source, `_n_map[top]` inserts the entry `top -> 0`, so the search walks the children of `_nodes[0]`, a different node, and on an empty store it reads out of bounds (NodeCollection.cxx:45-46). MakeTree searches only from roots it registered, so this case arises only from a child id left behind by a failed aggregation (Manager.cxx:126-127).
- GeoNode.Node.constructor: the source constructor (Node.h:55) never initialises `_parent_id` (Node.h:155), so a new node's parent is indeterminate. The model starts it as `None`. Its getter `parentID()` is never read in the .cxx files, so nothing depends on that choice.
- GeoRegistry.NodeCollection.ClearTree: it is called at Manager.cxx:48 but not declared in the headers, so it is modelled as emptying the root list.
- Node.h declares a single `_corr` map of correlation records. Node.cxx reads and writes three parallel maps (score, vertex, relation) with the same keys. The model keeps one map of records, which behaves like the code.
- The header comment at Manager.h:59-61 says the relation is that of id2 with respect to id1. The code at Manager.cxx:159 stores `rel` in id2's entry for id1 and its inverse in id1's entry for id2. The model follows the code.
