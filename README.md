# Relation-graph expansion engine, modelled in Dafny

This project models the part of the person-relation graph page that decides
which people and which relations are on screen. It leaves out how they are drawn.
The dataset maps a person's name to that person's list of relations. Each
relation names the related person (`name`) and the kind of relation (`rel1`).
The page keeps two lists:

- `nodes`: the people shown. Each has an id, a level (its depth: one more than the level of the node that introduced it, 0 for the root; a person reached again by a shorter path keeps the level it was first shown at), an `expanded` flag, the name of the node that introduced it (`sourceName`) and whether the dataset has an entry for it (`hasChildren`).
- `edges`: the relations shown. Each has a source, a target and a label.

Four operations change or read these lists:

- **Seeding**. A new search for `name` shows the root node. It then pushes one level-1 node and one edge for every relation of `name`, in order and without any duplicate check.
- **Expand**. A click on the expand affordance of a node that is not expanded sets its flag. Then, for every relation of that node, it pushes a child unless a node with that id is already shown. It also pushes an edge unless an edge with the same source and target is already shown.
- **Collapse**. A click on an expanded node clears its flag and runs `nodeCollapse`. That function is a worklist loop. It pops a name, drops every node that name introduced (queuing their ids) and drops every edge leaving that name, until the worklist is empty.
- **Search suggestions**. Under the search box the page lists the first four dataset names that contain the typed keywords. It lists nothing while the keywords are empty.

Module layout:

- `Wrappers`: `Option`.
- `Seqs`: an order-keeping `Filter` over sequences, the model of `Array.prototype.filter`.
- `RelationGraph`: the data model.
  - `FindNode` and `Lookup` find the first node with a given id, as `Array.prototype.find` does.
  - `SetFlag` is the `find(...).expanded = b` assignment.
  - `WellFormed` is the invariant kept by every operation:
    - the root comes first;
    - every other node was introduced by an expanded node exactly one level above it;
    - every edge leaves an expanded node;
    - only nodes at level 0 or 1 share an id with another node (`DupsShallow`): seeding pushes children unchecked, while expanding pushes only ids not shown yet.
- `Seeding`: the seeded graph as functions, and its shape.
- `Collapse`: the `nodeCollapse` worklist as a method (`NodeCollapse`, with one filter pass as `Sift`).
  - It is proved equal to a specification: `Cascade` is the least set of names that holds the target and every id introduced by a name already in the set.
  - The collapse branch of the click handler is `CollapseGraph`.
- `Expansion`: the expand branch as a fold (`Merge`) over the relation list, and its properties.
- `Toggle`: the click handler as a whole (`ClickGraph`), and the expand/collapse round trip.
- `Store`: the page's mutable state as the class `RelationStore`.
  - The fields `nodes` and `edges` are reassigned by `Reset`, `Expand`, `Collapse` and `Click`.
  - Each method is proved to produce exactly what the specification functions above describe, and `Expand`, `Collapse` and `Click` keep `WellFormed`.
  - `FindIndex` and `FindEdge` are the two `find` scans.
- `SearchOptions`: `indexOf` and the suggestion filter.

Four behaviours of the code are kept as written:

- **Seeding does not deduplicate.** If a person's relation list names the same person twice, seeding shows two nodes with the same id and two edges. For that reason every invariant is stated about the *first* node with an id, which is what `find` returns.
- **Edges are deduplicated on source and target only.** A second relation with a different label between the same pair is skipped, so the first label wins (`Expansion.MergeFirstLabel`). Parallel edges with distinct labels are never added by an expand.
- **`hasChildren` means "the dataset has a key for this name".** An empty relation list still counts.
- **Collapse drops edges by their source only.** An edge from a surviving node into a removed node stays shown, so a relation can be left pointing at a node that is gone (`Collapse.CollapseOnlyCascade`).

## Model

| member | source | states |
|---|---|---|
| RelationGraph.FindNode | src/pages/index.jsx:291 | `find` by id gives the first index whose node has that id; when it gives none, no node has it |
| RelationGraph.LookupSetFlag | src/pages/index.jsx:291 | setting the flag of the node a name finds changes that node's flag and nothing else any id finds |
| RelationGraph.FindAppendLeft | src/pages/index.jsx:294-302 | pushing nodes does not move the first node of an id already shown |
| RelationGraph.FindAppendRight | src/pages/index.jsx:294-302 | an id not shown before is found in the pushed part, at its index there shifted by the old length |
| RelationGraph.SetFlagAppend | src/pages/index.jsx:291 | setting a flag on a list with nodes pushed behind it sets it on the same node and leaves the pushed nodes alone |
| RelationGraph.SetFlagRestore | src/pages/index.jsx:291 | setting a flag and then writing back its old value restores the list |
| RelationGraph.LookupDeep | src/pages/index.jsx:291 | when only shallow nodes share ids, `find` by the id of a node below level 1 returns that node |
| RelationGraph.LookupAppend | src/pages/index.jsx:294-302 | pushing nodes never changes which node an already shown id finds; an id not shown finds what the pushed part holds |
| Seqs.Filter | src/pages/index.jsx:155-162 | the filtered list is no longer than the input |
| Seqs.FilterMembers | src/pages/index.jsx:155-162 | the filtered list holds exactly the elements of the input that pass the test |
| Seqs.FilterAppend | src/pages/index.jsx:155-162 | filtering keeps relative order: filtering a concatenation filters each part |
| Seeding.SeedNodesShape | src/pages/index.jsx:244-262 | the seeded node list is the root followed by one level-1 child of the root per relation, in order |
| Seeding.SeedEdgesShape | src/pages/index.jsx:253-267 | the seeded edge list holds one edge from the root per relation, labelled with that relation, in order |
| Seeding.SeedShape | src/pages/index.jsx:244-268 | with k relations: k+1 nodes (root at level 0, expanded, no introducer; then children at level 1 introduced by the root) and k edges; nothing when the name has no entry |
| Seeding.SeedWellFormed | src/pages/index.jsx:244-268 | a freshly seeded graph satisfies the graph invariant |
| Collapse.GrowShrinks | src/pages/index.jsx:153-163 | a cascade round that adds a name strictly shrinks the set of shown ids not yet reached, so the cascade terminates |
| Collapse.ClosureClosed | src/pages/index.jsx:153-163 | the cascade contains its seed names, and every node introduced by a name in it has its id in it |
| Collapse.ClosureLeast | src/pages/index.jsx:153-163 | the cascade is contained in every closed set that holds the seed names (it is the least one) |
| Collapse.KeepKeep | src/pages/index.jsx:155-161 | dropping the nodes introduced by one more name after an earlier pass equals one pass over the union of names |
| Collapse.KeepEdgesKeepEdges | src/pages/index.jsx:162 | the same for edges leaving a name |
| Collapse.Keep | src/pages/index.jsx:155-161 | the kept nodes are exactly the nodes not introduced by a removed name |
| Collapse.KeepEdges | src/pages/index.jsx:162 | the kept edges are exactly the edges not leaving a removed name |
| Collapse.SiftStep | src/pages/index.jsx:155-161 | the callback on one more node either keeps it or pushes its id |
| Collapse.IntroducedSpec | src/pages/index.jsx:155-161 | one pass pushes the id of every node the popped name introduced and nothing else; kept plus pushed account for every node |
| Collapse.Sift | src/pages/index.jsx:155-161 | the filter callback that keeps a node or pushes its id yields exactly the kept nodes and the pushed ids |
| Collapse.NodeCollapse | src/pages/index.jsx:148-169 | the worklist loop returns exactly the nodes not introduced by a cascade name and the edges not leaving one, in their original order |
| Collapse.CollapseNoOrphans | src/pages/index.jsx:317-321 | after a collapse no shown node was introduced by a removed name, and no shown edge leaves one; anything dropped has its id among the removed names |
| Collapse.CollapseOnlyCascade | src/pages/index.jsx:317-321 | a node survives if and only if it was shown and its introducer is outside the cascade; an edge survives if and only if it was shown and does not leave the cascade; the cascade lies within every closed set holding the target |
| Collapse.KeepAppend | src/pages/index.jsx:155-161 | collapsing a concatenation collapses each part, in order |
| Collapse.CollapseKeepsRoot | src/pages/index.jsx:317-321 | the root is never removed and stays first |
| Collapse.CollapseKeepsTarget | src/pages/index.jsx:317-321 | on every well-formed graph, duplicate ids from seeding included, the collapsed node stays, with its flag cleared |
| Collapse.BelowClosed | src/pages/index.jsx:317-321 | when only shallow nodes share ids, the collapsed name and everything deeper than it are closed under "introduced by", so the cascade stays inside them |
| Collapse.KeepRootFirst | src/pages/index.jsx:155-161 | dropping nodes by introducer keeps the root first and an introducer on every other node |
| Collapse.CollapseRootFirst | src/pages/index.jsx:317-321 | collapse keeps the root first and an introducer on every other node |
| Collapse.CollapseLookupOutside | src/pages/index.jsx:317-321 | a name outside the cascade that found an expanded node finds the same node after the collapse |
| Collapse.CollapseParentsOk | src/pages/index.jsx:317-321 | collapse keeps every surviving child one level below its expanded introducer |
| Collapse.CollapseEdgesOk | src/pages/index.jsx:317-321 | collapse keeps every surviving edge leaving an expanded node |
| Collapse.FilterDupsShallow | src/pages/index.jsx:155-161 | a filter pass keeps only shallow nodes sharing ids |
| Collapse.CollapseDupsShallow | src/pages/index.jsx:317-321 | collapse keeps only shallow nodes sharing ids |
| Collapse.CollapsePreservesWellFormed | src/pages/index.jsx:317-321 | collapse keeps the graph invariant |
| Expansion.MergeNodes | src/pages/index.jsx:293-303 | expand only appends nodes; each is a child of the node one level down, for a related name not shown before; no two share an id |
| Expansion.MergeEdges | src/pages/index.jsx:304-312 | expand only appends edges; each leaves the expanded node, carries a relation of its list, and joins a pair not joined before; no two share a target |
| Expansion.MergeFirstLabel | src/pages/index.jsx:304-312 | an appended edge carries the label of the first relation in the list that names its target |
| Expansion.LabelledPrefix | src/pages/index.jsx:293 | an edge labelled by the first entry naming its target in a prefix of the relation list is labelled by the first such entry of the whole list |
| Expansion.MergeLastEdge | src/pages/index.jsx:304-312 | the last relation adds no edge, or adds one edge, and then no earlier relation names its target |
| Expansion.MergeCovers | src/pages/index.jsx:293-315 | after the merge every related name has a node and an edge from the expanded node |
| Expansion.MergeSettled | src/pages/index.jsx:293-315 | a merge over names that all have nodes and edges changes nothing |
| Expansion.MergeIdempotent | src/pages/index.jsx:293-315 | re-running the merge adds nothing |
| Expansion.ExpandFrame | src/pages/index.jsx:290-292 | expand sets the clicked node's flag and changes no other shown node or edge; with no dataset entry only the flag changes |
| Expansion.ExpandAddsChildren | src/pages/index.jsx:290-316 | every new node is a child one level below with an id not shown before, and every related name ends up with a node and an edge |
| Expansion.ExpandKeepsUnique | src/pages/index.jsx:294-312 | expand keeps node ids unique and (source, target) pairs unique |
| Expansion.ExpandIdempotent | src/pages/index.jsx:290-316 | expanding again right after an expand changes nothing |
| Expansion.ExpandLookup | src/pages/index.jsx:291-302 | after an expand every shown id finds the same node as before, the clicked one now expanded |
| Expansion.ExpandMember | src/pages/index.jsx:290-316 | every node after an expand is an old node (flag aside) or a new child of the clicked node |
| Expansion.ExpandRootFirst | src/pages/index.jsx:290-316 | expand keeps the root first and gives every other node an introducer |
| Expansion.ExpandParentsOk | src/pages/index.jsx:290-316 | expand keeps every child one level below its expanded introducer |
| Expansion.ExpandEdgesOk | src/pages/index.jsx:290-316 | expand keeps every edge leaving an expanded node |
| Expansion.ExpandDupsShallow | src/pages/index.jsx:294-302 | expand pushes no id already shown and no id twice, so only shallow nodes still share ids |
| Expansion.ExpandPreservesWellFormed | src/pages/index.jsx:290-316 | expand keeps the graph invariant |
| Toggle.ClickPreservesWellFormed | src/pages/index.jsx:280-327 | any click keeps the graph invariant |
| Toggle.ClickKeepsRoot | src/pages/index.jsx:58 | the root has level 0, so it never shows the affordance and no click changes or removes it |
| Toggle.ClickToggles | src/pages/index.jsx:290-321 | a click on the affordance sets a cleared flag, and clears a set flag while keeping the node |
| Toggle.ExpandParts | src/pages/index.jsx:290-316 | after an expand the node list is the flagged old list plus children of the clicked node with new ids; the edge list is the old one plus edges from it |
| Toggle.ExpandThenUnflag | src/pages/index.jsx:291 | after an expand the clicked name finds the same index, and clearing its flag again gives the old list plus the new children |
| Toggle.CollapseUndoesAppend | src/pages/index.jsx:148-169 | collapsing a name right after children with new ids were appended under it removes exactly those children |
| Toggle.CollapseUndoesAppendGraph | src/pages/index.jsx:317-321 | collapsing a name whose flag was set, with new children of it and edges from it appended, gives back the graph before |
| Toggle.KeepEdgesUndoesAppend | src/pages/index.jsx:162 | dropping edges from names no expanded node carries keeps every old edge and drops every edge appended from them |
| Toggle.CollapseAfterExpand | src/pages/index.jsx:290-321 | on a well-formed graph, collapsing a node right after expanding it restores the graph exactly |
| Toggle.ClickRoundTrip | src/pages/index.jsx:280-327 | on a well-formed graph, two clicks on a collapsed node's affordance restore the nodes and edges from before |
| Store.FindIndex | src/pages/index.jsx:294 | the `find` scan over nodes returns the first index whose id matches, or none |
| Store.FindEdge | src/pages/index.jsx:305 | the `find` scan over edges reports whether an edge with that source and target is shown |
| Store.RelationStore.constructor | src/pages/index.jsx:343-344 | a new page shows no nodes and no edges |
| Store.RelationStore.Reset | src/pages/index.jsx:244-268 | the pushes leave exactly the seeded graph, which is well formed |
| Store.RelationStore.Expand | src/pages/index.jsx:290-316 | the loop leaves exactly the expanded graph, which stays well formed |
| Store.RelationStore.Collapse | src/pages/index.jsx:317-321 | clearing the flag then calling the worklist loop leaves exactly the collapsed graph, which stays well formed |
| Store.RelationStore.Click | src/pages/index.jsx:280-327 | the handler leaves exactly the clicked graph and keeps the graph invariant |
| SearchOptions.IndexFrom | src/pages/index.jsx:121 | the search from an index finds the first occurrence at or after it, or -1 when there is none |
| SearchOptions.IndexOf | src/pages/index.jsx:121 | `indexOf` is -1 exactly when the keywords do not occur, and otherwise the first index where they occur |
| SearchOptions.SuggestionsSpec | src/pages/index.jsx:118-122 | at most four suggestions and none for empty keywords; each is a dataset name containing the keywords; they are the first matches in order, as many as there are matches up to four; below four, every match is shown |
| SearchOptions.SuggestionsNarrow | src/pages/index.jsx:118-122 | typing more keywords only keeps names containing the shorter keywords |

## Left out

- Rendering is not modelled. This covers the G6 graph, layout, the minimap, the tooltip, `processParallelEdges`, `changeData`, the force-layout timer, the node's React shape and the level tag. None of it affects which nodes or edges are shown.
- React state is not modelled: `setNowData` and the node and edge counts. The state is the `RelationStore` fields.
- The dataset fetch is not modelled. The dataset is a parameter (`Data`).
- URL synchronisation, the random pick button and the about modal are not modelled. They are I/O or randomness outside the engine.
- The list of names is a parameter of `Suggestions`. In the page it is the dataset's key order.
- Suggestion clicks (setting the search name) are not modelled. They only feed a new `Reset`.
- The clicked node is not modelled as G6's separate model object. The model uses the first shown node with the clicked id, which is the record the handler updates through `find`. When seeding has shown a person twice, the page reads `expanded` and `level` from the copy that was clicked, so the two can differ. For example, if the first copy is expanded, a click on the second copy runs the expand branch instead, while `ClickGraph` collapses. That expand adds nothing unless a later collapse removed a node the first copy's expand relied on; that node is then pushed again.
- Clicks where the shape is not the expand affordance are not modelled separately. `ClickGraph` returns the graph unchanged for any node without the affordance, and a click on any other shape changes nothing in the page either.
- JavaScript property lookups are not modelled. `data[name]` is key membership in a map, so inherited keys such as `constructor` are not modelled.
- Strings are sequences of characters. The UTF-16 code units that `indexOf` counts are not modelled.
- Field names differ from the page. The node's `label` is `caption` and the edge's `label` is `relation`, because `label` is reserved in Dafny.
