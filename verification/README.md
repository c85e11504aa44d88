# Verified models of Graphviz's algorithmic cores

A Dafny 4.11 model of the parts of Graphviz that rest on an algorithm rather than
on formatting, and proofs of what those algorithms promise. `dafny verify
dfyconfig.toml` checks everything.

| files | what they model |
|---|---|
| `SccSearch`, `SccMap` | strongly connected components and the map between them (`cmd/tools/sccmap.c`) |
| `BlockSearch`, `Blocks`, `Bcomps` | biconnected blocks with an edge stack (`cmd/tools/bcomps.c`) |
| `Acyclic` | reversing back edges of the graph being walked (`lib/cgraph/acyclic.c`) |
| `Dijkstra` | shortest paths over an ordered queue (`cmd/tools/dijkstra.c`) |
| `TreeTable`, `RandomTree` | random rooted trees from an explicit-stack machine (`cmd/tools/graph_generator.c`) |
| `Antiband` | antibandwidth local search (`cmd/gvmap/country_graph_coloring.c`) |
| `Links` | the record that both dictionary methods link, and the keys of objects (`lib/cdt`) |
| `Splay`, `OrderedSet` | the ordered-set method, flatten, restore, extract, size, and edge counting over a shared header (`lib/cdt`, `lib/cgraph/graph.c`) |
| `HashTable`, `HashDict`, `HashWalk`, `HashFlat` | the hash method: rehash in place, the finite map it stands for, walks under change, flatten, restore, extract (`lib/cdt`) |
| `Rebuild`, `Convert` | objects whose keys change: the finger renewed, a new discipline, a new method, for ordered sets and hash tables (`lib/cdt/dtrenew.c`, `lib/cdt/dtdisc.c`, `lib/cdt/dtmethod.c`) |
| `ViewPath`, `HashView` | layered ordered sets and hash tables, and walking them (`lib/cdt/dtview.c`, `lib/cdt/dtwalk.c`) |
| `Attr` | attribute declarations layered along the tree of subgraphs, and the value arrays (`lib/cgraph/attr.c`) |
| `Strmatch` | the wildcard matcher (`lib/ast/strmatch.c`) |
| `Escapes` | the escape printer and its parser (`lib/ast/fmtesc.c`, `lib/ast/chresc.c`, `lib/ast/stresc.c`) |
| `Wrappers`, `Finite`, `Digraph` | options, finite sets of naturals, graphs and reachability |

How the models are built:

- A graph is a list of heads per node, in the order in which the library's edge
  iteration visits them; a parallel edge is a repeated head. Directed graphs list
  out-edges, undirected ones list every edge at both ends. Node and edge records
  are the fields the algorithm keeps in them.
- Records that the source updates in place are classes. Tree and table links are
  objects of one class on the heap, with `left`, `right` and `hash` fields, and the
  proofs are about these pointers; ghost trees and chains say what they hold.
- The object a dictionary holds and the link inside it are one thing here. A
  dictionary's discipline is the map from objects to integer keys; a key that changes
  in place is a change of that map. A table's slots are a sequence, because the source
  reallocates it.
- The random numbers of the tree generator are a function of how many have been drawn
  before and of the bound.
- Preconditions are the ones the callers in the source meet: well-formed input
  graphs, a symmetric matrix (asserted by the source), fewer nodes than the
  "finished" mark of sccmap.

Where the code is not what one might expect:

- `bcomps` marks every root of its search that has an edge, not just articulation
  points (cmd/tools/bcomps.c:171-172). `Blocks.CutExact` states exactly what is marked, and
  `Blocks.MarkedEnd` gives a graph.
- The tree generator pops an empty stack exactly when asked for fewer than three nodes
  (cmd/tools/graph_generator.c:571-599); `RandomTree.GenTree` says so.
- Text printed by `fmtesq` does not decode to the input when a quoted character means
  something else after a backslash (such as `n` or `0`); `Escapes.RoundTripIff` is the
  exact condition, `Escapes.Breaks` the failing half and `Escapes.BreaksExample` an input.
- `fmtquote` with an empty opening quote and an empty text skips a character that is
  not there (lib/ast/fmtesc.c:107-113); `Escapes.OverrunIff` shows that no other input
  does, and `Escapes.Fmtquote` has no result for it.
- Detaching from an ordered set returns nothing even when an object was taken out
  (lib/cdt/dttree.c:264); `OrderedSet.Dt.Delete` says so.
- A deletion turns an unknown size -n of an ordered set into -n - 2
  (lib/cdt/dttree.c:219-220); any negative value means "unknown", and the next request
  for the size counts.
- Renewing an object in an ordered set counts the size up even when it is not known, so
  that a size of -1 would become 0 (lib/cdt/dttree.c:289-292); `OrderedSet.Dt.Renew`
  states when the size is right afterwards, and all callers modelled keep to that.
- NEXT in a hash table of an object that is not there gives the last one of the chain
  in which it would be, or ends the walk (lib/cdt/dthash.c:133-140, 204-242);
  `HashDict.Hash.Next` says so. A walk therefore loses its place when the callback takes
  out the object that has been fetched already (lib/cdt/dtwalk.c:14-19): objects can be
  missed (`HashWalk.MissesOne`) or come up twice (`HashWalk.SeesTwice`).
- Changing the method of an ordered set to hashing loses all of its objects
  (lib/cdt/dtmethod.c:45-62); `Convert.DtMethodToHash` says so for every set.
- A walk over a path of hash tables meets a key twice when the callback deletes the object
  of the first table that covered another one; `HashView.MetAgain` says when. In ordered
  sets this cannot happen (`ViewPath.DtWalk`).

## Model

| member | source | states |
|---|---|---|
| `SccMap.Process` | cmd/tools/sccmap.c:218-254 | after the driver loop every node is finished and the stack is empty; two distinct nodes share an emitted component iff each reaches the other; a node is left out iff it is alone and single nodes are not wanted; the map has an edge between two components iff the graph has one, always to an earlier component |
| `SccMap.SccState.constructor` | cmd/tools/sccmap.c:222-232 | the state before the search satisfies the search and output invariants |
| `SccMap.SccState.Visit` | cmd/tools/sccmap.c:116-161 | a call keeps the search invariant and all output; it returns the least number on the old stack that an edge from the new part of the stack meets, with a path to it, or leaves the stack as it was and its node finished |
| `SccMap.SccState.FinishComponent` | cmd/tools/sccmap.c:135-159 | a root of a component takes exactly the stack above it off and marks it finished, whether it is emitted or dropped |
| `SccMap.SccState.EmitComponent` | cmd/tools/sccmap.c:139-158 | the emitted component, its edges and the map keep their meaning |
| `SccMap.SccState.PopSegment` | cmd/tools/sccmap.c:147-154 | the popped nodes are the whole segment from n up, all marked finished and assigned, and counted |
| `SccMap.SccState.NodeInduce` | cmd/tools/sccmap.c:93-112 | the new component gets exactly its inner edges, and the map exactly the edges that leave it for emitted components |
| `SccMap.SccState.InduceNode` | cmd/tools/sccmap.c:100-110 | the same for the out-edges of one node |
| `SccSearch.SegmentIsClass` | cmd/tools/sccmap.c:134-154 | the segment above a root is exactly one class of mutual reachability |
| `SccSearch.SegmentIsComponent` | cmd/tools/sccmap.c:134-154 | a node of the segment and any other node reach each other iff the other is in the segment |
| `SccSearch.Leave` | cmd/tools/sccmap.c:134-154 | popping a segment with no lower head keeps the search invariant; every head outside is finished |
| `SccSearch.Stay` | cmd/tools/sccmap.c:134-160 | a node that reaches a lower stack entry may stay on the stack when its call ends |
| `SccSearch.ScanEnd` | cmd/tools/sccmap.c:126-134 | after the edge loop, either the minimum is the own number and no edge leaves for lower entries, or it is witnessed below |
| `SccMap.EmitKeeps` | cmd/tools/sccmap.c:139-154 | emitting one whole class keeps the one-to-one correspondence of components and classes |
| `SccMap.DropKeeps` | cmd/tools/sccmap.c:135-137 | finishing a single node without emitting it keeps that correspondence |
| `SccMap.MapStep` | cmd/tools/sccmap.c:100-109 | one edge of the walk adds a map edge exactly if it crosses between emitted components |
| `SccMap.ComponentsExact` | cmd/tools/sccmap.c:116-161 | with every node finished, components are exactly the wanted classes of mutual reachability |
| `SccMap.MapExact` | cmd/tools/sccmap.c:93-112 | map edges and crossings between components correspond |
| `SccMap.MapAcyclic` | cmd/tools/sccmap.c:137-158 | a walk along map edges ends strictly below its start, so the map has no cycle |
| `SccMap.IdleStack` | cmd/tools/sccmap.c:237-240 | between top-level calls the stack is empty and every visited node is finished |
| `Blocks.MarkedEnd` | cmd/tools/bcomps.c:171-172 | in the graph of one edge the first node is marked and is no articulation point |
| `Bcomps.Process` | cmd/tools/bcomps.c:202-218 | the blocks found are biconnected sets of at least two nodes, two of them share at most one node, every edge but a loop lies in one, and no biconnected set is split between blocks; Cut is set exactly on the articulation points and on the first node of each component that has an edge |
| `Bcomps.BcState.constructor` | cmd/tools/bcomps.c:205-213 | the state before the search satisfies the invariant |
| `Bcomps.BcState.Dfs` | cmd/tools/bcomps.c:152-186 | a call keeps the invariant of blocks, numbers, marks and edge stack, adds to the stack only edges of the unfinished part of its block, and returns in Low the least number an edge other than one to the parent leads to |
| `Bcomps.BcState.Step` | cmd/tools/bcomps.c:162-185 | each kind of edge (loop, to a new node, back, to the parent, forward) keeps what the call knows |
| `Bcomps.BcState.TreeEdge` | cmd/tools/bcomps.c:167-180 | after the recursive call either a block is emitted and goes from the stack or its edges join the part of u |
| `Bcomps.BcState.EmitBlock` | cmd/tools/bcomps.c:171-179 | the emitted set is the set of ends of the popped edges, Cut is set on u, and the invariant holds with the new block |
| `Bcomps.BcState.PopEdges` | cmd/tools/bcomps.c:174-178 | pops exactly the edges from e on and collects exactly their ends |
| `Blocks.BlockFound` | cmd/tools/bcomps.c:170-179 | when Low(v) >= N(u), the popped part and u are a new block that hangs from u, apart from all earlier blocks and from the rest of the stack |
| `Blocks.Pop` | cmd/tools/bcomps.c:171-179 | moving a block from the stack to the block list keeps the whole invariant |
| `BlockSearch.SearchStays` | cmd/tools/bcomps.c:166-170 | when Low(v) < N(u), the part of the child joins that of u: it stays connected, and avoids any one of its nodes |
| `BlockSearch.SearchPopped` | cmd/tools/bcomps.c:166-179 | when the child's part is emitted, what u knows of its own part still holds |
| `BlockSearch.SearchBack` | cmd/tools/bcomps.c:181-185 | a back edge lowers Low(u) to the number of an active node and keeps what u knows |
| `BlockSearch.BlockBiconnected` | cmd/tools/bcomps.c:170-179 | if every exit of the child's part leads to u, the part with u is connected after removing any one node |
| `BlockSearch.AvoidsUnion` | cmd/tools/bcomps.c:166-170 | taking any node out of the joined parts leaves every other node a way to an active node outside |
| `Blocks.EarlierIsActive` | cmd/tools/bcomps.c:181-185 | a visited neighbour with a smaller number is an ancestor |
| `Blocks.SeparateAny` | cmd/tools/bcomps.c:152-186 | two blocks that share a node have no connection around it |
| `Blocks.ShareOne` | cmd/tools/bcomps.c:152-186 | two blocks share at most one node |
| `Blocks.GoRound` | cmd/tools/bcomps.c:171-172 | a path through a node that lies in at most one block can go round it |
| `Blocks.CutExact` | cmd/tools/bcomps.c:171-172 | Cut is set on x iff x is an articulation point, or the first node of its component and not isolated |
| `Blocks.RootIsFirst` | cmd/tools/bcomps.c:215-218 | top-level calls are made exactly for the first node of each component |
| `Blocks.BlocksCorrect` | cmd/tools/bcomps.c:152-186 | the emitted node sets are biconnected, overlap in at most one node and cover every edge |
| `Blocks.EdgeInOne` | cmd/tools/bcomps.c:152-186 | no edge lies in two blocks |
| `Blocks.BlocksMaximal` | cmd/tools/bcomps.c:152-186 | every biconnected set of two or more nodes lies within one block |
| `Acyclic.GraphvizAcyclic` | lib/cgraph/acyclic.c:88-102 | the result has no cycle through two or more nodes, the same joined pairs and the same loops; the answer is true iff the input had such a cycle, and without one nothing changes; there is an order of the nodes such that just the edges against it are gone; edges without a name are replaced one for one, the others by one edge per name, or in a strict graph by one in all, unless there was one; num_rev counts the edges added |
| `Acyclic.AcyclicWalk.constructor` | lib/cgraph/acyclic.c:88-92 | the state before the search satisfies the invariant |
| `Acyclic.AcyclicWalk.Dfs` | lib/cgraph/acyclic.c:54-86 | a call keeps the invariant while edges are added to and deleted from the lists being walked, changes no list of an active node but by deletion and appending, and reports a cycle only if the input has one |
| `Acyclic.AcyclicWalk.ReverseBack` | lib/cgraph/acyclic.c:66-80 | a back edge goes, and its reverse is added in a strict graph iff there was no edge that way, in another one iff it has no name or there was none of that name |
| `Acyclic.AcyclicWalk.AddRevEdge` | lib/cgraph/acyclic.c:39-51 | the reverse edge goes to the end of the head's list, with the same name, and is counted |
| `Acyclic.BackJoined` | lib/cgraph/acyclic.c:66-80 | the step keeps exactly the joined pairs |
| `Acyclic.BackDerived` | lib/cgraph/acyclic.c:66-80 | after the step every edge still is an input edge or the reverse of a deleted one |
| `Acyclic.BackEdgeCycle` | lib/cgraph/acyclic.c:66-80 | an edge to an active node closes a cycle of the input graph |
| `Acyclic.NextAt` | lib/cgraph/acyclic.c:61-62 | the edge after e in a list ordered by number is the next entry |
| `Acyclic.AtAfterRemove` | lib/cgraph/acyclic.c:61-79 | deleting the current edge does not disturb the fetched next one |
| `Acyclic.AtAfterCall` | lib/cgraph/acyclic.c:61-82 | what a recursive call does to a list does not make the loop over it skip or repeat an edge |
| `Acyclic.RanksForbidCycles` | lib/cgraph/acyclic.c:54-86 | if every remaining edge goes to a node finished earlier, there is no cycle |
| `Acyclic.BackBalanced` | lib/cgraph/acyclic.c:66-80 | one back edge dealt with keeps the balance of the edges gone and those added between any two nodes |
| `Acyclic.NoneBack` | lib/cgraph/acyclic.c:66-80 | none of the edges from the head of a back edge to its tail is gone |
| `Acyclic.BackNumbers` | lib/cgraph/acyclic.c:66-80 | every number given out since the start is that of one edge |
| `Acyclic.ByRank` | lib/cgraph/acyclic.c:54-86 | just the edges against the order in which the nodes are finished are gone |
| `Antiband.ImproveAntibandwidthBySwapping` | cmd/gvmap/country_graph_coloring.c:49-97 | on a symmetric pattern the search ends and leaves a permutation of the positions; any distance that all neighbours had they still have; no swap of two positions takes the neighbours of both to a distance that not all of them have already |
| `Antiband.TrySwap` | cmd/gvmap/country_graph_coloring.c:64-79 | a swap is kept exactly if it widens the smaller of the two local norms, else undone |
| `Antiband.GetLocal12Norm` | cmd/gvmap/country_graph_coloring.c:21-29 | the least gap to a neighbour, capped at n |
| `Antiband.Get12Norm` | cmd/gvmap/country_graph_coloring.c:31-47 | the first norm is the antibandwidth, the second the mean of the local norms |
| `Antiband.AntibandwidthIsMin` | cmd/gvmap/country_graph_coloring.c:36-42 | the antibandwidth is a lower bound of all local norms and attained by one, or n |
| `Antiband.AntibandwidthIs` | cmd/gvmap/country_graph_coloring.c:36-42 | all neighbours are at least d apart iff d is at most the antibandwidth |
| `Antiband.OptimumIs` | cmd/gvmap/country_graph_coloring.c:60-93 | when no swap would be accepted, none takes the neighbours of both positions further away |
| `Antiband.SwapWidens` | cmd/gvmap/country_graph_coloring.c:73-77 | an accepted swap widens all gaps at its two nodes beyond the narrower old norm and leaves the others |
| `Antiband.SwapLowersHistogram` | cmd/gvmap/country_graph_coloring.c:73-77 | an accepted swap makes the histogram of gaps lexicographically smaller |
| `Antiband.SwapLowersPotential` | cmd/gvmap/country_graph_coloring.c:60-93 | an accepted swap lowers a natural number, so the search ends |
| `Antiband.SwapKeepsAntibandwidth` | cmd/gvmap/country_graph_coloring.c:73-77 | an accepted swap does not lower the antibandwidth |
| `TreeTable.GenCnt` | cmd/tools/graph_generator.c:542-561 | entry n is the weighted sum over smaller entries divided by n - 1 |
| `TreeTable.AddRow` | cmd/tools/graph_generator.c:548-556 | the inner loop adds exactly row d of that sum |
| `TreeTable.TablePositive` | cmd/tools/graph_generator.c:542-561 | no entry is zero |
| `TreeTable.DrawRange` | cmd/tools/graph_generator.c:572-573 | the range drawn from is not empty and lies within the sum the entry was divided from |
| `TreeTable.Choose` | cmd/tools/graph_generator.c:574-592 | for every draw in the sum the search stops with D <= N - 1 at the term whose share of the sum holds the draw |
| `TreeTable.ScanRow` | cmd/tools/graph_generator.c:577-591 | one value of D takes its row off the draw, or stops at the term that holds it |
| `TreeTable.ChosenUnique` | cmd/tools/graph_generator.c:574-592 | no draw falls in the shares of two terms |
| `TreeTable.ShareNotEmpty` | cmd/tools/graph_generator.c:572-592 | every split has a draw of its own in the range drawn from, although that is less than the sum |
| `TreeTable.FirstCounts` | cmd/tools/graph_generator.c:542-561 | the first entries are 1, 1, 2, 4 and 9, the numbers of rooted trees |
| `RandomTree.MakeRandomTree` | cmd/tools/graph_generator.c:639-645 | for NN >= 3 the edges are a rooted tree on exactly the nodes 1..N, and it is the one that the random numbers stand for; for smaller NN there is none |
| `RandomTree.GenTree` | cmd/tools/graph_generator.c:563-612 | whatever the random numbers are, the machine ends and writes only inside the array; it pops an empty stack iff NN < 3, else it leaves the parents of the tree grown by them: at each size the split is the one on whose share of the sum the number falls, and that many copies of the one part hang below the root of the other |
| `RandomTree.SplitDown` | cmd/tools/graph_generator.c:571-595 | the split phase pushes the splits that the draws fall on, down to a tree of one or two nodes; it leaves the stack empty, so that the pop after it fails, exactly when it began with an empty stack and at most two nodes |
| `RandomTree.Multiply` | cmd/tools/graph_generator.c:605-608 | laying the current tree out J times below the root it hangs from completes the tree of that split |
| `RandomTree.PushBase` | cmd/tools/graph_generator.c:593-594 | a split on the stack and its base still to be grown |
| `RandomTree.AddSmall` | cmd/tools/graph_generator.c:596-596 | a tree of one or two nodes has been grown |
| `RandomTree.PopBase` | cmd/tools/graph_generator.c:599-604 | with its base there, the branch of a split is grown next |
| `RandomTree.PopBranch` | cmd/tools/graph_generator.c:605-608 | with the copies there, the tree of the split is there |
| `RandomTree.AllThere` | cmd/tools/graph_generator.c:609-609 | once there are NN nodes, what is left on the stack has nothing more to do |
| `RandomTree.Room` | cmd/tools/graph_generator.c:568-611 | there is room for what is still to be grown |
| `RandomTree.Tree.constructor` | cmd/tools/graph_generator.c:438-445 | an empty tree |
| `RandomTree.Tree.AddTree` | cmd/tools/graph_generator.c:483-488 | adds one or two nodes below the current root |
| `RandomTree.Tree.TreeDup` | cmd/tools/graph_generator.c:490-500 | lays the current tree out J times, each copy hanging where the first does |
| `RandomTree.Tree.TreePop` | cmd/tools/graph_generator.c:477-481 | goes back to the tree that the current one hangs in |
| `RandomTree.Tree.Reset` | cmd/tools/graph_generator.c:454-459 | empties the tree |
| `RandomTree.AllTranslated` | cmd/tools/graph_generator.c:490-500 | node y of copy k hangs as the original does, moved by k sizes |
| `RandomTree.CopiesPlaced` | cmd/tools/graph_generator.c:490-500 | the copies of a tree in the array are the copies of its layout |
| `RandomTree.LayoutIs` | cmd/tools/graph_generator.c:563-612 | the parents laid out are those of the tree, numbered root first and subtree by subtree |
| `RandomTree.DrawsDecide` | cmd/tools/graph_generator.c:563-612 | the random numbers decide the tree |
| `RandomTree.EveryTree` | cmd/tools/graph_generator.c:563-612 | every rooted tree has draws that stand for it |
| `RandomTree.EveryTreeDrawn` | cmd/tools/graph_generator.c:563-612 | for every rooted tree there are random numbers from which it, and no other of its size, is grown |
| `RandomTree.WriteTree` | cmd/tools/graph_generator.c:614-619 | one edge per node from 2 on, from its parent |
| `RandomTree.WalkTo` | cmd/tools/graph_generator.c:614-619 | every node is reached from node 1 along the edges |
| `Dijkstra.RunDijkstra` | cmd/tools/dijkstra.c:194-218 | stored values are one plus the shortest distances, where an edge counts with its len, or with one if that is missing, no number or negative, and zero exactly at unreachable nodes; prev entries, if wanted, trace a shortest path |
| `Dijkstra.Search.constructor` | cmd/tools/dijkstra.c:199-201 | the state with only the start queued satisfies the invariant |
| `Dijkstra.Search.Run` | cmd/tools/dijkstra.c:203-208 | the loop ends with an empty queue |
| `Dijkstra.Search.Settle` | cmd/tools/dijkstra.c:204-207 | all edges of the extracted node are taken into account and the invariant holds again |
| `Dijkstra.Search.Update` | cmd/tools/dijkstra.c:115-130 | a node is filed, or refiled under its new distance, exactly if it is new or now nearer; its key never changes while it is filed |
| `Dijkstra.Search.ExtractMin` | cmd/tools/dijkstra.c:107-113 | takes out the first entry in the order of distance, then node |
| `Dijkstra.SettleFirst` | cmd/tools/dijkstra.c:203-204 | the first node in the queue has its final distance, not below those settled before |
| `Dijkstra.RouteBound` | cmd/tools/dijkstra.c:194-218 | no route is shorter than the stored distance of its end, or than the least queued one |
| `Dijkstra.RelaxBetter` | cmd/tools/dijkstra.c:119-130 | a better distance keeps the invariant |
| `Dijkstra.DistancesExact` | cmd/tools/dijkstra.c:194-218 | with an empty queue the stored values are exact |
| `Dijkstra.PrevTraces` | cmd/tools/dijkstra.c:122-127 | prev entries lead back to the start along a shortest path |
| `Strmatch.StrMatch` | lib/ast/strmatch.c:507-558 | with both anchors and no group list the result is 1 iff some alternative of the pattern, between unquoted bars, has only conjuncts, between unquoted ampersands, that fit the string character by character |
| `Strmatch.Match.OneMatch` | lib/ast/strmatch.c:155-471 | one conjunct: true iff it fits the whole rest of the string, a star standing for any characters, a question mark for any one, a quoted character and any other for itself; then the end in string and pattern are recorded |
| `Strmatch.Match.StarMatch` | lib/ast/strmatch.c:243-305 | a run of stars counts as one star |
| `Strmatch.Match.StarLoop` | lib/ast/strmatch.c:298-305 | trying the rest at every position where its first character allows it loses no match |
| `Strmatch.Match.Terminate` | lib/ast/strmatch.c:309-327 | the end of a conjunct matches exactly the empty rest; at the end of the pattern the position is recorded if it is the first or lies beyond the one recorded |
| `Strmatch.Match.GrpMatch` | lib/ast/strmatch.c:478-495 | true iff some alternative fits |
| `Strmatch.Match.Conjunction` | lib/ast/strmatch.c:490-492 | true iff all conjuncts of the alternative fit |
| `Strmatch.Gobble` | lib/ast/strmatch.c:85-139 | skips to the next alternative, over escapes |
| `Strmatch.NextAltIs` | lib/ast/strmatch.c:132-135 | the next alternative starts after the next bar that is not quoted |
| `Strmatch.NextAlternative` | lib/ast/strmatch.c:478-495 | some alternative fits iff the first does or one from the next on |
| `Strmatch.NextConjunct` | lib/ast/strmatch.c:490-491 | all conjuncts fit iff the first does and all those after the next ampersand that is not quoted |
| `Strmatch.StarStar` | lib/ast/strmatch.c:245-249 | two stars stand for the same strings as one |
| `Strmatch.CharByChar` | lib/ast/strmatch.c:306-307 | a pattern of plain characters and question marks fits exactly the strings of its length that agree with it but for those |
| `Escapes.Fmtesc` | lib/ast/fmtesc.c:134-137 | the escaped text always decodes to the input, has printing characters only, and is as long as the letters and octal digits make it |
| `Escapes.Fmtesq` | lib/ast/fmtesc.c:125-128 | it decodes to the input iff no quoted character of the input is one that chresc reads specially, has printing characters only, and is the input itself where nothing needs a backslash |
| `Escapes.Fmtquote` | lib/ast/fmtesc.c:28-119 | the printed text stands between the quotes if anything is escaped or has to be quoted, else the quotes (and the dollar sign) are left off; there is no result exactly for an empty opening quote with an empty text |
| `Escapes.OverrunIff` | lib/ast/fmtesc.c:107-113 | what is left off at the front is longer than the text built iff the opening quote and the text are both empty |
| `Escapes.OverrunExample` | lib/ast/fmtesc.c:107-113 | such an input |
| `Escapes.PrintLoop` | lib/ast/fmtesc.c:50-104 | the text is the escaped input; the two flags say whether a backslash and whether quotes were needed |
| `Escapes.RoundTripIff` | lib/ast/fmtesc.c:50-104 | decoding what was printed gives the input iff no character in it is both quoted and special |
| `Escapes.RoundTrip` | lib/ast/fmtesc.c:50-104 | the direction from the condition to the round trip, for any quoted set |
| `Escapes.Breaks` | lib/ast/fmtesc.c:88-90 | a quoted special character always breaks the round trip |
| `Escapes.BreaksExample` | lib/ast/fmtesc.c:88-90 | such an input: n with n quoted decodes to a line feed |
| `Escapes.ReadBack` | lib/ast/chresc.c:24-140 | reading one printed character back, whatever follows it |
| `Escapes.OctalBack` | lib/ast/chresc.c:43-60 | three octal digits read back to their byte |
| `Escapes.ReadMeans` | lib/ast/chresc.c:24-140 | what is read is what the characters say: one to three octal digits, all hexadecimal digits, the letters, and any other character for itself |
| `Escapes.PrintedMeans` | lib/ast/fmtesc.c:50-104 | only printing characters are printed, a control character by its letter if it has one, and what needs no backslash is left as it is |
| `Escapes.ShellText` | lib/ast/fmtesc.c:85-97 | a text for the shell stands inside quotes iff it has a character that the shell would not leave alone or starts with a number sign |
| `Escapes.OtherText` | lib/ast/fmtesc.c:85-119 | with another opening quote it stands inside quotes iff it has a space |
| `Escapes.NeverLonger` | lib/ast/stresc.c:22-43 | what was printed never decodes to more characters than were printed |
| `Escapes.Chresc` | lib/ast/chresc.c:24-140 | returns the character and the read position of the escape grammar, never beyond the terminator |
| `Escapes.ChrescOctal` | lib/ast/chresc.c:43-60 | at most three octal digits |
| `Escapes.ChrescHex` | lib/ast/chresc.c:86-123 | all hexadecimal digits there are |
| `Escapes.Stresc` | lib/ast/stresc.c:22-43 | in place, the buffer becomes the decoded text; writing never overtakes reading, and nothing after the text changes |
| `SplayTree.RRotate` | lib/cdt/dthdr.h:30-33 | a right rotation keeps nodes and order |
| `SplayTree.LRotate` | lib/cdt/dthdr.h:31-34 | a left rotation keeps nodes and order |
| `SplayTree.RLink` | lib/cdt/dthdr.h:32-32 | hanging the root into the RIGHT tree keeps the three parts together |
| `SplayTree.LLink` | lib/cdt/dthdr.h:33-33 | hanging the root into the LEFT tree keeps the three parts together |
| `SplayTree.HangRight` | lib/cdt/dthdr.h:32-32 | writing the left field at the end of the RIGHT spine leaves both spines as they were, with the node and its subtree below |
| `SplayTree.HangLeft` | lib/cdt/dthdr.h:33-33 | the mirror image for the LEFT spine |
| `SplayTree.StepRight` | lib/cdt/dttree.c:101-127 | a step to the left keeps the order of all nodes over LEFT tree, root and RIGHT tree, and their bounds by the key |
| `SplayTree.StepLeft` | lib/cdt/dttree.c:128-154 | the mirror image |
| `SplayTree.SplayDown` | lib/cdt/dttree.c:97-155 | the loop ends with the node of the key at the root, or with no root, and loses no node |
| `SplayTree.Isolate` | lib/cdt/dttree.c:97-161 | the nodes below, at and above the key are then exactly the LEFT tree, the root and the RIGHT tree |
| `SplayTree.CloseCut` | lib/cdt/dttree.c:158-161 | hanging the root's subtrees into the two trees completes them |
| `SplayTree.JoinRight` | lib/cdt/dttree.c:158-166 | closing the RIGHT tree makes one tree with the same order |
| `SplayTree.JoinLeft` | lib/cdt/dttree.c:158-166 | closing the LEFT tree makes one tree with the same order |
| `SplayTree.HasRoot` | lib/cdt/dttree.c:163-183 | LEFT tree, root and RIGHT tree become one tree in order |
| `SplayTree.NoRoot` | lib/cdt/dttree.c:259-265 | without a root the LEFT tree is hung below the least node of the RIGHT tree |
| `SplayTree.MinToRoot` | lib/cdt/dttree.c:53-55 | rotations bring the least node to the root |
| `SplayTree.MaxToRoot` | lib/cdt/dttree.c:49-52 | rotations bring the greatest node to the root |
| `SplayTree.Cut` | lib/cdt/dttree.c:97-155 | nodes on the two sides of the key are cut apart by it |
| `OrderedSet.Dt.constructor` | lib/cdt/dttree.c:15-24 | an empty ordered set |
| `OrderedSet.Dt.Search` | lib/cdt/dttree.c:82-84 | finds the node with the key iff there is one; contents and size stay |
| `OrderedSet.Dt.Insert` | lib/cdt/dttree.c:223-288 | puts the object in between the smaller and the greater ones, or returns the one that has its key and changes nothing |
| `OrderedSet.Dt.Enter` | lib/cdt/dttree.c:223-288 | the search and the link that goes in when it finds none, whatever the size is said to be |
| `OrderedSet.Dt.Delete` | lib/cdt/dttree.c:211-222 | takes exactly the object with the key out; a detached one is not returned; size stays exact or unknown |
| `OrderedSet.Dt.Next` | lib/cdt/dttree.c:185-197 | the least key above the given one, whether that is present or not |
| `OrderedSet.Dt.Prev` | lib/cdt/dttree.c:198-210 | the greatest key below the given one |
| `OrderedSet.Dt.FirstLink` | lib/cdt/dttree.c:53-59 | the least object |
| `OrderedSet.Dt.LastLink` | lib/cdt/dttree.c:49-59 | the greatest object |
| `OrderedSet.InsertSorted` | lib/cdt/dttree.c:266-288 | putting a new key between the two sides keeps the order |
| `OrderedSet.DeleteSorted` | lib/cdt/dttree.c:211-222 | taking a key out keeps the order |
| `OrderedSet.Dt.Flatten` | lib/cdt/dtflatten.c:33-50 | the tree becomes a list by right links, with the same order |
| `OrderedSet.FlattenTree` | lib/cdt/dtflatten.c:33-44 | the loop rotates every left child away and keeps the order |
| `OrderedSet.ListIsTree` | lib/cdt/dtflatten.c:33-44 | a list is a search tree without left children |
| `OrderedSet.Dt.Restore` | lib/cdt/dtrestore.c:13-64 | a flattened set is unflattened, an extracted tree fills an empty set, anything else is refused |
| `OrderedSet.Dt.Extract` | lib/cdt/dtextract.c:11-32 | hands over the whole tree and leaves the set empty |
| `OrderedSet.Dt.DtSize` | lib/cdt/dtsize.c:14-24 | the exact number of objects, from then on remembered |
| `OrderedSet.TreeCount` | lib/cdt/dtsize.c:10-12 | the number of nodes of a subtree |
| `OrderedSet.Cnt` | lib/cgraph/graph.c:198-205 | counting an edge set under the shared header leaves the set and the header as they were |
| `OrderedSet.AgDegree` | lib/cgraph/graph.c:225-236 | the number of out-edges and in-edges asked for; both sets are unchanged |
| `ViewPath.VSearch` | lib/cdt/dtview.c:32-58 | FIRST, LAST, NEXT and PREV over a path of ordered sets: the adjacent key of the union, by the object of the nearest dictionary that has it |
| `ViewPath.Nearest` | lib/cdt/dtview.c:37-54 | one more dictionary changes the best object only if its own is strictly closer |
| `ViewPath.OneAdjacent` | lib/cdt/dttree.c:185-210 | in one dictionary NEXT and PREV are adjacent in the order of keys |
| `ViewPath.ByKeys` | lib/cdt/dttree.c:185-210 | what a search, NEXT and PREV give, by the keys that the discipline has for the objects |
| `ViewPath.NextSeen` | lib/cdt/dtview.c:32-58 | NEXT from the last object seen misses no key of the union |
| `ViewPath.DuringDrop` | lib/cdt/dtwalk.c:14-19 | deleting the object just seen leaves the part still to be walked alone |
| `ViewPath.DtWalk` | lib/cdt/dtwalk.c:11-21 | a whole walk visits every key of the union once, in ascending order, by its nearest object, also when the callback deletes the current object; a negative result ends it |
| `HashTable.IndexGrows` | lib/cdt/dthash.c:36-40 | in a larger table of a power of two an element keeps its slot or goes beyond all old slots |
| `HashTable.IndexIsRest` | lib/cdt/dthash.c:36-40 | the slot is the rest of the hash value when divided by the size of the table |
| `HashTable.DtHtab` | lib/cdt/dthash.c:15-52 | the table grows to the least size with room, and the one-pass rehash in place loses and repeats no link and puts each into its slot |
| `HashTable.RehashChain` | lib/cdt/dthash.c:39-51 | one old chain: the links that stay keep their order, the others go in front of the chains of new slots, and no other chain changes |
| `HashTable.MoveKeeps` | lib/cdt/dthash.c:43-49 | moving one link keeps what is known of slots done and slots to do |
| `HashTable.MoveOne` | lib/cdt/dthash.c:45-49 | unlinking and pushing to the front change just those two chains |
| `HashTable.Unlink` | lib/cdt/dthash.c:258-266 | takes one link out of its chain |
| `HashTable.PushFront` | lib/cdt/dthash.c:197-200 | puts a link at the front of a chain |
| `HashDict.Hash.constructor` | lib/cdt/dthash.c:54-69 | an empty table |
| `HashDict.Hash.Find` | lib/cdt/dthash.c:133-143 | the search finds the object of the key iff the map has one |
| `HashDict.Hash.Search` | lib/cdt/dthash.c:146-157 | returns what the map holds; with no walk under way the object comes to the front of its chain and nothing else moves |
| `HashDict.Hash.Insert` | lib/cdt/dthash.c:158-203 | the map gains the object, at the front of its chain, if its key was free, else nothing changes; during a walk the order of the others stays |
| `HashDict.Hash.Renew` | lib/cdt/dthash.c:243-253 | the same with the hash value the object carries |
| `HashDict.Hash.Add` | lib/cdt/dthash.c:181-203 | do_insert: the load stays within bounds when no walk is under way |
| `HashDict.Hash.Delete` | lib/cdt/dthash.c:254-275 | the map loses the key and the order of the others stays; the finger goes to the object before it in the chain, or to the first |
| `HashDict.Hash.Locate` | lib/cdt/dthash.c:125-143 | an object found last is found without a search, in its own slot |
| `HashDict.Hash.FirstLink` | lib/cdt/dthash.c:98-109 | the first object in table order, and a walk begins |
| `HashDict.Hash.Next` | lib/cdt/dthash.c:204-242 | the object after the one with the given key in table order; for a key that is absent the last object of the chain where it would be; with none the walk is over |
| `HashDict.Hash.After` | lib/cdt/dthash.c:204-211 | the object after a link, in its chain or in the next slot that is not empty |
| `HashDict.SlotEnd` | lib/cdt/dthash.c:133-140 | the last link of a chain is one with the slot asked for, and there is none exactly if no object has that slot |
| `HashDict.HashByKeys` | lib/cdt/dthash.c:133-143 | every object is found under the key that the discipline has for it |
| `HashDict.Hash.EndWalk` | lib/cdt/dthash.c:229-237 | growth put off during walks is made up when the last one ends |
| `HashDict.PushFlat` | lib/cdt/dthash.c:192-202 | insertion changes table order only by the new link |
| `HashDict.RemoveFlat` | lib/cdt/dthash.c:258-266 | deletion changes table order only by the link taken out |
| `HashDict.NextInTable` | lib/cdt/dthash.c:205-211 | the first link of the next non-empty slot follows the last one of a chain |
| `HashWalk.DtWalk` | lib/cdt/dtwalk.c:11-21 | a walk over a hash table during which the callback searches, inserts and deletes visits every object that is there throughout exactly once; a negative result ends it, with none of them seen twice; both hold unless some call takes out the object fetched for the next one, which the callback then gets all the same before the walk goes on from where NEXT leads |
| `HashWalk.Round` | lib/cdt/dtwalk.c:14-19 | one round: fetching and the call keep the record of what has been seen, and the loss of the place is told exactly |
| `HashWalk.Do` | lib/cdt/dtwalk.c:14-19 | whatever the callback does once keeps the record of what has been seen; the place is lost exactly when it takes out the object fetched already |
| `HashWalk.Callback` | lib/cdt/dtwalk.c:14-19 | so does a whole call of the callback, and the place is lost exactly when one of its operations takes out that object |
| `HashWalk.Advance` | lib/cdt/dtwalk.c:14-15 | fetching the next object adds the current one to what has been seen, and there is less left to walk over, also from an object that is not in the table |
| `HashWalk.TakeFetched` | lib/cdt/dthash.c:133-140 | when the object fetched is taken out, NEXT of it ends the walk exactly if no other object has its slot, and else gives one that has |
| `HashWalk.MissesOne` | lib/cdt/dthash.c:204-242 | a table in which an object is then never seen, although no one has touched it |
| `HashWalk.SeesTwice` | lib/cdt/dthash.c:204-242 | a table in which an object is then met for the second time |
| `HashWalk.WalkPut` | lib/cdt/dthash.c:181-203 | an insertion anywhere does not make the walk skip or repeat an object |
| `HashWalk.WalkTake` | lib/cdt/dthash.c:254-275 | nor does a deletion of an object that has not been fetched already |
| `HashFlat.Flatten` | lib/cdt/dtflatten.c:20-32 | the chains become one list in table order and each slot holds the end of its chain |
| `HashFlat.RestoreFlat` | lib/cdt/dtrestore.c:32-42 | gives back the chains as they were |
| `HashFlat.FlattenRestore` | lib/cdt/dtrestore.c:32-42 | flatten then restore leaves the table and every right field as they were |
| `HashFlat.JoinChain` | lib/cdt/dtflatten.c:22-31 | one slot: its chain is hung to the end of the list |
| `HashFlat.CutChain` | lib/cdt/dtrestore.c:36-41 | one slot: its chain is cut off the front of the list |
| `HashFlat.Extract` | lib/cdt/dtextract.c:17-32 | one list of exactly the objects, and an empty table |
| `HashFlat.Restore` | lib/cdt/dtrestore.c:25-50 | puts the objects of a list into an empty table, exactly the first of those with equal keys, and refuses a table that is not empty |
| `HashFlat.RestoreOne` | lib/cdt/dtrestore.c:45-49 | one object goes in, exactly if no earlier one has its key, and the rest of the list is left alone |
| `HashFlat.PutInNext` | lib/cdt/dtrestore.c:47-47 | one more object of a list goes in exactly if its key is new |
| `HashFlat.ExtractRestore` | lib/cdt/dtrestore.c:43-50 | extract then restore keeps the map |
| `Attr.AttrState.constructor` | lib/cgraph/attr.c:102-128 | a root graph starts with the prototype's declarations under the same ids, and its own values are their defaults |
| `Attr.AttrState.NewSubgraph` | lib/cgraph/attr.c:379-388 | a subgraph starts without declarations; its values are the defaults its parent sees |
| `Attr.AttrState.NewObject` | lib/cgraph/attr.c:409-416 | a node or edge made in graph g gets, for every declared name, the default nearest to g |
| `Attr.AttrState.SetAttr` | lib/cgraph/attr.c:257-309 | keeps ids dense, subgraph ids equal to root ids and all arrays filled; says at every graph what the default is afterwards, that no other name is touched, and that existing objects only gain a slot for a new name |
| `Attr.AttrState.GetAttr` | lib/cgraph/attr.c:223-230 | the nearest declaration from g up to the root; exactly the root's names are found |
| `Attr.AttrState.AgGet` | lib/cgraph/attr.c:447-455 | the slot with the root's id for the name, found exactly for the names of the root |
| `Attr.AttrState.AgXSet` | lib/cgraph/attr.c:497-519 | the slot with the name's id in the object's array gets the value, and for a graph its own default as well; all else stays |
| `Attr.AttrState.SetThenGet` | lib/cgraph/attr.c:497-519 | getting after setting gives the new value for that object and name, and what was there for any other |
| `Attr.AgMakeAttrs` | lib/cgraph/attr.c:165-187 | every slot of a new array is filled, with the default nearest to the context graph |
| `Attr.UnviewSubgraphsAttr` | lib/cgraph/attr.c:232-252 | exactly the direct subgraphs without a declaration of their own get one, with their present value |
| `Attr.AddAttr` | lib/cgraph/attr.c:210-221 | every object of the kind gains one slot with the default |
| `Attr.NearestKnown` | lib/cgraph/attr.c:131-135 | every graph knows exactly the root's names, under the root's ids |
| `Attr.NearestWhere` | lib/cgraph/attr.c:131-135 | the symbol found is declared on the way up, and at no graph before that |
| `Attr.DeclaredNearest` | lib/cgraph/attr.c:274-280 | a declaration at g counts exactly at the graphs below g that have none of their own on the way |
| `Attr.PinnedNearest` | lib/cgraph/attr.c:232-252 | after pinning, g's declaration counts at g alone, the direct subgraphs see their own values, and each deeper graph sees what its parent sees |
| `Attr.DeclareLocal` | lib/cgraph/attr.c:275-280 | a local declaration keeps the ids and changes the default just where it counts |
| `Attr.DeclarePinned` | lib/cgraph/attr.c:266-274 | updating a graph attribute keeps the ids; the direct subgraphs see their own values, and what lies below sees what they see |
| `Attr.DeclareGlobal` | lib/cgraph/attr.c:281-303 | a new name gets the next id at the root and becomes every graph's default |
| `Attr.GraphValue` | lib/cgraph/attr.c:305-306 | setting the graph's own value afterwards changes no default |
| `Attr.SubgraphSees` | lib/cgraph/attr.c:111-116 | a new subgraph sees what its parent sees, and the others see what they saw |
| `Attr.LocalOk` | lib/cgraph/attr.c:277-280 | a local declaration with the root's id keeps ids dense and consistent |
| `Attr.GlobalOk` | lib/cgraph/attr.c:281-284 | the next id keeps ids dense and consistent |
| `OrderedSet.Dt.Renew` | lib/cdt/dttree.c:233-292 | puts the object in if its key is free, else changes nothing; the size is wrong afterwards exactly if it was -1 and the object went in |
| `Rebuild.DtRenew` | lib/cdt/dtrenew.c:11-35 | the finger object, whose key has changed in place, is in the set under its new key iff no other object has that; the others stay; nothing happens for an object that is not the finger |
| `Rebuild.TakeRoot` | lib/cdt/dtrenew.c:23-34 | the root goes, and its two subtrees become one tree in the same order |
| `Rebuild.DtDisc` | lib/cdt/dtdisc.c:29-55 | under the new keys the set is in order and holds exactly the objects whose new key no earlier one has; it is made of the same links, and the size is exact |
| `Rebuild.ReinsertAll` | lib/cdt/dtdisc.c:45-53 | the loop over the flattened list puts each link back, although that overwrites the field by which the list hangs together |
| `Rebuild.Reinsert` | lib/cdt/dtdisc.c:51-51 | one link goes in or is dropped; no other link outside the tree is touched |
| `Rebuild.FirstStep` | lib/cdt/dtdisc.c:45-53 | one more object is kept exactly if its key is new |
| `Rebuild.NothingDropped` | lib/cdt/dtmethod.c:36-44 | with distinct keys every object is kept |
| `Convert.DtMethod` | lib/cdt/dtmethod.c:20-44 | from hash to ordered set: exactly the objects of the table, as the links they are, and an exact size |
| `Convert.DtRenew` | lib/cdt/dtrenew.c:36-51 | the finger object of a hash table moves from its old key and slot to the new ones, or is dropped iff its new key is taken |
| `Convert.Unhook` | lib/cdt/dtrenew.c:37-44 | the finger leaves its chain, found by its old hash value, and the map is that of the others |
| `Convert.DtDisc` | lib/cdt/dtdisc.c:29-55 | a hash table under new keys holds exactly the objects whose new key none before them in table order has |
| `Convert.PutBackAll` | lib/cdt/dtdisc.c:45-53 | the loop over the flattened table puts each link back with its new hash value |
| `Links.LinksStep` | lib/cdt/dtdisc.c:45-53 | one more object is kept exactly if its key is new, in either method |
| `Convert.DtMethodToHash` | lib/cdt/dtmethod.c:20-63 | from ordered set to hash nothing goes over: the table is empty, its size is still that of the set, and it is in order only if that was 0 |
| `HashView.DtWalk` | lib/cdt/dtwalk.c:11-21 | over a path of hash tables, with a callback that may delete the current object from the first: what is met is exactly the objects that are to be met, each once; a negative result ends the walk |
| `HashView.Round` | lib/cdt/dtwalk.c:14-19 | one round keeps this, also when the object that the walk stood at goes and NEXT has to search for the one fetched |
| `HashView.VFirst` | lib/cdt/dtview.c:23-30 | FIRST gives the first object of the first table that has one |
| `HashView.VNext` | lib/cdt/dtview.c:64-89 | NEXT of any object: from the nearest object with its key, or from where the walk stands, to the next one that no earlier table covers; nothing if no table has the key |
| `HashView.VHome` | lib/cdt/dtview.c:64-71 | the object and the table that NEXT starts from |
| `HashView.Onward` | lib/cdt/dtview.c:73-89 | the next uncovered object, in this table or a later one; all in between are covered |
| `HashView.SkipCovered` | lib/cdt/dtview.c:74-82 | the inner loop passes over exactly the covered objects |
| `HashView.IsCovered` | lib/cdt/dtview.c:75-80 | an object is covered iff an earlier table has its key; asking changes no table from the current one on |
| `HashView.DropAt` | lib/cdt/dtwalk.c:16-16 | taking the current object out of the first table leaves the walk at the object fetched |
| `HashView.MetStep` | lib/cdt/dtwalk.c:14-19 | one more object met keeps it so that exactly the objects that are to be met have been |
| `HashView.PassedOver` | lib/cdt/dtview.c:74-82 | what is passed over because it is covered is not to be met |
| `HashView.FetchedMeets` | lib/cdt/dtview.c:74-77 | what is not covered when it is fetched is to be met |
| `HashView.NothingDropped` | lib/cdt/dtview.c:73-89 | when the callback deletes nothing, each key of the union is met once, by its nearest object |
| `HashView.MetAgain` | lib/cdt/dtview.c:73-89 | an object that only the first table covers is met, after the one that covers it, iff that is deleted, and unless that is the last of its table and no other from beyond comes before |

## Left out

- Naming and writing of output subgraphs, statistics, options and messages of the tools.
- `countComponents` and `label` in sccmap, the block-cutpoint tree and `graphviz_node_induce` in bcomps: a block here is its set of nodes, and its edges are those of the graph between them.
- Acyclic.GraphvizAcyclic: directed graphs only, as its tool demands.
- Acyclic.AcyclicWalk.AddRevEdge: does not model the copying of attributes and the exchange of the port attributes, which touch nothing the search reads.
- Antiband.ImproveAntibandwidthBySwapping: the norms, which the code keeps in floating point, are integers here; the timing output is left out.
- RandomTree.MakeRandomTree: unsigned widths and the exit on 64-bit overflow are not modelled (numbers are unbounded), nor a request for no node at all, for which the table is too short; random numbers come from a function of how many have been drawn and of the bound; that the trees are equally likely is not stated; `makeTree`, which uses `pow`, is left out.
- Dijkstra.RunDijkstra: lengths are real numbers without rounding; reading the attribute text and writing the results is left out; the queue is a set of nodes filed under their distances, ordered as the comparison function does.
- Strmatch.StrMatch: patterns without unescaped `(`, `)` and `[`, so no groups, repeated groups, back references or character classes, and no search without anchors.
- Strmatch.Match.OneMatch: the same patterns, since a group would be matched by the code that is left out.
- Strmatch.Match.StarMatch: the same patterns.
- Strmatch.Match.StarLoop: the same patterns.
- Strmatch.Match.GrpMatch: the same patterns.
- Strmatch.Match.Conjunction: the same patterns.
- Escapes.ChrescHex: hexadecimal runs do not wrap around at the width of an integer.
- Escapes.Fmtquote: characters are bytes in the C locale; unquoting by a shell is not modelled.
- Ordered multisets, DT_CLEAR, makef and freef and separately allocated holders of dictionaries.
- Comparison functions other than that of integers: a discipline is the map from objects to their keys.
- Convert.DtMethod: the set it returns is a record of its own, where the code changes the method of the dictionary it is given.
- Convert.DtMethodToHash: the same; what later insertions make of a table with a wrong size is not stated.
- OrderedSet.Dt.Restore: the list kept by lists and stacks is not modelled.
- Hash tables: LAST and PREV, which mirror FIRST and NEXT; tables that fail to grow for want of memory; `hash` and `left` share no memory; HashDict models tables that are not flattened, HashFlat the step to and from the flattened form.
- HashWalk.DtWalk: the callback works on this table only, and does not walk it itself; after a call has taken out the object fetched, which objects are still met is not stated as a whole: `HashDict.Hash.Next` and `HashWalk.TakeFetched` say where each step leads.
- HashWalk.Callback: the same operations.
- HashView.VNext: a path is a fixed list of tables; setting it up (`dtview`) and its search by key are left out.
- HashView.DtWalk: the callback may delete the current object only, from the first table, as `dtdelete` on the path does.
- ViewPath.VSearch: the path is a fixed list of dictionaries; setting it up (`dtview`) and its search by key are left out.
- ViewPath.DtWalk: the callback may delete the current object only.
- Attr: symbols and dictionaries are values and maps here; deleting objects, copying attributes, HTML-like strings, callbacks, and attaching attributes to a graph that was built without them are left out. That a graph's own value and the default its subgraphs see agree is not claimed: setting an inherited attribute by `agxset` on an enclosing graph changes the one and not the other.
- Graph formats, layout, user interfaces.
