# City map graph: a Dafny model

This project models the core of a small C program that reads a city map file
and answers questions about it. A map file lists points of interest (POIs)
and the roads between them. The program validates the file, loads it into a
directed graph, and answers four queries: where a named place is, how far
apart two named places are in a straight line, which two places are farthest
apart, and how long the shortest road route between two named places is. The
first two only look up names and print; they are listed under "Left out".

Four parts are modelled:

- **The graph store** (`graph.c`), module `GraphStore`. A `Graph` object holds
  an array of node slots, `nodeCount`, `nodeSpace` and `edgeCount`. A node is a
  value: its id, its payload, and its adjacency list, head first. An edge names
  its destination by id. Each method is proved against a function on the
  sequence of occupied slots, `Nodes()`. Those functions are `AddNodeSpec`,
  `AddEdgeSpec`, `RemoveEdgeSpec` and `RemoveNodeSpec`. Each method keeps the
  store invariant:
  - ids are unique;
  - every edge leads to a node of the graph;
  - no ordered pair of nodes has two edges;
  - `edgeCount` equals the total length of the adjacency lists.
- **The validator** (`data.c`), module `Validator`. It returns 0 for a
  well-formed file, otherwise the 1-based number of the first line that
  breaks a rule. The input is the file's lines without their newline. The C
  library's field scanner is a parameter (`Scanner`): the model fixes what a
  scan result means, not how the text is tokenised. A value read with `%lf`
  is a real number or NaN (`Double`), so the IEEE rule that every comparison
  with NaN is false is modelled.
- **Dijkstra's algorithm** (`citydata.c`), modules `ShortestPath` and
  `CityData`.
  - `ShortestPath.Dijkstra` restates the C loop as a function, round by
    round. The "not reached" value `DBL_MAX` becomes the sentinel `Inf`.
  - `ShortestPath.DijkstraCorrect` proves the result is a shortest-path
    length, given unique ids and non-negative road lengths.
  - `CityData.Dijkstra` is the imperative version over the two arrays, and is
    proved equal to the function.
- **The loader and the name queries** (`citydata.c`), module `CityData`:
  - `loadFileGraph` validates the file, then builds the graph from the POI
    lines and the road lines; `Build` is the graph a file describes.
  - `findNodeByName` returns the first POI node with a given name.
  - `findDiameter` searches pairs of POIs row by row.
  - `roadDistance` reports "not found", "no path" or a distance.

The great-circle distance used by `findDiameter` is a function parameter
(`Haversine`); its floating-point formula is not modelled. Printing is
replaced by return values.

Where the documentation and the code disagree, the model follows the code:

- Dijkstra's greedy choice assumes non-negative road lengths, but the
  validator and the loader never range-check the distance column, so a
  negative length can reach the graph. For that reason `ShortestPath.DijkstraCorrect` and
  `CityData.RoadDistanceCorrect` take non-negative weights as a hypothesis.
  Without it, `roadDistance` reports "no path" for a route whose computed
  length is negative.
- NaN coordinates pass the validator's range checks, because every comparison
  with NaN is false. They are loaded as they are.

## Model

| member | source | states |
|---|---|---|
| GraphStore.IndexOf | coms3270p1-master/graph.c:10-20 | the slot found holds the id and no earlier slot does; None means no slot holds it |
| GraphStore.Graph.FindNode | coms3270p1-master/graph.c:10-20 | the loop over the slots returns exactly the first slot whose node has the id, or None |
| GraphStore.AddNodeSpec | coms3270p1-master/graph.c:75-110 | definition: an id already present changes nothing; a new id is appended with the payload and no edges |
| GraphStore.AddEdgeSpec | coms3270p1-master/graph.c:145-174 | definition: when both ends exist and the pair has no edge, the new edge goes at the head of the source's list; otherwise nothing changes |
| GraphStore.RemoveEdgeSpec | coms3270p1-master/graph.c:253-286 | definition: the first edge from the source to the destination is cut out of the list; otherwise nothing changes |
| GraphStore.RemoveNodeSpec | coms3270p1-master/graph.c:179-248 | definition: the node's slot is removed, the later slots keep their order, and every edge into the id is dropped; an absent id changes nothing |
| GraphStore.Graph.constructor | coms3270p1-master/graph.c:25-42 | a new graph is valid, empty, has 100 slots of space and no edges |
| GraphStore.Graph.AddNode | coms3270p1-master/graph.c:75-110 | adds the node at the end exactly when the id is new; doubles the space exactly when the array was full; keeps the store invariant and the edge count |
| GraphStore.Graph.Grow | coms3270p1-master/graph.c:85-94 | doubles the space into a fresh array, keeps every node in its slot and leaves room for one more |
| GraphStore.AddNodePreserves | coms3270p1-master/graph.c:75-110 | adding a node keeps ids unique, edges closed and single per pair, and keeps the edge total |
| GraphStore.AddNodeEffect | coms3270p1-master/graph.c:75-110 | afterwards the id is found; every id found before keeps its slot and node; a new id finds a node with the given payload and no edges |
| GraphStore.AddNodeFirstWins | coms3270p1-master/graph.c:79-82 | adding an id that is taken changes nothing, so the first payload for an id wins |
| GraphStore.Graph.GetNode | coms3270p1-master/graph.c:115-117 | returns the node of the first slot with the id, or None exactly when no node has it |
| GraphStore.EdgeIndex | coms3270p1-master/graph.c:129-138 | the position found is the first edge of the list leading to the id; None means no edge leads there |
| GraphStore.FindEdge | coms3270p1-master/graph.c:122-139 | definition: the getEdge lookup: None when no node has fromId; otherwise the first edge of that node's list leading to toId, or None |
| GraphStore.Graph.GetEdge | coms3270p1-master/graph.c:122-139 | returns the first edge from the node with fromId that leads to toId, or None when there is no such node or edge |
| GraphStore.Graph.AddEdge | coms3270p1-master/graph.c:145-174 | prepends the edge exactly when both ends exist and the pair has no edge yet; edgeCount goes up by one exactly then; the store invariant holds afterwards |
| GraphStore.AddEdgePreserves | coms3270p1-master/graph.c:145-174 | adding an edge keeps the store invariant and adds one to the edge total exactly when it adds an edge |
| GraphStore.AddEdgeEffect | coms3270p1-master/graph.c:145-174 | every id keeps its slot and payload; getEdge for the pair finds the edge it found before, or else, when both ends exist, the new edge |
| GraphStore.AddEdgeTwice | coms3270p1-master/graph.c:154-156 | adding the same ordered pair a second time changes nothing |
| GraphStore.Graph.RemoveEdge | coms3270p1-master/graph.c:253-286 | unlinks the first edge from fromId to toId exactly when getEdge finds one; edgeCount drops by one exactly then; the invariant holds afterwards |
| GraphStore.Graph.LocateEdge | coms3270p1-master/graph.c:267-284 | the walk along the list stops at exactly the first edge leading to toId, or reports that none does |
| GraphStore.RemoveEdgePreserves | coms3270p1-master/graph.c:253-286 | removing an edge keeps the store invariant and removes one from the edge total exactly when it removes an edge |
| GraphStore.RemoveEdgeUndoesAddEdge | coms3270p1-master/graph.c:253-286 | removing the edge just added restores the graph |
| GraphStore.Graph.RemoveNode | coms3270p1-master/graph.c:179-248 | removes the node exactly when its id is present; drops its own edges and every edge into it; closes the gap in slot order; edgeCount falls by the edges dropped |
| GraphStore.Graph.FreeOutgoing | coms3270p1-master/graph.c:199-207 | empties the node's own list and takes its length off edgeCount |
| GraphStore.DropEdgesTo | coms3270p1-master/graph.c:215-236 | keeps, in order, exactly the edges not leading to the id, and counts the ones dropped |
| GraphStore.KeepEdges | coms3270p1-master/graph.c:215-236 | the kept edges are edges of the list that do not lead to the id; every such edge is kept; kept plus dropped is the list length |
| GraphStore.Graph.UnlinkIncoming | coms3270p1-master/graph.c:209-237 | every other node loses its edges into the removed node; edgeCount falls by their number |
| GraphStore.Graph.StripSlot | coms3270p1-master/graph.c:215-236 | one other node loses exactly its edges into the removed node; every other slot is untouched and edgeCount still counts all edges |
| GraphStore.Graph.CloseGap | coms3270p1-master/graph.c:241-245 | shifts the later slots down by one and shortens the node sequence by the removed slot |
| GraphStore.RemoveNodePreserves | coms3270p1-master/graph.c:179-248 | removing a node keeps ids unique, edges closed and single per pair |
| GraphStore.RemoveNodeClosed | coms3270p1-master/graph.c:209-245 | after the node is removed and every edge into it unlinked, every remaining edge still leads to a node of the graph |
| GraphStore.RemoveNodePhases | coms3270p1-master/graph.c:199-245 | the three phases of removeNode give the removal spec, keep the invariant, and lower the edge total by the node's own edges and the edges into it |
| GraphStore.RemoveNodeUndoesAddNode | coms3270p1-master/graph.c:179-248 | removing a node just added restores the graph, since no edge can lead to a new id |
| GraphStore.IndexOfUnique | coms3270p1-master/graph.c:10-20 | with unique ids, looking up the id of the node in slot i finds slot i |
| Validator.IsAllDigits | coms3270p1-master/data.c:15-25 | true exactly for a non-empty string of decimal digits |
| Validator.PoiLineFails | coms3270p1-master/data.c:54-79 | definition: a POI line fails when it is blank, scans fewer than four fields, has an id that is not all digits, has an empty name, or has a coordinate out of range |
| Validator.NaNCoordinateStillValid | coms3270p1-master/data.c:74-79 | a file with no failing line still has none after one POI line is replaced by a non-blank line with the same id and name and coordinates that are each NaN or unchanged, since NaN passes both range checks |
| Validator.RoadLineFails | coms3270p1-master/data.c:104-133 | definition: a road line fails when it is blank, scans fewer than six fields, has a from or to id that is not all digits, or has an empty name |
| Validator.LineFails | coms3270p1-master/data.c:27-138 | definition: the rule line L breaks by its place in the layout: a positive count on lines 1 and n+2, a POI on lines 2..n+1, a road on lines n+3..n+m+2; a line the layout needs but the file lacks fails; lines past the layout never fail |
| Validator.Validate | coms3270p1-master/data.c:27-138 | 0 exactly when no line fails; otherwise the number of a line that fails with no earlier line failing; never more than one past the last line |
| Validator.AcceptedIffNoLineFails | coms3270p1-master/data.h:4-15 | the section-by-section description of a valid file and "no line fails" agree |
| Validator.LineFailsLocal | coms3270p1-master/data.c:27-138 | whether line L fails depends only on lines 1 to L |
| Validator.FirstFailureOfPrefix | coms3270p1-master/data.c:27-138 | two files that agree up to the first failing line report the same line |
| Validator.AcceptedIgnoresTrailingLines | coms3270p1-master/data.c:136-137 | lines after the last road are never read, so appending them keeps a valid file valid |
| ShortestPath.Dijkstra | coms3270p1-master/citydata.c:376-481 | definition: None for an empty graph or a missing start or end id; otherwise the end slot's distance after the main loop from the start slot at 0, None when it is still the sentinel |
| ShortestPath.Run | coms3270p1-master/citydata.c:427-467 | definition: up to n rounds; each selects the least unvisited finite slot, stops when there is none or it is the destination, otherwise marks it visited and relaxes its edges; the result has one distance per slot |
| ShortestPath.RelaxEdges | coms3270p1-master/citydata.c:448-466 | definition: relaxes the node's edge list head first; the result has one distance per slot |
| ShortestPath.RelaxOne | coms3270p1-master/citydata.c:449-464 | definition: one edge lowers its destination's distance to the node's distance plus the weight when that slot is unvisited and the sum is strictly smaller; an edge to an unknown id changes nothing |
| ShortestPath.MinUpTo | coms3270p1-master/citydata.c:428-436 | the selection scan picks an unvisited slot of least finite distance, the first such; None means every unvisited slot is at the sentinel |
| ShortestPath.RelaxEffect | coms3270p1-master/citydata.c:448-466 | relaxing leaves visited slots alone; no distance grows; a changed distance is the node's distance plus some edge into that slot; every edge into an unvisited slot ends up relaxed |
| ShortestPath.PathWeightNonNeg | coms3270p1-master/citydata.c:459 | with non-negative road lengths every path weighs at least 0 |
| ShortestPath.SelectSettles | coms3270p1-master/citydata.c:431-440 | the slot the scan selects already holds its shortest distance |
| ShortestPath.NoCandidateUnreachable | coms3270p1-master/citydata.c:438 | when the scan finds nothing before the destination is visited, the destination is unreachable |
| ShortestPath.RoundPreserves | coms3270p1-master/citydata.c:427-467 | one round keeps the loop invariant: finite distances are path weights, visited slots are settled, their edges are relaxed |
| ShortestPath.RunCorrect | coms3270p1-master/citydata.c:427-467 | from any state satisfying the invariant, the main loop leaves the destination at the sentinel exactly when it is unreachable, and otherwise at its shortest distance |
| ShortestPath.DijkstraCorrect | coms3270p1-master/citydata.c:376-481 | with unique ids and non-negative lengths, a result means both ids exist; when they do, a result exists exactly when the destination is reachable, and it is the shortest path length |
| ShortestPath.DijkstraSelf | coms3270p1-master/citydata.c:411-418 | from a node to itself the result is 0, whatever the lengths |
| ShortestPath.OneWayRoad | coms3270p1-master/citydata.c:448-466 | roads are one-way: a single road from 2 to 1 gives a route from 2 to 1 of its length and none from 1 to 2 |
| CityData.Dijkstra | coms3270p1-master/citydata.c:376-481 | the imperative algorithm over the store returns -1 where the functional model gives no result, and otherwise its distance |
| CityData.RunRounds | coms3270p1-master/citydata.c:427-467 | the main loop leaves the distance array as the functional main loop computes it |
| CityData.Round | coms3270p1-master/citydata.c:428-466 | one round either stops the loop, as the functional model stops, or moves it to the functional model's next state with one more visited slot |
| CityData.SelectMin | coms3270p1-master/citydata.c:428-436 | the scan's index is the functional selection, or -1 exactly when it selects nothing |
| CityData.Relax | coms3270p1-master/citydata.c:448-466 | the relaxation loop leaves the distances as the functional relaxation of the node's edge list |
| CityData.LeadingDigits | coms3270p1-master/citydata.c:161 | the prefix atoi reads is all digits, and it is the whole string when the string is all digits |
| CityData.Atoi | coms3270p1-master/citydata.c:195-196 | definition: the value of the leading decimal digits of the id field, as atoi reads it for the ids the validator accepts |
| CityData.PoiStep | coms3270p1-master/citydata.c:145-165 | definition: a line that does not scan is skipped; otherwise addNode with the atoi id and a named payload, which changes nothing when the id is taken |
| CityData.AddPois | coms3270p1-master/citydata.c:137-166 | definition: the POI lines applied first to last |
| CityData.RoadStep | coms3270p1-master/citydata.c:187-216 | definition: a line that does not scan is skipped; otherwise a missing source becomes a nameless intersection, a missing destination a node without payload, and addEdge gets the length with NaN read as 0 |
| CityData.AddRoads | coms3270p1-master/citydata.c:179-217 | definition: the road lines applied first to last |
| CityData.Build | coms3270p1-master/citydata.c:134-217 | definition: the graph a valid file describes: its POI lines, then its road lines, into an empty graph |
| CityData.LoadFileGraph | coms3270p1-master/citydata.c:72-222 | no graph plus the first failing line for an invalid file; otherwise a valid, fresh graph equal to the one the file describes |
| CityData.LoadPois | coms3270p1-master/citydata.c:136-166 | the POI loop adds the POI lines in file order |
| CityData.LoadPoiLine | coms3270p1-master/citydata.c:145-165 | one POI line adds a named node unless it does not scan or its id is taken |
| CityData.LoadRoads | coms3270p1-master/citydata.c:178-217 | the road loop adds the road lines in file order |
| CityData.LoadRoadLine | coms3270p1-master/citydata.c:187-216 | one road line reads NaN as 0, creates missing endpoints, then adds the edge |
| CityData.PoisAbsent | coms3270p1-master/citydata.c:137-166 | POI lines none of which has id x add no node with id x |
| CityData.PoiFirstWins | coms3270p1-master/citydata.c:157-165 | the first POI line with an id decides that node's name and coordinates; later lines with the same id are dropped |
| CityData.RoadStepEffect | coms3270p1-master/citydata.c:191-216 | after a road line both endpoints exist; existing nodes keep slot and payload; a new source is a nameless intersection at the line's coordinates; a new destination has no payload; the pair's edge is the old one, or else a new one with the line's length (NaN as 0) and name |
| CityData.FirstNamed | coms3270p1-master/citydata.c:263-278 | the slot found holds a POI with the name and no earlier slot does; None means no POI has it |
| CityData.FindNodeByName | coms3270p1-master/citydata.c:263-278 | returns the node of the first POI slot with the name, or None exactly when there is none |
| CityData.FindDiameter | coms3270p1-master/citydata.c:300-346 | over all pairs of POIs: None with maximum 0 when no pair is more than 0 apart; otherwise the first pair, in row order, at the largest distance, which is positive |
| CityData.ScanRow | coms3270p1-master/citydata.c:326-338 | the inner loop extends the search result over row i |
| CityData.PairKept | coms3270p1-master/citydata.c:333-337 | a POI pair strictly farther apart than the best so far becomes the result |
| CityData.PairPassed | coms3270p1-master/citydata.c:327-333 | a pair that is not two POIs, or not strictly farther apart, leaves the result alone |
| CityData.RoadDistanceSpec | coms3270p1-master/citydata.c:486-508 | definition: not found when either name has no POI; otherwise dijkstra between the two nodes' ids, reported as no path when it gives no result or a negative one, and as the distance otherwise |
| CityData.RoadDistance | coms3270p1-master/citydata.c:486-508 | reports what RoadDistanceSpec gives: not found, no path for a negative result, or the distance |
| CityData.RoadDistanceCorrect | coms3270p1-master/citydata.c:486-508 | with unique ids and non-negative lengths: not found exactly when a name is missing; otherwise no path exactly when the second place is unreachable from the first, and a reported distance is a shortest route |

## Left out

- Allocation failures are not modelled: `malloc`, `calloc`, `realloc` and `strdup` always succeed. The NULL-graph guards are not modelled either, since a `Graph` reference is never null.
- `freeGraph`, `freeGraphWithData` and the `free` calls are not modelled, because Dafny has no explicit deallocation. Nor is clearing the last slot in `removeNode`, which only matters for freed memory.
- Edges are modelled as sequences, not as linked lists with `next` pointers. Unlinking is modelled as rebuilding the list in the same order.
- An edge names its destination by id. The C code compares node pointers in `removeNode` and `dijkstra`; with unique ids the two agree.
- The line reader is not modelled. This covers `fgets` splitting lines longer than 1023 bytes, embedded NUL bytes, and reading the file a second time with `fseek`. The model takes the file as a sequence of lines without newlines.
- `sscanf` tokenising is not modelled. This covers whitespace rules, `%d` overflow and `%lf` infinities. The scans are the `Scanner` parameter.
- In the reload, the end-of-file branches (`citydata.c` lines 127-132, 138-143, 169-174 and 180-185) are not modelled, because a file that passed validation never reaches them. The failed-scan `continue` (lines 146 and 188) is modelled by `PoiStep` and `RoadStep`, which skip the line, though a validated file never takes it either.
- `atoi` is modelled only for the strings the validator accepts: leading digits, no sign, no whitespace, no overflow.
- Floating-point arithmetic is modelled with exact reals. This covers the `(float)` cast of a road length in `addEdge`, rounding in the sum `distances[minIdx] + edge->weight`, and a distance exactly equal to `DBL_MAX`.
- `calculateDistance` is not modelled, because it is floating-point trigonometry. `findDiameter` takes it as the parameter `Haversine`.
- `findLocation` (the location query), `distanceBetween` (the straight-line distance query, which prints `calculateDistance` of two named places), `printGraph`, `printUsage` and `main` print results or parse the command line. They are not part of this model.
- `mapper.c` and `testgraph.c` are not part of this model.
- Printing is replaced by return values: `FindDiameter` returns the pair and the distance, and `RoadDistance` returns a `RoadResult`.
- ShortestPath.DijkstraCorrect: assumes non-negative road lengths, because the loader does not range-check them.
- CityData.RoadDistanceCorrect: assumes non-negative road lengths, for the same reason.
