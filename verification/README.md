# FCA4J in Dafny

A verified model of the native core of FCA4J, a tool for Formal Concept Analysis. A *context* is
a table of objects and attributes; everything here is computed from its two derivation operators.
Five families of algorithms are modelled, each in the form it has in the source: classes with
mutable fields, loops and recursion, proved against specifications on values.

1. **LinCbO**, the canonical (Duquenne-Guigues) basis of implications. `LinCboReference` is the
   recursive search and the proof that it lists one implication per pseudo-intent; `LinCboEngine`
   is the iterative engine with counters inherited from node to node and the pruning modes NONE,
   LIFO and LCM (`Pruning`), proved to produce the same list.
2. **The concept lattice**, built in two ways that meet one predicate, `IsConceptLattice`: by
   inserting columns into a diagram (`ConceptOrders`, `Diagram`, `Lattice`), and by parallel
   Close-by-One. The latter is a state machine over all interleavings of the workers (`JobQueue`),
   the code of the workers that refines it (`Enumeration`), and what is built from what they
   recorded (`LowerCovers`, `ExtentMap`, `LatticeCbo`).
3. **The D-basis**: minimal generators as minimal transversals (`Transversals`, `Generators`),
   minimal covers (`MinimalCovers`), the binary part (`Graphs`, `DBasis`), cycles by Tarjan's
   algorithm (`Tarjan`, `Reachability`), the reduction to the E-basis (`EBasis`), clarification
   and back (`Clarification`, `Equivalences`, `DBasisResult`), and when one sweep through the
   result is enough (`Sweeps`, `OneSweep`, `DirectnessFails`).
4. **The AOC-poset**, by four algorithms proved against one predicate, `IsAocPoset`: Hermes
   (`Grouping`, `HasseScan`, `Hermes`), Ares (`DynOrders`, `LiveDiagram`, `AresTheory`,
   `AresStep`, `AresMoves`, `AresPhases`, `Ares`, `AresResults`), Pluton (`MaxMod`, `TomThumb`,
   `Pluton`, `FullSets`) and Ceres (`CeresSearch`, `CeresTheory`, `CeresObjects`, `CeresBlocks`,
   `Ceres`, `CeresResults`). `AocPoset` shows that any two posets meeting it are the same, and
   that it is what the repository's own audit checks.
5. **The derivation loops** under all of them (`FormalContext`, `Derivation`).

Where a property holds under a condition only, the contract states it as an equivalence; see
"Findings".

`dafny verify dfyconfig.toml` checks the whole project.

## Model

| member | source | states |
|---|---|---|
| LinCboReference.SearchIsCanonicalBasis | fca4j-core-natif/src/main/native/algo/lincbo.c:92-120 | For every context the recursive search lists exactly one implication p → p″ with the extent of p for every pseudo-intent p, and nothing else. |
| LinCboReference.SearchIsSmallestBasis | fca4j-core-natif/src/main/native/algo/lincbo.c:92-120 | What the search returns holds in the context and implies everything that holds in it; dropping any one implication loses completeness, and no sound and complete list is shorter. |
| LinCboReference.SearchIsInOrder | fca4j-core-natif/src/main/native/algo/lincbo.c:92-120 | The premises come in lectic order: of two, the later one holds the smallest attribute in which they differ. |
| LinCboReference.SearchIsOnlyOne | fca4j-core-natif/src/main/native/algo/lincbo.c:92-120 | No other list has the canonical implications in lectic order: any that does equals what the search returns, element by element. |
| LinCboEngine.Engine.RunRecursive | fca4j-core-natif/src/main/native/algo/lincbo.c:122-128 | The recursive method, called for the empty set, ends with that list. |
| LinCboEngine.Engine.Run | fca4j-core-natif/src/main/native/algo/lincbo_pruning.c:464-628 | The iterative engine with its explicit stack, inherited counters and any of the three pruning modes ends with the very list of the recursive search: the canonical basis, its premises in lectic order. |
| LinCboEngine.Engine.StepRecursive | fca4j-core-natif/src/main/native/algo/lincbo.c:92-120 | The recursive method, with its counters and default conclusion, extends the list exactly as the specification function does, and every premise it lists agrees with B below y. |
| LinCboEngine.Engine.LinClosureRC | fca4j-core-natif/src/main/native/algo/lincbo_pruning.c:379-449 | Success: the result is the least superset of B respecting all implications listed so far, it adds nothing below y, and the counters fit it. Failure: the reported attribute lies below y, in that closure and outside B. |
| LinCboEngine.Propagate | fca4j-core-natif/src/main/native/algo/lincbo_pruning.c:405-440 | One turn of the closure loop: taking an attribute off the work set keeps everything reached inside the closure, keeps the counters right and every fired implication settled; an early exit names an attribute that blocks the node. |
| LinCboEngine.Engine.AddImplication | fca4j-core-natif/src/main/native/algo/lincbo_pruning.c:195-229 | Appends one implication and keeps the inverted index, the counter template and the default conclusion consistent with the list. |
| LinCboEngine.EqualsUntil | fca4j-core-natif/src/main/native/algo/lincbo.c:37-47 | The walk over both sets in step decides whether they agree on all attributes up to and including y. |
| LinCboEngine.Engine.RealClosure | fca4j-core-natif/src/main/native/algo/lincbo_pruning.c:365-371 | The extent of the set and its closure in the context, the closure containing the set. |
| LinCboEngine.Engine.PruningAfterChild | fca4j-core-natif/src/main/native/algo/lincbo_pruning.c:271-281 | After a child that failed because of an attribute, recording the rule keeps the pruning invariant of the mode: every recorded rule is forced by the implications listed so far and belongs to one frame. |
| LinCboEngine.Engine.PruningShouldSkip | fca4j-core-natif/src/main/native/algo/lincbo_pruning.c:284-296 | A child is skipped only if the closure of its set would have been cut at once, so skipping changes nothing in the list. |
| LinCboEngine.Engine.PruningUnwind | fca4j-core-natif/src/main/native/algo/lincbo_pruning.c:259-268 | The rules of the frame that ends go away with it and the invariant holds of the frames below. |
| LinCboEngine.Engine.LifoUnwindTo | fca4j-core-natif/src/main/native/algo/lincbo_pruning.c:259-268 | Back to the snapshot: exactly the rules recorded since are cleared, all others are untouched. |
| LinCboEngine.Engine.LcmPruningDel | fca4j-core-natif/src/main/native/algo/lincbo_pruning.c:237-245 | Pops exactly the rules on top of the frame whose data is not below the attribute; what stays on top is below it, and only the popped entries are cleared. |
| LinCboEngine.Engine.LcmPruningSet | fca4j-core-natif/src/main/native/algo/lincbo_pruning.c:246-257 | Insertion at the place that keeps the rules of the frame sorted: those below the place add no more, those above add more, and the order of all others is kept. |
| Pruning.LifoSkipIsCut | fca4j-core-natif/src/main/native/algo/lincbo_pruning.c:284-290 | A stored LIFO rule for i whose attribute the child lacks means that the child's closure adds an attribute below i. |
| Pruning.LcmSkipIsCut | fca4j-core-natif/src/main/native/algo/lincbo_pruning.c:290-296 | The same for the sorted rules of LCM: looking at the top rule only is enough. |
| Derivation.ComputeExtent | fca4j-core-natif/src/main/native/core/closure.c:3-19 | Either loop, by columns or by rows, computes the objects that have all the attributes. |
| Derivation.ComputeIntent | fca4j-core-natif/src/main/native/core/closure.c:21-38 | Either loop, by rows or by columns, computes the attributes common to all the objects. |
| Derivation.Close | fca4j-core-natif/src/main/native/core/closure.c:40-46 | The result is the closure: the intent of the extent. |
| Derivation.DenseComputeIntent | fca4j-core-natif/src/main/native/algo/lincbo_pruning.c:340-363 | Intersecting rows with an early stop still gives exactly the common attributes; without objects, all of them. |
| ConceptOrders.ConceptOrder.GetSmallestContaining | fca4j-core-natif/src/main/native/algo/addextent.c:66-85 | Going down greedily from any concept above the extent ends at one that contains it and has no child containing it: in a lattice, the smallest one. |
| ConceptOrders.ConceptOrder.AddExtent | fca4j-core-natif/src/main/native/algo/addextent.c:94-158 | Inserting an extent into a lattice diagram gives a lattice diagram: the family grows by exactly the intersections of old extents with the new one, edges are the covers again, old numbers, extents and labels stay. |
| Lattice.BuildLattice | fca4j-core-natif/src/main/native/algo/addextent.c:165-194 | Inserting all columns builds exactly the concept lattice: each closed set of objects once, the edges the covers, and every attribute labels the concept of its column. |
| Lattice.BuildLabelledLattice | fca4j-core-natif/src/main/native/algo/addextent.c:165-194 | The lattice with reduced extents and complete intents: each intent is the intent of the extent, and reduced extents are what no child has. |
| Lattice.ComputeReducedExtents | fca4j-core-natif/src/main/native/core/conceptorder.c:121-137 | Every concept gets exactly the objects of its extent that no child has. |
| Lattice.ComputeIntents | fca4j-core-natif/src/main/native/core/conceptorder.c:148-182 | The breadth-first pass with parent counters reaches every concept after all its parents, and each ends with exactly the labels of the concepts above it. |
| Lattice.ObjectConceptExists | fca4j-core-natif/src/main/native/core/conceptorder.c:121-137 | Each object is in the reduced extent of exactly one concept, the one whose extent is o″. |
| JobQueue.StepInv | fca4j-core-natif/src/main/native/algo/latticecbo.c:897-1069 | Every step of every worker keeps the invariant: conservation (each closed set is recorded, or still to come from exactly one frame or queued job), the busy count, and no sleeper forgotten. |
| JobQueue.EachClosedSetOnce | fca4j-core-natif/src/main/native/algo/latticecbo.c:984-1069 | Whatever the interleaving, publishing choices and spurious wake-ups: when all workers have left, each closed set below the top has been recorded exactly once, with its intent, and nothing else has. |
| JobQueue.NeverStuck | fca4j-core-natif/src/main/native/algo/latticecbo.c:928-952 | In every reachable state before all workers have left, some worker can take a step other than a spurious wake-up: no deadlock and no lost wake-up. |
| JobQueue.EveryRunEnds | fca4j-core-natif/src/main/native/algo/latticecbo.c:928-1069 | A run has at most Budget(context, workers) steps plus two for each spurious wake-up, and where it cannot go on all workers have left. |
| Enumeration.SharedQueue.Push | fca4j-core-natif/src/main/native/algo/latticecbo.c:913-925 | The critical section is the Publish step of the state machine. |
| Enumeration.SharedQueue.Pop | fca4j-core-natif/src/main/native/algo/latticecbo.c:928-945 | The critical section is a Take, Sleep or Finish step, and the outcome says which; a taken job is what the worker goes on with. |
| Enumeration.SharedQueue.JobDone | fca4j-core-natif/src/main/native/algo/latticecbo.c:947-952 | The critical section is the Done step; everybody is woken exactly when nothing is left to do. |
| Enumeration.EnumJob | fca4j-core-natif/src/main/native/algo/latticecbo.c:984-1033 | The recursion accounts for each closed set below its node once, recorded or published, and its whole run is a sequence of Try, Publish, Descend and Return moves of one worker. |
| Enumeration.MoveIsStep | fca4j-core-natif/src/main/native/algo/latticecbo.c:984-1033 | Each such move is an enabled step of the shared state machine, whatever the other workers do, and changes the worker and the queue as the move says. |
| CloseByOne.TryAttribute | fca4j-core-natif/src/main/native/algo/latticecbo.c:984-1033 | The word-wise canonicity test and the inherited intent give exactly the Close-by-One child: none if the attribute is in the intent or the new extent adds one below it. |
| CloseByOne.RegionSplits | fca4j-core-natif/src/main/native/algo/latticecbo.c:984-1033 | What is to be found from attribute i on is, without overlap, the child, what is below the child, and what is to be found from i + 1 on. |
| ExtentMap.WMap.Put | fca4j-core-natif/src/main/native/algo/latticecbo.c:169-206 | The table is the finite map it stands for, updated at the key, for any hash function. |
| ExtentMap.WMap.Get | fca4j-core-natif/src/main/native/algo/latticecbo.c:169-206 | The number stored for the extent, or -1 if there is none, for any hash function. |
| LowerCovers.ComputeIrreducibles | fca4j-core-natif/src/main/native/algo/latticecbo.c:231-259 | Exactly the attributes whose column is not the intersection of the strictly larger columns around it, in order. |
| LowerCovers.CountingSort | fca4j-core-natif/src/main/native/algo/latticecbo.c:474-585 | The linked buckets list every candidate once, larger cardinalities first, and the buckets are empty again afterwards. |
| LowerCovers.LowerCoversOf | fca4j-core-natif/src/main/native/algo/latticecbo.c:474-585 | Only intersecting with irreducible columns and only comparing with confirmed larger candidates still yields exactly the lower covers, each once. |
| LatticeCbo.RunIsComplete | fca4j-core-natif/src/main/native/algo/latticecbo.c:1046-1069 | The vectors at the end of any run hold exactly the concepts below the top. |
| LatticeCbo.BuildLatticeCbo | fca4j-core-natif/src/main/native/algo/latticecbo.c:1320-1619 | From the vectors of any run and for any hash: the same concept-lattice predicate that the ADD_EXTENT builder meets, complete intents, attribute labels, and every object once, with its object concept; the lists of children and of labels hold nothing twice. |
| LatticeCbo.ComputeReducedPairs | fca4j-core-natif/src/main/native/algo/latticecbo.c:1091-1119 | The pairs are the concepts with the objects of their reduced extents. |
| Transversals.GenState.GenerateCovers | fca4j-core-natif/src/main/native/algo/dbasis.c:104-130 | The backtracking search with hit counters returns exactly the minimal transversals of the edges, and leaves the state as it found it. |
| Transversals.GenState.IsAlreadyCovered | fca4j-core-natif/src/main/native/algo/dbasis.c:77-87 | The counters decide exactly whether some chosen attribute has no edge of its own left. |
| Transversals.GenState.RemoveAttr | fca4j-core-natif/src/main/native/algo/dbasis.c:89-101 | Undoes the choice of the last attribute, counters included. |
| Generators.BuildHypergraph | fca4j-core-natif/src/main/native/algo/dbasis.c:134-241 | Exactly one edge for each object that lacks the target: the allowed attributes it lacks, never empty; an object that lacks none of them is reported as the case without generators. |
| Generators.MinimalTransversalGenerates | fca4j-core-natif/src/main/native/algo/dbasis.c:134-241 | The minimal transversals of the hypergraph are exactly the minimal generators of the target. |
| Generators.ComputeMinimalGenerators | fca4j-core-natif/src/main/native/algo/dbasis.c:134-241 | Exactly the minimal sets, without the binary premises, that imply the target, each once; the empty result for a target of all objects. |
| MinimalCovers.ComputeMinimalCovers | fca4j-core-natif/src/main/native/algo/dbasis.c:245-276 | Keeps exactly the generators that no other one refines, and each one dropped is refined by one that is kept. |
| MinimalCovers.ComputeMinimalCoversOfAll | fca4j-core/src/main/java/fr/lirmm/fca4j/algo/DBaseV24.java:382-411 | The all-against-all filter keeps exactly the same generators. |
| DBasis.ComputeBinaryBasis | fca4j-core-natif/src/main/native/algo/dbasis.c:472-527 | The reduced graph in topological order lists the attribute of all objects and every cover, each exactly once, and no implication concludes what the premise of an earlier one holds. |
| DBasis.ComputeNonBinaryRules | fca4j-core-natif/src/main/native/algo/dbasis.c:280-302 | The rules of one target: each is a minimal cover with more than one attribute, and each such cover has exactly one rule. |
| DBasis.CoverExists | fca4j-core-natif/src/main/native/algo/dbasis.c:444-612 | Whatever a set closed under binary implications implies beyond itself follows from a minimal cover inside the set. |
| DBasis.DBasisIsDirect | fca4j-core-natif/src/main/native/algo/dbasis.c:444-612 | One sweep through binary part and all minimal covers, in any order of the latter, reaches every closure. |
| EBasis.BuildEBasis | fca4j-core-natif/src/main/native/algo/dbasis.c:306-381 | With a cycle the rules are returned as they are; otherwise, conclusion by conclusion, exactly those that no other rule of the conclusion beats; each place of the list is taken at most once, so a list without repetitions stays one. |
| EBasis.EBasisIsComplete | fca4j-core-natif/src/main/native/algo/dbasis.c:306-381 | Without cycles the rules with the smallest closures still imply everything. |
| EBasis.DirectIffInTime | fca4j-core-natif/src/main/native/algo/dbasis.c:306-381 | Binary part and surviving rules form an ordered-direct list if and only if every dropped cover has a replacement that is ready in time. |
| Equivalences.AfterEquivalences | fca4j-core-natif/src/main/native/algo/dbasis.c:444-470 | What one sweep through the equivalences adds to a class: its first attribute, and what follows one that is there. |
| Clarification.ClarifyContext | fca4j-core-natif/src/main/native/core/clarification.c:3-51 | The classes are those of equal columns, numbered by their first attribute, and the clarified context has their columns in that order, with no two equal. |
| DBasisResult.Convert | fca4j-core-natif/src/main/native/core/clarification.c:60-72 | A set of classes written with their first attributes. |
| DBasisResult.ComputeDBasis | fca4j-core-natif/src/main/native/algo/dbasis.c:444-612 | The basis is sound and complete for every context, lists no implication twice, gives each the objects of its premise as support, and one sweep through it reaches every closure if and only if OneSweepIsEnough(ctx), a condition on the context alone. |
| DBasisResult.EachOnce | fca4j-core-natif/src/main/native/algo/dbasis.c:444-612 | Equivalences and what is written back with first members have nothing in common, and every support is the extent of the premise. |
| DirectnessFails.OneSweepIsNotEnough | fca4j-core/src/main/java/fr/lirmm/fca4j/algo/DBaseV24.java:55-58 | A context for which the condition fails. |
| DirectnessFails.BasisNeedingTwoSweeps | fca4j-core/src/main/java/fr/lirmm/fca4j/algo/DBaseV24.java:55-58 | The basis computed for that context is sound and complete, and one sweep through it misses a closure. |
| OneSweep.KeptAreSharp | fca4j-core-natif/src/main/native/algo/dbasis.c:306-381 | With a rule kept exactly for every cover with a smallest closure, the timing condition on the kept rules is a condition on the context. |
| OneSweep.ClarifiedIs | fca4j-core-natif/src/main/native/core/clarification.c:3-51 | The clarified context that the code builds is determined by the context. |
| OneSweep.PairsByClass | fca4j-core-natif/src/main/native/algo/dbasis.c:444-612 | The condition on the classes of equal attributes, stated on the context and on the classes the code computes, is the same. |
| Tarjan.TarjanState.StrongConnect | fca4j-core-natif/src/main/native/core/tarjan.c:14-44 | A call explores all that is reachable through unvisited vertices, keeps what is visited, closes every component that ends in it, and leaves the lowlink that its caller needs. |
| Tarjan.FindDCycles | fca4j-core-natif/src/main/native/core/tarjan.c:46-76 | Exactly the strongly connected components of the dependency graph with more than one vertex, each once. |
| Graphs.TransitiveReduction | fca4j-core-natif/src/main/native/core/graph.c:17-57 | In place, every vertex of a strict order keeps exactly its covers, although the graph changes while it is searched. |
| Graphs.TopologicalOrder | fca4j-core-natif/src/main/native/core/graph.c:59-92 | Every vertex once, and every edge leads forward. |
| AocPoset.CoversPassAudit | fca4j-core/src/main/java/fr/lirmm/fca4j/algo/AocAudit.java:238-305 | Edges that are the covers pass both checks of the audit: reachability is strict inclusion, and no edge is doubled by a longer path. |
| AocPoset.AuditMeansCovers | fca4j-core/src/main/java/fr/lirmm/fca4j/algo/AocAudit.java:238-305 | Conversely, whatever passes both checks has exactly the covers as edges. |
| AocPoset.PosetsAgree | fca4j-core/src/main/java/fr/lirmm/fca4j/algo/AocAudit.java:29-40 | Any two AOC-posets of a context, in whatever order, have as many concepts, the same labels on equal extents and the same edges: the cross-check with Hermes. |
| AocPoset.PosetIsLabelledOnce | README.md:15 | The concepts are those of objects and attributes: each object and each attribute labels exactly one, and none is without a label. |
| Grouping.Clarify | fca4j-core-natif/src/main/native/algo/hermes.c:119-201 | Merges exactly the sets with equal values, whatever the hash, and rewrites the other side with the numbers of the merged sets. |
| HasseScan.ScanBack | fca4j-core-natif/src/main/native/algo/hermes.c:344-435 | Looking back through a linear extension, and skipping all below a cover already found, finds exactly the lower covers, each once; the marks are clean afterwards. |
| Hermes.ComputeDomRelation | fca4j-core-natif/src/main/native/algo/hermes.c:203-216 | Each attribute class gets exactly the classes whose values contain its own. |
| Hermes.ListConcepts | fca4j-core-natif/src/main/native/algo/hermes.c:266-343 | The introduced attribute sets, each once, with the classes they introduce. |
| Hermes.ComputeHasse | fca4j-core-natif/src/main/native/algo/hermes.c:266-478 | The concepts in a linear extension, with their lower covers. |
| Hermes.BuildHermes | fca4j-core-natif/src/main/native/algo/hermes.c:487-553 | The result is the AOC-poset of the context, whatever the hash: the introduced extents once each, their labels, and the covers as edges, each once. |
| DynOrders.DynOrder.SortByExtent | fca4j-core-natif/src/main/native/core/dynorder.c:139-161 | Every living concept once, smaller extents first. |
| DynOrders.DynOrder.ReducedExtent | fca4j-core-natif/src/main/native/core/dynorder.c:163-170 | Exactly the objects that no lower cover has. |
| DynOrders.DynOrder.MaximalOf | fca4j-core-natif/src/main/native/core/dynorder.c:203-244 | Exactly the maximal ones of the list by extents, each once, found by marking along edges. |
| DynOrders.DynOrder.MaximalSelectedDescendants | fca4j-core-natif/src/main/native/core/dynorder.c:246-298 | Exactly the maximal ones among the selected concepts below c, although the search stops at the first selected concept of every path. |
| DynOrders.DynOrder.Remove | fca4j-core-natif/src/main/native/algo/ares.c:237-286 | Detaching a concept and linking each child to the parents it does not reach gives exactly the covers of the remaining family. |
| DynOrders.CoversAreAntichains | fca4j-core-natif/src/main/native/algo/ares.c:259-273 | In a reduced diagram the children of a concept are pairwise incomparable, and so are its parents: the calls of max and min that were dropped removed nothing. |
| DynOrders.DynOrder.ToFlat | fca4j-core-natif/src/main/native/core/dynorder.c:300-367 | The living concepts once each with their labels, and their edges, each once. |
| LiveDiagram.RemoveHasse | fca4j-core-natif/src/main/native/algo/ares.c:237-286 | The rewiring gives the diagram of the family without the removed concept. |
| AresTheory.IntroNext | fca4j-core-natif/src/main/native/algo/ares.c:290-350 | What introduces something with one more attribute: the new column, what introduced something and is not dropped, and the cuts of old extents by the column. |
| Ares.AresState.Visit | fca4j-core-natif/src/main/native/algo/ares.c:124-233 | One concept, in order of size: it keeps what must hold between visits, adds the concept to those done, and stops early only when the step is complete. |
| Ares.AresState.RemoveNonIntroducers | fca4j-core-natif/src/main/native/algo/ares.c:237-286 | After the visits, removing what introduces nothing any more leaves the diagram of the first a + 1 attributes. |
| Ares.AresState.Step | fca4j-core-natif/src/main/native/algo/ares.c:290-350 | From the diagram of the context with the first k attributes to that of the context with k + 1, covers and labels included. |
| AresResults.RunAres | fca4j-core-natif/src/main/native/algo/ares.c:354-401 | The result is the AOC-poset if and only if the context has an object or an attribute; no edge is listed twice. |
| Pluton.SubstituteAll | fca4j-core-natif/src/main/native/algo/pluton.c:883-892 | Every class is replaced by all its members. |
| MaxMod.PartitionOA | fca4j-core-natif/src/main/native/algo/pluton.c:419-444 | The blocks are the classes of objects with the same attributes, in the lexicographic order of the columns. |
| MaxMod.PartitionAO | fca4j-core-natif/src/main/native/algo/pluton.c:449-475 | Dually for the attributes, by the row of an object of each block, last block first. |
| TomThumb.Merge | fca4j-core-natif/src/main/native/algo/pluton.c:487-524 | The list interleaves both partitions just where the walk with two cursors puts them, and flags which blocks are extents. |
| TomThumb.AttributeFirst | fca4j-core-natif/src/main/native/algo/pluton.c:487-524 | An attribute of an object is always taken before the object. |
| TomThumb.MergedIsTopDown | fca4j-core-natif/src/main/native/algo/pluton.c:487-524 | The merged list extends the order of the concepts: whatever lies above comes first. |
| Pluton.Linext | fca4j-core-natif/src/main/native/algo/pluton.c:529-611 | Coupling neighbours that are the same concept turns the list into the concepts, each once, still in order. |
| Pluton.IsBelowMeans | fca4j-core-natif/src/main/native/algo/pluton.c:721-746 | The test on one object and one attribute of each concept decides inclusion of the extents, in all cases where one of them is missing. |
| Pluton.ComputeOrder | fca4j-core-natif/src/main/native/algo/pluton.c:752-877 | The lower covers of each concept, found by looking back through the extension. |
| Pluton.BuildPluton | fca4j-core-natif/src/main/native/algo/pluton.c:936-982 | The result is the AOC-poset of the context if and only if the context has an object, whatever the hash; each edge once. |
| FullSets.Propagate | fca4j-core-natif/src/main/native/algo/pluton.c:988-1034 | Handing labels on when all predecessors have done so gives every concept exactly the labels of the concepts around it on that side. |
| FullSets.RebuildFullSets | fca4j-core-natif/src/main/native/algo/pluton.c:988-1034 | From the reduced labels of an AOC-poset alone: exactly its extents, and exactly the intents of those extents. |
| CeresSearch.Searcher.Search | fca4j-core-natif/src/main/native/algo/ceres.c:190-248 | The search with lazily reset counters finds the upper covers of the new extent, each once, and gathers exactly the attributes of the concepts above. |
| CeresSearch.Searcher.Insert | fca4j-core-natif/src/main/native/algo/ceres.c:190-248 | A new concept below everything drawn so far gets exactly its upper covers, and the diagram is that of the larger family. |
| CeresTheory.ObjectAdded | fca4j-core-natif/src/main/native/algo/ceres.c:255-329 | The concept of an object whose attributes are covered may come next: new concepts never contain old ones, and all its objects are labelled at once. |
| CeresTheory.ColumnAdded | fca4j-core-natif/src/main/native/algo/ceres.c:356-543 | So may the concept of a largest column not covered yet, with the objects whose concept it is. |
| CeresObjects.ListObjects | fca4j-core-natif/src/main/native/algo/ceres.c:255-329 | The objects of the column that are not its own, each once, smaller rows first. |
| Ceres.CeresState.Wolp | fca4j-core-natif/src/main/native/algo/ceres.c:255-329 | After a column, all objects inside it whose attributes are covered have their concepts, and only such objects have been added. |
| Ceres.CeresState.Treat | fca4j-core-natif/src/main/native/algo/ceres.c:356-543 | One column: its concept and those of the objects it completes, and its attributes are covered from then on. |
| Ceres.CeresState.Columns | fca4j-core-natif/src/main/native/algo/ceres.c:356-543 | All columns, block by block of equal size: at the end every attribute is covered. |
| CeresBlocks.SortedTable | fca4j-core-natif/src/main/native/algo/ceres.c:335-352 | The columns by decreasing size, each once. |
| CeresBlocks.MergeBlock | fca4j-core-natif/src/main/native/algo/ceres.c:356-543 | Within a block of one size, equal columns are merged into the first of them, with all their attributes. |
| CeresResults.RunCeres | fca4j-core-natif/src/main/native/algo/ceres.c:356-543 | A result exists exactly if there are objects, and it is the AOC-poset of the context; no edge is listed twice. |

## Findings

- **The D-basis is not always ordered-direct.** `DBaseV24.java:38` and `:55-58` and the
  repository's README (line 16) promise a basis through which one pass reaches every closure.
  The D-basis itself keeps that promise (`DBasis.DBasisIsDirect`); the reduction of
  `dbasis.c:306-381`, made whenever the rules have no cycle, and the equivalences written for
  clarified attributes may break it. `DBasisResult.ComputeDBasis` proves that the returned basis
  is ordered-direct if and only if `OneSweepIsEnough(ctx)`:
  (a) the dependencies between the minimal covers of the clarified context have a cycle, or every
  minimal cover that the reduction drops has a kept one, for the same attribute, that is already
  there or derived earlier in the pass; and
  (b) attributes with equal columns come in pairs at most, and for each such pair some object has
  all other attributes and lacks the pair.
  The input on which it fails: four objects with the attributes {0}, {1}, {0, 3} and {1, 2, 3};
  there `DirectnessFails.BasisNeedingTwoSweeps` computes the basis and shows that one pass through
  it misses a closure. The basis is sound and complete in every case.
- **Ares on the empty table.** Without objects and attributes Ares returns its initial top, which
  introduces nothing; `AresResults.RunAres` states the equivalence.
- **Contexts without objects.** Ceres returns no result (`CeresResults.RunCeres`). Pluton reads
  the row of the first object of an empty block when there are attributes but no objects
  (`pluton.c:455-457`), so `Pluton.BuildPluton` asks for an object or for no attributes.
- **C and Java differ on one list of generators.** For a target that all objects have,
  `compute_minimal_generators` returns nothing where the Java version returns the empty set. The
  basis is the same: such attributes are handled by the binary part.

## Left out

- Pluton.BuildPluton: for a context with attributes and no objects nothing is stated, because the C code then reads outside its table.
- AresResults.RunAres: resuming from an earlier poset, and the variants that keep object or attribute concepts only (`has_all_a`, `has_all_o`), are not modelled; both flags are constantly true in the C entry point.
- DBasisResult.ComputeDBasis: a minimum support above its default of zero, which drops rules with smaller extents before the reduction (`dbasis.c:588`), is not modelled; nor are the threads, which only share out the targets.
- Hermes.BuildHermes: the propagation of complete sets for JSON output is not modelled; reduced labels determine them (`FullSets.RebuildFullSets`).
- FullSets.RebuildFullSets: speaks of posets that are AOC-posets, which is what its caller hands it.
- Enumeration.EnumJob: the threshold by which a job is published or descended into, which depends on timing, is a free choice.
- LinCboEngine.Engine.StepRecursive: uses the linear closure of the engine; that of `lincbo.c:53-90` fails before instead of after adding the offending attributes and does not stop early at the full set.
- Words, masks and compressed bitmaps (`bitset.h`, CRoaring) are finite sets of naturals; word-wise loops are loops over elements.
- Hash functions are arbitrary functions; collisions are covered, speed is not.
- `qsort` of the C library is a stand-in that permutes and sorts (`Sorting`).
- Offsets into flat arrays (the CSR form of the lattice) are sequences of sequences.
- Lists of children and parents are sets where the source never depends on their order.
- Allocation, `free`, clocks, profiling output, JNI, JSON and file formats are not part of the model.
- Machine integers: numbers of concepts, attributes and objects are unbounded; the bounds of `int` are not modelled, except that `INT_MAX` stands for "no such attribute" where the source uses it.
- `AbstractLinCbo` rewriting a basis after clarification, ICEBERG lattices, reduction of contexts and relational analysis are left to the Java side.
