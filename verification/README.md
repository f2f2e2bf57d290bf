# Verified models of the ns-3 tooling algorithms

This project models the self-contained algorithms of the ns-3 source tree and
proves what they compute, on all inputs, in all runs and under all
interleavings. It covers the dependency graph kernel, the parallel test runner,
the configuration path gatherer, the mini shell, the patch parser and writer,
the large TCP sender, the fairness index and the integer and list routines
beside the graph kernel. `dafny verify dfyconfig.toml` checks everything.

## How the project is laid out

| part | modules | what it is about |
|---|---|---|
| graph kernel | `Graph`, `ParentCounts`, `QueueOrder`, `Topsort`, `TopsortLevels`, `Rotation`, `CycleOrder`, `Cycles` | the two topological sorts and the enumerator of elementary cycles, on arbitrary finite graphs and with dictionaries walked in any order |
| test runner | `Protocol`, `ProtocolProof`, `TestResults`, `TestRunner` | main, the workers, the two queues, the poison pills and the interrupt as a transition system, and the same steps on shared fields |
| path gatherer | `TypeGraph`, `TypePaths`, `TypeSystem`, `StaticInformation` | the recursive walk over the type graph with its two stacks in place |
| mini shell | `ShellSyntax`, `ShellGrammar`, `ShellRun`, `ShellMeaning`, `ShellPosix`, `ShellLaunch`, `ShellExamples` | the token machine, the language it accepts, the executor, what a run means, how it compares with POSIX, and what each process gets |
| patches | `PatchText`, `PatchRoundTrip`, `PatchHeads`, `PatchSet` | patches as text, when writing and parsing undo each other, which lines are heads, and the parser and writer on heap objects |
| arithmetic and streams | `TcpTransfer`, `Fairness`, `BinaryStrings`, `Permutations`, `Fractions` | the chunked writer, Jain's index in 64 bits, binary counting, permutations, Euclid |
| shared | `Wrappers`, `Sequences`, `Numbers` | the option type and what several modules need about lists and numbers |

The main results, in the order of difficulty:

* `find_cycles` yields each elementary cycle exactly once up to rotation, although
  it skips roots that were already visited, and it terminates because the paths
  on its stack lose weight with every pop. The order of the roots determines the
  whole sequence of yielded lists.
* `topsort` succeeds exactly on acyclic relations. Its answer is always sorted by
  the length of the longest chain of parents, so it is the level sort's levels,
  one after the other, permuted inside each level; behind the root scan it is first
  in, first out, so that the order of the roots determines it. On failure both sorts are left
  with the same dictionaries, which hold exactly the items on or below a cycle.
* In every interleaving of the test runner each job comes back exactly once, pills
  are taken last and one per worker, some thread can always go on, and every run
  is bounded. A job comes back broken off exactly when no worker had looked at it
  when the interrupt struck. The runner can return exactly when there is a worker or nothing to
  do; a negative `--jobs` value starts no worker.
* `DoGather` restores both stacks and records exactly one entry per simple walk, in
  depth-first order, each with the names of the walk's steps behind slashes.
* The mini shell's parser accepts exactly the words of the well-formed sources.
  A run starts exactly the commands and opens exactly the files of the
  right-associated short-circuit evaluation of its pipes, and leaves nothing
  behind unless a misplaced `cd` breaks it off inside a pipe. Its status is that
  of the and-or list of section 2.9.3 of POSIX.1-2017 XCU, whatever the commands
  return, exactly when the operators between its pipes are of one kind and no
  `cd` stands behind an or-operator: `a || cd x && b` is a counterexample to the
  first half alone.
* Writing a patch set and parsing it back gives the same patches exactly when no
  removed line starts with `-- ` and no added line with `++ `.

A dictionary's iteration order is an arbitrary choice in the model, and a
generator is a method that returns everything it yields. Where a comment in the
code and the code differ, the model follows the code: a non-empty residue of
`topsort` means that each remaining item has a remaining parent, where the
comment at `bindings/python/topsort.py:109` speaks of a child, and `Gather` does
not make its output unique, because `Uniquefy` sorts a copy
(`utils/print-introspected-doxygen.cc:379-385`).

## Model

| member | source | states |
|---|---|---|
| `Graph.RankedIffNotBelowCycle` | bindings/python/topsort.py:107-111 | a node has a longest chain of ancestors exactly when it is neither on a cycle nor reachable from one |
| `Graph.UnboundedIffCycle` | bindings/python/topsort.py:107-111 | chains above a node grow without bound exactly when it is on or below a cycle |
| `Graph.ChainBoundStep` | bindings/python/topsort.py:93-106 | a node has chains of at most k + 1 nodes exactly when all its parents have chains of at most k: the step behind both sorts |
| `Graph.CycleInWalk` | bindings/python/topsort.py:343-385 | every walk that repeats a node runs through an elementary cycle |
| `Graph.AcyclicIffNoneBelow` | bindings/python/topsort.py:107-111 | a relation is acyclic exactly when no mentioned item is on or below a cycle |
| `ParentCounts.BuildTables` | bindings/python/topsort.py:77-90 | the keys are exactly the mentioned items, the lists hold each parent's children in the order of the pairs with repetitions, and each count is the number of parent pairs |
| `ParentCounts.EdgeIffPair` | bindings/python/topsort.py:89-90 | the dictionary has an edge exactly for each given pair |
| `ParentCounts.ChildrenInOrder` | bindings/python/topsort.py:89-90 | each pair adds its child behind those of the pairs before it, to its own parent's list only |
| `ParentCounts.NodesAreMentioned` | bindings/python/topsort.py:79-84 | the nodes of the dictionary are the items that some pair mentions |
| `ParentCounts.NoSlotsIffNoParent` | bindings/python/topsort.py:92-93 | the number of parent pairs of an item is zero exactly when it has no parent |
| `ParentCounts.Parentless` | bindings/python/topsort.py:92-93 | collects each item with count zero once, in any order of the keys |
| `ParentCounts.TakeSlot` | bindings/python/topsort.py:99-101 | one decrement accounts for one parent pair of that child and for none of any other item, also with duplicate pairs |
| `ParentCounts.LastSlot` | bindings/python/topsort.py:101-102 | when a count comes down to zero the child does not come again in the list at hand |
| `ParentCounts.StepRelease` | bindings/python/topsort.py:99-102 | one decrement keeps the counts exact, never takes a count below zero, and queues a child exactly when its last parent pair goes |
| `ParentCounts.EndRelease` | bindings/python/topsort.py:97-105 | after all decrements for a parent, deleting its list leaves exact counts for the remaining graph |
| `ParentCounts.ResidueIsCyclic` | bindings/python/topsort.py:107-111 | with no parentless item left, the dictionaries hold exactly the items on or below a cycle, each with its positive number of remaining parent pairs |
| `ParentCounts.ResidueUnique` | bindings/python/topsort.py:107-111 | the residue does not depend on the order of placing, nor on which sort left it |
| `Topsort.RankOfFreed` | bindings/python/topsort.py:97-102 | the parent whose visit frees a child is the child's highest-ranked parent |
| `Topsort.KnockDown` | bindings/python/topsort.py:100-102 | a decrement in the loop keeps the growing answer distinct, parents first and sorted by longest chain |
| `QueueOrder.FreedNext` | bindings/python/topsort.py:100-103 | a child appended when it loses its last parent pair keeps the answer first in, first out: ordered by the place of its last parent, then by the last place in that parent's list |
| `QueueOrder.OrderDetermined` | bindings/python/topsort.py:92-106 | two answers with the same items, parents first, in this order and with the same sequence of roots are equal |
| `Topsort.FreedHere` | bindings/python/topsort.py:100-102 | the place at which a count comes down to zero is the last one that lists the child |
| `Topsort.ReleaseChildren` | bindings/python/topsort.py:98-105 | after the inner loop the answer has grown at its end by the children that lost their last parent, and no others, in first in, first out order; every lookup hits |
| `Topsort.Topsort` | bindings/python/topsort.py:61-112 | returns normally exactly on an acyclic relation, with every mentioned item once, parents first, in order of longest chain, and behind the roots first in, first out; otherwise the error carries the sorted part and the exact cyclic residue |
| `Topsort.SortDetermined` | bindings/python/topsort.py:61-112 | two sorts that scan the roots in the same order have the same outcome, answer and residue |
| `Topsort.ChildrenAsListed` | bindings/python/topsort.py:98-103 | the pairs (a, b) and (a, c) give a, b, c in this order |
| `Topsort.QueueOutcome` | bindings/python/topsort.py:107-112 | when the queue runs dry, empty counts mean success and anything left means a cycle |
| `TopsortLevels.TopsortLevelsCore` | bindings/python/topsort.py:174-232 | if the counts fit the lists, level k is exactly the items whose longest chain has k steps, and the error follows exactly on cyclic input, with the exact residue; on any other dictionaries too each key comes in at most one level, and the missing-key error comes exactly when an item of a level lists a child that is no key or was placed before |
| `TopsortLevels.TopsortLevels` | bindings/python/topsort.py:157-172 | the same for a list of pairs |
| `TopsortLevels.ParentlessAreLevel` | bindings/python/topsort.py:205 | in round k the parentless items are exactly those of rank k |
| `TopsortLevels.KnockDownChildren` | bindings/python/topsort.py:222-223 | fails exactly when a listed child has no count |
| `TopsortLevels.AllReleased` | bindings/python/topsort.py:222-223 | if the counts fit the lists, decrementing the listed children keeps them exact, and those that lose their last parent are the new parentless items |
| `TopsortLevels.ReleaseLevel` | bindings/python/topsort.py:217-224 | one round takes out exactly the items of the level and leaves exact counts; on any dictionaries it fails exactly when an item of the level lists a missing child |
| `TopsortLevels.QueueRefinesLevels` | bindings/python/topsort.py:92-106 | any answer of the queue sort is the concatenation of the level sort's levels, each permuted internally, on cyclic input too |
| `TopsortLevels.SortsAgree` | bindings/python/topsort.py:203-229 | on the same pairs both sorts fail together, leave the same residue and agree on the order up to the order inside levels |
| `Rotation.IsRotated` | bindings/python/rad_util.py:735-775 | true exactly when the second list is a rotation of the first; two empty lists are an error |
| `Rotation.RotationTransitive` | bindings/python/rad_util.py:735-775 | a rotation of a rotation is a rotation |
| `Rotation.RotationSymmetric` | bindings/python/rad_util.py:735-775 | the test does not depend on the order of its arguments |
| `Cycles.PathAroundCycle` | bindings/python/topsort.py:361-384 | every cycle that a root reaches closes some simple path from that root |
| `CycleOrder.YieldsEndPaths` | bindings/python/topsort.py:366-368 | whatever is yielded from a path on is the end of a simple path that goes on from it, in that path's order, from the closing child on |
| `CycleOrder.ChildCloses` | bindings/python/topsort.py:366-379 | a child on the path yields the path from that child on, before anything longer |
| `CycleOrder.ChildPushes` | bindings/python/topsort.py:380-385 | a child off the path is marked and makes a longer path, which is searched before all paths under it on the stack |
| `Cycles.LookAt` | bindings/python/topsort.py:366-385 | looking at one child leaves what the whole search will yield and mark unchanged, and keeps every simple path handled or on the stack |
| `Cycles.ExtendPath` | bindings/python/topsort.py:361-385 | looking at all children of a popped path keeps every simple path handled or on the stack, adds less work than the popped path had, and does not change what the search will yield |
| `Cycles.RecordCycle` | bindings/python/topsort.py:368-379 | a cycle is yielded unless a rotation of it was, so no two yielded lists are rotations of each other |
| `Cycles.WorkDrops` | bindings/python/topsort.py:352-385 | the weight of the stack falls with every popped path, whatever is pushed for it |
| `Cycles.EmptyStackExhausts` | bindings/python/topsort.py:351-352 | when the stack is empty every cycle below the root has been yielded |
| `Cycles.SearchFrom` | bindings/python/topsort.py:351-385 | a search from one root terminates, yields only new elementary cycles and leaves none below the root; it only marks nodes the root reaches, and yields and marks exactly what the depth-first order says |
| `Cycles.FindCycles` | bindings/python/topsort.py:343-385 | sound, complete and without repetition: each elementary cycle is yielded once up to rotation, although visited nodes are skipped as roots; all keys are tried, in some order, and that order determines the yielded lists and their sequence |
| `Cycles.ExhaustedBelow` | bindings/python/topsort.py:347-349 | skipping a visited node is safe: if all cycles below a root are known, so are those below whatever it reaches |
| `Cycles.YieldsIffCyclic` | bindings/python/topsort.py:343-385 | at least one cycle is yielded exactly when the graph has one |
| `Cycles.CyclesExplainError` | bindings/python/topsort.py:107-111 | the finder yields a cycle exactly when the sort raises an error, and the error names exactly what the yielded cycles reach |
| `ProtocolProof.InvInit` | test.py:1423-1426 | the invariant holds when the workers have been started |
| `ProtocolProof.InvStep` | test.py:978-1046 | every atomic step of main, of any worker or of the interrupt keeps the invariant |
| `ProtocolProof.HeadOfInput` | test.py:980 | the input queue is first in, first out: its head is the next item in main's order |
| `ProtocolProof.PlacesAfter` | test.py:978-1046 | a step moves an item from place to place, and only a get brings a new one in |
| `ProtocolProof.StepNothingLost` | test.py:978-1046 | no step loses or duplicates an item |
| `ProtocolProof.SomeStepEnabled` | test.py:1718-1719 | until main has returned, some thread other than the interrupt can go on: no deadlock |
| `ProtocolProof.MeasureDrops` | test.py:978-1046 | every step brings some item closer to its end |
| `ProtocolProof.ScheduleKeepsInv` | test.py:978-1046 | after any schedule the invariant holds and the run is no longer than the measure allows |
| `ProtocolProof.EveryRunReturns` | test.py:1696-1720 | every run is bounded by six steps per item, one per worker and one for the interrupt, and one that no thread can continue has returned |
| `ProtocolProof.ReturnsIffHasWorkers` | test.py:1412-1426 | main can return exactly when there is at least one worker or no job; otherwise it waits for ever |
| `ProtocolProof.PillsComeLast` | test.py:985-986 | a worker that is about to take a pill finds no real job left in the queue, and every real job already dequeued |
| `ProtocolProof.ReturnedExactlyOnce` | test.py:1718-1719 | on return both queues are empty, each job was collected exactly once, and each pill was taken by exactly one worker, all of which have ended |
| `ProtocolProof.CountsAddUp` | test.py:1711-1752 | passed, failed, crashed, valgrind, skipped and interrupted add up to the collected jobs; passed and skipped make up all of them exactly when every job came back good |
| `ProtocolProof.UninterruptedResult` | test.py:1711-1752 | without an interrupt the counters do not depend on the interleaving |
| `ProtocolProof.UninterruptedExit` | test.py:1948-1951 | without an interrupt every job comes back good exactly when every plan is to skip or to return 0 |
| `TestResults.CountsOfJobs` | test.py:1720-1752 | each count is the number of jobs that are broken off, skipped, or ran with return code 0, 1, 2 or another |
| `TestResults.CountsOfPlans` | test.py:1720-1752 | the same for the planned counts, over the plans |
| `TestResults.InterruptedExactly` | test.py:992-995 | whatever the threads do after an interrupt, a job comes back broken off exactly when no worker had looked at it by then |
| `TestRunner.NoWorkersIffNegativeLimit` | test.py:1412-1426 | on a machine with a processor the runner can return exactly when there is no job or the limit is not negative |
| `TestRunner.ThreadsStarted` | test.py:1412-1426 | as many threads as processors, or as a smaller positive limit says; none for a negative limit |
| `TestRunner.NegativeLimitNeverReturns` | test.py:1412-1426 | with `--jobs=-1` no worker is started and a run of a single job never returns |
| `TestRunner.WorkerActions` | test.py:978-1046 | the steps open to the workers are exactly the enabled ones of the transition system |
| `TestRunner.TestRunner.constructor` | test.py:1423-1426 | the fields start in the system's initial state |
| `TestRunner.TestRunner.PutItem` | test.py:1696-1699 | queueing a job or a pill is the system's put step |
| `TestRunner.TestRunner.CountJob` | test.py:1720-1752 | an interrupted job raises no counter, a skipped one that of the skipped; return code 0 counts as passed, 1 as failed, 2 as a valgrind error, any other as crashed |
| `TestRunner.TestRunner.Collect` | test.py:1718-1752 | taking a job from the output queue is the system's collect step and keeps the counters exact |
| `TestRunner.TestRunner.Join` | test.py:1863-1864 | joining a thread is the system's join step |
| `TestRunner.TestRunner.SigintHook` | test.py:587-590 | the interrupt sets the flag and nothing else |
| `TestRunner.TestRunner.GetJob` | test.py:980 | a worker takes the head of the input queue |
| `TestRunner.TestRunner.CheckJob` | test.py:985-1005 | a pill stops the worker, an interrupt marks the job, a skip hands it back, otherwise it runs |
| `TestRunner.TestRunner.FinishJob` | test.py:1014-1034 | the job's return code is that of its process |
| `TestRunner.TestRunner.PutJob` | test.py:1046 | the job goes to the output queue and the worker waits again |
| `TestRunner.TestRunner.RunTests` | test.py:1696-1951 | under any scheduling the run ends; each counter is the number of collected jobs of its return code, and with the interrupted jobs they account for every job; the exit code is 0 exactly when every job came back skipped or with return code 0 and none was broken off; without an interrupt the same holds of the plans |
| `TypeGraph.WalksAreSimpleWalks` | utils/print-introspected-doxygen.cc:405-488 | the search order lists exactly the simple walks from a type that avoid the path, each once |
| `TypeGraph.WalksThroughSteps` | utils/print-introspected-doxygen.cc:414-487 | the part of the order that goes through the first n steps holds exactly the simple walks that start with one of them |
| `TypeGraph.SimpleWalkStep` | utils/print-introspected-doxygen.cc:409-412 | a walk is simple exactly when its rest is simple with its start on the path: what the check against processed types tests |
| `TypeGraph.EntriesPrefixed` | utils/print-introspected-doxygen.cc:434-438 | the entries recorded one level down with a longer current path are those of the prolonged walks |
| `TypePaths.PathLaws` | utils/print-introspected-doxygen.cc:313-323 | a path string is put together name by name from the first to the last, each behind a slash |
| `TypePaths.PathInjective` | utils/print-introspected-doxygen.cc:313-323 | as long as no name holds a slash, different paths have different strings |
| `TypePaths.WalkAt` | utils/print-introspected-doxygen.cc:434-438 | a walk comes to the target of each of its steps in turn and collects that step's name |
| `TypePaths.EntryAlong` | utils/print-introspected-doxygen.cc:326-331 | an entry holds the last type of its walk, and the path so far followed by the names of the walk's steps |
| `TypePaths.WalksInOrder` | utils/print-introspected-doxygen.cc:405-488 | the walks are found depth first: each before its extensions, and by the numbers of their steps |
| `TypePaths.OrderDetermines` | utils/print-introspected-doxygen.cc:405-488 | that order leaves one list only for a set of walks |
| `TypeSystem.AttributeStepAt` | utils/print-introspected-doxygen.cc:414-453 | each attribute contributes its own step of the type at its own place; a pointer to a plain object contributes none |
| `TypeSystem.ChildStepAt` | utils/print-introspected-doxygen.cc:454-466 | each registered child contributes its own step, behind those of the attributes |
| `TypeSystem.AggregateStepAt` | utils/print-introspected-doxygen.cc:467-487 | each aggregation with the type on either side contributes its own step, behind the others |
| `TypeSystem.NoStepsBeyond` | utils/print-introspected-doxygen.cc:414-487 | the three loops together go through all steps of the type |
| `StaticInformation.StaticInformation.RecordAggregationInfo` | utils/print-introspected-doxygen.cc:279-299 | a pair of known names is recorded; otherwise the first unknown name is |
| `StaticInformation.StaticInformation.HasAlreadyBeenProcessed` | utils/print-introspected-doxygen.cc:334-346 | true exactly when the type is on the stack |
| `StaticInformation.StaticInformation.GetCurrentPath` | utils/print-introspected-doxygen.cc:313-323 | the path string of the stack |
| `StaticInformation.StaticInformation.RecordOutput` | utils/print-introspected-doxygen.cc:326-331 | one entry with the current path is appended |
| `StaticInformation.StaticInformation.Get` | utils/print-introspected-doxygen.cc:349-362 | the recorded paths of one type: as many as there are records, each record's path at the place that the records before it leave |
| `StaticInformation.StaticInformation.Descend` | utils/print-introspected-doxygen.cc:434-438 | going down one step records exactly the walks through that step and leaves both stacks as they were |
| `StaticInformation.StaticInformation.GatherAttributes` | utils/print-introspected-doxygen.cc:414-453 | after the first loop exactly the walks through attributes are recorded |
| `StaticInformation.StaticInformation.GatherChildren` | utils/print-introspected-doxygen.cc:454-466 | after the second loop those through registered children too |
| `StaticInformation.StaticInformation.GatherAggregates` | utils/print-introspected-doxygen.cc:467-487 | after the third loop those through aggregations too |
| `StaticInformation.StaticInformation.DoGather` | utils/print-introspected-doxygen.cc:405-488 | terminates on every finite type graph, restores both stacks, and appends the entries of exactly the walks that avoid the types on the path |
| `StaticInformation.StaticInformation.Gather` | utils/print-introspected-doxygen.cc:396-402 | from empty stacks: one entry for every simple walk from the type, parallel steps counted separately, in depth-first order, each with the walk's end and path |
| `ShellSyntax.Pipeline.Parse` | waf-tools/shellcmd.py:121-201 | the loop that pops words succeeds exactly when the machine accepts them, and leaves the pipeline the machine builds |
| `ShellSyntax.Pipeline.CommitCommand` | waf-tools/shellcmd.py:101-104 | fails without a current command, otherwise moves it to the end of the pipeline |
| `ShellGrammar.ParseIsWellShaped` | waf-tools/shellcmd.py:121-201 | every successful parse alternates units and operators with odd length; a command's output is a pipe exactly when a pipe follows; only the and-operator follows a change of directory |
| `ShellGrammar.ExtendAgrees` | waf-tools/shellcmd.py:136-199 | one more word extends a source and the machine's state alike, and one fails exactly when the other does |
| `ShellGrammar.RenderReads` | waf-tools/shellcmd.py:136-199 | the machine reads the words of any well-formed source into the state that stands for it |
| `ShellGrammar.ParseOfSource` | waf-tools/shellcmd.py:121-201 | parsing the words of any well-formed source returns that source's pipeline: environment, arguments, redirections, directories and operators |
| `ShellGrammar.ParseExactly` | waf-tools/shellcmd.py:121-201 | the parser accepts exactly the words of the well-formed, complete sources |
| `ShellGrammar.AssignmentExactly` | waf-tools/shellcmd.py:24 | a word is an assignment exactly when it is a name, an equals sign and a value without white space, perhaps with one newline behind it |
| `ShellRun.System.Wait` | waf-tools/shellcmd.py:203-206 | a process can be waited for only once; its status is the command's |
| `ShellRun.CloseAll` | waf-tools/shellcmd.py:300-304 | closes each file once and never the null device |
| `ShellRun.ExecPipedCommands` | waf-tools/shellcmd.py:203-212 | every process of the pipe is waited for once and the result is the last one's status (section 2.9.2 of POSIX.1-2017 XCU) |
| `ShellRun.OpenFiles` | waf-tools/shellcmd.py:242-274 | opens exactly the command's own files, in order: the input file only when it does not read from a pipe, the output files, and never the null device for output |
| `ShellRun.StartCommand` | waf-tools/shellcmd.py:242-291 | the command is started with its words, the right streams, environment and directory, and exactly its own files are opened and held |
| `ShellRun.EndPipe` | waf-tools/shellcmd.py:300-337 | at the end of a pipe each of its processes is waited for once and each of its files closed once, and nothing else is |
| `ShellRun.RunCommand` | waf-tools/shellcmd.py:233-346 | after a command the run goes on or ends as the operator behind it and the status say |
| `ShellRun.Run` | waf-tools/shellcmd.py:214-346 | starts exactly the commands and opens exactly the files that the pipeline's meaning says, in order; with a status it leaves no process to wait for and no file open, and with an exception exactly those of the pipe under way |
| `ShellRun.LeftUnderWayIsLast` | waf-tools/shellcmd.py:225-231 | what a run leaves under way are the commands it started last; there are none exactly when it ends with a status or the failing change of directory does not stand in a pipe |
| `ShellMeaning.RunIsShortCircuit` | waf-tools/shellcmd.py:292-346 | the run is the right-associated short-circuit evaluation of the pipes: those in front of the first stop run in full, and the status is that of the last one that ran |
| `ShellMeaning.AlwaysExitsIffStraight` | waf-tools/shellcmd.py:225-231 | a parsed pipeline ends with a status whatever its commands return exactly when every change of directory names one and none is last |
| `ShellMeaning.NamelessChdirBreaksOff` | waf-tools/shellcmd.py:225-231 | the words `cd && ls` parse, and their run always breaks off before anything is started |
| `ShellMeaning.LastChdirBreaksOff` | waf-tools/shellcmd.py:225-231 | the words of `ls` piped into `cd x` parse, and their run always breaks off with `ls` started and not waited for |
| `ShellPosix.RunIsRightAssociated` | waf-tools/shellcmd.py:292-346 | the status of a run is that of its and-or list taken from the right, with every change of directory an operand that succeeds |
| `ShellPosix.AgreesFrom` | waf-tools/shellcmd.py:312-343 | where the and-operators come first and stand behind changes of directory, or there is one kind of operator, a pipeline's list has the same status from the right and from the left, for all exit statuses |
| `ShellPosix.MixedDiffers` | waf-tools/shellcmd.py:312-343 | for every other parsed pipeline there are exit statuses of its commands for which its run ends with another status than POSIX prescribes |
| `ShellPosix.PosixShapedIffAndsLead` | waf-tools/shellcmd.py:312-343 | the two ways to state the condition, by the operators between the pipes and by the places of the and-operators, say the same |
| `ShellPosix.AgreesWithPosixIffOneKind` | waf-tools/shellcmd.py:312-343 | a run gives the status that section 2.9.3 of POSIX.1-2017 XCU prescribes, whatever its commands return, exactly when the operators between its pipes are of one kind and no change of directory stands behind an or-operator |
| `ShellPosix.ChdirBehindOrDiffers` | waf-tools/shellcmd.py:312-343 | the words of `a`, an or-operator and `cd x && b` parse; when `a` succeeds and `b` would fail the run ends with 0 and POSIX prescribes 1, although one operator stands between the pipes |
| `ShellLaunch.JoinLaws` | waf-tools/shellcmd.py:228 | an absolute path replaces the directory; any other stands behind it with one slash between them |
| `ShellLaunch.JoinAssociative` | waf-tools/shellcmd.py:228 | going down twice is going down the joined path |
| `ShellLaunch.RelativeDirectory` | waf-tools/shellcmd.py:221-231 | behind relative directories only, a command runs in the dot followed by all their names between slashes |
| `ShellLaunch.AbsoluteDirectory` | waf-tools/shellcmd.py:221-231 | the last absolute directory starts afresh, and the names behind it follow between slashes |
| `ShellLaunch.ProducerExactly` | waf-tools/shellcmd.py:242-243 | a command reads from another exactly when a pipe follows that one and nothing but changes of directory stands between them |
| `ShellLaunch.OpenedForOutput` | waf-tools/shellcmd.py:46-50 | the two names of the null device are not opened, every other output file is |
| `ShellLaunch.LastAssignmentCounts` | waf-tools/shellcmd.py:139-153 | a command's environment holds for each name the value of its last assignment |
| `ShellLaunch.LaunchOfSource` | waf-tools/shellcmd.py:242-289 | each process gets its name and plain words in order, its own input, output and error files on these streams, a pipe for its output exactly when one follows, and its own assignments |
| `ShellExamples.LaunchBehindTwoChdirs` | waf-tools/shellcmd.py:221-289 | `cd a && cd b && ls` starts `ls` in `./a/b` |
| `ShellExamples.LaunchWithThreeFiles` | waf-tools/shellcmd.py:242-289 | `a b < i > o 2> e` gets the three files on its three streams, opened in this order |
| `ShellExamples.LaunchAssignedAndPiped` | waf-tools/shellcmd.py:242-289 | an assignment and a joined error stream belong to the command they stand at; the next command reads from it |
| `ShellExamples.WordCharsExactly` | waf-tools/shellcmd.py:24 | the characters a name may hold |
| `ShellExamples.SpacesExactly` | waf-tools/shellcmd.py:24 | the characters a value may not hold |
| `PatchText.DecimalValue` | utils/check-style.py:252-253 | a position written in decimal reads back as itself |
| `PatchRoundTrip.HeadOfChunk` | utils/check-style.py:305-306 | a written chunk head reads back with both positions, whatever the counts |
| `PatchRoundTrip.WrittenLine` | utils/check-style.py:217-230 | a written line reads as itself exactly when its text does not make it look like a file header, and as that header otherwise |
| `PatchRoundTrip.HeaderFits` | utils/check-style.py:373-374 | a header pattern fits a written line exactly when the line's text starts like the rest of the header |
| `PatchHeads.SourceHeaderExactly` | utils/check-style.py:373 | a line is a source header exactly when it is three dashes, a space and the name, perhaps with a newline |
| `PatchHeads.DestinationHeaderExactly` | utils/check-style.py:374 | the same for three pluses |
| `PatchHeads.HeadTextIsRead` | utils/check-style.py:375 | a chunk head with four numbers, whatever follows it, is read with its first and third |
| `PatchHeads.HeadIsHeadText` | utils/check-style.py:375 | only such lines are read as chunk heads |
| `PatchHeads.ToolsHead` | utils/check-style.py:375 | a head with a function name behind it, as diff tools write it, is read with its positions |
| `PatchHeads.SideLengths` | utils/check-style.py:205-216 | the source side holds all lines but those of the destination alone, the destination side all but those of the source alone |
| `PatchHeads.WrittenCounts` | utils/check-style.py:299-308 | the two counts in a written head are the numbers of the following lines that start with a minus or a space, and with a plus or a space |
| `PatchRoundTrip.ParseCounts` | utils/check-style.py:381-416 | the parser keeps every content line: the patches hold as many lines as the diff had |
| `PatchRoundTrip.ParsePatches` | utils/check-style.py:372-416 | without ambiguous lines, parsing a written patch set returns it |
| `PatchRoundTrip.RoundTripNeedsUnambiguous` | utils/check-style.py:372-416 | one ambiguous line anywhere spoils the round trip |
| `PatchRoundTrip.RoundTripExactly` | utils/check-style.py:372-416 | writing and parsing is the identity on names, positions and typed lines exactly when no removed line starts with two dashes and a space and no added line with two pluses and a space |
| `PatchSet.PatchChunk.SrcLen` | utils/check-style.py:287-292 | counts all lines but those of the destination alone |
| `PatchSet.PatchChunk.DstLen` | utils/check-style.py:293-298 | counts all lines but those of the source alone |
| `PatchSet.PatchChunk.AddLine` | utils/check-style.py:260-266 | appends one line to this chunk |
| `PatchSet.PatchChunk.Write` | utils/check-style.py:299-308 | appends the head with the two side counts, then every line with its sign |
| `PatchSet.Patch.Write` | utils/check-style.py:361-370 | appends both file headers and then every chunk |
| `PatchSet.LineGoesToLastStarted` | utils/check-style.py:397-414 | a content line goes to the chunk started last, even when a new patch has begun since |
| `PatchSet.NoChunkNoLine` | utils/check-style.py:397-414 | a content line before any chunk is an error |
| `PatchSet.AddContent` | utils/check-style.py:397-414 | adding a line through the current reference changes exactly that chunk and no other object |
| `PatchSet.StartChunk` | utils/check-style.py:394-396 | a new chunk goes to the current patch and becomes the current chunk |
| `PatchSet.ParseLine` | utils/check-style.py:381-415 | one line changes the objects as it changes the patches they show, and fails exactly then |
| `PatchSet.ParsePatchset` | utils/check-style.py:372-416 | the objects returned show exactly the patches of the text, with no sharing between them; an exception comes on the same inputs |
| `TcpTransfer.BufferRepeatsStream` | examples/tcp/tcp-large-transfer.cc:50-53 | reading a buffer round and round gives the alphabet stream exactly when 26 divides its size |
| `TcpTransfer.ChunkIsStream` | examples/tcp/tcp-large-transfer.cc:203-210 | whatever part of the buffer is accepted continues the stream |
| `TcpTransfer.WillingSocketProgress` | examples/tcp/tcp-large-transfer.cc:200-213 | a socket that has space and takes something every time gets everything after at most as many turns as there are bytes left |
| `TcpTransfer.MovedIsLeast` | examples/tcp/tcp-large-transfer.cc:202-207 | a turn moves the least of four: the rest of the buffer, the rest of the total, the space and the answer |
| `TcpTransfer.GenerousSocketFinishes` | examples/tcp/tcp-large-transfer.cc:200-213 | a socket that always has room for a buffer and takes all of it gets everything exactly when there is a turn for each buffer left |
| `TcpTransfer.TurnsFromStart` | examples/tcp/tcp-large-transfer.cc:200-213 | from the start that makes 1924 turns |
| `TcpTransfer.Sender.constructor` | examples/tcp/tcp-large-transfer.cc:81-86 | the buffer starts as the first bytes of the stream |
| `TcpTransfer.Sender.SendChunk` | examples/tcp/tcp-large-transfer.cc:202-213 | one turn sends as much as the buffer's end, the total and the socket allow, and nothing on an error |
| `TcpTransfer.Sender.WriteUntilBufferFull` | examples/tcp/tcp-large-transfer.cc:198-219 | for every sequence of replies the accepted bytes are a prefix of the stream, reads stay in the buffer and the count never passes the total; each call that ends with everything sent closes the socket, and none closes it earlier |
| `Fairness.ExcessSign` | examples/tcp/dctcp-example.cc:185-191 | n times the sum of squares is at least the square of the sum, with equality exactly when all counters are equal |
| `Fairness.IndexRange` | examples/tcp/dctcp-example.cc:191 | the index lies between 1/n and 1, and is 1 exactly when all counters are equal |
| `Fairness.Parts` | examples/tcp/dctcp-example.cc:182-191 | what the loop and the two products give in 64-bit arithmetic, for every number of counters |
| `Fairness.NoWrapIff` | examples/tcp/dctcp-example.cc:185-191 | no value on the way wraps exactly when n times the sum of squares is below 2^64 |
| `Fairness.PartsAreExact` | examples/tcp/dctcp-example.cc:185-191 | as long as nothing wraps the computed parts are the exact ones |
| `Fairness.WrapWitness` | examples/tcp/dctcp-example.cc:185-191 | one counter of 2^32 among ten makes both parts wrap to zero |
| `BinaryStrings.BinaryRange` | bindings/python/rad_util.py:632-660 | for a positive width exactly 2^bits strings, the i-th being what int2bin gives for i; for width zero none |
| `BinaryStrings.Ripple` | bindings/python/rad_util.py:649-659 | one ripple of the carry turns the digits of i into those of i + 1, or reports by the last toggle that i was the last number |
| `BinaryStrings.CarryAddsOne` | bindings/python/rad_util.py:651-659 | adding one clears the ones at the end, sets the zero before them and keeps every other digit |
| `BinaryStrings.AllOnesIsLast` | bindings/python/rad_util.py:645 | the carry leaves the last digit exactly behind the largest number |
| `BinaryStrings.HexBitsAreDigits` | bindings/python/rad_util.py:94-95 | replacing hexadecimal digits by four bits each gives the binary digits of the number |
| `BinaryStrings.Int2BinIff` | bindings/python/rad_util.py:97-105 | for n >= 1 the n binary digits exactly for numbers below 2^n, the error for all others |
| `BinaryStrings.Int2BinOfBin2Int` | bindings/python/rad_util.py:108-130 | a string of bits read as a number and written with its width comes back |
| `BinaryStrings.Bin2IntOfInt2Bin` | bindings/python/rad_util.py:108-130 | whatever int2bin returns reads back as the number |
| `BinaryStrings.DocumentedStrings` | bindings/python/rad_util.py:77-88 | the documented values of int2bin and its documented error |
| `BinaryStrings.DocumentedNumbers` | bindings/python/rad_util.py:113-117 | the documented values of bin2int |
| `Permutations.Permutations` | bindings/python/rad_util.py:293-326 | the recursion with its two filling loops builds the lists that the four lemmas below describe |
| `Permutations.OrdersCount` | bindings/python/rad_util.py:312-325 | n! lists for n items |
| `Permutations.OrdersIff` | bindings/python/rad_util.py:312-325 | a list is returned exactly when it is a rearrangement of the input |
| `Permutations.OrdersDistinctIff` | bindings/python/rad_util.py:312-325 | no list is returned twice exactly when no item occurs twice |
| `Permutations.OrdersAt` | bindings/python/rad_util.py:317-322 | for each order of the rest in turn, the first item stands at each place from the front to the back |
| `Fractions.Gcf` | bindings/python/rad_util.py:223-258 | for all integers of either sign the result divides both, is an integer combination of them and is not negative |
| `Fractions.GcfUnique` | bindings/python/rad_util.py:223-258 | these properties leave one number only |
| `Fractions.CommonDivides` | bindings/python/rad_util.py:223-258 | every common divisor divides the result |
| `Fractions.Lcm` | bindings/python/rad_util.py:260-290 | a common multiple that divides every common multiple; negative exactly for operands of different signs |
| `Fractions.ReduceFraction` | bindings/python/rad_util.py:329-348 | the same fraction in lowest terms, divided by a positive factor; the division by zero happens exactly for 0/0 |

## Left out

- The graph kernel: a consumer that changes a yielded list between two yields, and items whose equality is not an equivalence.
- TopsortLevels.TopsortLevelsCore: on dictionaries whose counts do not fit the lists it is not said which items make up a level.
- Python's mutable dictionaries and lists in the graph kernel are reassigned variables of map and sequence type; nothing else refers to them.
- The bodies of inner loops are methods of their own in several places, so that each loop has one invariant to keep.
- The test runner: option parsing, waf, the subprocesses, valgrind, and the reports. What running a job returns is given with its plan, and a worker whose job raises an exception is not modelled.
- Printing, `GetNoTypeIds` and unknown type ids in the path gatherer; the child relation and the registered types are given.
- StaticInformation.StaticInformation.Gather: the sorting of a copy by `Uniquefy` has no effect and is not modelled.
- `shlex.split`: a command is a list of words. A redirection sign that is never followed by a file is accepted by the code and so by the model.
- The verbose display of the shell, which reads `retval` before it is set, and `get_abbreviated_command`.
- ShellPosix.AgreesWithPosixIffOneKind: a `cd` always succeeds here and applies to everything behind it, as in the executor; what POSIX says about a `cd` inside a pipe is not modelled.
- ShellRun.Run: files that cannot be opened and programs that cannot be started are not modelled, nor are the pipe ends that Python keeps until garbage collection; exit statuses are given per command.
- ShellRun.StartCommand: a launch names the files of its streams; which file handle carries which name is not modelled, and of the environment only what the command adds.
- In the patches: the splitting of a file into lines, `append_to_line`, `src_start`, `apply`, lines without a type, and `remove_trailing_whitespace_changes`, which pairs lines by index.
- The patch line object is a value: nothing changes it between parsing and writing.
- In the TCP sender: connecting, callback registration and the simulator; what the socket answers is an input, at most what was offered.
- Fairness.IndexRange: the quotient is taken over the reals; the rounding of doubles is not modelled.
- In the fairness index: printing, the average, the throughput counters' callbacks and `InitializeCounters`.
- BinaryStrings.Int2BinIff: negative numbers and negative widths are not modelled.
- BinaryStrings.Int2BinOfBin2Int: the other spellings that Python's `int` accepts (signs, spaces, a prefix) are not modelled.
- Fractions.Gcf: integers only; floating-point operands and the epsilon are not modelled.
- Fractions.Lcm: integers only, for the same reason.
- The other functions of `rad_util.py`, `utils/grid.py`, the benchmarks and the example simulations, which only wire up library calls.
