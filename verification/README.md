# Verified models of Utopia EDA components

This project models the algorithmic core of Utopia EDA in Dafny and proves what
that core promises. Seven components are covered; they share only the graph
theory of `Digraph.dfy`, the word arithmetic of `Bits.dfy` and the sequences
without repeats of `Collections.dfy`.

1. **AIGER graphs** (`lib/aiger/aiger.c`). `AigGraph` holds the tables, what it
   means for a literal to be defined, the gate dependency graph, and the value of
   a literal under a valuation. `AigIndex` and `Aiger` model the adding
   operations, the `types` index kept beside the tables, and the checker.
   `DepthFirst` and `AigSearch` tie the two explicit-stack searches to a
   recursive postorder: a stack is interpreted by `Resume`, and every step of a
   loop keeps the interpretation. `AigReencode` defines the renumbered graph,
   `AigMeaning` proves that it is in normal form and means the same, for single
   valuations and for whole runs, and `AigTable` and `Aiger.Reencode` show that
   the in-place code arrives at it. `Bytes` and `AigFormat` define both file
   formats and prove the round trips; the loops of `AigWriter` and `AigReader`
   are proved against them. `AigSpelling` tells what the files look like byte for
   byte.
2. **Bounded sets** (`src/util/bounded_set.h`, `src/util/bits.h`). `SortedSets`
   relates increasing sequences, their merge and their residue signatures to
   sets; `BoundedSets` is the class with its double buffer. `Bits` proves the
   counting of ones correct for all four widths.
3. **Topological sorting with feedback** (`src/util/graph.h`): `TopoSort`.
4. **Sums of products** (`src/util/kitty_utils.cpp`): `Kernel`, on top of the
   bitwise laws in `Masks` (same file).
5. **NPN transformations** (`src/util/kitty_utils.cpp`,
   `src/util/npn_transformation.cpp`): `Npn`.
6. **Diagnostics** (`src/diag`) and **net nodes** (`src/base/model/node.h`):
   `Diagnostics` and `NetNodes`.
7. **Glob matching** (`lib/easyloggingpp/easylogging++.cc`): `WildCard`.

Conventions. Words are naturals with the wrap-around written out, except for the
32-bit cubes of `Kernel`, which are bit-vectors. Objects that the source updates
in place are classes. The AIGER struct has its public tables in one value field
that the methods reassign. Assertions of the source are preconditions. Loops of
the source that were long are split into methods at statement boundaries.
`hide` statements keep definitions out of proofs that do not need them.

## Where the code differs from what one may expect

- `aiger_reencode` returns early on a graph that is already in normal form
  (`lib/aiger/aiger.c:1506`). The header file describes it as also discarding
  gates outside every cone; on that path it does not
  (`AigMeaning.DeadGatesDropped` says exactly when dead gates remain,
  `AigMeaning.DeadGateInstance` is an instance), and it does not lower `maxvar`
  either.
- Hence the binary writer emits an unreadable file exactly for graphs that are
  already in normal form and whose `maxvar` exceeds inputs + latches + gates
  (`AigWriter.BinaryFileRoundTrip`; `AigWriter.OversizedMaxvar` is an instance).
- Reencoding clears index entries only up to the new `maxvar`. A later import of
  a larger literal revives stale entries exactly when one of the variables it
  brings back was defined before (`AigTable.StaleIndex`; `AigTable.StaleInstance`
  is an instance). The adding methods therefore ask that no entry between
  `maxvar` and their literals is stale (`AigIndex.ClearTo`), and ask nothing
  where the literals are in range; `AigTable.ClearAfterReencode` tells when that
  holds after reencoding.
- `aiger_read_delta` keeps the low 32 bits of a five-byte code
  (`Bytes.FifthByteTruncated`), and for a sixth byte below 8 shifts by 35, which
  C leaves undefined; the model reports that case as `Overshift`. A fifth byte
  from 8 on, which every written value from 2^31 on has, shifts an `int` past its
  range, which C leaves undefined as well (`Bytes.ShiftsExact`); the model takes
  that shift to wrap, as the format needs it.
- The comparison handed to `qsort` subtracts signed integers: it overflows or
  misorders exactly when two literals are on different sides of 2^31
  (`AigTable.CmpLhsExact`). So the gates are sorted if and only if the kept ones
  do not straddle it (`AigTable.GatesSorted`; `AigTable.SortInstance` is a graph
  that does), and the reencoding methods ask for that, unless the early return is
  taken.
- The reader does not check the range of justice literals; reading imports them,
  which raises `maxvar` above the announced one exactly when one of them is out of
  range (`AigFormat.AnnouncedKept`). Later literals, even of gates, are then
  checked against the raised one (`AigFormat.RaisedInstance`).
- `unionCheck` counts in 16 bits. For unions of 2^16 elements and more it can
  accept what does not fit (`BoundedSets.WrappedUnion`; `BoundedSet.Overruns` is
  the exact case), but not when both bounds are below 2^15
  (`BoundedSets.SmallUnions`). `merge` would then write past its buffer, so
  `Merge` excludes that case and no other.
- `npnTransform` keeps the negation mask in 16 bits although the transformation
  has 32 (`Npn.NegatesLow`). Transforming and transforming back is the identity
  if and only if no negation bit in use moves across bit 16
  (`Npn.RoundTripExact`, `Npn.NegationLost`), so always up to 16 inputs.
- `findCommonCube` starts from `1u`, so it sees variable 0 only. The kernel
  theorem does not depend on it.
- A topological sort starts from all sources at once, so an edge into a source
  may go backward without closing a cycle (`TopoSort.FeedbackInstance`);
  `TopoSort.Ordered` allows exactly that, and it disappears when no edge enters a
  source.

## Model

| member | source | states |
|---|---|---|
| `DepthFirst.VisitExtends` | lib/aiger/aiger.c:848-898 | a successful search from a variable extends the postorder, keeps it topological, lists the variable, and lists nothing that is open |
| `DepthFirst.VisitReaches` | lib/aiger/aiger.c:1400-1470 | everything that a search newly lists is a gate reachable from where it started |
| `DepthFirst.VisitCycle` | lib/aiger/aiger.c:855-860 | the variable at which a search gives up lies on a cycle |
| `DepthFirst.VisitAllExact` | lib/aiger/aiger.c:840-899 | a search from all gates gives up if and only if the dependency graph has a cycle |
| `AigSearch.ResumePushed` | lib/aiger/aiger.c:848-884 | an operand pushed on the explicit stack runs exactly as one recursive visit of it, and one that was left out as idle does too |
| `AigSearch.Expand` | lib/aiger/aiger.c:868-883 | opening a gate (a 0 and its operands pushed above it) leaves the outcome of the stack unchanged and opens exactly that gate; operand 0 is not pushed |
| `AigSearch.Closes` | lib/aiger/aiger.c:855-860 | meeting an open variable on top of the stack is exactly the cycle outcome of the recursive search |
| `AigSearch.OpenStep` | lib/aiger/aiger.c:862-884 | the prefix step keeps the search invariant and the outcome, and less is left to open |
| `AigSearch.CloseStep` | lib/aiger/aiger.c:885-897 | the postfix step pops a 0 and its gate, appends the gate to the postorder, and keeps invariant and outcome |
| `AigSearch.ScanExact` | lib/aiger/aiger.c:840-899 | scanning the variables 1..maxvar is an exact cycle test, and a reported variable is on a cycle |
| `AigGraph.SortingKeepsCycles` | lib/aiger/aiger.c:1434-1441 | whether the larger operand is visited first does not matter for cycles |
| `AigGraph.EvalGate` | lib/aiger/aiger.c:502-536 | on acyclic graphs the value of a gate is the conjunction of its operand literals |
| `AigGraph.DefinedOnce` | lib/aiger/aiger.c:366-368 | in a well-formed graph no variable is two of input, latch and gate, and defined variables are in 1..maxvar |
| `AigIndex.Lookup` | lib/aiger/aiger.c:2728-2773 | a consistent index answers exactly as a search of the tables, with the position of the entry |
| `AigIndex.UnusedUndefined` | lib/aiger/aiger.c:366-368 | a variable with clear flags is in no table |
| `AigIndex.EmptyConsistent` | lib/aiger/aiger.c:206-224 | the empty graph and the empty index are consistent |
| `AigIndex.ImportConsistent` | lib/aiger/aiger.c:338-351 | importing a literal keeps graph, index and marks consistent if no entry between maxvar and its variable is stale, and makes no clear entry stale |
| `AigIndex.AddInputConsistent` | lib/aiger/aiger.c:368-378 | defining an input in range keeps consistency, whatever is stale above maxvar |
| `AigIndex.AddLatchConsistent` | lib/aiger/aiger.c:398-413 | defining a latch in range keeps consistency, whatever is stale above maxvar |
| `AigIndex.AddAndConsistent` | lib/aiger/aiger.c:516-536 | defining a gate in range keeps consistency, whatever is stale above maxvar and also when an earlier check has left marks behind |
| `AigIndex.AddResetConsistent` | lib/aiger/aiger.c:415-428 | an admissible reset keeps consistency |
| `AigIndex.AddRootConsistent` | lib/aiger/aiger.c:430-500 | outputs, bad states, constraints, fairness and justice literals in range keep consistency |
| `AigIndex.AddJusticeConsistent` | lib/aiger/aiger.c:467-487 | a justice property in range keeps consistency |
| `AigIndex.ExtendedByInput` | lib/aiger/aiger.c:368-378 | a new input keeps every definition and every gate |
| `AigIndex.ExtendedByLatch` | lib/aiger/aiger.c:398-413 | a new latch keeps every definition and every gate |
| `AigIndex.ExtendedByAnd` | lib/aiger/aiger.c:516-536 | a gate for a variable that was not defined keeps every definition and every other gate |
| `Aiger.Aiger.constructor` | lib/aiger/aiger.c:206-224 | a new graph is empty and consistent, and nothing in its index is stale |
| `Aiger.Aiger.ImportLiteral` | lib/aiger/aiger.c:338-351 | raises maxvar to the variable and grows the index to hold it, keeping the old entries |
| `Aiger.Aiger.SetMaxvar` | lib/aiger/aiger.c:2108-2110 | an empty graph with a given maxvar and an index of that size |
| `Aiger.Aiger.AddInput` | lib/aiger/aiger.c:353-378 | appends the input, raises maxvar if needed, and keeps the index consistent if no entry up to the literal is stale |
| `Aiger.Aiger.AddLatch` | lib/aiger/aiger.c:381-413 | appends the latch with reset 0, raises maxvar for both literals, and keeps the index consistent if no entry up to them is stale |
| `Aiger.Aiger.AddAnd` | lib/aiger/aiger.c:502-536 | appends the gate, raises maxvar for all three literals, and keeps the index consistent if no entry up to them is stale |
| `Aiger.Aiger.AddReset` | lib/aiger/aiger.c:415-428 | changes the reset of exactly the latch that a search of the table finds |
| `Aiger.Aiger.AddOutput` | lib/aiger/aiger.c:430-440 | appends the output and raises maxvar |
| `Aiger.Aiger.AddBad` | lib/aiger/aiger.c:442-452 | appends the bad state literal and raises maxvar |
| `Aiger.Aiger.AddConstraint` | lib/aiger/aiger.c:454-464 | appends the constraint and raises maxvar |
| `Aiger.Aiger.AddJustice` | lib/aiger/aiger.c:467-487 | appends the list of literals and raises maxvar for all of them |
| `Aiger.Aiger.AddFairness` | lib/aiger/aiger.c:489-500 | appends the fairness literal and raises maxvar |
| `Aiger.Aiger.IsInput` | lib/aiger/aiger.c:2728-2741 | the entry of the input table with this variable, or none: as a linear search |
| `Aiger.Aiger.IsLatch` | lib/aiger/aiger.c:2744-2757 | the entry of the latch table with this variable, or none: as a linear search |
| `Aiger.Aiger.IsAnd` | lib/aiger/aiger.c:2760-2773 | the entry of the gate table with this variable, or none: as a linear search |
| `Aiger.Aiger.LiteralDefined` | lib/aiger/aiger.c:644-660 | true exactly for constants and literals that some table defines |
| `Aiger.Aiger.CheckListDefined` | lib/aiger/aiger.c:718-800 | an error exactly when some literal of the list is undefined, and it names the first such one without its sign |
| `Aiger.Aiger.CheckNextDefined` | lib/aiger/aiger.c:662-686 | an error exactly when some next state is undefined, and it names the first such one |
| `Aiger.Aiger.CheckJusticeDefined` | lib/aiger/aiger.c:802-824 | an error exactly when some justice literal is undefined, and it names the first such one without its sign |
| `Aiger.Aiger.CheckRightHandSidesDefined` | lib/aiger/aiger.c:688-716 | an error exactly when some gate operand is undefined, and it names the first such one |
| `Aiger.UnmarkedExact` | lib/aiger/aiger.c:844-845 | leaving out gates marked by earlier checks loses no cycle |
| `Aiger.Aiger.Explore` | lib/aiger/aiger.c:847-898 | the explicit-stack search from one gate terminates with the outcome of the recursive search, the marks being the postorder |
| `Aiger.Aiger.CheckForCycles` | lib/aiger/aiger.c:826-902 | terminates, and reports an error if and only if the gate dependencies have a cycle; the reported gate is on one; marks stay sound for later checks |
| `Aiger.Aiger.Check` | lib/aiger/aiger.c:904-921 | no error if and only if every literal in use is defined and the gates are acyclic; an error names the first undefined literal, in the order of the parts of the check, or a gate on a cycle of a graph with everything defined |
| `AigReencode.KeptExact` | lib/aiger/aiger.c:1542-1589 | the kept gates are exactly those reachable from the latch, output, bad, constraint, justice and fairness literals, in topological order |
| `AigReencode.RootsAt` | lib/aiger/aiger.c:1542-1589 | the searches start from next state and reset of each latch, then from the outputs, bad states, constraints, justice and fairness literals |
| `AigReencode.RootOrder` | lib/aiger/aiger.c:1542-1589 | a gate that earlier roots need is numbered before one that only later roots need |
| `AigReencode.OperandOrder` | lib/aiger/aiger.c:1431-1455 | a search from a gate numbers what its smaller operand needs before what only the larger one needs |
| `AigReencode.CodeInjective` | lib/aiger/aiger.c:1368-1377 | the new code is injective on coded literals |
| `AigReencode.CodeNegates` | lib/aiger/aiger.c:1368-1377 | the new code commutes with negation |
| `AigReencode.OperandsCoded` | lib/aiger/aiger.c:1431-1465 | when a gate gets its number its operands have smaller ones |
| `AigReencode.GatesInOrder` | lib/aiger/aiger.c:1593-1622 | gate k gets the k-th literal after the latches, above its operands, the larger operand first |
| `AigReencode.RootsCoded` | lib/aiger/aiger.c:1542-1589 | every root literal has a code once all roots are searched |
| `AigMeaning.EnoughVariables` | lib/aiger/aiger.c:1624-1626 | inputs, latches and kept gates never exceed the old maxvar |
| `AigMeaning.ReencodeNormalizes` | lib/aiger/aiger.c:1493-1672 | without the early return the result is checked and in normal form, lhs > rhs0 >= rhs1, maxvar = inputs + latches + gates, and no dead gate is left |
| `AigMeaning.ReencodeIdempotent` | lib/aiger/aiger.c:1506-1507 | the result is always in normal form, and reencoding it again changes nothing |
| `AigMeaning.DeadGatesDropped` | lib/aiger/aiger.c:1506-1507 | no dead gate is left if and only if the early return was not taken or there was none before: the early return keeps dead gates |
| `AigMeaning.DeadGateInstance` | lib/aiger/aiger.c:1506-1507 | a concrete checked graph whose dead gate survives |
| `AigMeaning.CodeMeans` | lib/aiger/aiger.c:1379-1483 | every coded literal has the same value before and after, for every valuation |
| `AigMeaning.ReencodePreservesMeaning` | lib/aiger/aiger.c:1493-1672 | for every checked graph and valuation, inputs and latches matched by position, every next, reset, output, bad, constraint, fairness and justice literal keeps its value |
| `AigMeaning.RunsAgree` | lib/aiger/aiger.c:1493-1672 | from the same state and stimuli both graphs make the same observations at every step |
| `AigMeaning.ReencodePreservesRuns` | lib/aiger/aiger.c:1493-1672 | both graphs make the same observations at every step from their own reset states, for every choice of the uninitialised latches |
| `AigTable.TableExtended` | lib/aiger/aiger.c:1368-1377 | writing the two new codes of a gate turns the code table into that of the longer order |
| `AigTable.CmpLhsExact` | lib/aiger/aiger.c:1485-1491 | the comparison handed to qsort does not overflow and orders two literals as numbers, in either argument order, exactly when they are on the same side of 2^31 |
| `AigTable.QSortSorts` | lib/aiger/aiger.c:1622 | if no comparison overflows the sort permutes the gates and orders them by their signed literals |
| `AigTable.SortExact` | lib/aiger/aiger.c:1593-1622 | compacting the coded gates and sorting them gives the gates in the order in which they were numbered if and only if there are none or all their literals are on one side of 2^31 |
| `AigTable.GatesSorted` | lib/aiger/aiger.c:1593-1622 | the gates that aiger_reencode keeps are sorted in the order of their numbers if and only if there are none or their literals are on one side of 2^31 |
| `AigTable.SortInstance` | lib/aiger/aiger.c:1485-1491 | a concrete checked graph with two kept gates on different sides of 2^31, which the sort does not bring into order |
| `AigTable.RetypedIndexed` | lib/aiger/aiger.c:1628-1670 | the rebuilt index agrees with the tables for 0..maxvar |
| `AigTable.RetypedConsistent` | lib/aiger/aiger.c:1628-1670 | the rebuilt index is consistent, and the old marks are harmless for later checks |
| `AigTable.ClearAfterReencode` | lib/aiger/aiger.c:1628-1637 | after reencoding the entries above the new maxvar are clear up to a variable if and only if none of these variables was defined before: the reset of types stops at the new maxvar |
| `AigTable.StaleIndex` | lib/aiger/aiger.c:1628-1637 | importing any literal above the new maxvar keeps the index right if and only if none of the variables up to it was defined before |
| `AigTable.StaleInstance` | lib/aiger/aiger.c:1628-1637 | a concrete checked graph whose reencoding leaves a stale entry that the next import revives |
| `Aiger.Aiger.NewCode` | lib/aiger/aiger.c:1368-1377 | codes a variable that has no code yet and its negation, and advances by two |
| `Aiger.Aiger.PushOperands` | lib/aiger/aiger.c:1431-1455 | pushes the uncoded operands, the one to be visited first on top |
| `Aiger.Aiger.SearchFrom` | lib/aiger/aiger.c:1400-1470 | the explicit-stack renumbering visits exactly as the recursive postorder and numbers each gate when it closes |
| `Aiger.Aiger.ReencodeLit` | lib/aiger/aiger.c:1379-1483 | returns the code of the literal and has searched it |
| `Aiger.Aiger.ReencodeList` | lib/aiger/aiger.c:1553-1589 | recodes a list of roots in place, in order |
| `Aiger.Aiger.ReencodeLatches` | lib/aiger/aiger.c:1542-1551 | recodes next and reset of every latch, next first |
| `Aiger.Aiger.ReencodeRows` | lib/aiger/aiger.c:1574-1582 | recodes the literals of all justice properties |
| `Aiger.Aiger.SeedTable` | lib/aiger/aiger.c:1509-1537 | the code table of inputs and latches alone |
| `Aiger.Aiger.ReencodeRoots` | lib/aiger/aiger.c:1542-1589 | after all roots the table codes exactly the kept gates and every root is rewritten |
| `Aiger.Aiger.CompactAnds` | lib/aiger/aiger.c:1593-1620 | overwrites the gates in place by the coded ones, operands ordered, dead ones left out |
| `Aiger.Aiger.ClearTypes` | lib/aiger/aiger.c:1628-1637 | clears the kinds of the variables 1..maxvar and nothing above |
| `Aiger.Aiger.TypeAnds` | lib/aiger/aiger.c:1639-1647 | enters the gates into the index |
| `Aiger.Aiger.TypeInputs` | lib/aiger/aiger.c:1649-1659 | renumbers the inputs and enters them |
| `Aiger.Aiger.TypeLatches` | lib/aiger/aiger.c:1661-1670 | renumbers the latches and enters them |
| `Aiger.Aiger.MaxInputOrLatch` | lib/aiger/aiger.c:1296-1320 | the largest input or latch literal, or 0 |
| `Aiger.Aiger.IsReencoded` | lib/aiger/aiger.c:1322-1366 | true exactly for graphs in normal form |
| `Aiger.Aiger.NumberGates` | lib/aiger/aiger.c:1509-1626 | tables, gates and maxvar of the renumbered graph, inputs and latches still with their old literals |
| `Aiger.Aiger.RebuildTypes` | lib/aiger/aiger.c:1628-1672 | completes the renumbered graph and its index |
| `Aiger.Aiger.Reencode` | lib/aiger/aiger.c:1493-1672 | in place, the graph becomes the reencoded one and graph and index stay consistent |
| `Bytes.DecimalRoundTrip` | lib/aiger/aiger.c:1924-1942 | reading a printed 32-bit number gives it back and stops right behind it |
| `Bytes.DecimalExact` | lib/aiger/aiger.c:958-963 | a number is printed in digits, without leading zeros, and with its value |
| `Bytes.DecimalUnique` | lib/aiger/aiger.c:958-963 | every string of digits without leading zeros is how its value is printed |
| `Bytes.NumberExact` | lib/aiger/aiger.c:1924-1942 | any string of digits is read as its value modulo 2^32, and reading stops right behind it |
| `Bytes.WriteDeltaIsCode` | lib/aiger/aiger.c:965-984 | the written bytes are a code (section 7.6 of DWARF 5) whose value is the number |
| `Bytes.WriteDeltaLength` | lib/aiger/aiger.c:965-984 | n bytes suffice below 128^n |
| `Bytes.ReadDeltaExact` | lib/aiger/aiger.c:2330-2373 | for every code, minimal or not, what the reader does: up to five bytes give the value modulo 2^32, six bytes fail or shift too far, longer ones fail |
| `Bytes.DeltaRoundTrip` | lib/aiger/aiger.c:965-984 | every 32-bit value followed by any bytes is read back, from at most five bytes, and exactly those are consumed |
| `Bytes.FifthByteTruncated` | lib/aiger/aiger.c:2330-2373 | a five-byte code of 2^32 is read as 0 |
| `Bytes.ShiftsExact` | lib/aiger/aiger.c:2357-2368 | a code of at most five bytes is read without a shift of int out of its range if and only if its value is below 2^31 |
| `AigFormat.TokenRoundTrip` | lib/aiger/aiger.c:1944-1995 | a printed number and its separator are read back |
| `AigSpelling.TokenExact` | lib/aiger/aiger.c:1944-1995 | for every input: a number is any string of digits followed by the right separator, space or newline, and the error tells what is missing |
| `AigSpelling.MagicExact` | lib/aiger/aiger.c:2040-2066 | a file is accepted as text or as binary exactly if it starts with "aag " or "aig " |
| `AigFormat.OptionalRoundTrip` | lib/aiger/aiger.c:1006-1034 | the optional B C J F fields are read back, however many zeros at their end are left out or spelled out |
| `AigFormat.DefinitionExact` | lib/aiger/aiger.c:1997-2028 | a literal of an input, latch or gate line is refused as invalid if it is constant, negated or out of range, and as a repetition if its variable has a definition |
| `AigFormat.ResetExact` | lib/aiger/aiger.c:2175-2184 | an explicit reset is taken as it stands if it is 0, 1 or the latch itself, and refused otherwise |
| `AigFormat.LatchRoundTrip` | lib/aiger/aiger.c:1046-1067 | a latch line is read back, also when a reset to zero is spelled out |
| `AigFormat.LatchesRoundTrip` | lib/aiger/aiger.c:2145-2188 | all latch lines are read back |
| `AigFormat.JusticeRoundTrip` | lib/aiger/aiger.c:1094-1112 | the sizes and then the literals of the justice properties are read back |
| `AigFormat.RootsRoundTrip` | lib/aiger/aiger.c:2190-2270 | the five root sections are read back |
| `AigFormat.BodyRoundTrip` | lib/aiger/aiger.c:1038-1120 | everything between the counts and the gates is read back, in both formats |
| `AigFormat.HeaderRoundTrip` | lib/aiger/aiger.c:986-1123 | the whole header is read back |
| `AigFormat.AndsRoundTrip` | lib/aiger/aiger.c:2278-2328 | the gate lines of the text format are read back |
| `AigFormat.DeltaAndRoundTrip` | lib/aiger/aiger.c:2375-2414 | a gate of the binary format is read back from its two differences |
| `AigFormat.DeltasRoundTrip` | lib/aiger/aiger.c:2375-2414 | all gates of the binary format are read back, their left-hand sides implied |
| `AigFormat.AsciiRoundTrip` | lib/aiger/aiger.c:1270-1294 | reading the text of any well-formed graph rebuilds it, and consumes all of it, whichever optional counts and resets to zero are spelled out |
| `AigFormat.BinaryRoundTrip` | lib/aiger/aiger.c:1697-1730 | reading the binary form of a graph in normal form rebuilds it if maxvar = inputs + latches + gates and is refused otherwise |
| `AigFormat.ImportAllLeast` | lib/aiger/aiger.c:467-487 | importing the literals of a justice property raises maxvar just as far as they ask for |
| `AigFormat.RowsLeast` | lib/aiger/aiger.c:2235-2255 | reading the justice properties leaves the least maxvar that covers the old one and all their literals |
| `AigFormat.FileLeast` | lib/aiger/aiger.c:2096-2255 | the maxvar of a file that is read is the least number that covers the announced maximum and the variables of all justice literals |
| `AigFormat.AnnouncedKept` | lib/aiger/aiger.c:2235-2255 | a file keeps to its announced maximum if and only if its justice literals do, which nothing checks |
| `AigFormat.RaisedInstance` | lib/aiger/aiger.c:2294-2298 | a concrete file that announces maximum 1 and is read, with a justice literal and a gate of variable 2, as a checked graph |
| `AigWriter.PutDelta` | lib/aiger/aiger.c:965-984 | the loop emits the delta code |
| `AigWriter.PutLatches` | lib/aiger/aiger.c:1046-1067 | the loop emits the latch lines |
| `AigWriter.PutJustice` | lib/aiger/aiger.c:1094-1112 | the loops emit sizes, then literals |
| `AigWriter.PutOptional` | lib/aiger/aiger.c:1006-1034 | emits the optional counts as specified |
| `AigSpelling.OptionalExact` | lib/aiger/aiger.c:1006-1034 | the optional counts are printed up to the last one that is not zero, each behind a space, and none if all are zero |
| `AigSpelling.ResetShown` | lib/aiger/aiger.c:1046-1067 | a latch line has its literal in the text format only, its next state, and its reset exactly when that is not zero |
| `AigWriter.WriteHeader` | lib/aiger/aiger.c:986-1123 | emits the header of the format |
| `AigWriter.WriteAscii` | lib/aiger/aiger.c:1270-1294 | emits the text of a checked graph |
| `AigWriter.PutDeltas` | lib/aiger/aiger.c:1710-1727 | emits the differences of all gates, which count up by two from the last input or latch |
| `AigWriter.WriteBinary` | lib/aiger/aiger.c:1697-1730 | reencodes the graph and emits its binary form |
| `AigWriter.BinaryFileRoundTrip` | lib/aiger/aiger.c:1697-1730 | what the binary writer emits for a checked graph is read back as the reencoded graph, except exactly when the graph was already in normal form with a larger maxvar |
| `AigWriter.OversizedMaxvar` | lib/aiger/aiger.c:2096-2106 | a concrete checked graph whose text is read back and whose binary file is refused |
| `AigSpelling.SampleFiles` | lib/aiger/aiger.c:986-1123 | a graph with every section in use, and its two files byte for byte |
| `AigSpelling.ToggleFile` | lib/aiger/aiger.c:986-1123 | a small file byte for byte, without optional counts and without a reset |
| `AigReader.Reader.NextCh` | lib/aiger/aiger.c:1894-1922 | advances by one character, staying at the end of the file |
| `AigReader.Reader.ReadNumber` | lib/aiger/aiger.c:1924-1942 | reads the longest run of digits, modulo 2^32 |
| `AigReader.Reader.ReadLiteral` | lib/aiger/aiger.c:1944-1995 | reads a number and the separator that has to follow, or reports which is missing |
| `AigReader.Reader.ReadDifference` | lib/aiger/aiger.c:2330-2373 | the loop of the delta reader decodes as the specification |
| `AigReader.ReadMagicInto` | lib/aiger/aiger.c:2040-2066 | reads the format letters |
| `AigReader.ReadOptionalInto` | lib/aiger/aiger.c:2078-2090 | reads the optional counts as far as separators announce them |
| `AigReader.ReadCountsInto` | lib/aiger/aiger.c:2068-2094 | reads the header line |
| `AigReader.CheckDefinitionIn` | lib/aiger/aiger.c:1997-2029 | rejects exactly the literals that cannot be defined, by looking them up in the index |
| `AigReader.ReadInputsInto` | lib/aiger/aiger.c:2120-2143 | reads and adds the inputs |
| `AigReader.ReadLatchInto` | lib/aiger/aiger.c:2147-2187 | reads and adds one latch with its optional reset |
| `AigReader.ReadLatchesInto` | lib/aiger/aiger.c:2145-2188 | reads and adds the latches |
| `AigReader.ReadSectionInto` | lib/aiger/aiger.c:2190-2233 | reads and adds the literals of one section |
| `AigReader.ReadJusticeInto` | lib/aiger/aiger.c:2235-2255 | reads and adds the justice properties; maxvar stays if and only if their literals are within it |
| `AigReader.ReadRootsInto` | lib/aiger/aiger.c:2190-2270 | reads and adds all root sections |
| `AigReader.ReadAsciiAndsInto` | lib/aiger/aiger.c:2278-2328 | reads and adds the gates of the text format |
| `AigReader.ReadBinaryAndsInto` | lib/aiger/aiger.c:2375-2414 | reads and adds the gates of the binary format |
| `AigReader.ReadBodyInto` | lib/aiger/aiger.c:2120-2270 | reads everything between counts and gates |
| `AigReader.ReadGeneric` | lib/aiger/aiger.c:2591-2627 | reads a file as specified, with the same error, and then checks the graph: accepted exactly when it is checked |
| `Bits.CountUnits8Exact` | src/util/bits.h:16-22 | the masking and adding steps count the ones of every 8-bit word |
| `Bits.CountUnits16Exact` | src/util/bits.h:25-31 | of every 16-bit word |
| `Bits.CountUnits32Exact` | src/util/bits.h:34-40 | of every 32-bit word |
| `Bits.CountUnits64Exact` | src/util/bits.h:43-49 | of every 64-bit word |
| `Bits.NibblesCounted` | src/util/bits.h:44-45 | the first two steps leave in every nibble its number of ones |
| `Bits.BytesCounted` | src/util/bits.h:46 | the third step leaves in every byte its number of ones |
| `Bits.Product64` | src/util/bits.h:47-48 | the product with 0x0101… has the sum of the bytes on top, below it less than one unit |
| `SortedSets.SignatureOfUnion` | src/util/bounded_set.h:359 | the signature of a union is the disjunction of the signatures |
| `SortedSets.ApartExact` | src/util/bounded_set.h:309-310 | signatures without a common bit belong to disjoint sets |
| `SortedSets.SubsetSignature` | src/util/bounded_set.h:243-246 | a subset adds no bit to the signature |
| `SortedSets.CountFilterExact` | src/util/bounded_set.h:311-312 | the ones of the joined signatures never exceed the size of the union |
| `SortedSets.SignatureCount` | src/util/bounded_set.h:147-149 | a signature is a 64-bit word with at most as many ones as elements |
| `SortedSets.UnionCount` | src/util/bounded_set.h:322-337 | merging two increasing sequences counts each member of the union once |
| `SortedSets.UnionIncreasing` | src/util/bounded_set.h:280-297 | and keeps them increasing |
| `SortedSets.SameElements` | src/util/bounded_set.h:410-413 | equal sets have equal cells |
| `SortedSets.InsertedExact` | src/util/bounded_set.h:346-357 | inserting at the right place keeps the cells increasing, adds exactly the element, and its bit |
| `BoundedSets.BoundedSet.constructor` | src/util/bounded_set.h:172-180 | an empty set |
| `BoundedSets.BoundedSet.Singleton` | src/util/bounded_set.h:183-193 | a set of one element |
| `BoundedSets.BoundedSet.FromSet` | src/util/bounded_set.h:196-211 | exactly the given elements, whatever order they come in |
| `BoundedSets.BoundedSet.Copy` | src/util/bounded_set.h:214-223 | the same set in a buffer of its own |
| `BoundedSets.BoundedSet.LowerBound` | src/util/bounded_set.h:374 | the first cell that is not below the value |
| `BoundedSets.BoundedSet.Find` | src/util/bounded_set.h:372-377 | the position of the element, or the end exactly when it is absent |
| `BoundedSets.BoundedSet.Contains` | src/util/bounded_set.h:239-261 | true if and only if the other set is a subset |
| `BoundedSets.SubsetFilters` | src/util/bounded_set.h:241-246 | size and signature shortcuts never reject a subset |
| `BoundedSets.BoundedSet.Equals` | src/util/bounded_set.h:399-416 | true if and only if both sets have the same elements |
| `BoundedSets.EqualHashes` | src/util/bounded_set.h:422-427 | equal sets have equal hashes |
| `BoundedSets.BoundedSet.InsertRaw` | src/util/bounded_set.h:343-362 | inserts exactly when there is room and the element is absent; the set stays increasing, in bounds and signed |
| `BoundedSets.BoundedSet.Place` | src/util/bounded_set.h:346-358 | shifts and stores, adding exactly one element |
| `BoundedSets.BoundedSet.MakeRoom` | src/util/bounded_set.h:349-353 | moves the larger cells one up and nothing else |
| `BoundedSets.BoundedSet.Insert` | src/util/bounded_set.h:365-369 | inserts into a mutable set exactly when there is room and the element is absent |
| `BoundedSets.BoundedSet.Assign` | src/util/bounded_set.h:385-396 | refills the half in use with exactly the given elements |
| `BoundedSets.UnionFacts` | src/util/bounded_set.h:305-313 | what the shortcuts rely on: disjoint signatures mean that sizes add up, and joined ones never exceed the union |
| `BoundedSets.BoundedSet.UnionCheck` | src/util/bounded_set.h:304-340 | true if and only if the union has at most maxSize elements, or has 2^16 at least and slips through both filters and the wrapped count; exact whenever the two sizes add up to less than 2^16 |
| `BoundedSets.BoundedSet.UnionSize` | src/util/bounded_set.h:322-337 | the counting loop yields the size of the union modulo 2^16 |
| `BoundedSets.SmallUnions` | src/util/bounded_set.h:304-340 | nothing slips through if the sizes add up to less than 2^16, or if both sets are bounded below 2^15 |
| `BoundedSets.WrappedUnion` | src/util/bounded_set.h:325-337 | a union of 2^16 elements that slips through the check for bound 1: it passes both filters and its count wraps to 0 |
| `BoundedSets.BoundedSet.Merge` | src/util/bounded_set.h:264-301 | unless such an overrun is accepted: true exactly when the union fits; then the set is the union, in the other half, and otherwise unchanged; the other set may be the same object |
| `BoundedSets.BoundedSet.WriteUnion` | src/util/bounded_set.h:276-296 | the three loops write exactly the union into the unused half and leave the live cells alone |
| `TopoSort.EdgeExact` | src/util/graph.h:69-74 | the edges that the search follows are the graph's own edges between its own nodes |
| `TopoSort.ChainReaches` | src/util/graph.h:60-83 | from the started source on every node on the stack leads to those above it |
| `TopoSort.TopSettles` | src/util/graph.h:86-91 | when a node is finished each successor is finished, leads back to it, or is a source |
| `TopoSort.SearchStarts` | src/util/graph.h:52-57 | the sources on the stack satisfy the search invariant |
| `TopoSort.SearchEnters` | src/util/graph.h:74-82 | entering an unvisited node keeps the search invariant |
| `TopoSort.SearchFinishes` | src/util/graph.h:85-91 | finishing a node keeps the search invariant |
| `TopoSort.SourceFinished` | src/util/graph.h:52-57 | when a source is finished all later sources are finished before it |
| `TopoSort.OrderedCount` | src/util/graph.h:95-97 | such a result has as many nodes as the graph if and only if a source leads to every node |
| `TopoSort.NextEdge` | src/util/graph.h:68-83 | the next edge to an unvisited node, or the end, with all passed edges leading to visited nodes |
| `TopoSort.TopologicalSort` | src/util/graph.h:38-98 | for every graph: each node that a source leads to exactly once, the sources in their given order, and an edge whose end does not come later leads back to its start or ends in a source; the cells are all filled, as the source asserts, if and only if a source leads to every node |
| `TopoSort.BackwardEdgeOnCycle` | src/util/graph.h:36-98 | with sources that no edge enters, an edge whose end does not come later lies on a cycle |
| `TopoSort.AcyclicForward` | src/util/graph.h:36-98 | on acyclic graphs every edge goes forward |
| `TopoSort.FeedbackInstance` | src/util/graph.h:36-98 | a concrete acyclic graph whose one edge, between two sources, goes backward in every result |
| `TopoSort.TraverseTopologicalOrder` | src/util/graph.h:112-124 | the handlers are called for all nodes in sorted order, each exactly once and followed by its outgoing edges |
| `TopoSort.NodeOnce` | src/util/graph.h:112-124 | in a complete order every node of the graph is handled exactly once |
| `TopoSort.EdgeEventsTimes` | src/util/graph.h:120-122 | every outgoing edge of a node is handled, in order and as often as it is listed |
| `TopoSort.EdgeTimes` | src/util/graph.h:112-124 | an edge is handled as often as the nodes in the order list it |
| `TopoSort.EdgeBeforeEnd` | src/util/graph.h:112-124 | on acyclic graphs the k-th edge of a node is handled k places after the node and before the node it leads to |
| `Kernel.LiteralContained` | src/util/kitty_utils.cpp:184-191 | having a literal is containing it as a cube |
| `Kernel.FindAnyRepeatLiteral` | src/util/kitty_utils.cpp:100-124 | a literal that two cubes have, or the empty cube exactly when there is none |
| `Kernel.FindDivideByLiteralQuotient` | src/util/kitty_utils.cpp:126-137 | the quotient by the literal: the cubes that contain it, in order, without it |
| `Kernel.FindCommonCube` | src/util/kitty_utils.cpp:139-147 | a cube that all cubes contain: those literals of variable 0 that all cubes have, as both words start from 1 |
| `Kernel.CommonOnesExact` | src/util/kitty_utils.cpp:142-145 | a positive literal survives exactly when it was started from and every cube has it |
| `Kernel.CommonZerosExact` | src/util/kitty_utils.cpp:142-145 | a negative literal survives exactly when it was started from and every cube has it |
| `Kernel.MakeCubeFree` | src/util/kitty_utils.cpp:153-161 | the quotient by the common cube, with as many cubes |
| `Kernel.ContainTwice` | src/util/kitty_utils.cpp:188-195 | containing two disjoint cubes is containing one and, after the cut, the other |
| `Kernel.QuotientTwice` | src/util/kitty_utils.cpp:94-97 | dividing twice is dividing by the joined cube |
| `Kernel.QuotientApart` | src/util/kitty_utils.cpp:94-97 | a later divisor shares no variable with an earlier one |
| `Kernel.SupportFalls` | src/util/kitty_utils.cpp:94-97 | every round leaves fewer variables, so the recursion ends |
| `Kernel.FindAnyLevel0Kernel` | src/util/kitty_utils.cpp:90-98 | terminates; the result is the quotient of the sum by some cube, no literal occurs in two of its cubes, and two cubes at least remain of two |
| `Kernel.KernelCubeFree` | src/util/kitty_utils.cpp:90-98 | such a result with two cubes has no common literal at all |
| `Kernel.DivisionMeans` | src/util/kitty_utils.cpp:126-137 | as Boolean functions the sum is the cube times the quotient plus the remainder |
| `Npn.Renumber` | src/util/kitty_utils.cpp:43-60 | the loop from the last position down gives every input its new number: unreferenced inputs are dropped from above, the others keep their order |
| `Npn.ReferencedKept` | src/util/kitty_utils.cpp:54-59 | a referenced input is kept and its number is among the new inputs |
| `Npn.KeptOrdered` | src/util/kitty_utils.cpp:52-60 | kept inputs are numbered in the order of their positions |
| `Npn.KeptExact` | src/util/kitty_utils.cpp:52-60 | an input stays if and only if some cell refers to it or as many unreferenced ones as have to go are at higher positions |
| `Npn.NewInputExact` | src/util/kitty_utils.cpp:43-60 | an input that stays is numbered by how many at lower positions stay |
| `Npn.DroppableExact` | src/util/kitty_utils.cpp:61-62 | as many inputs as have to go are dropped, as the source asserts, if and only if so many are unreferenced |
| `Npn.TransformCell` | src/util/kitty_utils.cpp:74-89 | every link of a cell is renumbered and negated as the mask says, for outputs also by the output bit |
| `Npn.NpnTransform` | src/util/kitty_utils.cpp:21-88 | the appended cells are the kept inputs and the transformed cells |
| `Npn.ResultWellFormed` | src/util/kitty_utils.cpp:64-86 | the result is a circuit over the kept inputs |
| `Npn.ResultInputs` | src/util/kitty_utils.cpp:64-86 | the result has the smaller of n and nInUsed inputs, and all other cells |
| `Npn.ResultLink` | src/util/kitty_utils.cpp:74-80 | a link to an input leads to the new input whose number is how many at lower positions stay |
| `Npn.DroppedInstance` | src/util/kitty_utils.cpp:47-60 | of two unreferenced inputs around a referenced one the last is dropped |
| `Npn.CellMeans` | src/util/kitty_utils.cpp:21-88 | for every gate library, also when inputs are dropped, every cell computes on the new inputs what it computed on the matching old ones, outputs negated by bit n |
| `Npn.TransformMeans` | src/util/kitty_utils.cpp:21-88 | with all inputs kept, the result on y computes the circuit on x with x[perm[j]] = y[j] xor neg[perm[j]], output xored with bit n |
| `Npn.NegatesLow` | src/util/kitty_utils.cpp:29 | the mask is kept in 16 bits: exactly the bits below 16 act |
| `Npn.Inverse` | src/util/npn_transformation.cpp:13-25 | the inverse permutation, each negation bit moved along, the output bit kept, no bit above |
| `Npn.InverseInvolution` | src/util/npn_transformation.cpp:13-25 | inverting twice restores the permutation and the low n + 1 bits |
| `Npn.InversePermutation` | src/util/npn_transformation.cpp:17-22 | the inverse is a permutation again |
| `Npn.InverseApplicable` | src/util/kitty_utils.cpp:37-62 | the inverse can be applied to the result |
| `Npn.ThereAndBackMeans` | src/util/npn_transformation.cpp:13-25 | transforming and then transforming by the inverse computes the original on the inputs that come through both |
| `Npn.RoundTripExact` | src/util/npn_transformation.cpp:13-25 | the inputs come through unchanged if and only if no negation bit in use moves across bit 16 |
| `Npn.SmallMaskKept` | src/util/npn_transformation.cpp:13-25 | up to 16 inputs no negation bit in use moves across bit 16 |
| `Npn.ThereAndBack` | src/util/npn_transformation.cpp:13-25 | if no negation bit in use moves across bit 16, transforming and transforming by the inverse gives back every cell and its function |
| `Npn.NegationLost` | src/util/kitty_utils.cpp:29 | if one moves across, there is a circuit, the wire of that input, that comes back negated for all inputs |
| `Npn.SeventeenLost` | src/util/kitty_utils.cpp:29 | a concrete transformation of 17 inputs for which that happens |
| `Diagnostics.PrunedHasNoEmptyGroup` | src/diag/diagnostics.cpp:31-34 | pruning leaves no group without entries, also none that became empty by pruning |
| `Diagnostics.PrunedKeeps` | src/diag/diagnostics.cpp:31-34 | events without an empty group are not changed by pruning |
| `Diagnostics.PrunedRemoves` | src/diag/diagnostics.cpp:31-34 | an empty group makes no difference to what pruning leaves, wherever it stands |
| `Diagnostics.PrunedLeaves` | src/diag/diagnostics.cpp:31-34 | pruning neither adds nor drops nor moves a message |
| `Diagnostics.PrunedProper` | src/diag/diagnostics.cpp:26-35 | pruning leaves every end with its beginning |
| `Diagnostics.CountExact` | src/diag/diagnostics.cpp:37-48 | the counters count the entries of their severity |
| `Diagnostics.StandsOpen` | src/diag/diagnostics.cpp:20-24 | opening a group keeps the tree in step with the pruned events |
| `Diagnostics.StandsClose` | src/diag/diagnostics.cpp:26-35 | closing the innermost group, or removing it when empty, keeps the tree in step with the pruned events |
| `Diagnostics.PrunedSolid` | src/diag/diagnostics.cpp:49-50 | a finished list of entries, nested ones included, has nothing to prune |
| `Diagnostics.StandsLeaf` | src/diag/diagnostics.cpp:49-50 | adding an entry, with whatever it nests, keeps the tree in step with the pruned events |
| `Diagnostics.Diagnostics.constructor` | src/diag/diagnostics.h:78 | a new collector stands for no reports |
| `Diagnostics.Diagnostics.Initialize` | src/diag/diagnostics.cpp:13-18 | an emptied collector stands for no reports |
| `Diagnostics.Diagnostics.BeginGroup` | src/diag/diagnostics.cpp:20-24 | after any reports tree, open path and counters stand for the entries so far and the new beginning |
| `Diagnostics.Diagnostics.EndGroup` | src/diag/diagnostics.cpp:26-35 | after any reports tree, open path and counters stand for the entries so far and the new end |
| `Diagnostics.Diagnostics.Add` | src/diag/diagnostics.cpp:37-53 | after any reports tree, open path and counters stand for the entries so far and the new one, told apart by severity; an entry may carry nested ones |
| `Diagnostics.StepIn` | src/diag/processor.cpp:40-49 | entering a subentry emits exactly its next call and leaves less work |
| `Diagnostics.StepOut` | src/diag/processor.cpp:50-55 | leaving an entry emits its closing call, if any, in the context around it |
| `Diagnostics.Processor.Process` | src/diag/processor.cpp:28-59 | the loop terminates and calls as the recursive traversal, closing a root that is not empty |
| `Diagnostics.CallsAnnotate` | src/diag/processor.cpp:40-55 | the calls for a list of entries are its events, each seen inside exactly its enclosing groups |
| `Diagnostics.AnnotatedAt` | src/diag/processor.cpp:40-55 | call number k is the one for event number k, made inside the groups open at its place; the end of a group names the innermost one |
| `Diagnostics.ContextExact` | src/diag/processor.cpp:40-55 | the open groups are as many as beginnings exceed ends, and each entry of the context is a group that began at its level and has not ended |
| `Diagnostics.ReportedCalls` | src/diag/processor.cpp:28-59 | for balanced reports: building and then processing emits the pruned events in context, and one closing call for a root that is not empty |
| `Diagnostics.ShownEntries` | src/diag/processor.cpp:28-59 | the messages shown are those reported, in order, each seen inside the groups open at its place |
| `Diagnostics.ReportAndProcess` | src/diag/diagnostics.cpp:37-53 | reporting and then processing balanced reports emits the pruned events in context, and the counters are the numbers of WARN and ERROR entries modulo 2^32 |
| `NetNodes.AddKeeps` | src/base/model/node.h:148-153 | one appended link extends the index by exactly one connection |
| `NetNodes.DropKeeps` | src/base/model/node.h:155-160 | one removed link takes exactly one connection out |
| `NetNodes.NodeAdded` | src/base/model/node.h:108-115 | a new node starts without links to it |
| `NetNodes.InputsReplaced` | src/base/model/node.h:131-135 | new inputs start without links to the node |
| `NetNodes.FanoutIsArity` | src/base/model/node.h:87-91 | total fan-out equals total arity |
| `NetNodes.Node.AppendLink` | src/base/model/node.h:137-140 | appends the link |
| `NetNodes.Node.RemoveLink` | src/base/model/node.h:142-146 | removes every equal link and keeps the order of the others |
| `NetNodes.WithoutOrder` | src/base/model/node.h:142-146 | removing a link leaves the others at their places |
| `NetNodes.Storage.AppendLinks` | src/base/model/node.h:148-153 | after the loop the links of every node are exactly its connections |
| `NetNodes.Storage.RemoveLinks` | src/base/model/node.h:155-160 | after the loop no link leads to the node, and all others are untouched |
| `NetNodes.Storage.NewNode` | src/base/model/node.h:108-116 | stores the node under the next identifier; the links of every node are exactly its connections without repeats, also for repeated inputs and self-loops |
| `NetNodes.Storage.SetInputs` | src/base/model/node.h:131-135 | replaces the inputs of one node, and the links of every node are again exactly its connections |
| `WildCard.StarTakes` | lib/easyloggingpp/easylogging++.cc:871-876 | '*' takes nothing or one more character |
| `WildCard.OneTakes` | lib/easyloggingpp/easylogging++.cc:865-880 | any other pattern character takes one character that it fits |
| `WildCard.WildCardMatch` | lib/easyloggingpp/easylogging++.cc:862-884 | terminates and returns true if and only if the string splits into blocks, one for each pattern character, that fit it |

## Left out

- Symbol tables and comments of AIGER files, the text of error messages, line numbers, and failures of the underlying streams; what follows the gates in a file is reported as `Trailing`.
- Memory management, string buffers, gzip files, `aiger_coi`, and the functions that open files.
- The state of a graph after a failed check or a failed read: such an object only supports error reporting and deletion.
- Side effects of assertions: `aiger_check` inside `assert` also sets marks in debug builds.
- AigFormat.AsciiRoundTrip: does not carry symbols and comments, because an empty comment is stored as a null pointer and is not written back.
- Aiger.Aiger.Reencode: without the early return, a maxvar of 2^31 - 1, for which the size of the code table wraps to 0, and kept gates that straddle 2^31 are not followed.
- Aiger.Aiger.SetMaxvar: maxima from 2^31 on, whose literals do not fit a word, are not followed.
- AigReader.ReadGeneric: files that announce variables beyond 2^31 - 1 are reported as `HugeIndex` and not followed further, and a reset that `aiger_add_reset` would refuse by an assertion is reported as `BadReset`.
- AigTable.QSortSorts: the sorting inside `qsort` is modelled as an insertion sort, which has the same result on distinct keys; which comparisons `qsort` makes, and so which of them overflow, is not part of this model.
- Bytes.ReadDeltaExact: takes the shift of a fifth byte from 8 on, which leaves the range of `int`, to wrap.
- The disjunction that assembles a delta code: modelled as addition, as the bits are disjoint.
- Bounded sets: allocation and deallocation, the move constructor, the in-place cell of small immutable sets (one array of the exact size instead), negative elements (the residue of a negative element is a negative shift), and the disabled range check. Reads one past the live cells are guarded; the results do not depend on them.
- Topological sorting: node and edge types other than numbers. The callbacks are recorded as events.
- `findBestLiteral`, `cubeFree` and truth tables of `src/util/kitty_utils.cpp`.
- Npn.NpnTransform: circuits are lists of cells appended one by one; what a builder does beyond appending, such as storing long link lists in extra entries, is not part of this model. A reference count is the question whether some cell links to the input. Transformations of 32 inputs and more, for which the source shifts an `int` by its width or more, are not followed.
- Diagnostics.Diagnostics.BeginGroup: the stack of pointers to last children is modelled by its height, which determines it, since each pointer designates the last child of the entry below.
- Diagnostics.Processor.Process: uses the popped entry by value, where the source uses a reference into the stack after popping.
- Net nodes: structural hashing, the constructor that replaces a stored node, and the width of identifiers.
- Everything else of the repository: synthesis, the netlist classes, the shell, printing, and the other third-party libraries.
