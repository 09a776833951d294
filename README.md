# Simple code coverage instrument: coverage bookkeeping

This project models the bookkeeping at the core of `SimpleCodeCoverageInstrument`, a Truffle instrument that measures expression coverage of guest programs.

The instrument keeps `sourceToNotYetCoveredSections`, a map from each `Source` to the set of its `SourceSection`s that were loaded and have not yet executed. There are three operations on it:

- The load listener (`GatherSourceSectionsListener.onLoad`) adds every section the engine loads. It first creates an empty set when the section's source is new. Sections of internal sources are skipped.
- A `CoverageNode` is inserted at every instrumented section. Its `onReturnValue` removes that section from its source's set the first time the code returns normally. A one-shot `covered` flag ensures this happens at most once per node.
- `notYetCoveredLineNumbers(source)` expands every remaining section of a source into its inclusive line range `[startLine, endLine]`. It collects the lines in a set and returns them as a sorted list. `printResults` reports the line count minus that list's size as the covered line count.

Files:

- `coverage_types.dfy` (module `CoverageTypes`): sources, sections, the null dereference the code can raise, and line spans.
- `line_order.dfy` (module `LineOrder`): the in-place ascending sort applied to the line list, and why a sorted list of distinct lines is determined by its elements.
- `instrument.dfy` (module `SimpleCodeCoverage`): the registry and its invariant; the pure transitions `Load`, `Discard` and `ReturnValueStep`; the classes `CoverageInstrument` and `CoverageNode`; the line reduction; the integer part of the report; and lemmas about them.
- `coverage_trace.dfy` (module `CoverageTrace`): whole runs, meaning a sequence of loads followed by a sequence of node returns. It proves what is left in the registry after such a run.

Decisions that shape the model:

- `Source` and `Section` are datatypes. Each carries an `id`, so two sections with the same line span are not assumed to be equal. Section equality belongs to the engine.
- A missing set for a source is a `null` that the code dereferences. This happens in `onReturnValue` at line 337 and in `notYetCoveredLineNumbers` at lines 187-189. The model returns it as the error outcome `NullPointerException` rather than excluding it with a precondition.
- In `onReturnValue`, the flag is set (line 333) before the dereference that can throw (line 337). After such a throw the model therefore has the node covered and the map unchanged, as the code does.
- Where the design description and the code disagree, the model follows the code:
  - The description says that an execution for an unknown source is a no-op. The code throws a `NullPointerException`.
  - The description says that a zero-line source is guarded. The code divides by `lineCount` unguarded (line 171). That is a floating-point division, which is outside the model.
  - The description says that sections with the same span are the same region. The code relies on `SourceSection` equality, which the model leaves abstract.

## Model

| member | source | states |
|---|---|---|
| `SimpleCodeCoverage.Load` | src/main/java/com/oracle/simpletool/SimpleCodeCoverageInstrument.java:236-245 | Loading a section of an internal source leaves the map unchanged. Otherwise the section's source becomes a key, created if absent, and its set afterwards holds exactly the old set plus the section. Every other source's set is unchanged, and the registry invariant is kept. |
| `SimpleCodeCoverage.Discard` | src/main/java/com/oracle/simpletool/SimpleCodeCoverageInstrument.java:334-338 | Removing a node's section fails with a null dereference exactly when the source is not internal and has no set. An internal source changes nothing. Otherwise the keys stay the same, the source's set loses exactly that section, other sources' sets are unchanged, and the invariant is kept. |
| `SimpleCodeCoverage.ReturnValueStep` | src/main/java/com/oracle/simpletool/SimpleCodeCoverageInstrument.java:330-340 | After any call the flag is true. A covered node changes nothing and returns normally. An uncovered node applies `Discard`, and when that throws, the map stays as it was while the flag is still set. |
| `SimpleCodeCoverage.CoverageInstrument.constructor` | src/main/java/com/oracle/simpletool/SimpleCodeCoverageInstrument.java:57 | The registry starts as an empty map that satisfies the invariant. |
| `SimpleCodeCoverage.CoverageInstrument.OnLoad` | src/main/java/com/oracle/simpletool/SimpleCodeCoverageInstrument.java:236-245 | Updates the field in place to `Load` of its old value and keeps the registry invariant. |
| `SimpleCodeCoverage.CoverageInstrument.NotYetCoveredLineNumbers` | src/main/java/com/oracle/simpletool/SimpleCodeCoverageInstrument.java:186-198 | Throws a null dereference exactly when the source has no set. Otherwise it returns a strictly increasing list. An integer is in the list exactly when some remaining section of the source spans it. The map is not modified. |
| `SimpleCodeCoverage.LinesSpanned` | src/main/java/com/oracle/simpletool/SimpleCodeCoverageInstrument.java:188-193 | The nested loops collect exactly the lines `startLine..endLine` of some section in the set. |
| `SimpleCodeCoverage.SortedLines` | src/main/java/com/oracle/simpletool/SimpleCodeCoverageInstrument.java:194-196 | Copying the line set into a list and sorting it gives a strictly increasing list with exactly the set's elements, one per element. |
| `SimpleCodeCoverage.CoverageInstrument.CoverageResults` | src/main/java/com/oracle/simpletool/SimpleCodeCoverageInstrument.java:164-178 | Returns one entry per key of the map, each source once. Each entry holds the source's not-yet-covered lines, as above, and `lineCount` minus their number as the covered count. |
| `SimpleCodeCoverage.CoverageNode.constructor` | src/main/java/com/oracle/simpletool/SimpleCodeCoverageInstrument.java:263-265 | A new node instruments the given section for the given instrument and starts uncovered. |
| `SimpleCodeCoverage.CoverageNode.OnReturnValue` | src/main/java/com/oracle/simpletool/SimpleCodeCoverageInstrument.java:330-340 | Updates the flag and the instrument's map in place, as `ReturnValueStep` of their old values says, and returns its outcome. It keeps the registry invariant. |
| `SimpleCodeCoverage.LoadIdempotent` | src/main/java/com/oracle/simpletool/SimpleCodeCoverageInstrument.java:241-243 | Loading a section that is already present changes nothing (set semantics). |
| `SimpleCodeCoverage.ReturnValueIdempotent` | src/main/java/com/oracle/simpletool/SimpleCodeCoverageInstrument.java:331 | A second `onReturnValue` on the same node changes neither the flag nor the map and returns normally. Two calls therefore leave the state that one call leaves. |
| `SimpleCodeCoverage.SummaryDeterministic` | src/main/java/com/oracle/simpletool/SimpleCodeCoverageInstrument.java:166-177 | For a fixed map, the report's entry for a source is unique. The iteration order of the `HashSet`s cannot change the lines or the count. |
| `SimpleCodeCoverage.CoveredCountBounds` | src/main/java/com/oracle/simpletool/SimpleCodeCoverageInstrument.java:168-171 | When all remaining sections lie within lines `1..lineCount`, the covered count is between 0 and `lineCount`. It equals `lineCount` exactly when no remaining section spans a line. |
| `SimpleCodeCoverage.OverlappingSpansExample` | src/main/java/com/oracle/simpletool/SimpleCodeCoverageInstrument.java:188-197 | Remaining sections spanning lines 5-7 and 6-9 give the list `[5, 6, 7, 8, 9]`. Each line appears once. |
| `SimpleCodeCoverage.TestExpectation` | src/test/java/com/oracle/simpletool/test/SimpleCodeCoverageInstrumentTest.java:47-52 | A 70-line source whose remaining sections touch lines 47-58, 61 and 67 gives exactly the test's 14-element ascending list, and 56 covered lines. |
| `LineOrder.SortAscending` | src/main/java/com/oracle/simpletool/SimpleCodeCoverageInstrument.java:196 | `sortedLines.sort(Integer::compare)` leaves the array ascending and a permutation of its old contents. |
| `LineOrder.InsertAt` | src/main/java/com/oracle/simpletool/SimpleCodeCoverageInstrument.java:196 | One insertion step of the sort: the ascending prefix grows by one element, and the contents stay a permutation. |
| `LineOrder.AscendingSetIsStrict` | src/main/java/com/oracle/simpletool/SimpleCodeCoverageInstrument.java:194-196 | An ascending list that holds exactly the elements of a set, each once, is strictly increasing. It has the set's elements and the set's size. |
| `LineOrder.StrictlyIncreasingUnique` | src/main/java/com/oracle/simpletool/SimpleCodeCoverageInstrument.java:183-184 | Two strictly increasing lists with the same elements are equal. A sorted list of distinct line numbers is therefore determined by its set. |
| `CoverageTrace.LoadAllContents` | src/main/java/com/oracle/simpletool/SimpleCodeCoverageInstrument.java:236-245 | After any sequence of loads into an empty map, the keys are exactly the non-internal sources loaded. Each key's set is exactly its loaded sections, and the invariant holds. |
| `CoverageTrace.ReturnOne` | src/main/java/com/oracle/simpletool/SimpleCodeCoverageInstrument.java:330-340 | Take a well-formed map that has a set for every site's source and from which every covered node's section is gone. One return from such a map throws nothing, covers the node, and removes exactly its section. |
| `CoverageTrace.ReturnAllRemoves` | src/main/java/com/oracle/simpletool/SimpleCodeCoverageInstrument.java:330-340 | Under the same conditions, a sequence of returns throws nothing and covers exactly the nodes that returned. It drops no source, and a section stays exactly when no returned node instruments it. |
| `CoverageTrace.RunRemaining` | src/main/java/com/oracle/simpletool/SimpleCodeCoverageInstrument.java:34-37 | Loads followed by returns, where every node's section was loaded first: each source's set is its loaded sections minus those of the returned nodes. The flags are exactly the returned nodes, nothing throws, and the invariant holds. |
| `CoverageTrace.RunOrderIndependent` | src/main/java/com/oracle/simpletool/SimpleCodeCoverageInstrument.java:331-338 | Two return sequences with the same set of nodes, in any order and with any repetition, end in the same state. |

## Left out

- Truffle wiring is left out: `onCreate`, `enable` and `getOptionDescriptors` (lines 83-138, 212-214), the source-section filter, the `CoverageEventFactory` registration, and the `CLI` option keys. They are calls into the framework with no behaviour of their own. The filter's exclusion of internal code is kept only through the two `isInternal` checks the code does itself.
- `ensurePrintCoverage` (lines 150-154) is left out: it registers a JVM shutdown hook, which is process lifecycle.
- `getSourceToNotYetCoveredSections` (lines 59-61) returns the map itself. In the model the field is readable directly.
- `SimpleCodeCoverage.CoverageInstrument.CoverageResults`: does not model the printing of `printResults`. The `PrintStream` output, the `double` percentage with its `%.2f` format, and `source.getCharacters` (a call into the engine) are left out. It keeps the integer covered count and the line list. The unguarded division by a zero `lineCount` at line 171 is a floating-point division, so it is outside the model.
- `SimpleCodeCoverage.LinesSpanned`: does not model Java `int` overflow of the loop counter at line 190. Line numbers are unbounded integers, and a section ending at `Integer.MAX_VALUE` would make the Java loop run forever.
- `LineOrder.SortAscending`: `List.sort` is a library routine, modelled by an in-place insertion sort on an array. The sorted result of a list of distinct integers is unique, so any correct sort gives the same list.
- `CompilerDirectives.transferToInterpreterAndInvalidate` and `@CompilationFinal` (lines 277, 332) are compiler hints. `covered` is a plain boolean field.
- Concurrency is not modelled. The map is a plain `HashMap` (line 57) and the code makes no thread-safety guarantee, so every operation is a sequential step.
- `SourceSection` equality and hashing, and `Source` identity, belong to the engine. They are modelled as datatype equality over an opaque `id` together with the other attributes.
