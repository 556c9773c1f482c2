# Verified models of the Luau repository

Dafny 4.11 models of the parts of this repository whose correctness is least visible from
one function body, with proofs of what those parts promise. `dafny verify dfyconfig.toml`
checks everything. Each file is one module and models one component:

- `Globbing`, `Subcases`, `SubcaseHash`, `SmallString`, `MultiLane`: the vendored doctest engine
  (`extern/doctest.h`): the wildcard matcher, the subcase re-run machine and the hash it tells
  paths by, the small-buffer string and the sharded atomic counter.
- `BridgeWire`, `BridgeCycles`, `BridgeRefs`, `BridgeCodec`, `BridgeHost`, `BridgeVm`: the
  protected VM bridge (`native-build/bridge.cpp`). `BridgeWire` holds the wire format and its
  reader as functions, `BridgeCycles` what becomes of tables that contain themselves, `BridgeRefs`
  the invariants of the reference tables, `BridgeCodec` the object that encodes and decodes,
  `BridgeHost` what the host can tell from the frames sent to it, `BridgeVm` host calls, callbacks,
  releases and module loading. Lua is an environment that runs any script and may fail wherever
  the bridge calls it.
- `TypeLinks`, `TypeCloning`: the worklist cloner of cyclic type graphs
  (`Analysis/src/Clone.cpp`).
- `PropCompletion`: property completion over cyclic types (`Analysis/src/AutocompleteCore.cpp`).
- `DeltaDebugging`: the two searches of `tools/flag-bisect.py`.
- `HeapGraph`, `HeapCategories`, `HeapReport`, `HeapSnapshot`: heap reachability, the split by
  memory category, the two together, and the DevTools snapshot (`tools/heapgraph.py`,
  `tools/heapsnapshot.py`).
- `FlameGraph`, `TraceAccounting`: the node tree and layout of `tools/svg.py`, and the event loop
  of `tools/tracegraph.py` on top of it.
- `Json`, `JsonEncoder`: the AST encoder (`Analysis/src/AstJsonEncoder.cpp`) and a reader of its
  output after RFC 8259.
- `PowerTable`: the 128-bit power-of-ten approximation (`tools/numprint.py`).
- `Basics`: an option type, "no duplicates" and decimal digits.

Objects that the source changes in place are classes or arenas of nodes with methods that change
them; each method is proved against functions and predicates on values, and the lemmas are about
those. Where program and specification share a function, a lemma says what it answers from fields,
kinds and numbers alone. Some promises hold only under a condition; it is stated and proved exactly, with an input
on which the promise fails:

- What the JSON encoder writes is JSON exactly when every number in the tree is finite, every
  string is well-formed UTF-8, and every node that has no writer hands on to exactly one child
  that writes (or writes nothing as the only element of an array). `Json.PrintReadsBack` states
  it; `Json.InfinityIsRefused`, `Json.HighByteIsRefused` and `Json.TwoPartsAreRefused` give an
  infinite number, a string with the byte 255, and a node such as the one for `f<<number>>`, which
  writes two objects with no comma between them.
- `high128` takes the bit length from a logarithm and loses the top bit of a power of two: it
  computes the floor exactly for all other numbers (`PowerTable.FloorOfWhole`), and gives 0 for 2
  (`PowerTable.TwoIsLost`). `pow10approx` meets no power of two for positive exponents, nor for
  negative ones down to -12654, which is far beyond the table (`PowerTable.LengthIsFound`); there
  it is right. Below that it is right exactly when its scaled whole part is no power of two; no
  exponent is known for which it is one.
- Splitting a heap graph by category loses objects when two categories that occur share a name:
  walk and split together count the reachable new objects exactly when they do not
  (`HeapReport.Report`, `HeapCategories.SplitConserves`, `HeapCategories.SplitLosesOne`).
- A concurrent load of the sharded counter keeps between the totals at its begin and its end under
  every interleaving with given additions exactly when none of them is negative
  (`MultiLane.BoundsNeedGrowth`, `MultiLane.MovedUnitIsSeenTwice`).
- Every leaf of a test body with distinct sibling subcases runs exactly when no path by which a
  leaf is discovered has the hash of a leaf that has run (`Subcases.RunTestCase`). With the
  engine's own hash it fails for `SUBCASE("b")` in line 10 followed by `SUBCASE("a")` in line 42
  of any file: the second never runs (`SubcaseHash.SubcaseNeverRuns`); two siblings of one file
  collide exactly when 32 times the djb2 hash of the name plus the line agree modulo 2^64
  (`SubcaseHash.SiblingsCollide`).
- Sibling subcases of equal signatures: whether a run reads outside the engine's stack is decided
  exactly by `Subcases.StaysInside`, whatever the hash; the least input is a leaf followed by a
  subcase of the same signature that has subcases (`Subcases.EqualSiblings`). And the test body
  may run for ever (`Subcases.NeverEnds`, `SubcaseHash.TestNeverEnds`).
- The type cloner gives up exactly when a limit is set that is at most one more than the clones a call
  needs (`TypeCloning.TypeCloner.CloneAnew`).

The main results about the bridge are `BridgeCodec.SendAndReceive`, that whatever one codec
encodes another reads back as the same values, and `BridgeVm.Serve`, that after any requests and
failures the live function references are just those in the bytes of the frames that the host has
been sent and has not given back, and that no number given back is ever sent again.

## Model

| member | source | states |
|---|---|---|
| Globbing.Wildcmp | extern/doctest.h:4065-4099 | For all texts, patterns and both case modes the matcher terminates and accepts exactly what the declarative glob relation describes |
| Globbing.SkipLiteral | extern/doctest.h:4069-4076 | The star-free start decides a mismatch, or leaves the same question about the rest |
| Globbing.LatestStarSuffices | extern/doctest.h:4078-4093 | Once a later star is reached, retrying from an earlier one can find no match that is lost otherwise |
| Globbing.NextPlace | extern/doctest.h:4089-4092 | After a mismatch, moving the star's end on by one place loses no match |
| Globbing.PendingAtEnd | extern/doctest.h:4078-4098 | At the end of the text, the match is decided by the rest of the pattern alone |
| Globbing.OnlyStarsLeft | extern/doctest.h:4095-4098 | The rest of the pattern matches the empty rest of the text exactly when only stars are left |
| Globbing.MatchesAny | extern/doctest.h:4102-4110 | True exactly when some filter describes the name, or there is none and that is allowed |
| Subcases.RunTestCase | extern/doctest.h:6919-6964 | For a body with distinct siblings and every hash: the runs are those that the engine's choice of the next leaf makes and stay inside its stack; they are one run per leaf in depth-first order, each starting exactly the subcases on its leaf's path, if and only if the hash tells discoveries from leaves that have run; a body without subcases runs once |
| Subcases.AllVisited | extern/doctest.h:6919-6964 | The leaves visited are all leaves in order exactly when no leaf's discovery has the hash of an earlier leaf |
| Subcases.NextIsNext | extern/doctest.h:4171-4208 | After a leaf the next leaf is chosen exactly when its discovery is not taken for one that has run |
| Subcases.SecondIsLost | extern/doctest.h:4171-4187 | Two siblings whose paths have one hash: the second never runs |
| Subcases.ContextState.Open | extern/doctest.h:4157-4187 | Which subcase is entered, and the whole new state; its precondition is that the stack index is in range, which holds in every run of a body with distinct siblings |
| Subcases.ContextState.Close | extern/doctest.h:4193-4208 | The leaf is marked, and a subcase is recorded as traversed exactly when no next path is left |
| Subcases.ContextState.RunSubcase | extern/doctest.h:4157-4208 | For any subcase from any state: the engine does what one pass over it means, and stops exactly where it would read outside its stack |
| Subcases.ContextState.Body | extern/doctest.h:6940-6940 | The same for all subcases of one level |
| Subcases.PassArrives | extern/doctest.h:4157-4208 | With distinct siblings, a run bound for a leaf arrives there, starts just the subcases on its path and plans the leaf that comes next |
| Subcases.RunInside | extern/doctest.h:4157-4187 | A run stays inside the stack exactly when a condition on the test body and the run's target holds, whatever the hash |
| Subcases.EqualSiblings | extern/doctest.h:4170-4174 | Of two siblings of one signature, the first a leaf: a run reads outside the stack exactly when the second has subcases |
| Subcases.NeverEnds | extern/doctest.h:6919-6964 | A subcase, another and the first again, each with a subcase of its own: however often the body has run, another run is due |
| SubcaseHash.SubcaseNeverRuns | extern/doctest.h:4113-4144 | Two subcases of one file, by name and line, of which the second never runs under the engine's own hash |
| SubcaseHash.SiblingsCollide | extern/doctest.h:4113-4144 | Two siblings of one file have the same path hash if and only if 32 times the name's hash plus the line agree modulo 2^64 |
| SubcaseHash.TestNeverEnds | extern/doctest.h:4113-4144 | Concrete signatures for which the test body runs for ever under the engine's own hash |
| SubcaseHash.HashText | extern/doctest.h:4117-4123 | The shifts and additions that wrap around compute djb2 modulo 2^64 |
| SubcaseHash.HashPath | extern/doctest.h:4129-4136 | The loop computes the hash of the first signatures |
| SubcaseHash.TextHashIsPolynomial | extern/doctest.h:4117-4123 | djb2 is 5381 and the signed bytes, weighted with powers of 33, modulo 2^64 |
| SubcaseHash.PathHashIsSum | extern/doctest.h:4113-4136 | The hash of a path is 32 times that of the path before, plus 1024 times the file's, 32 times the name's and the line, modulo 2^64 |
| Subcases.InjectiveHashTells | extern/doctest.h:4129-4144 | If path hashes differ for different paths, the engine never mistakes a new leaf for one already run |
| Subcases.PathsGoThrough | extern/doctest.h:4157-4187 | Every leaf path, and the path of its first discovery, goes through one of the sibling subcases |
| SmallString.RunOps | extern/doctest.h:3550-3679 | In every run of constructions, copies, moves, assignments, appends and destructions of distinct strings, each string equals the plain bytes that the operations mean, no two share memory, no block is deleted twice or read after its deletion, which loses its bytes, and the blocks not yet deleted are just those that some string will delete |
| SmallString.RunProgram | extern/doctest.h:3585-3679 | When all strings are destroyed no block is left |
| SmallString.String.CStr | extern/doctest.h:618-625 | The text stands at the front of a block, ended by a zero inside the block's capacity |
| SmallString.String.Allocate | extern/doctest.h:3550-3563 | Room for exactly the asked size, inline when at most 23 bytes, ended by a zero |
| SmallString.String.FromBytes | extern/doctest.h:3590-3595 | A new string has the given bytes, zeros among them included |
| SmallString.String.Copy | extern/doctest.h:3572-3578 | The target gets the other's text in memory of its own; the other keeps it |
| SmallString.String.Assign | extern/doctest.h:3603-3612 | Copy assignment, also from the string to itself; the old block is deleted once |
| SmallString.String.Append | extern/doctest.h:3614-3662 | The text is the concatenation; it stays inline below 24 bytes, a large enough block is kept, and another is replaced by the larger of twice its size and what is needed; the inline bytes are copied before the fields that share their memory are written |
| SmallString.String.Take | extern/doctest.h:3664-3668 | A move takes over text and block and leaves the other empty |
| SmallString.String.MoveAssign | extern/doctest.h:3670-3679 | Move assignment, also from the string to itself; the old block is deleted once and the other's changes hands |
| MultiLane.MultiLaneAtomic.Load | extern/doctest.h:3418-3424 | Under every interleaving with additions that are not negative the result lies between the totals at the begin and at the end; with none it is the total |
| MultiLane.BoundsNeedGrowth | extern/doctest.h:3408-3424 | Given any additions, the load keeps its bounds under every interleaving with them if and only if none is negative |
| MultiLane.ReadsBetween | extern/doctest.h:3418-3424 | What is read from any lane on lies between what those lanes held and what they hold in the end |
| MultiLane.MovedUnitIsSeenTwice | extern/doctest.h:3408-3424 | A concrete interleaving with a negative addition after which a load sees one unit twice |
| MultiLane.MultiLaneAtomic.FetchAdd | extern/doctest.h:3408-3410 | Adds to the total; returns what the thread's own lane held |
| MultiLane.MultiLaneAtomic.Store | extern/doctest.h:3431-3437 | With additions meanwhile the total is the stored value and exactly those additions that came to a lane after it was written, so with none negative it lies between the value and the value plus all; with none the first lane holds the value |
| MultiLane.ThreadLanes.MyLane | extern/doctest.h:3443-3459 | Threads get lanes in turn, always in range, and keep them, the same for all counters |
| MultiLane.StoreThenAdd | extern/doctest.h:3408-3437 | A store, additions by any threads and a load with nobody else about give the value plus all additions |
| BridgeVm.Serve | native-build/bridge.cpp:389-411 | Over every run of calls, callbacks, releases and failures anywhere, the live references are exactly the numbers in the frames sent to the host that it has not given back, a number given back is in no later frame, and no more frames go out than the limits allow |
| BridgeVm.HostVm.Call | native-build/bridge.cpp:389-400 | A call keeps all references of the host and sends it only new ones, in at most as many frames as the callback limit allows and, if it succeeds, in the frame of at most 64 results with references to just the functions in them; an expired one, one whose arguments exceed the limits and one of a reference that the host does not hold never succeed |
| BridgeVm.HostVm.IdleOwnership | native-build/bridge.cpp:336-351 | Between calls the two reference tables are exact inverses, nothing is pending and the live references are those that the host holds by the frames sent to it |
| BridgeVm.HostVm.InvokeAndSettle | native-build/bridge.cpp:292-351 | On success the results are sent, with references to just the functions in them, on failure everything pending is taken back; every frame but that of the results is a counted callback |
| BridgeVm.HostVm.Protect | native-build/bridge.cpp:336-351 | After the protected call no module counts as loading and nothing is pending |
| BridgeVm.HostVm.HostCall | native-build/bridge.cpp:179-209 | Every call is counted until the budget is exceeded, which expires the call; at most one frame goes out, that of at most 64 arguments, only while the call has not expired and the budget lasts, and it is counted; a failure before it sends the host nothing |
| BridgeVm.HostVm.Deliver | native-build/bridge.cpp:183-190 | What is sent is the frame of the arguments within the limit, with references to just the functions in them, and it is counted as a callback where it goes out |
| BridgeVm.HostVm.Exec | native-build/bridge.cpp:86-94 | Every script, with errors caught and rethrown in any way, keeps the ledger and all budgets, sends nothing more once the call has expired, and is broken off only then |
| BridgeVm.HostVm.Interrupt | native-build/bridge.cpp:86-94 | An expired call is interrupted at every check |
| BridgeVm.HostVm.Require | native-build/bridge.cpp:211-253 | A module that is loaded is answered at once and nothing changes; one that is not registered, or is loading, is an error and nothing changes; the body of any other starts; recursion of modules ends |
| BridgeVm.HostVm.Fetch | native-build/bridge.cpp:292-306 | Only a reference that is live, or an export of a module that is loaded then, can be called |
| BridgeVm.HostVm.RunBody | native-build/bridge.cpp:231-252 | A module's body, which may take any course each time, is recorded once per call when it starts, and once per VM when it completes |
| BridgeVm.HostVm.Execute | native-build/bridge.cpp:308-322 | It succeeds only if the call has not expired |
| BridgeVm.HostVm.Release | native-build/bridge.cpp:405-411 | Exactly the references that the host holds can be given back, and the others stay as they were |
| BridgeVm.HostVm.AddModule | native-build/bridge.cpp:384-388 | A module is registered once, of at most 512 KiB and within the limit of 1024 |
| BridgeVm.StartingIsSound | native-build/bridge.cpp:229-231 | Marking an available module keeps: started at most once per call, nested no deeper than there are modules |
| BridgeVm.CompletingIsSound | native-build/bridge.cpp:250-252 | Completing keeps: completed at most once per VM |
| BridgeVm.AttemptIsSound | native-build/bridge.cpp:181-182 | Counting a host call keeps: callbacks never exceed the limit, and beyond it the call is expired |
| BridgeVm.HandOverBooks | native-build/bridge.cpp:323-328 | A frame that tells of all pending references leaves a clean ledger in which no number is reused |
| BridgeVm.EncodedNumbers | native-build/bridge.cpp:129-143 | After encoding a frame the live references are those that the host held and those in the frame, which are just those of the functions in its values |
| BridgeHost.SentNumbers | native-build/bridge.cpp:110-151 | Reading the bytes of a frame, the host finds the numbers of just the functions in its values |
| BridgeHost.ValueNumbers | native-build/bridge.cpp:110-151 | The same for a value at any depth and in any context |
| BridgeRefs.RollbackIsExact | native-build/bridge.cpp:76-85 | From every state in which a registration may be cut short, rolling back makes the two tables exact inverses |
| BridgeRefs.RegisteringSteps | native-build/bridge.cpp:136-140 | After each step of a registration the tables are consistent, and exact after the last |
| BridgeRefs.TakeBackOne | native-build/bridge.cpp:77-83 | One round of the rollback loop takes back one pending reference in both tables |
| BridgeCodec.Codec.Rollback | native-build/bridge.cpp:76-85 | The loop takes back exactly what is pending |
| BridgeCodec.Codec.Intern | native-build/bridge.cpp:129-143 | A known function keeps its number, a new one gets the next within the limits and nothing else is registered, and a failure at any point leaves the tables consistent |
| BridgeCodec.Codec.Register | native-build/bridge.cpp:136-140 | Memory may run out after any step, and the tables are then those of the steps done |
| BridgeCodec.Codec.Encode | native-build/bridge.cpp:110-151 | On success the bytes, node count and size are those of the value, and besides what was known just its functions are registered; a refusal means that a limit or kind was violated |
| BridgeCodec.Codec.EncodeTable | native-build/bridge.cpp:119-128 | The count patched in afterwards makes the bytes those of the table |
| BridgeCodec.Codec.EncodeFrame | native-build/bridge.cpp:185-190 | On success the output is the frame of the values, keeps to all limits, and registers just the functions in them; it refuses only values that do not |
| BridgeCodec.Codec.Read | native-build/bridge.cpp:103-106 | Reads the next bytes, never past the end of the input |
| BridgeCodec.Codec.Decode | native-build/bridge.cpp:152-178 | On arbitrary bytes it ends within the input, and agrees with the reader of the wire format on value, rest and node count, or on refusal |
| BridgeCodec.Codec.DecodeTable | native-build/bridge.cpp:161-161 | A table's entries are set in order, later ones over earlier ones |
| BridgeCodec.Codec.DecodeHandle | native-build/bridge.cpp:162-175 | Handles are interned: one that is known is found whatever the limit and nothing changes, and of any other only its own entry is made, within the limit |
| BridgeCodec.Codec.DecodeFrame | native-build/bridge.cpp:196-199 | A frame is accepted only with nothing left over |
| BridgeCodec.SendAndReceive | native-build/bridge.cpp:185-199 | End to end: data that is encoded is never refused by the decoder and comes back as the same values; it is encoded unless a limit or kind is violated or memory or references run out |
| BridgeCodec.Codec.Release | native-build/bridge.cpp:405-411 | Removes the reference from both tables and keeps them exact inverses |
| BridgeWire.RoundTrip | native-build/bridge.cpp:110-178 | Every function-free value that the encoder accepts is read back as itself, at any depth, with the rest of the input and the node count exact |
| BridgeWire.FrameRoundTrip | native-build/bridge.cpp:185-199 | A frame of any such values is read back to the same values with nothing left, within the same limits |
| BridgeWire.ValuesRoundTrip | native-build/bridge.cpp:309-312 | The same for a list of values whatever was read before |
| BridgeWire.BytesStable | native-build/bridge.cpp:129-143 | References registered later do not change bytes already written |
| BridgeCycles.CyclicIsRefused | native-build/bridge.cpp:110-128 | A table that leads into a cycle is refused at every depth and however far it is walked |
| BridgeCycles.EncodableIsWhole | native-build/bridge.cpp:110-128 | What is accepted has been walked in full: the depth limit cuts nothing off |
| BridgeWire.ReadU32 | native-build/bridge.cpp:100-109 | Four little-endian bytes give the number back |
| BridgeWire.Parse | native-build/bridge.cpp:152-178 | The reader always leaves less input than it had and counts at most 200000 nodes |
| BridgeWire.Accepts | native-build/bridge.cpp:152-178 | The bytes of every value on the wire, in which tables may repeat keys, are read within the limits as what they mean, whatever comes after them |
| BridgeWire.Recognises | native-build/bridge.cpp:152-178 | Nothing else is read: what the reader accepts begins with the bytes of such a value, with finite numbers, handles of kind 1 or 2 in a scope other than 0, and no more than 33 levels and 200000 nodes |
| BridgeWire.HandleIsRead | native-build/bridge.cpp:162-164 | Tag 7 and three numbers are read as a handle if and only if the kind is 1 or 2 and the scope is not 0 |
| BridgeWire.FiniteByExponent | native-build/bridge.cpp:117-159 | A number is taken exactly when its eleven exponent bits are not all set |
| BridgeWire.LastPairWins | native-build/bridge.cpp:161-161 | In a table that is read, a key that is no table has the value of its last pair, none if that is nil or there is no pair, and no key comes twice; both zeros are one key |
| BridgeWire.TableKeysStay | native-build/bridge.cpp:161-161 | Pairs whose keys are tables all stay, in order, unless their value is nil |
| TypeCloning.TypeCloner.Clone | Analysis/src/Clone.cpp:64-77 | Unless the limit stops it, every original reached has its finished clone, no others have one, and the answer is the place of the type in the clone; true over many calls on one cloner; it is stopped exactly when the steps before, the clones needed and one more reach the limit |
| TypeCloning.TypeCloner.CloneAnew | Analysis/src/Clone.cpp:589-605 | The free function, with a new cloner on shared state: a persistent type is itself, and the limit stops it exactly when it is at most one more than the clones needed, if any |
| TypeCloning.TypeCloner.Run | Analysis/src/Clone.cpp:103-120 | The worklist loop ends, keeping every clone waiting or finished; how many steps it takes, and when it stops early, is exact |
| TypeCloning.TypeCloner.ShallowClone | Analysis/src/Clone.cpp:157-180 | A node gets one clone at most; the result is its place in the clone |
| TypeCloning.TypeCloner.CloneChildren | Analysis/src/Clone.cpp:224-475 | All children of a clone are rewritten to their places, in place |
| TypeCloning.TypeCloner.CloneChild | Analysis/src/Clone.cpp:459-466 | One child is rewritten; all other clones stay as they are |
| TypeCloning.SamePaths | Analysis/src/Clone.cpp:64-120 | Along every path, links followed, original and clone end together, at the same node where it is shared and else at a clone of the same kind, payload, documentation symbol and arity, whose scope is the original's, none for a generic type, and the replacement for a free or table type |
| TypeCloning.CloneOf | Analysis/src/Clone.cpp:157-180 | A finished clone has the original's contents, field by field, is not persistent, and has the places of its children |
| TypeCloning.WalkOn | Analysis/src/Clone.cpp:64-120 | A path goes from the node that is followed to, by one child at each step |
| TypeCloning.SameSharing | Analysis/src/Clone.cpp:123-180 | Two paths meet in the clone's own nodes exactly when they meet in the original, so sharing and cycles are kept and clones are distinct and fresh |
| TypeCloning.SourceUntouched | Analysis/src/Clone.cpp:157-201 | Walks through the source see what they saw before |
| PropCompletion.AutocompleteProps | Analysis/src/AutocompleteCore.cpp:345-719 | It ends on every finite graph, cyclic or not; on types that unfold into a tree it adds exactly the compositional entries |
| PropCompletion.KeysAreOffers | Analysis/src/AutocompleteCore.cpp:606-706 | The compositional entries' names are exactly those offered: own and inherited for a class, table and index for a metatable, some part for an intersection, all options for a union |
| PropCompletion.OptionKeysAreOffers | Analysis/src/AutocompleteCore.cpp:651-706 | A union offers what all its options offer that are not skipped, and nothing if all are |
| PropCompletion.OptionalIsAlone | Analysis/src/AutocompleteCore.cpp:313-330 | A union of one type with any number of nil, error and never types, wherever they stand, completes to what that type gives alone |
| PropCompletion.OptionThatOffersNothing | Analysis/src/AutocompleteCore.cpp:651-706 | A union with an option of any other kind that offers nothing completes to nothing |
| PropCompletion.NearestClassWins | Analysis/src/AutocompleteCore.cpp:528-612 | For a class whose parents are classes, each name is listed with the property of the nearest class that has it, for the class that the search came from, and nothing listed before is replaced |
| PropCompletion.OptionsAreReached | Analysis/include/Luau/Type.h:1131-1253 | The union iterator yields exactly the types that are no unions and can be reached through unions, cyclic or not |
| PropCompletion.FlatOptions | Analysis/include/Luau/Type.h:1131-1253 | Options that are no unions are taken as they stand, in their order |
| PropCompletion.EarlierOptionsFirst | Analysis/include/Luau/Type.h:1131-1253 | Whatever follows in a union comes after the options found before |
| PropCompletion.StringKeysAre | Analysis/src/AutocompleteCore.cpp:613-627 | After a dot, and only there, an indexer offers the string singleton that it is, or those that its union leads to |
| PropCompletion.IndexIsFound | Analysis/src/AutocompleteCore.cpp:582-604 | The index of a metatable leads to the readable `__index` if that is a table, with a metatable or without, or to the result of a function, and nowhere else |
| TypeLinks.FollowIsEnd | Analysis/src/Type.cpp:79-126 | What is followed is the end of the chain of links |
| TypeLinks.FollowsChain | Analysis/src/Type.cpp:79-126 | Every type has such a chain, unless its links go round |
| PropCompletion.CompleteOptions | Analysis/src/AutocompleteCore.cpp:651-706 | The loop over options leaves the properties common to those that are not skipped |
| PropCompletion.KeepCommon | Analysis/src/AutocompleteCore.cpp:667-705 | Each later option removes what it does not have, although it forgets most of `seen` |
| PropCompletion.CompleteParts | Analysis/src/AutocompleteCore.cpp:637-650 | An intersection collects all parts, the first to have a name providing the entry |
| PropCompletion.CompleteMetatable | Analysis/src/AutocompleteCore.cpp:628-636 | The table first, then what its metatable's index leads to |
| PropCompletion.FillMetatableProps | Analysis/src/AutocompleteCore.cpp:582-604 | What `__index` leads to, through tables, metatables and functions |
| PropCompletion.CompleteExtern | Analysis/src/AutocompleteCore.cpp:606-612 | Own readable properties, then those of parents that are not overridden |
| PropCompletion.LessToSee | Analysis/src/AutocompleteCore.cpp:345-350 | The lexicographic measure: unseen unions and intersections, then unseen types |
| PropCompletion.Graph.Options | Analysis/include/Luau/Type.h:1131-1253 | The union iterator yields only types that are no unions, entering each nested union at most once |
| DeltaDebugging.Ddmin | tools/flag-bisect.py:261-290 | The result is an ordered sublist, hot if the input was, and with two or more flags none of them can be dropped |
| DeltaDebugging.DdminParallel | tools/flag-bisect.py:292-350 | The same for every order in which concurrent jobs complete |
| DeltaDebugging.SerialRound | tools/flag-bisect.py:269-287 | A round goes on with the first hot complement, with one slice fewer but at least two, or the first hot slice, with two, and the fewer flags fit the next round; or it shows all complements cold |
| DeltaDebugging.ParallelRound | tools/flag-bisect.py:300-347 | The same with any hot slice or complement, when the first hot completion decides and later ones change nothing |
| DeltaDebugging.PairwiseDisjoints | tools/flag-bisect.py:249-254 | With a granularity between 1 and the length the slices are nonempty and partition the flags in order |
| DeltaDebugging.NextRound | tools/flag-bisect.py:271-287 | The granularity stays between 2 and the length whichever half is taken |
| DeltaDebugging.SinglesAreMinimal | tools/flag-bisect.py:284-287 | Cold complements at the finest granularity mean that no single flag can be dropped |
| DeltaDebugging.ComplementOfSlice | tools/flag-bisect.py:256-258 | For distinct flags the complement of a slice is the list without it |
| HeapGraph.Walk | tools/heapgraph.py:65-152 | The visited objects are exactly those that a way from the roots along strong references leads to, each new one is charged once, at a node to which the names along some way to it lead, every node counts its own objects, and the tree's total is their total size |
| HeapReport.Report | tools/heapgraph.py:65-224 | Walk and split together: the report's total is the size and number of the reachable new objects, each once, if and only if the categories they stay in have different names |
| HeapReport.WalkedTotal | tools/heapgraph.py:65-152 | The tree that the walk leaves has in total the size and number of the charged objects |
| HeapReport.WalkedCategories | tools/heapgraph.py:154-165 | Its categories are exactly those of the charged objects |
| HeapGraph.Enqueue | tools/heapgraph.py:88-152 | Queued is just what the object holds by its own fields, each at the node to which the names that go with it lead; a thread has a stack node even with an empty stack |
| HeapGraph.EdgesAreHeld | tools/heapgraph.py:88-152 | The references followed from an object are just those in its own fields: keys, values, elements and metatable of a table, weak ones left out; environment, proto and upvalues of a function, environment and every stack slot of a thread, constants and inner protos, the target of an upvalue; and the names that each is charged under |
| HeapGraph.WeakIsMode | tools/heapgraph.py:42-97 | A table is weak in keys or values exactly when the first entry of its metatable under `__mode` has a string with that letter |
| HeapGraph.StackEdgeIs | tools/heapgraph.py:133-144 | Every stack slot is charged under the latest frame that was opened, if any, and there under its own name, if it has one |
| HeapGraph.PlacedOn | tools/heapgraph.py:71-81 | What an object holds has its place where the names below the object's own place lead |
| HeapGraph.Tree.Child | tools/svg.py:12-18 | The child of that name, made if missing, with nothing else changed |
| HeapGraph.Tree.Descend | tools/heapgraph.py:99-152 | Following names leads to one node, and totals do not change |
| HeapGraph.Tree.Charge | tools/heapgraph.py:83-86 | One object is added to one node and to the total |
| HeapGraph.ClosedHoldsPath | tools/heapgraph.py:71-81 | A set closed under strong references that holds the roots holds everything reachable |
| HeapCategories.SplitConserves | tools/heapgraph.py:154-216 | Splitting the annotated tree conserves total size and count exactly when occurring categories have distinct names, and never counts an object twice |
| HeapCategories.SplitLosesOne | tools/heapgraph.py:204-216 | Two objects in two categories of one name: the split counts one of them |
| HeapCategories.SplitTree | tools/heapgraph.py:204-224 | The loop over 256 categories builds just the split, for which this holds |
| HeapCategories.FilterTree | tools/heapgraph.py:167-202 | The recursive filter, child by child, equals its specification |
| HeapCategories.FilteredCountsShare | tools/heapgraph.py:167-202 | A filtered tree counts exactly the category's objects, and is left out exactly when there are none |
| HeapCategories.SplitCountsShares | tools/heapgraph.py:204-216 | The split has the names of the occurring categories, and loses objects exactly when two share a name |
| HeapCategories.FilteredKeepsPlaces | tools/heapgraph.py:167-202 | Filtering leaves every object of the category under the same names as before, and no other object |
| HeapCategories.SplitKeepsPlaces | tools/heapgraph.py:204-216 | If the occurring categories have different names, every object is found below the name of its category, under the names under which it was below the root |
| HeapCategories.SharesAreTotal | tools/heapgraph.py:154-216 | Every object belongs to one category below 256, so the shares add up to the whole |
| HeapCategories.AnnotationKeeps | tools/heapgraph.py:154-165 | Merging the categories below a bound changes no size and keeps all in range |
| HeapCategories.UnderAdds | tools/heapgraph.py:210-214 | A tree under a new name adds its total, under a known name it replaces another's |
| HeapSnapshot.Convert | tools/heapsnapshot.py:62-206 | Reading the flat arrays back gives every object once, the registry first: its kind, name, id and size, and an edge to a node exactly where one of its fields refers to that object, of the kind and name that the dump says, as many edges as references; string numbers are injective and in range |
| HeapSnapshot.OutEdgesShow | tools/heapsnapshot.py:104-183 | The edges of an object are just those that its fields show, one for each reference: for a table entry an internal edge to the key and a property edge to the value, named by the string if the key is one; element, context and internal edges for the others |
| HeapSnapshot.NodeIsNamed | tools/heapsnapshot.py:104-187 | Kind and name of the node of every type of object |
| HeapSnapshot.ReadsBack | tools/heapsnapshot.py:66-69 | Nodes at strides of 7 and edges at strides of 3, consumed by edge count, are read back with nothing left, every target being the start of a node |
| HeapSnapshot.ReadAddresses | tools/heapsnapshot.py:40-59 | Every object gets one position, the registry the first |
| HeapSnapshot.Writer.Intern | tools/heapsnapshot.py:89-94 | A string has one number for good, and earlier numbers keep their strings |
| HeapSnapshot.Writer.AddEdge | tools/heapsnapshot.py:85-87 | One edge more, leading to the start of the target's node |
| HeapSnapshot.Writer.AddNode | tools/heapsnapshot.py:81-83 | One node more, whose edge count is the number of edges since the last |
| HeapSnapshot.Writer.WriteObject | tools/heapsnapshot.py:100-189 | The hand-counted edges of every kind of object are those that it refers to, in order |
| HeapSnapshot.Writer.WritePair | tools/heapsnapshot.py:107-128 | Both, one or no edge for a table entry, by what is on the heap |
| HeapSnapshot.Writer.WriteList | tools/heapsnapshot.py:129-186 | One edge for each element of a list, named by its place, its slot or its address, and as many are counted |
| HeapSnapshot.NodesRead | tools/heapsnapshot.py:66-69 | The edges of a node begin where those of all earlier nodes end |
| HeapSnapshot.FlattenAt | tools/heapsnapshot.py:199-200 | Rows of w fields stand at strides of w |
| FlameGraph.Graph.Layout | tools/svg.py:35-51 | Afterwards each width is own plus children, siblings are packed in order of width from the parent's start, and depth grows by one |
| FlameGraph.Graph.Subtree | tools/svg.py:20-30 | Every node once, parents before children |
| FlameGraph.Graph.Child | tools/svg.py:12-18 | The child of that name, made if missing |
| FlameGraph.Graph.Place | tools/svg.py:42-46 | Children side by side from 0 on, widest first and stable |
| FlameGraph.Graph.Measure | tools/svg.py:37-40 | A node is as wide as its own value and its children |
| FlameGraph.Graph.Move | tools/svg.py:48-51 | Children move by the parent's offset, one row below it |
| FlameGraph.RootIsTotal | tools/svg.py:35-46 | The root is as wide as the own values of all nodes together |
| FlameGraph.ChildInside | tools/svg.py:42-51 | With no negative value a child lies inside its parent, clear of the parent's own part, and follows its neighbour without a gap |
| FlameGraph.PackedSiblings | tools/svg.py:42-46 | Of two siblings the wider one, or at equal width the older one, ends before the other begins |
| FlameGraph.RowsDoNotOverlap | tools/svg.py:35-51 | No two nodes of one row overlap anywhere in the graph |
| FlameGraph.PathsTellApart | tools/svg.py:12-18 | No two nodes have the same path of names |
| FlameGraph.ByWidthInOrder | tools/svg.py:44-44 | The stable sort puts wider nodes first and keeps the order of equal ones |
| TraceAccounting.Trace | tools/tracegraph.py:40-92 | Every node has exactly the self times charged to its path; the program stops exactly at an end without its begin |
| TraceAccounting.Draw | tools/tracegraph.py:40-94 | The laid-out root is as wide as all self times together |
| TraceAccounting.ThreadsApart | tools/tracegraph.py:46-51 | However threads interleave, each is charged what it would be charged alone |
| TraceAccounting.SelfTimeConserved | tools/tracegraph.py:73-92 | At any moment self times are the durations of finished outermost events plus what open events hold for finished children |
| TraceAccounting.NestedTotal | tools/tracegraph.py:40-92 | With nested spans on every thread, self times add up to the durations of the outermost spans, and no end lacks its begin |
| TraceAccounting.SpansAreCharged | tools/tracegraph.py:53-92 | Nested spans are charged their own times under their own paths and leave the stack as it was |
| TraceAccounting.ThreadIsCharged | tools/tracegraph.py:46-92 | The same for one thread in the midst of all others |
| TraceAccounting.BalancedIsNested | tools/tracegraph.py:53-84 | A thread's events are those of nested spans exactly when no end lacks its begin and nothing stays open |
| TraceAccounting.NestedIsNotNegative | tools/tracegraph.py:73-80 | If time does not run backwards, no self time is negative |
| TraceAccounting.OrderlySelfs | tools/tracegraph.py:73-92 | Spans side by side take no longer than the time around them |
| TraceAccounting.SumByThread | tools/tracegraph.py:46-51 | All charges together are those of the threads together |
| TraceAccounting.NodeFor | tools/tracegraph.py:56-71 | The path of open events leads to its node and changes no sum |
| Json.PrintReadsBack | Analysis/src/AstJsonEncoder.cpp:88-173 | What is written is JSON text, to its end, if and only if every number is finite, every string is UTF-8 and every run of values has just one; and then it stands for the value |
| Json.ValueReadsBack | Analysis/src/AstJsonEncoder.cpp:277-403 | In any context a proper value is read back whole with the rest untouched, and any other text is refused or left before an object that nothing takes, so braces, brackets and commas are balanced at every depth |
| Json.StringReadsBack | Analysis/src/AstJsonEncoder.cpp:134-173 | Unescaping a written string by section 7 of RFC 8259 gives the original bytes if they are well-formed UTF-8 (section 4 of RFC 3629), and is refused if not |
| Json.RunReadsBack | Ast/src/Ast.cpp:563-570 | Of values with nothing between them the first is read, and no context takes the next |
| Json.NumberStops | Analysis/src/AstJsonEncoder.cpp:108-132 | A number by the full grammar of section 6 of RFC 8259 ends where the text after it begins |
| Json.NumberByGrammar | Analysis/src/AstJsonEncoder.cpp:108-132 | What counts as a number is just what the rules of section 6 of RFC 8259 make: integer, fraction and exponent |
| Json.Utf8Spells | Analysis/src/AstJsonEncoder.cpp:134-173 | Well-formed bytes are the encodings of code points that are no surrogates |
| Json.SpelledIsUtf8 | Analysis/src/AstJsonEncoder.cpp:134-173 | Such encodings are well-formed |
| Json.InfinityIsRefused | Analysis/src/AstJsonEncoder.cpp:108-132 | An infinite number makes text that is no JSON |
| Json.HighByteIsRefused | Analysis/src/AstJsonEncoder.cpp:134-173 | A string constant with the byte 255 makes text that is no JSON |
| Json.TwoPartsAreRefused | Ast/src/Ast.cpp:563-570 | A node without a writer and with two children makes text that is no JSON |
| JsonEncoder.ToJson | Analysis/src/AstJsonEncoder.cpp:1586-1591 | The output is the text of the tree's value; it is JSON, and stands for that value, exactly when every number is finite, every string is UTF-8 and every node without a writer hands on to one child that writes |
| JsonEncoder.ToJsonWithComments | Analysis/src/AstJsonEncoder.cpp:1550-1602 | The same for a tree with its comments, which never break it |
| JsonEncoder.Encoder.AppendChunk | Analysis/src/AstJsonEncoder.cpp:49-71 | Whatever the sizes of the pieces, the joined chunks are all that was written; only a chunk that is one long piece outgrows its reserve |
| JsonEncoder.Encoder.WriteString | Analysis/src/AstJsonEncoder.cpp:134-173 | Writes the quoted and escaped text |
| JsonEncoder.Encoder.WriteValue | Analysis/src/AstJsonEncoder.cpp:277-403 | Any tree, nodes without a writer included, is written as its text, and the comma flag is as before |
| JsonEncoder.Encoder.WriteChildren | Ast/include/Luau/Ast.h:1458-1470 | A node without a writer writes its children one after the other, with nothing between |
| JsonEncoder.Encoder.WriteProp | Analysis/src/AstJsonEncoder.cpp:88-98 | A property is preceded by a comma exactly when one is due |
| JsonEncoder.Encoder.WriteProps | Analysis/src/AstJsonEncoder.cpp:277-287 | Exactly one comma between neighbouring properties |
| JsonEncoder.Encoder.WriteItems | Analysis/src/AstJsonEncoder.cpp:388-403 | Exactly one comma between neighbouring elements |
| JsonEncoder.Encoder.WriteBlock | Analysis/src/AstJsonEncoder.cpp:707-730 | The block's hand-written properties give the same text as an object of four members |
| JsonEncoder.PlaceIsPlain | Analysis/src/AstJsonEncoder.cpp:240-254 | A location needs no escapes |
| JsonEncoder.PlaceReadsBack | Analysis/src/AstJsonEncoder.cpp:240-254 | The text of a location gives back its four numbers: the line and column where it begins, and then where it ends |
| JsonEncoder.CommentSays | Analysis/src/AstJsonEncoder.cpp:1563-1581 | A comment is its type, if it has one of the three, and its location |
| Basics.DecimalValue | Analysis/src/AstJsonEncoder.cpp:240-254 | The digits written for a number stand for it, with no zero in front |
| PowerTable.Pow10Approx | tools/numprint.py:25-36 | r-1 <= x <= r and 2^127 <= r <= 2^128 for all positive exponents, with equality exactly when 5^n < 2^128, and for all negative ones down to -12654; for those below exactly when the scaled whole part is no power of two |
| PowerTable.FractionIsPower | tools/numprint.py:25-36 | The fraction that is approximated is the power of ten, times a power of two |
| PowerTable.LengthIsFound | tools/numprint.py:30-36 | No scaled whole part down to exponent -12654 is a power of two |
| PowerTable.NotJustAbove | tools/numprint.py:30-36 | A power of two above a power of five exceeds it by a fixed share, while the exponent is below the sum of the denominators of two neighbours of the logarithm of five |
| PowerTable.High128 | tools/numprint.py:15-23 | The bit loop computes the floor of the bits below the logarithm, scaled to 128 bits; for a power of two that is nothing |
| PowerTable.FloorOfWhole | tools/numprint.py:15-23 | That is the floor of n * 2^128 / 2^L exactly when n is no power of two |
| PowerTable.TwoIsLost | tools/numprint.py:15-23 | For 2 the bits are lost: 0 is not the floor of the scaled number |
| PowerTable.Pow5High64 | tools/numprint.py:38-43 | The top 64 bits of a power of five |
| PowerTable.PositiveRight | tools/numprint.py:28-29 | A positive power of ten is never a power of two, and its approximation is exact exactly while it fits |
| PowerTable.WholePartIsEnough | tools/numprint.py:30-36 | The scale keeps so many extra bits that the whole part decides the approximation |
| PowerTable.TenIsNotTwo | tools/numprint.py:28-29 | No positive power of ten is a power of two |
| PowerTable.StepIsFloor | tools/numprint.py:19-21 | One bit of the number is one bit of the result, which is not set yet |

## Left out

- doctest: subcase filters, exceptions, `abort_after` and reporters are not modelled; the path hash is any function.
- Subcases.RunTestCase: requires distinct siblings, without which a run may read outside the stack or the loop never end (`Subcases.EqualSiblings`, `Subcases.NeverEnds`); which bodies with equal siblings end all the same is not characterised.
- doctest strings: `substr`, `find`, comparison, appending a string to itself (where the copied ranges overlap), and the 32-bit width of sizes.
- doctest counter: 32-bit overflow.
- Globbing: `tolower` is any function on characters, the same for pattern and text.
- Bridge: Lua's stack, garbage collector, memory accounting (`used`, `peak`) and `errorKind`, statistics, `bind` and `constant`; the deadline is a choice at every interrupt, and every Lua allocation may fail.
- Bridge: module names are numbers; the resolution of relative paths and the compiler are part of "the module has a body, or loading it fails".
- BridgeVm.HostVm.Call: does not say that a call succeeds, because Lua may fail at any point; the checks on null pointers and on the time allowed before a call are left to the caller.
- BridgeWire.RoundTrip: is about values without functions, because function references only travel from the VM to the host; doubles are their eight bytes.
- BridgeCycles: `Unfold` gives the encoder's view of a heap of tables as far as it is walked; the encoder itself takes the values so unfolded.
- Clone: type packs are nodes like types; lazy types, feature flags and further calls on what is left behind after the iteration limit are not modelled. The source graph is finite and closed, its Bound links end, and it is not changed between calls that share a state.
- PropCompletion.AutocompleteProps: the compositional outcome is stated for types that unfold into a finite tree without sharing where one `seen` set is used, and with an empty result where a union stands; termination is for all graphs. `LuauAutocompleteMetatableInheritance` is off.
- PropCompletion: of an entry only its kind, type and containing class are kept; deprecation, parentheses and indexer warnings are not.
- Delta debugging: the program under test is a fixed predicate on lists of distinct flags; timeouts and process handling are not modelled, and cancelled jobs are those that complete after the first hot one.
- HeapGraph.Walk: every address mentioned in the dump is in it, and a thread's names, if any, are at least as many as its stack slots; otherwise the program stops with an error.
- HeapCategories: the annotation and the result of the filter are values rather than nodes changed in place; a category without a name in the dump, where the program stops with an error, is not modelled.
- HeapSnapshot.Convert: the dump is whole, as the program needs it; the number that `int(address, 16)` gives is any function of the address, and the constant header is not modelled.
- FlameGraph: names, text output and colours; nodes stand in an arena in the order of their creation, which is the order of Python's dictionaries. `HeapGraph` has nodes of its own, which count objects.
- TraceAccounting: time stamps are integers, a path element stands for the caption and its arguments, and an unfinished outermost event is charged nothing, as in the program.
- JSON: how numbers are formatted (a finite number's text is any text in the number grammar, a number's text otherwise one of the three that the encoder writes), which nodes have a writer (the block has one of its own; a node without one hands on to nodes only), and optional white space.
- PowerTable: the logarithm is exact; the rounding of the floating-point one and the compact table format are not modelled.
