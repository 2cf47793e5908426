# Faodel: verified models of its core algorithms

Faodel is data-movement middleware for high-performance computing. This project models the parts of
it that are self-contained algorithms, and proves what they promise, for every input and every run:

| file | what it models |
|---|---|
| `Common.dfy` | results, machine words, and copying bytes into a buffer |
| `ReceiveRing.dfy` | the queuing receive buffer of NNTI, a ring of messages of any length in one payload |
| `Dependencies.dfy` | the dependency table of Bootstrap, its transitive closure in place, and the insertion sort by it |
| `Bootstrap.dfy` | Bootstrap's registration and its reference-counted Init, Start and Finish |
| `BackBurner.dfy` | BackBurner workers: callers and server threads interleaving over two queues, counters and a pipe |
| `Strings.dfy` | splitting, joining, paths, numbers in text, sorting |
| `UrlOptions.dfy`, `UrlPaths.dfy`, `ResourceUrl.dfy` | resource URLs: options, path steps, the parser and the printer |
| `ArrowChunks.dfy` | the chunk store of ArrowDataObject in one bounded buffer |
| `SlotVector.dfy` | the NNTI vector that hands out indices |
| `Reservations.dfy` | reservations for the NNTI event queue, threads interleaving over one counter |
| `KelpieKey.dfy` | Kelpie keys: packing, percent-encoding, file names, row tags |
| `Directory.dfy` | the members of a directory entry, joining and leaving |
| `Announcements.dfy` | how the nodes of a configured resource travel as URL options into a directory entry |

`dafny verify dfyconfig.toml` checks all of it.

Concurrent code is modelled as a state machine whose steps are single accesses to shared state, and
the theorems hold for all interleavings. Code that changes objects in place is a class whose methods
are proved against functions on values; the theorems about whole runs are about those functions.

## Where the code does not do what one would expect

The models follow the code. Each of these is stated with the exact condition under which the expected
property holds, and with an input for which it does not.

- A ring that a message fills to the last byte looks empty, and a message that fits nowhere is still
  copied (`CopyInValidIff`, `RunValidIff`; `ExactFillClobbers`, `InadmissibleExamples`).
- Completing a message out of order gives up those before it (`OvertakenIsReleases`,
  `OvertakenInUseIff`; `OvertakenCanBeLost`, `OutOfOrderLosesMessage`).
- Bootstrap does not detect dependency cycles, and each sort of a cyclic list can change it again
  (`StartupOrderRespectsIff`, `StartupOrderStableIff`; `CycleFlips`). Asking for the startup order can
  then make components start in another order than they were initialized in (`StaysInOrderIff`;
  `QueryFlipsEpoch`).
- After an Init that fails, the service can never be initialized again (`ConsistentIff`,
  `FailedInitIsForever`; `FailedInitExample`).
- A BackBurner worker sleeps through tasks whose number is a multiple of 2^32 (`NoLostWakeUp`;
  `LostWakeUp`).
- A URL whose options consist of separators only prints differently after parsing (`PrintAgainIff`;
  `BareSeparators`). Printing sorts the options, which can change what a repeated name reads as
  (`GetAfterSortIff`; `SortChangesLookup`).
- GetLineageReference stops at the first path part, PopDir goes on to the root (`LineageIsPopsIff`;
  `LineageDiffers`).
- PushDir leaves an empty path where the place and the pushed text have only one part together, at
  the root for one (`PushCanonicalIff`, `PushesAreUndoneIff`; `PushWithoutParts`, `SlashesText`).
- Appending a table to an Arrow object can report success and lose the table, because the capacity test
  uses the length before rounding and can wrap around (`AppendTableIff`; `AppendLosesTable`).
- The slot vector skips a slot each time it grows and needs at least four slots (`AddReadyIff`,
  `FourSlotsSuffice`, `EveryFittingRun`; `SmallVectorBreaks`).
- A reservation can be refused although none is held (`RefusedIff`, `RefusedWhenFullIff`;
  `SpuriousRefusal`).
- Unpacking accepts strings that packing never produces (`PackUnpackIff`; `UnpackIgnoresBytes`).
- A configured URL that already has a `num` or `ag<i>` option shadows the announced nodes
  (`ReadBackIff`; `ShadowedNodes`).

Two comments in the source differ from the code. The one on `Make` says that empty inputs make it
fail; the code skips them (`EmptyInputIsSkipped`), and fails exactly when the total size does not fit 32
bits with the meta data (`Make`). `MakePunycode` is not the Punycode of RFC 3492; it is
percent-encoding in the style of section 2.1 of RFC 3986, with lower-case digits.

## Model

| member | source | states |
|---|---|---|
| `ReceiveRing.RefusedIff` | src/nnti/nnti_buffer.hpp:284-311 | a message is refused if and only if the bytes between the offsets are too few; any other goes to the write offset, or to the front if and only if it fits there and not at the back |
| `ReceiveRing.LiveRegion` | src/nnti/nnti_buffer.hpp:284-311 | where live messages can lie, given only the two offsets: between them, or outside when wrapped |
| `ReceiveRing.LiveDisjoint` | src/nnti/nnti_buffer.hpp:273-325 | no two live messages share a byte |
| `ReceiveRing.CopyInKeepsLayout` | src/nnti/nnti_buffer.hpp:284-311 | an admissible message keeps the straight or wrapped layout, gap at the back included |
| `ReceiveRing.CopyInKeepsBytes` | src/nnti/nnti_buffer.hpp:284-311 | an admissible message leaves the bytes of all live messages as they were sent |
| `ReceiveRing.CopyInValidIff` | src/nnti/nnti_buffer.hpp:284-311 | copy_in keeps the ring valid if and only if the message neither overflows nor fills the ring exactly |
| `ReceiveRing.ExactFillClobbers` | src/nnti/nnti_buffer.hpp:287-300 | after any exact fill some next message is placed on top of a live one |
| `ReceiveRing.InadmissibleExamples` | src/nnti/nnti_buffer.hpp:297-311 | four and five bytes sent to an empty ring of four bytes are accepted and leave it invalid |
| `ReceiveRing.CompleteKeepsValid` | src/nnti/nnti_buffer.hpp:327-350 | completing the oldest message keeps the ring valid, in either layout and across the gap |
| `ReceiveRing.InOrderWarningIff` | src/nnti/nnti_buffer.hpp:343-345 | in-order completions are logged as out of order exactly when the message follows a gap |
| `ReceiveRing.CopySparesInUse` | src/nnti/nnti_buffer.hpp:284-311 | an admissible message changes no byte between the two offsets |
| `ReceiveRing.OvertakenIsReleases` | src/nnti/nnti_buffer.hpp:334-346 | completing a message out of order is completing every message up to it; the later ones stay valid |
| `ReceiveRing.OvertakenExposes` | src/nnti/nnti_buffer.hpp:334-346 | no byte of the messages up to the completed one is in use any more |
| `ReceiveRing.OvertakenInUseIff` | src/nnti/nnti_buffer.hpp:334-346 | a byte of a live message stays in use if and only if the message comes after the completed one |
| `ReceiveRing.OvertakenCanBeLost` | src/nnti/nnti_buffer.hpp:334-346 | for every byte of every overtaken message, a run of admissible sends and in-order releases that puts any value there |
| `ReceiveRing.OutOfOrderLosesMessage` | src/nnti/nnti_buffer.hpp:334-346 | a live message overwritten two admissible sends after a later one was completed |
| `ReceiveRing.RunValidIff` | src/nnti/nnti_buffer.hpp:273-350 | a run keeps the ring valid in every state if and only if each of its sends is admissible |
| `ReceiveRing.RunIsFifo` | src/nnti/nnti_buffer.hpp:273-350 | in a valid run what was delivered, then what is live, is what was accepted, byte for byte |
| `ReceiveRing.RunAccepts` | src/nnti/nnti_buffer.hpp:284-311 | over every run exactly the messages for which there was room are accepted, in the order sent |
| `ReceiveRing.EveryRun` | src/nnti/nnti_buffer.hpp:273-350 | for every payload and every run of admissible sends: live messages inside, disjoint, intact, delivered in order |
| `ReceiveRing.DrainReturnsToWrite` | src/nnti/nnti_buffer.hpp:327-350 | completing all live messages brings the read offset to the write offset |
| `ReceiveRing.ReceiveBuffer.constructor` | src/nnti/nnti_buffer.hpp:134-156 | a new buffer is a valid empty ring |
| `ReceiveRing.ReceiveBuffer.CopyIn` | src/nnti/nnti_buffer.hpp:273-325 | refines the ring's send step, with the offsets for which it refuses and where it puts the rest; without queuing, accepts up to the payload's end in 64-bit arithmetic |
| `ReceiveRing.ReceiveBuffer.EventComplete` | src/nnti/nnti_buffer.hpp:327-350 | the read offset in 64-bit arithmetic for any event; refines the release step for the oldest message and the overtaking step for the others |
| `Dependencies.AllNames` | src/faodel-common/BootstrapImplementation.cpp:468-472 | the names of exactly the registered components |
| `Dependencies.DirectDependencies` | src/faodel-common/BootstrapImplementation.cpp:475-496 | fails exactly on a missing requirement; otherwise all requirements and the available optionals |
| `Dependencies.ExpandDependencies` | src/faodel-common/BootstrapImplementation.cpp:466-499 | succeeds if and only if every requirement is registered, with the table of direct dependencies |
| `Dependencies.ClosedContainsPaths` | src/faodel-common/BootstrapImplementation.cpp:517-539 | a closed table that contains another one contains everything reachable in it |
| `Dependencies.ExpandItem` | src/faodel-common/BootstrapImplementation.cpp:523-538 | one work item gains exactly its parents' dependencies, and reports growth if and only if there was any |
| `Dependencies.GrowthAddsPairs` | src/faodel-common/BootstrapImplementation.cpp:523-538 | a work item that grows adds a pair to the table, one that does not is closed |
| `Dependencies.Pass` | src/faodel-common/BootstrapImplementation.cpp:520-539 | one pass over the table in place adds only what is reachable; it repeats only after adding, and otherwise the table is closed |
| `Dependencies.CloseTable` | src/faodel-common/BootstrapImplementation.cpp:517-539 | the loop ends for every table, cyclic ones included, with exactly the reachable names of each component |
| `Dependencies.Spot` | src/faodel-common/BootstrapImplementation.cpp:543-554 | the position of the first component that depends on the new one, or the back |
| `Dependencies.InsertInto` | src/faodel-common/BootstrapImplementation.cpp:543-554 | the search loop inserts there |
| `Dependencies.SortList` | src/faodel-common/BootstrapImplementation.cpp:541-557 | the loop over all components is the repeated insertion |
| `Dependencies.SortedIsPermutation` | src/faodel-common/BootstrapImplementation.cpp:541-557 | sorting permutes the list, whatever the table |
| `Dependencies.InsertKeepsOrdered` | src/faodel-common/BootstrapImplementation.cpp:543-554 | in front of the first dependent is a right place, because the table is transitive |
| `Dependencies.SortedIsOrdered` | src/faodel-common/BootstrapImplementation.cpp:541-557 | with a transitive table without mutual dependencies, nothing depends on what comes after it |
| `Dependencies.SortedFixedIff` | src/faodel-common/BootstrapImplementation.cpp:541-557 | sorting leaves a list as it is if and only if it is in order |
| `Dependencies.AncestorIff` | src/faodel-common/BootstrapImplementation.cpp:517-539 | the closed table relates two components if and only if a chain of dependencies does |
| `Dependencies.ClosureIsAncestors` | src/faodel-common/BootstrapImplementation.cpp:517-539 | there is one closed table for a list, whatever the order of the walk |
| `Dependencies.SortDependencies` | src/faodel-common/BootstrapImplementation.cpp:508-560 | fails exactly on a missing requirement and then changes nothing; otherwise gives the startup order |
| `Dependencies.CyclicHasNoOrder` | src/faodel-common/BootstrapImplementation.cpp:508-560 | no list with a cycle is in order, in whatever order it is |
| `Dependencies.StartupOrderRespectsIff` | src/faodel-common/BootstrapImplementation.cpp:466-560 | the startup order is a permutation; every component follows everything it depends on, directly or not, if and only if there is no cycle |
| `Dependencies.DependenciesComeFirst` | src/faodel-common/BootstrapImplementation.cpp:475-557 | what a component requires, and whatever optional one is there, comes before it |
| `Dependencies.MissingWantIgnored` | src/faodel-common/BootstrapImplementation.cpp:487-492 | an optional component that is not there does not matter |
| `Dependencies.StartupOrderStableIff` | src/faodel-common/BootstrapImplementation.cpp:541-602 | sorting a sorted list changes nothing if and only if there is no cycle |
| `Dependencies.DirectTableIsNotEnough` | src/faodel-common/BootstrapImplementation.cpp:517-557 | the same insertion with direct dependencies only gets three components in a wrong order |
| `Dependencies.CycleFlips` | src/faodel-common/BootstrapImplementation.cpp:541-557 | two components that need each other change places |
| `Bootstrap.Attempted` | src/faodel-common/BootstrapImplementation.cpp:227-242 | init functions are called up to and including the first that throws |
| `Bootstrap.PhaseAfter` | src/faodel-common/BootstrapImplementation.cpp:172-424 | when each operation moves from one state to another, and that nothing else does |
| `Bootstrap.FailedInitCalls` | src/faodel-common/BootstrapImplementation.cpp:221-242 | a failing Init has called nothing, or the init functions in startup order up to the first that throws |
| `Bootstrap.RegisteredAre` | src/faodel-common/BootstrapImplementation.cpp:74-107 | which components are registered after a registration: added, replaced in place of one of the same name, or as before |
| `Bootstrap.QuerySorts` | src/faodel-common/BootstrapImplementation.cpp:592-602 | in any state a query keeps the components and orders them by dependency if and only if there is no cycle; with a requirement missing it changes nothing |
| `Bootstrap.FinishedList` | src/faodel-common/BootstrapImplementation.cpp:379-418 | the last caller's clearing Finish empties the list, and any other keeps all components |
| `Bootstrap.RegisteredStays` | src/faodel-common/BootstrapImplementation.cpp:62-424 | over every run that neither clears nor replaces it, a registered component stays in the list and in every later epoch |
| `Bootstrap.CallersCountUsers` | src/faodel-common/BootstrapImplementation.cpp:172-294 | in every run the caller count is Inits minus Finishes that did not throw |
| `Bootstrap.InitConsistentIff` | src/faodel-common/BootstrapImplementation.cpp:172-254 | Init keeps state and count in agreement if and only if it does not fail |
| `Bootstrap.FailedInitIsForever` | src/faodel-common/BootstrapImplementation.cpp:179-184 | once an Init has failed, no run calls any component again |
| `Bootstrap.ConsistentIff` | src/faodel-common/BootstrapImplementation.cpp:172-424 | the state is uninitialized exactly when nobody uses it, at the end of exactly the runs without a failing Init |
| `Bootstrap.FailedInitExample` | src/faodel-common/BootstrapImplementation.cpp:179-225 | a run of one registration and one Init that ends uninitialized with one caller |
| `Bootstrap.RegisterKeepsUnique` | src/faodel-common/BootstrapImplementation.cpp:62-108 | registering, overwriting included, keeps names unique |
| `Bootstrap.FirstInit` | src/faodel-common/BootstrapImplementation.cpp:221-251 | the first Init calls all init functions in startup order |
| `Bootstrap.OrderOfEpoch` | src/faodel-common/BootstrapImplementation.cpp:508-560 | the order of an epoch: its components, each once, respecting all dependencies if and only if there is no cycle |
| `Bootstrap.LastFinish` | src/faodel-common/BootstrapImplementation.cpp:370-424 | the last Finish completes exactly the calls of one epoch |
| `Bootstrap.QueryWatchedIff` | src/faodel-common/BootstrapImplementation.cpp:592-602 | GetStartupOrder inside an open epoch keeps its order if and only if there is no cycle |
| `Bootstrap.FinishWatched` | src/faodel-common/BootstrapImplementation.cpp:407-418 | a Finish, also one that leaves the list reversed, keeps the log a series of epochs |
| `Bootstrap.StaysInOrderIff` | src/faodel-common/BootstrapImplementation.cpp:172-602 | a run keeps every open epoch in the order of its first Init, in every state, if and only if nobody queries inside an open epoch with a cycle |
| `Bootstrap.EveryRunIsEpochs` | src/faodel-common/BootstrapImplementation.cpp:172-424 | the log of every such run is a series of epochs, each over the list its first Init found: every component once, init and start in startup order, finish in the exact reverse, respecting dependencies if and only if that list has no cycle |
| `Bootstrap.AcyclicRunIsEpochs` | src/faodel-common/BootstrapImplementation.cpp:227-602 | with acyclic lists no query disturbs anything and every epoch respects all dependencies |
| `Bootstrap.QueryFlipsEpoch` | src/faodel-common/BootstrapImplementation.cpp:541-602 | two components that need each other are initialized in one order and, after a query, started in the other |
| `Bootstrap.OnlyLastFinishRunsFini` | src/faodel-common/BootstrapImplementation.cpp:370-418 | only the last caller's Finish of a started epoch calls finish functions: those of the whole list, from back to front |
| `Bootstrap.FinishedOnce` | src/faodel-common/BootstrapImplementation.cpp:407-413 | each component of an epoch occurs once in its finish order |
| `Bootstrap.EveryRunFinishes` | src/faodel-common/BootstrapImplementation.cpp:370-418 | over every run that no query disturbs, failing Inits included, the finish functions called are those of the started epochs that are over, each component once per epoch |
| `Bootstrap.BootstrapService.constructor` | src/faodel-common/BootstrapImplementation.cpp:30-40 | a new service is uninitialized and has no users and no components |
| `Bootstrap.BootstrapService.HasComponent` | src/faodel-common/BootstrapImplementation.cpp:315-320 | finds exactly the registered names |
| `Bootstrap.BootstrapService.RegisterComponent` | src/faodel-common/BootstrapImplementation.cpp:116-163 | adds, replaces or refuses as the step says, and when it throws |
| `Bootstrap.BootstrapService.CallAll` | src/faodel-common/BootstrapImplementation.cpp:227-242 | calls each component's function in list order until one throws |
| `Bootstrap.BootstrapService.Init` | src/faodel-common/BootstrapImplementation.cpp:172-254 | refines the Init step; throws exactly on a missing requirement or a throwing component |
| `Bootstrap.BootstrapService.Start` | src/faodel-common/BootstrapImplementation.cpp:260-284 | refines the Start step; throws exactly when uninitialized |
| `Bootstrap.BootstrapService.StartWith` | src/faodel-common/BootstrapImplementation.cpp:291-294 | Init, and Start only for the caller that initialized |
| `Bootstrap.BootstrapService.Finish` | src/faodel-common/BootstrapImplementation.cpp:362-424 | refines the Finish step; throws exactly when uninitialized; empties the list exactly for the last caller that clears, and otherwise keeps all components |
| `Bootstrap.BootstrapService.GetStartupOrder` | src/faodel-common/BootstrapImplementation.cpp:592-602 | sorts the list as a side effect, by dependency if and only if there is no cycle, and returns its names |
| `BackBurner.StepKeepsMutex` | src/faodel-services/BackBurner.cpp:201-280 | every step keeps mutual exclusion |
| `BackBurner.StepConserves` | src/faodel-services/BackBurner.cpp:201-280 | no step loses, repeats or reorders a task, the queue swap included |
| `BackBurner.StepKeepsCount` | src/faodel-services/BackBurner.cpp:204-216 | modulo 2^32 the counters differ by the counted tasks in the producer queue |
| `BackBurner.StepKeepsWake` | src/faodel-services/BackBurner.cpp:201-280 | whenever the counters differ, a token is there or coming, or the server is past its sleep |
| `BackBurner.RunKeepsInv` | src/faodel-services/BackBurner.cpp:201-280 | every interleaving of any number of callers with the server keeps all of these |
| `BackBurner.TokensBalance` | src/faodel-services/BackBurner.cpp:180-195 | over every run the tokens in the pipe are the notifications minus the wake-ups |
| `BackBurner.TasksAreConserved` | src/faodel-services/BackBurner.cpp:201-276 | executed, then consumer queue, then producer queue, is the submitted sequence |
| `BackBurner.NoLostWakeUp` | src/faodel-services/BackBurner.cpp:180-280 | when the server sleeps with no call under way, the queue holds a multiple of 2^32 tasks, and below 2^32 everything has run |
| `BackBurner.LostWakeUp` | src/faodel-services/BackBurner.cpp:210-218 | a reachable state in which the server sleeps and 2^32 tasks wait |
| `BackBurner.ServerRunsAreBounded` | src/faodel-services/BackBurner.cpp:238-280 | left alone the server stops after a bounded number of steps |
| `BackBurner.ServerStuckIffAsleep` | src/faodel-services/BackBurner.cpp:238-280 | the server has no step left if and only if it is asleep |
| `BackBurner.ServerRunsDrain` | src/faodel-services/BackBurner.cpp:238-280 | any such stop leaves every submitted task executed, below 2^32 tasks |
| `BackBurner.RouteIff` | src/faodel-services/BackBurner.cpp:110-118 | two tags share a worker if and only if they differ by a multiple of the number of workers, and the first tags each have their own |
| `BackBurner.SystemRunKeepsInv` | src/faodel-services/BackBurner.cpp:100-118 | tag routing and per-tag order are kept by every move of any worker |
| `BackBurner.SameTagInOrder` | src/faodel-services/BackBurner.cpp:100-118 | with any number of workers, the tasks of one tag run once and in submission order |
| `BackBurner.AddWorkRun` | src/faodel-services/BackBurner.cpp:210-218 | an undisturbed AddWork is a run of the protocol with the stated result |
| `BackBurner.ServeRun` | src/faodel-services/BackBurner.cpp:244-280 | an undisturbed pass of the server loop is a run of the protocol with the stated result |
| `BackBurner.WorkerThread.constructor` | src/faodel-services/BackBurner.cpp:121-128 | a new worker is the initial state of the protocol |
| `BackBurner.WorkerThread.AddWork` | src/faodel-services/BackBurner.cpp:210-218 | the method does what such a run does |
| `BackBurner.WorkerThread.ServeOnce` | src/faodel-services/BackBurner.cpp:244-280 | the loop body does what such a run does |
| `Strings.FindAny` | src/faodel-common/ResourceURL.cpp:252-315 | the first position with one of the characters, or the end |
| `Strings.FindLast` | src/faodel-common/ResourceURL.cpp:350-350 | the last position of a character, or none |
| `Strings.JoinFields` | src/faodel-common/StringHelpers.cpp:306-318 | splitting with empty fields loses nothing: joining gives the text back |
| `Strings.TokensAreClean` | src/faodel-common/StringHelpers.cpp:306-318 | splitting yields non-empty tokens without the separator |
| `Strings.SplitJoin` | src/faodel-common/StringHelpers.cpp:438-446 | splitting what was joined gives the tokens back |
| `Strings.TokensAppend` | src/faodel-common/StringHelpers.cpp:306-318 | the tokens of two texts joined by the separator are those of both |
| `Strings.Split` | src/faodel-common/StringHelpers.cpp:306-318 | the loop yields the fields, with or without empty ones |
| `Strings.JoinTokens` | src/faodel-common/StringHelpers.cpp:438-446 | the loop puts separators between tokens only |
| `Strings.SplitJoinPath` | src/faodel-common/StringHelpers.cpp:412-435 | the parts of a joined path are the ones that were joined |
| `Strings.JoinPathLoop` | src/faodel-common/StringHelpers.cpp:426-435 | the loop joins the first parts, each behind a slash |
| `Strings.HexRoundTrip` | src/faodel-common/NodeID.cpp:235-240 | a number printed in hexadecimal reads back as itself |
| `Strings.HexPrintRead` | src/faodel-common/NodeID.cpp:83-93 | a hexadecimal text without capitals and leading zeros is printed back from its value |
| `Strings.HexReadsAlike` | src/faodel-common/NodeID.cpp:83-93 | leading zeros do not change the value |
| `Strings.HexInjective` | src/faodel-common/DirectoryInfo.cpp:113-115 | different numbers print differently |
| `Strings.DecRoundTrip` | src/faodel-common/DirectoryInfo.cpp:46-47 | a number printed in decimal reads back as itself |
| `Strings.SortPermutes` | src/faodel-common/ResourceURL.cpp:475-475 | sorting permutes |
| `Strings.SortInOrder` | src/faodel-common/ResourceURL.cpp:475-475 | sorting puts strings in the order of std::string |
| `Strings.SortUnique` | src/faodel-common/ResourceURL.cpp:475-475 | an ordered permutation is unique, so std::sort gives this one |
| `UrlOptions.SetTokens` | src/faodel-common/ResourceURL.cpp:423-446 | SetOption replaces the first token of the name or adds one at the end; no other token changes |
| `UrlOptions.GetAfterSetIff` | src/faodel-common/ResourceURL.cpp:423-465 | what is set is read, for every default, if and only if name and value hold no separator |
| `UrlOptions.GetOtherAfterSet` | src/faodel-common/ResourceURL.cpp:423-465 | setting one option does not change what another name reads as |
| `UrlOptions.RemoveTokens` | src/faodel-common/ResourceURL.cpp:507-521 | RemoveOption deletes every token of the name and keeps the others in order |
| `UrlOptions.GetAfterRemove` | src/faodel-common/ResourceURL.cpp:455-521 | after removal the name is gone and other names read as before |
| `UrlOptions.LastInIs` | src/faodel-common/ResourceURL.cpp:507-521 | the value that removal returns is that of the last option of the name, or nothing |
| `UrlOptions.SortedTokens` | src/faodel-common/ResourceURL.cpp:472-477 | sorted options hold the sorted tokens, and sorting again changes nothing |
| `UrlOptions.GetAfterSortIff` | src/faodel-common/ResourceURL.cpp:472-477 | sorting changes no lookup of a name if and only if its first option is its least |
| `UrlOptions.SortChangesLookup` | src/faodel-common/ResourceURL.cpp:455-477 | an option string in which sorting changes what a name reads as |
| `UrlOptions.SetToken` | src/faodel-common/ResourceURL.cpp:436-443 | the search loop does that to the token list |
| `UrlOptions.GetToken` | src/faodel-common/ResourceURL.cpp:459-464 | the search loop returns the value of the first option of the name |
| `UrlOptions.EraseTokens` | src/faodel-common/ResourceURL.cpp:512-518 | the loop that erases and steps back ends, misses no token, and returns the last value removed |
| `UrlPaths.PopTimesIs` | src/faodel-common/ResourceURL.cpp:161-176 | the k-th PopDir leaves the parts of the path but the last k-1 |
| `UrlPaths.LineageIsPopsIff` | src/faodel-common/ResourceURL.cpp:187-214 | GetLineageReference(k) is k calls of PopDir if and only if the path has k parts or there is nothing to pop; with k zero it needs a path |
| `UrlPaths.LineageDiffers` | src/faodel-common/ResourceURL.cpp:199-205 | two steps back from /a/b end at /a, two PopDir calls at the root |
| `UrlPaths.PopPushIff` | src/faodel-common/ResourceURL.cpp:141-176 | popping what was pushed restores the place if and only if it was in canonical form |
| `UrlPaths.PushCanonicalIff` | src/faodel-common/ResourceURL.cpp:141-153 | for every place and pushed text, PushDir leaves a path, and a canonical place, if and only if both have more than one part together |
| `UrlPaths.PushesAreUndoneIff` | src/faodel-common/ResourceURL.cpp:141-176 | any series of single-part pushes is undone by as many pops if and only if the place was canonical, the root included; and when the first of these pops leads to the place before the last push |
| `UrlPaths.PushWithoutParts` | src/faodel-common/ResourceURL.cpp:150-152 | three places without parts, the root among them, from which a push leaves an empty path |
| `ResourceUrl.Turn` | src/faodel-common/ResourceURL.cpp:252-315 | every turn of the parser's loop moves forward, so it ends |
| `ResourceUrl.HexValueBound` | src/faodel-common/StringHelpers.cpp:699-717 | up to eight digits fit 32 bits, up to sixteen fit 64 |
| `ResourceUrl.TurnStopsIff` | src/faodel-common/ResourceURL.cpp:252-315 | exactly when a turn fails: an unclosed bucket or node, or a type that is not at the start and closed by a colon |
| `ResourceUrl.TurnShift` | src/faodel-common/ResourceURL.cpp:252-315 | behind the type a turn depends only on the text that is left |
| `ResourceUrl.TypeAliases` | src/faodel-common/ResourceURL.cpp:291-325 | for every rest of a text: lkv and localkv read as local, ref as no type, and capitals do not matter |
| `ResourceUrl.NoTypeAtAll` | src/faodel-common/ResourceURL.cpp:252-300 | a text that begins with its node, bucket, path or options reads like one with an empty type |
| `ResourceUrl.ShortTexts` | src/faodel-common/ResourceURL.cpp:333-376 | which types need no path and which no name, and that a single slash is the root for every type |
| `ResourceUrl.PathTexts` | src/faodel-common/ResourceURL.cpp:333-388 | a path with a name prints as the text again, a slash at its end is dropped, and a reference is local if and only if its first part is |
| `ResourceUrl.BucketTexts` | src/faodel-common/ResourceURL.cpp:255-264 | a bucket is hashed by name, read as a number of at most eight digits, or refused; an empty one is none |
| `ResourceUrl.NodeTexts` | src/faodel-common/ResourceURL.cpp:265-275 | a node is read as a number or refused; an empty one is none |
| `ResourceUrl.AcceptedValidIff` | src/faodel-common/ResourceURL.hh:71-73 | an accepted text is valid if and only if it has a name or is at the root |
| `ResourceUrl.ParsedIsWellFormed` | src/faodel-common/ResourceURL.cpp:245-398 | whatever text is accepted, a valid result has a lower-case normalized type and an absolute path without options in it |
| `ResourceUrl.FullForm` | src/faodel-common/ResourceURL.cpp:99-112 | the form of the printed text, with ref for no type, nothing for the root path, and sorted options |
| `ResourceUrl.ParsePrintedUrl` | src/faodel-common/ResourceURL.cpp:99-112 | parsing the full text of a well-formed URL gives all its fields back, options sorted |
| `ResourceUrl.PrintAgainIff` | src/faodel-common/ResourceURL.cpp:99-112 | parsing and printing again gives the same text if and only if the options are empty or hold a character other than the separator |
| `ResourceUrl.RoundTrip` | src/faodel-common/ResourceURL.cpp:51-112 | both, for every text whose result is valid |
| `ResourceUrl.BareSeparators` | src/faodel-common/ResourceURL.cpp:109-110 | a text whose URL prints differently once parsed and printed |
| `ResourceUrl.SlashesText` | src/faodel-common/ResourceURL.cpp:327-368 | a text that is accepted as a place without parts other than the root |
| `ResourceUrl.ScanText` | src/faodel-common/ResourceURL.cpp:249-315 | the index-driven loop finds the pieces turn by turn or fails where a turn fails |
| `ResourceUrl.ResourceURL.SetURL` | src/faodel-common/ResourceURL.cpp:70-78 | succeeds exactly when the constructor would; what each field is then, and after each kind of failure |
| `ResourceUrl.ResourceURL.GetOption` | src/faodel-common/ResourceURL.cpp:455-465 | reads the first option of the name |
| `ResourceUrl.ResourceURL.SetOption` | src/faodel-common/ResourceURL.cpp:423-446 | sets it and changes no other field |
| `ResourceUrl.ResourceURL.RemoveOption` | src/faodel-common/ResourceURL.cpp:507-521 | removes all of them, returns the last value, and changes no other field |
| `ResourceUrl.ResourceURL.PopDir` | src/faodel-common/ResourceURL.cpp:161-176 | moves one level up, returns the old name, and changes no other field |
| `ResourceUrl.ResourceURL.PushDir` | src/faodel-common/ResourceURL.cpp:141-153 | appends a directory and changes no other field; fails exactly when no path part is left |
| `ArrowChunks.TakePut` | src/faodel-arrow/ArrowDataObject.cpp:361-365 | a number written in little-endian bytes is read back |
| `ArrowChunks.HeaderBytes` | src/faodel-arrow/ArrowDataObject.hh:104-113 | the bytes of a chunk header: magic number, length, rows |
| `ArrowChunks.HeaderReads` | src/faodel-arrow/ArrowDataObject.cpp:361-377 | a written chunk is found with its magic, length, rows and bytes |
| `ArrowChunks.LayoutMoves` | src/faodel-arrow/ArrowDataObject.cpp:411-414 | a strip of chunks copied as raw bytes is a strip of the same chunks elsewhere |
| `ArrowChunks.AppendFits` | src/faodel-arrow/ArrowDataObject.cpp:347-389 | a table whose rounded chunk fits is added behind the others, which stay as they were |
| `ArrowChunks.AppendTableIff` | src/faodel-arrow/ArrowDataObject.cpp:351-388 | when an append is refused, and that an accepted one stores the table if and only if its rounded chunk fits |
| `ArrowChunks.AppendLosesTable` | src/faodel-arrow/ArrowDataObject.cpp:354-386 | two appends that report success and lose the table |
| `ArrowChunks.AppendStripIff` | src/faodel-arrow/ArrowDataObject.cpp:397-419 | appending an object adds all its chunks if and only if they fit, and otherwise changes nothing |
| `ArrowChunks.StripOutcome` | src/faodel-arrow/ArrowDataObject.cpp:397-419 | for any two objects, well formed or not: when an append succeeds, runs out of memory or is invalid, and that only a copy changes anything |
| `ArrowChunks.ChunkAt` | src/faodel-arrow/ArrowDataObject.cpp:166-178 | the i-th chunk lies behind the rounded sizes of those before it |
| `ArrowChunks.RoundUp` | src/faodel-arrow/ArrowDataObject.cpp:94-99 | the least multiple of four that is not smaller |
| `ArrowChunks.ChunksAreAligned` | src/faodel-arrow/ArrowDataObject.cpp:94-99 | in every well-formed object each chunk starts, and the data ends, at a multiple of four |
| `ArrowChunks.LocateChunk` | src/faodel-arrow/ArrowDataObject.cpp:166-178 | the walk reaches the i-th chunk, intact, and answers null exactly for indices out of range |
| `ArrowChunks.NumberOfRows` | src/faodel-arrow/ArrowDataObject.cpp:203-219 | the sum of all rows in 64 bits, with no chunk found invalid |
| `ArrowChunks.EveryRun` | src/faodel-arrow/ArrowDataObject.cpp:347-419 | after every run of appends that loses no table, the data is a gapless run of exactly the appended chunks |
| `ArrowChunks.SumSizes` | src/faodel-arrow/ArrowDataObject.cpp:479-483 | the sum of sizes in 32 bits |
| `ArrowChunks.AppendAll` | src/faodel-arrow/ArrowDataObject.cpp:491-496 | appending object after object succeeds if and only if all fit together |
| `ArrowChunks.Make` | src/faodel-arrow/ArrowDataObject.cpp:477-497 | makes an object if and only if the total is positive and fits 32 bits with the meta data; its chunks are the concatenation of the inputs' |
| `ArrowChunks.EmptyInputIsSkipped` | src/faodel-arrow/ArrowDataObject.cpp:473-497 | with an empty input the condition for success holds, and the promised chunks are those of the other one |
| `ArrowChunks.ArrowDataObject.constructor` | src/faodel-arrow/ArrowDataObject.cpp:30-38 | a new object is well formed without chunks |
| `ArrowChunks.ArrowDataObject.AppendTable` | src/faodel-arrow/ArrowDataObject.cpp:347-389 | refines the table append on the buffer in place |
| `ArrowChunks.ArrowDataObject.Append` | src/faodel-arrow/ArrowDataObject.cpp:130-149 | refines the strip append, also of an object to itself |
| `SlotVector.NextVacant` | src/nnti/nnti_vector.hpp:51-56 | the first vacant slot from an index on, or the end |
| `SlotVector.Grown` | src/nnti/nnti_vector.hpp:57-69 | half as much again, or the largest size |
| `SlotVector.AddIsInsert` | src/nnti/nnti_vector.hpp:41-76 | add returns an index no entry has and keeps every entry, growth included |
| `SlotVector.RemoveIsDelete` | src/nnti/nnti_vector.hpp:77-89 | remove deletes exactly that entry and leaves room for the next add |
| `SlotVector.AddReadyIff` | src/nnti/nnti_vector.hpp:57-71 | add leaves a vacant slot for the next one if and only if there is one further up or it grows by at least two |
| `SlotVector.AddHoles` | src/nnti/nnti_vector.hpp:50-71 | add leaves no vacant slot behind but the one that growth skips |
| `SlotVector.EveryRun` | src/nnti/nnti_vector.hpp:41-89 | every run whose adds each have a next slot is a partial map, stays ready, and strands at most one slot per growth |
| `SlotVector.FourSlotsSuffice` | src/nnti/nnti_vector.hpp:57-71 | from four slots on, an add has no next slot if and only if the vector is full within one slot of its limit |
| `SlotVector.EveryFittingRun` | src/nnti/nnti_vector.hpp:29-89 | from a new vector of four or more slots, every run that stays two slots below the limit is a run of a partial map and strands at most one slot per growth |
| `SlotVector.SmallVectorBreaks` | src/nnti/nnti_vector.hpp:65-70 | vectors of up to three slots do not stay ready |
| `SlotVector.NntiVector.constructor` | src/nnti/nnti_vector.hpp:29-35 | a new vector has only vacant slots |
| `SlotVector.NntiVector.Add` | src/nnti/nnti_vector.hpp:41-76 | refines add, search loop and growth in place; aborts exactly when full at the largest size |
| `SlotVector.NntiVector.Remove` | src/nnti/nnti_vector.hpp:77-89 | refines remove and returns what was there |
| `Reservations.StepKeepsInv` | src/nnti/nnti_eq.hpp:71-91 | the counter is the open tickets plus the queued events, and reservations stay below the maximum, through every atomic step |
| `Reservations.RunKeepsInv` | src/nnti/nnti_eq.hpp:57-93 | the same for every interleaving of any number of threads |
| `Reservations.QueueNeverOverflows` | src/nnti/nnti_eq.hpp:255-280 | reservations held and events queued fit the queue, so a holder's push finds room |
| `Reservations.EventsInOrder` | src/nnti/nnti_eq.hpp:255-280 | over every run events come out once each and in the order they went in |
| `Reservations.QueueDrains` | src/nnti/nnti_eq.hpp:269-280 | a thread can always pop everything that is queued, in order, and gives back as many reservations |
| `Reservations.CounterIsExact` | src/nnti/nnti_eq.hpp:71-91 | in every interleaving the counter is the reservations in use plus the refused increments not yet taken back, threads that have not compared included |
| `Reservations.RefusedIff` | src/nnti/nnti_eq.hpp:71-81 | whatever others do before it compares, a thread is refused if and only if, at its fetch-add, those two together reach the size |
| `Reservations.RefusedWhenFullIff` | src/nnti/nnti_eq.hpp:71-81 | with no refused increment outstanding, a thread is refused if and only if all reservations are in use |
| `Reservations.SpuriousRefusal` | src/nnti/nnti_eq.hpp:74-79 | an interleaving in which a reservation is refused although none is held |
| `KelpieKey.UnpackPack` | src/kelpie/Key.cpp:151-198 | a key with parts of up to 255 arbitrary bytes is unpacked unchanged |
| `KelpieKey.PackedBytes` | src/kelpie/Key.cpp:151-174 | the two parts, then their lengths in this order; longer parts are refused |
| `KelpieKey.PackUnpackIff` | src/kelpie/Key.cpp:182-198 | an accepted string is what packing its key gives if and only if its last two bytes account for its length |
| `KelpieKey.UnpackIgnoresBytes` | src/kelpie/Key.cpp:182-198 | a string of three bytes that is accepted and that no key is packed into |
| `KelpieKey.PackLoop` | src/kelpie/Key.cpp:151-174 | the index loops fill the packed string, and refuse parts over 255 bytes |
| `KelpieKey.DecodeEncode` | src/faodel-common/StringHelpers.cpp:28-78 | decoding undoes encoding for every byte string, zero bytes included |
| `KelpieKey.EscapeIs` | src/faodel-common/StringHelpers.cpp:28-43 | digits and letters stay, other bytes become a percent sign and two lower-case digits |
| `KelpieKey.DecodeStopsAtZero` | src/faodel-common/StringHelpers.cpp:50-78 | decoding reads up to the first zero byte |
| `KelpieKey.DecodePlain` | src/faodel-common/StringHelpers.cpp:50-78 | text without percent signs and zero bytes is left as it is |
| `KelpieKey.EncodedBytes` | src/faodel-common/StringHelpers.cpp:28-43 | encoded text is letters, digits and percent signs only |
| `KelpieKey.EncodeLoop` | src/faodel-common/StringHelpers.cpp:28-43 | the loop encodes byte by byte |
| `KelpieKey.DecodeLoop` | src/faodel-common/StringHelpers.cpp:50-78 | the loop decodes, and drops a percent sign without two digits |
| `KelpieKey.SavedKeyIsLoaded` | tools/faodel-cli/kelpie_client.cpp:442-482 | a saved key is loaded unchanged; its file name is not empty and has neither slash nor dot |
| `KelpieKey.FileNamesInjective` | tools/faodel-cli/kelpie_client.cpp:442-442 | different keys get different file names |
| `KelpieKey.TagRoundTrip` | src/kelpie/Key.cpp:107-144 | the tag that is set is read, and it replaces the previous one |
| `KelpieKey.TaggedIff` | src/kelpie/Key.cpp:129-144 | a row name has a tag if and only if it ends in a brace and holds an opening one |
| `Directory.GuessInjective` | src/faodel-common/DirectoryInfo.cpp:113-115 | different guesses are different names |
| `Directory.GenerateName` | src/faodel-common/DirectoryInfo.cpp:107-124 | the search ends within one guess more than there are members, at the first free name |
| `Directory.NameTaken` | src/faodel-common/DirectoryInfo.cpp:101-103 | the scan finds exactly the names in use |
| `Directory.StepKeepsDistinct` | src/faodel-common/DirectoryInfo.cpp:97-173 | joining and leaving keep member names distinct |
| `Directory.RunKeepsDistinct` | src/faodel-common/DirectoryInfo.cpp:97-173 | so does every run of them |
| `Directory.LeftByNameIs` | src/faodel-common/DirectoryInfo.cpp:164-173 | leaving by name removes the first member of the name, and nothing for an empty or unknown one |
| `Directory.LeftByNodeIs` | src/faodel-common/DirectoryInfo.cpp:147-156 | leaving by node removes the first member at the node, and nothing for an unspecified or unknown one |
| `Directory.LeftIs` | src/faodel-common/DirectoryInfo.cpp:136-139 | the name decides if a member has it, and the node otherwise |
| `Directory.LeaveUndoesJoin` | src/faodel-common/DirectoryInfo.cpp:97-173 | leaving by name undoes joining, for given and generated names |
| `Directory.DirectoryInfo.Join` | src/faodel-common/DirectoryInfo.cpp:97-128 | adds one member at the end or refuses a name in use |
| `Directory.DirectoryInfo.LeaveByName` | src/faodel-common/DirectoryInfo.cpp:164-173 | removes the first member of the name, never for an empty name |
| `Directory.DirectoryInfo.LeaveByNode` | src/faodel-common/DirectoryInfo.cpp:147-156 | removes the first member at the node, never for an unspecified node |
| `Directory.DirectoryInfo.Leave` | src/faodel-common/DirectoryInfo.cpp:136-139 | by name, and by node only if no member has the name |
| `Announcements.NumberRoundTrip` | src/faodel-common/StringHelpers.cpp:147-167 | a printed count is parsed as itself |
| `Announcements.NumberForms` | src/faodel-common/StringHelpers.cpp:147-167 | suffixes multiply by powers of 1024 in either case, signs and leading space are read, and any other last character is refused |
| `Announcements.ReadMembers` | src/faodel-common/DirectoryInfo.cpp:45-52 | the loop that removes options while it reads finds what the original options list |
| `Announcements.ReadInfo` | src/faodel-common/DirectoryInfo.cpp:24-58 | the constructor's steps, with each way to fail or to read nothing |
| `Announcements.ReadIs` | src/faodel-common/DirectoryInfo.cpp:24-58 | for any options: the two texts, no members without a number, and otherwise the members those options list |
| `Announcements.ListedComplete` | src/faodel-common/DirectoryInfo.cpp:45-52 | every member with a value is listed, and one that does not convert makes the reader fail |
| `Announcements.ListedFails` | src/faodel-common/DirectoryInfo.cpp:45-52 | the reader fails only for such a member |
| `Announcements.ListedOrder` | src/faodel-common/DirectoryInfo.cpp:45-52 | members are listed in the order of their numbers |
| `Announcements.StrippedGet` | src/faodel-common/DirectoryInfo.cpp:45-57 | stripping removes the listed members and leaves what every other name reads as |
| `Announcements.ReadBounds` | src/faodel-common/DirectoryInfo.cpp:24-58 | whatever the options, the members are at most `num` and have distinct names |
| `Announcements.EveryDirectory` | src/faodel-common/DirectoryInfo.cpp:24-173 | names stay distinct over every run of construction from a URL, joins and leaves |
| `Announcements.AnnouncedIsRead` | src/faodel-common/DirectoryInfo.cpp:24-58 | announced nodes are read in order, and all of the announcement is stripped from the options |
| `Announcements.TextAppended` | src/faodel-common/ResourceURL.cpp:245-398 | options appended to the text of an accepted URL change nothing else in it |
| `Announcements.Announce` | src/faodel-services/MPISyncStart.cpp:131-144 | the stream loop appends the count and each node |
| `Announcements.ReadBackIff` | src/faodel-services/MPISyncStart.cpp:131-144 | every list of nodes reaches the directory entry unchanged if and only if the configured URL has no option of those names |
| `Announcements.ShadowedNodes` | src/faodel-services/MPISyncStart.cpp:131-144 | a configured URL with a num of its own, and nodes that do not reach its entry |

## Left out

- ReceiveRing.ReceiveBuffer.CopyIn: bytes a copy would write behind the payload are dropped by the model; the theorems say when there are none.
- BackBurner.NoLostWakeUp: the counters are read as if atomic, although the source reads them outside the lock; the C++ memory model is not modelled.
- BackBurner.WorkerThread.ServeOnce: registered polling functions, the kill flag and shutdown are not modelled, nor the abort when the pipe is full.
- Bootstrap.BootstrapService.Init: configuration, logging and the exit on errors are not modelled; which components throw is a parameter.
- Bootstrap.BootstrapService.Start: a start function that throws, which leaves the lock of the source held, is not modelled.
- Bootstrap.BootstrapService.Finish: a finish function that throws, halting and sleeping at shutdown are not modelled.
- Bootstrap.BootstrapService.RegisterComponent: each method is one atomic step; the overload that returns with the lock held is modelled like the other one.
- ResourceUrl.RoundTrip: the hash of a bucket name, what a stream makes of odd node numbers and of a bucket number without digits are parameters.
- ResourceUrl.ResourceURL.PushDir: the failing assertion is an answer here; builds that switch assertions off go on with an empty vector, which is not modelled.
- ArrowChunks.ArrowDataObject.AppendTable: a serialized table is opaque bytes of known length; Arrow's writer and its errors are not modelled.
- ArrowChunks.Make: the allocator is a parameter that gives at least what is asked for. `Make` for tables and the merging variants are not modelled.
- SlotVector.NntiVector.Add: null objects, which the source cannot tell from vacant slots, are not modelled. `at` is a single lookup.
- Reservations.QueueNeverOverflows: maxima of 2^63 and more are not modelled, and the lock-free queue is a bounded sequence.
- KelpieKey.TagRoundTrip: what a stream makes of a tag that is not up to eight hexadecimal digits is a parameter.
- Announcements.ReadInfo: keeps the texts of `info` and `min_members` instead of converting them, and numbers for `num` beyond 64 bits, undefined in C, are exact.
- Directory.GenerateName: the guess counter is an unbounded number, not an int.
- UrlPaths.LineageIsPopsIff: the default node and bucket of GetLineageReference are not modelled, only its path and name.
- ResourceUrl.FullForm: GetURL is modelled with all its parts switched on.
- Wildcard matching of keys, URL comparison, GetOptions and path depth: single comparisons, prefix tests and counts that nothing above relies on.
- Configuration files, ranges of MPI ranks, time and IP address parsing, MPI itself.
- The services built on these parts (DirMan, Kelpie pools, OpBox, Lunasa, the NNTI transports).
