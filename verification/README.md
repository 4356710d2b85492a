# Backend.AI agent: verified models

Dafny models of the stateful core of the Backend.AI agent, with proofs of what
each part is for. `dafny verify dfyconfig.toml` checks everything.

**Device allocation** (`src/ai/backend/agent/resources.py`)

- `Options`, `Sums`, `Sorting`, `Quanta`, `Devices`: sums and spreads, the stable sort, multiples
  of a quantum, devices sorted by free capacity, and *all conceivable* allocations
  (`IsSplit`) against which the real ones are compared.
- `WaterFilling`, `EvenSplit`, `EvenSearch`: the EVENLY strategy. `EvenSplit`
  defines the allocation by exhaustive search and proves it optimal; `EvenSearch`
  holds the loops, with their early breaks, and proves that they find it.
- `Filling`: greedy filling, shared by the discrete map and by FILL.
- `Ledgers`, `Requests`, `Admission`: the book of an allocation map, what a request
  commits and which error ends it, and what these outcomes mean.
- `QuantumSplits`: when an amount can be divided into multiples of the quantum at all.
- `AllocMap`, `Commitments`, `RequestRules`, `LedgerRuns`: the allocation map as an object,
  what a request leaves in the book, what it is refused for and granted, and whole runs.

**Resource spec text** (same file): `Strings`, `ResourceText` (the lines), `ResourceSpec`
(the values in them), `ResourceLaws` (what is written, and what is read from any text).

**Result streaming and run handover** (`src/ai/backend/agent/kernel.py`): `Console`,
`Streaming`, `Handover`.

**Agent and container plumbing**: `LogChunks` and `HostPorts`
(`src/ai/backend/agent/agent.py`, `src/ai/backend/agent/docker/agent.py`),
`ConfigMerge` (`src/ai/backend/agent/utils.py`), `BatchTasks`
(`src/ai/backend/kernel/base.py`).

## Conventions

- Amounts are integers in units of 0.01, the precision the agent supports. Capacities,
  requests, `min_memory` and the quantum are taken to lie on that grid, so `quantize`
  is the identity; `min_memory` is not negative and the quantum is not zero.
  Requests of zero or less are pruned, as in the source.
- The discrete map adds up `int(...)` of each free amount; this truncation to whole
  devices (100 units) is modelled, so it also holds for fractional amounts.
- The two-level `allocations` dictionary is one map keyed by slot and device. Its
  iteration order, on which ties in the sort depend, is the order of the device list.
- `DiscretePropertyAllocMap` and `FractionAllocMap` are one class whose `strategy`
  selects between the discrete map, FILL and EVENLY.
- An exception is an error value. What had been entered in the book before the
  exception is part of a request's outcome (`committed`).
- `fnmatch.fnmatchcase`, the JSON decoding of media and control records (`Decoders`), and
  the printed forms of the values of a resource spec (`Format`) are function parameters;
  the form of an amount depends on the type of its slot.
- A rescan of the agent re-applies the tokens of the containers it finds running: any
  part of the outstanding ones. What a container reports is taken to be the token it
  was started with.
- Timers and cancellations are parameters: a call to `get_next_result` is told how many
  records arrive before its timer fires or it is cancelled. `execute` closes the runner
  after a cancelled call (kernel.py:290-291), so that later calls can still read only the
  records already queued.
- Concurrency is a state machine whose steps are the stretches of code between two awaits.

## Findings

- FILL enters its shares before it checks them against the quantum (resources.py:701,
  705), so a failing request can leave shares behind. `FillLeaks` says exactly when;
  `FillLeakHappens` is such a request. EVENLY checks first (resources.py:874).
- A failing request for several slots leaves the allocations of the slots before the
  failing one in the book (`FailureCommitsPrefix`; `FailureLeavesEarlierSlot` is such a
  request). `UnchangedExactly` says exactly when nothing is left.
- A rescan forgets a token whose container does not run yet (agent.py:631-640); its later
  release drives the book below zero (`LostTokenGoesNegative`), and its device can be
  granted again (`DeviceGrantedTwice`). `RescanIsSafeExactly` and `RunIsBalancedExactly`
  say exactly which rescans and runs are safe, `OvercommitExactly` exactly when no further
  grant promises too much.
- The filling strategies compare a request with a total that is not what the devices can
  give (resources.py:559-570): the discrete map truncates every free amount
  (`FractionsAreRefused`), and an over-allocated device counts as negative
  (`OverAllocationIsCounted`). `FillingAdmission` says exactly when this refuses a request
  that could be met.
- EVENLY refuses a request whose even division is off the quantum even when another
  division is not (`EvenlyMissesMultiples`); `EvenlyRefusesExactly` says exactly when it
  refuses. `EvenlyWrongExactly` and `FillWrongExactly` say exactly when EVENLY and FILL
  refuse although some division is on the quantum.
- In a division made by `allocate_across_devices`, a device that gives all it has can
  be one unit ahead of a device with room left (`FairnessIsTight`), exactly under the
  condition of `StrictlyFairExactly`; never more (`WaterFillIsFair`).
- The early exit at resources.py:867 compares a score that is never positive with
  +0.01, so it is never taken; the choice at resources.py:865 sorts by a constant, so
  the window that came last is kept.
- A run that was promoted by `next_output_queue` has lost its pending entry and cannot
  be continued (`PromotedRunCannotBeContinued`). This is the only check of the handover
  code that can fail (`WhatSucceeds`); after it no run ever gets through again
  (`StuckForever`).
- A cancelled call to `get_next_result` drops the records it has taken
  (`CancelledCallLoses`); `StreamIsWholeExactly` says exactly when that shows.
- A record with nothing to show, between two outputs to one stream, keeps them apart
  (`EmptyOutputSplits`); `SplitExactly` says exactly when neighbouring console items go to
  the same stream.
- The CLEAN handler gives ports back before an await and forgets the kernel after it
  (agent.py:538-544). A second CLEAN in between can put a port back in the pool that
  another kernel has taken (`DoubleCleanSharesPort`). `StepKeepsExactly` and
  `RunIsSoundExactly` say exactly which steps and runs are safe.
- The two groupings of three configuration fragments are not always defined together
  (`GroupingMatters`); `GroupingsAgree` gives the condition, which can be read off two of
  the fragments.

## Model

| member | source | states |
|---|---|---|
| Sorting.SortBySorts | src/ai/backend/agent/resources.py:785-788 | the sort permutes the devices and puts the largest key first |
| Sorting.SortByStable | src/ai/backend/agent/resources.py:785-788 | elements with equal keys keep their order, for every key value |
| Sorting.ConstantSort | src/ai/backend/agent/resources.py:864-865 | the per-size sort by a constant changes nothing, so the last window tried is the one kept |
| WaterFilling.DistributeEvenly | src/ai/backend/agent/resources.py:740-754 | the two loops give every device the rounded-down share and the first `remainder` devices one unit more |
| WaterFilling.AllocateAcrossDevices | src/ai/backend/agent/resources.py:758-778 | the in-place loop computes the recursive water-filling |
| WaterFilling.WaterFillLevel | src/ai/backend/agent/resources.py:758-778 | on a feasible window the shares sum to the amount, respect every capacity, and are flat: each is a whole capacity, the level or one more |
| WaterFilling.WaterFillIsFair | src/ai/backend/agent/resources.py:758-778 | max-min fairness in integers: nobody is more than one unit ahead of a device with room left |
| WaterFilling.StrictlyFairExactly | src/ai/backend/agent/resources.py:740-778 | a used-up device is never ahead of one with room left, if and only if there is no remainder or the last device to get a unit of it is not used up by it |
| WaterFilling.EvenCutIsLargest | src/ai/backend/agent/resources.py:764-774 | the loop stops at the largest number of devices that can share evenly what the others, used up, leave |
| WaterFilling.EvenAmountIs | src/ai/backend/agent/resources.py:764-774 | what these share is the amount less the capacities used up |
| WaterFilling.FairnessIsTight | src/ai/backend/agent/resources.py:740-778 | a division in which a used-up device is ahead |
| WaterFilling.WaterFillMinimisesSpread | src/ai/backend/agent/resources.py:758-778 | no other division over the window has a smaller spread |
| EvenSplit.SlideNeverImproves | src/ai/backend/agent/resources.py:857-860 | sliding a window to smaller devices never makes it feasible or more even: the claim of the source's comment |
| EvenSplit.NothingBelowTies | src/ai/backend/agent/resources.py:843-863 | after the first infeasible or less even window no later one ties, so the break loses nothing |
| EvenSplit.SplitIsNoMoreEven | src/ai/backend/agent/resources.py:821-829 | a split over any n devices needs the n most free ones to hold the amount and is no more even than water-filling them |
| EvenSplit.EvenPlanIsOptimal | src/ai/backend/agent/resources.py:810-872 | among all divisions over all subsets of the devices: smallest spread, then fewest devices |
| EvenSplit.EvenPlanIsPositive | src/ai/backend/agent/resources.py:810-872 | every device of the allocation gets something |
| EvenSplit.EvenPlanIsLowest | src/ai/backend/agent/resources.py:829-865 | the devices used are neighbours in the order of free capacity, and every division over as many neighbours further down is less even: ties go to the least free devices |
| EvenSearch.MeasureEvenness | src/ai/backend/agent/resources.py:722-729 | the sum of gaps of the sorted shares is their largest minus their smallest |
| EvenSearch.ScanWindows | src/ai/backend/agent/resources.py:833-865 | the early-breaking scan, with its running sum, keeps the lowest feasible window that is as even as the topmost |
| EvenSearch.SelectBest | src/ai/backend/agent/resources.py:871-872 | the last of the lexicographically best candidates |
| EvenSearch.BestIsFirstMinimum | src/ai/backend/agent/resources.py:870-872 | that candidate has the smallest of the most even sizes; fragmentation never decides |
| EvenSearch.MinimumDevices | src/ai/backend/agent/resources.py:821-828 | the loop finds the smallest number of devices that can hold the amount |
| EvenSearch.SearchSizes | src/ai/backend/agent/resources.py:829-872 | the search over sizes finds the window of the exhaustive definition |
| EvenSearch.OneDevicePlan | src/ai/backend/agent/resources.py:810-818 | a request that fits one device goes to the least free one it fits, which is what the exhaustive definition gives |
| EvenSearch.AllocateEvenly | src/ai/backend/agent/resources.py:809-872 | fast path and search compute the optimal allocation |
| Filling.FillUsesUp | src/ai/backend/agent/resources.py:571-580 | every device but the last is used up and every share is positive |
| Filling.FillTotal | src/ai/backend/agent/resources.py:694-704 | filling hands out the amount, or all there is if that is less |
| Filling.FillGoesOn | src/ai/backend/agent/resources.py:694-704 | a device is followed by another one if and only if it has something free and does not suffice together with those before it |
| Filling.FillLeavesOnePartial | src/ai/backend/agent/resources.py:694-704 | at most one device of the allocation keeps something free |
| Filling.FillUsesFewest | src/ai/backend/agent/resources.py:544-581 | no allocation of the amount uses fewer devices |
| Filling.FillMapIsPlan | src/ai/backend/agent/resources.py:571-580 | the device-by-device form of the loop, which passes over full devices, gives the same allocation |
| Ledgers.CommitKeepsBounds | src/ai/backend/agent/resources.py:880-881 | entering shares within what is free over-allocates no device |
| Ledgers.BookingExactly | src/ai/backend/agent/resources.py:584-598 | entering a token and taking one out change exactly the cells it names, each by its share; a missing cell counts as 0 |
| Ledgers.SlotDevicesInOrder | src/ai/backend/agent/resources.py:544-547 | exactly the devices of the slot are considered, in the order of the map, with what the book says is taken of them |
| Admission.PlanIsExact | src/ai/backend/agent/resources.py:559-580 | an admitted request gets positive shares within what is free that sum to the amount |
| Admission.EvenlyAdmission | src/ai/backend/agent/resources.py:790-807 | EVENLY refuses for lack of capacity if and only if no division of the amount over devices with at least `min_memory` free exists |
| Admission.EvenlyHeedsMemory | src/ai/backend/agent/resources.py:790-793 | what EVENLY grants comes only from devices with at least `min_memory` free |
| Admission.FillingAdmission | src/ai/backend/agent/resources.py:559-570 | the filling strategies refuse if and only if their total is below the amount, which is right unless the amount lies between that total and what is really free |
| Admission.FillingAdmissionExact | src/ai/backend/agent/resources.py:681-692 | with no device over-allocated (and whole devices, for the discrete map) they refuse if and only if the amount exceeds what is free, that is if no division exists |
| Admission.FractionsAreRefused | src/ai/backend/agent/resources.py:559-570 | the discrete map refuses 3.00 over two devices with 1.50 free each, although a division exists |
| Admission.OverAllocationIsCounted | src/ai/backend/agent/resources.py:681-692 | FILL refuses 1.50 when one device has 2.00 free and another is over-allocated by 1.00, although a division exists |
| Admission.EvenlyIsOptimal | src/ai/backend/agent/resources.py:713-881 | what EVENLY grants uses devices with at least `min_memory` free and is optimal over all divisions of the amount over such devices |
| Admission.FillLeaks | src/ai/backend/agent/resources.py:701-709 | FILL fails with its shares entered if and only if a device that does not suffice together with those before it has a free capacity off the quantum |
| Admission.FillLeakHappens | src/ai/backend/agent/resources.py:701-709 | a request for which this happens |
| Admission.EvenlyRefusesExactly | src/ai/backend/agent/resources.py:873-878 | EVENLY refuses a division it has found if and only if it leaves a remainder, or its common share or a used-up capacity is off the quantum (for a quantum other than 0.01) |
| Admission.EvenlyMissesMultiples | src/ai/backend/agent/resources.py:873-878 | a refused request for which another division would do |
| QuantumSplits.MultiplesExactly | src/ai/backend/agent/resources.py:705-709 | a division into multiples of the quantum exists if and only if the amount is no more than the free capacities, each rounded down to the quantum, add up to |
| QuantumSplits.EvenlyWrongExactly | src/ai/backend/agent/resources.py:873-878 | where capacity suffices, EVENLY refuses for the quantum although a division into multiples exists, if and only if its own division is off the quantum and the rounded capacities suffice |
| QuantumSplits.FillWrongExactly | src/ai/backend/agent/resources.py:694-709 | the same for FILL, whose division is off the quantum if and only if a device it uses up has a free capacity off it |
| AllocMap.AllocationMap.constructor | src/ai/backend/agent/resources.py:417-429 | every device starts with nothing taken |
| AllocMap.AllocationMap.Clear | src/ai/backend/agent/resources.py:431-434 | the book is the cleared one |
| AllocMap.AllocationMap.CheckExclusive | src/ai/backend/agent/resources.py:436-450 | two different slots clash if and only if both are listed or match a listed pattern |
| AllocMap.AllocationMap.FillSlot | src/ai/backend/agent/resources.py:571-580 | the loop that enters each share at once enters exactly the filling allocation |
| AllocMap.AllocationMap.FillRequest | src/ai/backend/agent/resources.py:541-581 | one slot of a request to the discrete map or FILL: outcome and new book |
| AllocMap.AllocationMap.EvenRequest | src/ai/backend/agent/resources.py:782-881 | one slot of a request to EVENLY: outcome and new book |
| AllocMap.AllocationMap.AllocateSlots | src/ai/backend/agent/resources.py:540-582 | the loop over the slots: the token or the first error, and exactly what was entered |
| AllocMap.AllocationMap.Allocate | src/ai/backend/agent/resources.py:622-652 | pruning, exclusivity, quantum, then the slots |
| AllocMap.AllocationMap.ApplyAllocation | src/ai/backend/agent/resources.py:584-590 | the book grows by the token, cell by cell; a cell that is not there is opened |
| AllocMap.AllocationMap.Free | src/ai/backend/agent/resources.py:592-598 | the book shrinks by the token, cell by cell; a cell that is not there is opened |
| RequestRules.PruneKeepsOrder | src/ai/backend/agent/resources.py:530-531 | exactly the amounts of zero or less are dropped, and the order is kept |
| RequestRules.ChecksExactly | src/ai/backend/agent/resources.py:629-646 | a request is refused as an exclusive combination if and only if two different slots with positive amounts are on the list, each by name or by a starred pattern, and otherwise as off the quantum if and only if a positive amount is; nothing is entered then |
| RequestRules.UniqueExactly | src/ai/backend/agent/resources.py:551-558 | a slot is refused as a wrong argument if and only if the strategy is not EVENLY, the amount is not 1 and the last device of the slot is of the unique type; nothing is entered then |
| RequestRules.EvenlyExactly | src/ai/backend/agent/resources.py:790-807 | in any book, EVENLY refuses a slot for lack of capacity if and only if its devices with `min_memory` free cannot hold the amount, and takes from such devices only |
| RequestRules.FillingRefusesExactly | src/ai/backend/agent/resources.py:559-570 | FILL refuses for lack of capacity if and only if the amount exceeds the sum of what is free, the discrete map if and only if it exceeds the sum of the whole devices free, each rounded towards zero |
| RequestRules.GrantIsExact | src/ai/backend/agent/resources.py:524-582 | a granted request gets, of exactly the slots it asks a positive amount of, positive shares that sum to the amount, from devices of that slot, within what the book has free and, with EVENLY, from devices with `min_memory` free |
| Commitments.SlotsKeepBounds | src/ai/backend/agent/resources.py:541-582 | however a request over several slots ends, no capacity is exceeded |
| Commitments.FailureCommitsPrefix | src/ai/backend/agent/resources.py:782-881 | a failing request has entered the full allocations of the slots before the failing one and, with FILL alone, the shares of that one |
| Commitments.UnchangedExactly | src/ai/backend/agent/resources.py:541-582 | a failing request leaves the book unchanged if and only if a check on the whole request or its first slot refuses it, with nothing of that slot entered |
| Commitments.RefusedAtOnceExactly | src/ai/backend/agent/resources.py:673-807 | the first slot is refused with nothing entered if and only if a guard holds: a unique-type amount other than 1, too little capacity or, with EVENLY, a division off the quantum |
| Commitments.FailureLeavesEarlierSlot | src/ai/backend/agent/resources.py:541-582 | a failing request for two slots that leaves a whole device taken |
| Commitments.SingleFailureLeavesNothing | src/ai/backend/agent/resources.py:541-582 | a failing request for one slot leaves the book unchanged, except with FILL |
| LedgerRuns.StepKeepsExactly | src/ai/backend/agent/agent.py:631-640 | every request, release and end of a kernel keeps the balance, and a rescan does if and only if it finds everything running that was granted something |
| LedgerRuns.RunIsBalancedExactly | src/ai/backend/agent/resources.py:524-598 | over a run each cell is at all times the sum of the tokens entered in it, between 0 and the device's amount, if and only if all its rescans are complete |
| LedgerRuns.RescanIsSafeExactly | src/ai/backend/agent/agent.py:631-640 | after a rescan the outstanding tokens can be released, in any selection and order, without a negative cell, if and only if it was complete |
| LedgerRuns.CompleteExactly | src/ai/backend/agent/agent.py:631-640 | a rescan is complete if and only if every token it leaves out holds nothing, token by token |
| LedgerRuns.OvercommitExactly | src/ai/backend/agent/agent.py:631-640 | no token that the book has room for promises, with the outstanding ones, more than a device has, if and only if the outstanding tokens can be released safely |
| LedgerRuns.BalancedFits | src/ai/backend/agent/resources.py:524-598 | in a balanced state the outstanding tokens fit the devices and can be released safely |
| LedgerRuns.DeviceGrantedTwice | src/ai/backend/agent/agent.py:631-640 | a grant, a rescan before its container runs and a second grant promise the only device to two kernels |
| LedgerRuns.LostTokenGoesNegative | src/ai/backend/agent/docker/agent.py:943-955 | a grant, a rescan before the container runs, and the rollback of the spawn leave a negative cell |
| LedgerRuns.RunIsExactExactly | src/ai/backend/agent/resources.py:713-897 | with complete rescans each cell is the sum of the outstanding tokens if and only if since the last rescan no request has failed halfway and no kernel holding something has ended |
| LedgerRuns.RebuildAgrees | src/ai/backend/agent/agent.py:631-640 | in a balanced state, clearing and re-applying the outstanding tokens in any order gives the book of the history, and releasing them all gives the cleared book: both if and only if nothing is stale |
| ResourceSpec.WriteToString | src/ai/backend/agent/resources.py:107-132 | the loops print the header values and one line per slot, or fail if a slot name lacks its device prefix |
| ResourceSpec.ReadFromString | src/ai/backend/agent/resources.py:137-181 | the loops collect the keys and rebuild the header values and the nested allocations, or fail if a header line is missing or a value or amount cannot be read |
| ResourceSpec.RoundTrip | src/ai/backend/agent/resources.py:107-187 | reading the printed text gives back the spec value by value, also with the newlines doubled by a file, if each value can be read back from its own text |
| ResourceText.TextRoundTrip | src/ai/backend/agent/resources.py:107-187 | the same for the lines of the text: header lines, device keys and their lists of shares |
| ResourceText.HeaderText | src/ai/backend/agent/resources.py:113-116 | the text starts with the four header lines |
| ResourceLaws.WrittenRow | src/ai/backend/agent/resources.py:118-130 | each slot adds one line: its name with exactly the ASCII letters capitalised, `_SHARES=` and its shares |
| ResourceLaws.WrittenShare | src/ai/backend/agent/resources.py:123-129 | the shares are listed in order as ID, colon and amount, separated by commas |
| ResourceLaws.PrefixExactly | src/ai/backend/agent/resources.py:120-122 | a slot passes the check if and only if it is named like its device or has that name and a dot in front |
| ResourceLaws.ReadsExactly | src/ai/backend/agent/resources.py:138-181 | of any text: reading fails if and only if a header key other than `CID` is missing or an entry of a share line that counts has a malformed amount; otherwise header and allocations are those of the last line of each key, each ID with the amount of the last entry that gives one |
| ResourceLaws.ValuesExactly | src/ai/backend/agent/resources.py:174-181 | the values of the header, and every mount that is not empty in order, are read, or reading fails because one cannot be read |
| ResourceText.RereadFront | src/ai/backend/agent/resources.py:184-186 | reading a file's lines and joining them with newlines doubles the newline after every line but the last |
| Strings.SplitExactly | src/ai/backend/agent/resources.py:140-140 | the parts are free of the separator and joined again give the text |
| Strings.CutExactly | src/ai/backend/agent/resources.py:158-158 | the text is cut around the first occurrence of the separator |
| Strings.StripExactly | src/ai/backend/agent/resources.py:143-143 | only white space at the ends is removed, and all of it |
| Strings.CaseExactly | src/ai/backend/agent/resources.py:130-130 | exactly the ASCII letters change, to the other case |
| ResourceText.NestListsRows | src/ai/backend/agent/resources.py:118-130 | each slot's shares are found under its device, and nothing else |
| Console.AggregateConsole | src/ai/backend/agent/kernel.py:575-608 | the loop with two buffers gives one item per group of neighbouring outputs to one stream and per other record; an empty group and a record that is not shown give none |
| Console.ConsoleMeansStream | src/ai/backend/agent/kernel.py:575-608 | the console expands to exactly the characters and items of the records, in order |
| Console.OthersStandAlone | src/ai/backend/agent/kernel.py:578-600 | a record other than stdout and stderr separates what comes before it from what comes after it and gives its own item: the decoded media, or for media, html, log and completion its type and data, or else none |
| Console.OneStreamIsOneItem | src/ai/backend/agent/kernel.py:578-606 | a longest stretch of outputs to one stream gives one item with all their text, or none if there is no text |
| Console.SplitExactly | src/ai/backend/agent/kernel.py:575-608 | neighbouring items go to the same stream if and only if the groups they come from have only records without an item between them |
| Console.NoSilenceNoSplit | src/ai/backend/agent/kernel.py:575-608 | when every group and other record gives an item, no two neighbouring items go to the same stream |
| Console.EmptyOutputSplits | src/ai/backend/agent/kernel.py:575-608 | an empty output to stderr splits stdout into two items |
| Console.AggregateV1 | src/ai/backend/agent/kernel.py:552-573 | the version 1 strings and lists are the projections of what version 2 shows |
| Console.RecordProjections | src/ai/backend/agent/kernel.py:559-568 | what each record contributes to the version 1 fields |
| Streaming.OutputReader.GetNextResult | src/ai/backend/agent/kernel.py:615-709 | a call of any API version takes records up to the first control record, its timer or its cancellation, and returns the ending with its exit code or options and the console of what it took |
| Streaming.CallsPreserveStream | src/ai/backend/agent/kernel.py:615-709 | however a run's stream is cut into calls, nothing is lost, repeated or reordered, unless a cancelled call took something that can be seen |
| Streaming.StreamIsWholeExactly | src/ai/backend/agent/kernel.py:615-645 | the stream arrives whole if and only if no cancelled call took anything that can be seen |
| Streaming.CancelledCallLoses | src/ai/backend/agent/kernel.py:641-645 | a call that has taken one character and is cancelled loses it |
| Streaming.UncancelledCallsPreserveStream | src/ai/backend/agent/kernel.py:615-709 | calls that are not cancelled preserve the stream, however it is cut |
| Streaming.VersionsAgree | src/ai/backend/agent/kernel.py:552-709 | for every cutting into calls, the version 1 texts, media and HTML are those that version 2 shows |
| Streaming.CallsReportControls | src/ai/backend/agent/kernel.py:625-640 | in every API version the control records are reported one by one, in order, with their decoded data |
| Streaming.EndingsExactly | src/ai/backend/agent/kernel.py:625-704 | in any run of calls the i-th ending reported is that of the i-th control record: its type; for finished stages the decoded exit code, or none for empty data; for requests for input the decoded options; nothing else |
| Streaming.TakenExactly | src/ai/backend/agent/kernel.py:622-640 | a call goes on until the first control record or until nothing more arrives |
| Streaming.WhichReply | src/ai/backend/agent/kernel.py:612-649 | a call has no result if and only if it is cancelled before a control record, fails if and only if otherwise the version is unknown, and reports an ending if and only if it took a control record |
| Streaming.PatientCallsFinish | src/ai/backend/agent/kernel.py:615-709 | calls that wait for everything, one more than there are control records, show the whole stream and report every control record |
| Handover.WhatSucceeds | src/ai/backend/agent/kernel.py:711-764 | the code's own checks fail if and only if a promoted run is continued |
| Handover.StepKeepsInv | src/ai/backend/agent/kernel.py:711-764 | every step keeps the handover invariant |
| Handover.EveryRunIsSafe | src/ai/backend/agent/kernel.py:711-764 | in every interleaving that continues only runs that claimed an idle runner, every check holds |
| Handover.Meaning | src/ai/backend/agent/kernel.py:711-764 | first come first served; one reader; output dropped only when idle; a promoted run can be woken |
| Handover.PromotedRunCannotBeContinued | src/ai/backend/agent/kernel.py:736-764 | a run that waited and was promoted fails to resume |
| Handover.StuckStep | src/ai/backend/agent/kernel.py:711-734 | after that failure requests of other runs only wait, and those of the run itself fail |
| Handover.StuckForever | src/ai/backend/agent/kernel.py:711-764 | and this stays so whatever is attempted |
| Handover.CodeRunner.AttachOutputQueue | src/ai/backend/agent/kernel.py:711-734 | a request proceeds with its own queue in place, or waits |
| Handover.CodeRunner.WakeUp | src/ai/backend/agent/kernel.py:731-734 | a woken request finds its own queue in place |
| Handover.CodeRunner.ResumeOutputQueue | src/ai/backend/agent/kernel.py:736-747 | fails if and only if the run was promoted, and then leaves the runner stuck |
| Handover.CodeRunner.NextOutputQueue | src/ai/backend/agent/kernel.py:749-764 | the first waiting run is promoted, or the runner becomes idle |
| LogChunks.CollectLogs | src/ai/backend/agent/agent.py:394-424 | the chunks are the log, all but the last of the chunk size, the last not empty |
| LogChunks.ChunkingIsUnique | src/ai/backend/agent/agent.py:394-424 | a log can be cut in one way only, whatever its fragments |
| HostPorts.StepKeepsExactly | src/ai/backend/agent/agent.py:526-544 | a step leaves every port of the range with exactly one holder if and only if it is harmless |
| HostPorts.RunIsSoundExactly | src/ai/backend/agent/agent.py:226-229 | the same over whole runs of spawns, failed spawns and cleans |
| HostPorts.NoOverlapIsSound | src/ai/backend/agent/agent.py:509-544 | runs in which no two CLEAN handlers of a kernel overlap are sound |
| HostPorts.DoubleCleanSharesPort | src/ai/backend/agent/agent.py:526-544 | a run with two CLEANs of a kernel after which two others have the same port |
| HostPorts.SpawnUndone | src/ai/backend/agent/docker/agent.py:943-951 | a failed spawn leaves the ports as they were |
| HostPorts.LifeOfKernel | src/ai/backend/agent/agent.py:526-544 | while a kernel runs it alone holds the ports of its spawn; its CLEAN handler first returns every port to its former holder and then restores the former state |
| HostPorts.PortKeeper.Acquire | src/ai/backend/agent/docker/agent.py:848-853 | a spawn gets one distinct port per exposed port that nobody else holds, or nothing changes because there are too few |
| HostPorts.PortKeeper.GiveBack | src/ai/backend/agent/docker/agent.py:943-951 | the rollback of a failed spawn keeps every port with one holder |
| HostPorts.PortKeeper.RestorePorts | src/ai/backend/agent/agent.py:527-538 | the filter loop and the update give back the ports of the range; every port keeps one holder if and only if the step is harmless |
| HostPorts.PortKeeper.Forget | src/ai/backend/agent/agent.py:539-544 | forgetting the kernel keeps every port with one holder |
| ConfigMerge.UpdateNestedDict | src/ai/backend/agent/utils.py:47-59 | merging key by key, in any order, succeeds if and only if the two sides fit along every path of keys, and then along every path a list is followed by the items or letters of the other, a plain value is replaced and what is on one side only is kept; if it fails, every entry is as it was, merged, or itself left half merged |
| ConfigMerge.MeetExactly | src/ai/backend/agent/utils.py:47-59 | the same for the merge of any two trees |
| ConfigMerge.MergeIsAssociative | src/ai/backend/agent/utils.py:47-59 | when the two neighbouring pairs can be merged, both groupings are defined together and equal |
| ConfigMerge.GroupingsAgree | src/ai/backend/agent/utils.py:47-59 | where the right grouping is defined, the left one is if and only if no plain value of the second fragment meets a container or string of the first; where the left is, the right is if and only if no string of the second is met by the third; where both are, they are equal |
| ConfigMerge.GroupingMatters | src/ai/backend/agent/utils.py:47-59 | fragments that merge from the right only, and from the left only |
| BatchTasks.Runner.RunTasks | src/ai/backend/kernel/base.py:705-725 | in any sequence of tasks an execution is skipped, with exit code 127, if and only if a build that was not empty has raised or not returned 0 and nothing was built or executed since; every other task is answered in turn with 0 for an empty step, -1 for an exception and else the value returned |
| BatchTasks.BatchAnswers | src/ai/backend/kernel/base.py:282-364 | each of any sequence of batch requests is answered by its own three messages, with these codes, and executed if and only if its own build is empty or returns 0 |

## Left out

- AllocMap.AllocationMap.ApplyAllocation: a token for an unknown device opens a cell, after which the object no longer satisfies `Valid()`, which requests demand; that the next request for the slot raises `KeyError` is not modelled.
- AllocMap.AllocationMap.Free: the same.
- AllocMap.AllocationMap.Allocate: the empty entry that a lookup of an unknown slot name leaves in the nested dictionary is not represented; a missing entry and an empty one read the same.
- ResourceSpec.WriteToString: the printing of a single value (`BinarySize`, `Mount`, JSON of the slots, an amount) is a parameter.
- ResourceSpec.ReadFromString: the reading of a single value is a parameter, with failure; the kinds of exception are not told apart.
- ResourceSpec.RoundTrip: for ASCII slot names in lower case, dot-free device names, IDs free of `,`, `:` and line ends, mounts whose text is not empty and free of `,`, and values without line ends or trailing spaces; other names and values are not covered.
- Streaming.OutputReader.GetNextResult: the decoding of the JSON data of a record is a parameter.
- ConfigMerge.UpdateNestedDict: works on values, so the sharing of lists and mappings between the destination and the additions is not captured.
- HostPorts: kernel restart, which uses a kernel ID again, and the ports of containers found at startup.
- Rounding of `Decimal` at 28 digits and amounts that are not multiples of 0.01.
- `AbstractKernel.release_slots` and `restore_from_container`: loops over the operations modelled here; that a container's memory limit may have had shared memory subtracted is not modelled.
- `read_output`, the RPC server, Docker, etcd, Redis and ZeroMQ, statistics, language-specific runners: input and output without a local property.
