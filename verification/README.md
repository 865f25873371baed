# Heavy-flow detector: a verified model

FHFCapturing watches a link and reports, interval by interval, the flows that send more than a threshold. Packets are
dispatched by flow to workers. A worker looks the flow up in its table; a flow that is not there has to pass a
multistage filter (C. Estan and G. Varghese, "New directions in traffic measurement and accounting", ACM SIGCOMM
2002) to get in. At the end of an interval the analyzer takes all worker locks, reports and cleans the tables, adapts
the thresholds, empties the filters and lets the workers go on.

`dafny verify dfyconfig.toml` checks the whole model.

## The files

| file | what it holds |
|---|---|
| Base.dfy | machine words, flow identifiers and their packed key |
| NumberTheory.dfy, PrimeCertificates.dfy | modular arithmetic; Pocklington's test, with which two large primes are certified |
| PrimeSearch.dfy, TableSize.dfy | the search for a prime table size, and what the size found is good for |
| Counting.dfy | the size of sets of sequences; the pigeonhole principle |
| UniversalHash.dfy | the stage hash as an object, and the count of its collisions |
| FilterSpec.dfy, MultistageFilter.dfy | the filter as a function, and as objects that update counter arrays in place |
| FlowTable.dfy, Worker.dfy, Dispatch.dfy | the flow table, the worker and the choice of a worker |
| WorkerRuns.dfy, Admission.dfy, Sketch.dfy, Measurement.dfy | runs of a worker over an interval: who is admitted, how high counters get, how exact entries are |
| FalsePositives.dfy, Agreement.dfy | under how many choices of the hash functions a small flow is admitted, and under how many no large flow is missed |
| Scaling.dfy, Thresholds.dfy | the adaptive threshold over whole sequences of intervals |
| Cleanup.dfy, Analyzer.dfy | what an analysis reports and keeps; the analyzer as an object |
| System.dfy, Intervals.dfy, LifeCycle.dfy, Survival.dfy | all workers and the analyzer in sequence: reports against true traffic, the life of an entry, who stays in the tables |
| Interleaving.dfy, Schedules.dfy | worker and analyzer threads with their mutexes; schedules that reach every run |
| Detector.dfy | the objects put together, going through whole runs |

The objects of MultistageFilter.dfy, FlowTable.dfy, Worker.dfy and Analyzer.dfy are proved to compute the functions
`Update`, `Svc`, `Clean`, `Adapt` and `Next`; everything about runs is proved of those functions. Detector.dfy puts the
objects together and proves that they go through the sequential runs of System.dfy (`Detector.Detector.Run`).

## Where the code and its comments differ

The model follows the code. These differences matter for what can be promised:

- `conservativeUpdate` sets a counter to min(counter + size, bound) even when the counter is above the bound, so it can
  lower it; the comments describe an update that only raises. `UpdateRule` has both, `Literal` and `Documented`. The
  documented rule has no false negatives. The literal one has none exactly if all stages group the flows alike
  (`AdmitsHeavyIff`, for the first threshold and every other from 4 up), and always when the threshold is 0 or 1
  (`TinyThresholdsAdmitHeavy`). For table sizes below 2^16 the stages agree exactly if their coefficients are
  proportional (`StagesAgreeIff`), which few choices of them are (`SafeChoicesAreFew`).
- `updateThreshold` keeps of the new threshold only whether it is 0: after the first analysis every filter threshold is
  1. From the second interval on the second case above is the one that counts, and `CodeFindsHeavyFlows` holds of the
  code as it is. In the first interval the filter can miss heavy flows; `DetectorFindsIff` and, for the threads,
  `ThreadsFindIff` say exactly when no run and no schedule does.
- The downward step multiplies usage by target where its comment divides.
- The early-removal threshold lags: an analysis uses the value of one update earlier, which is refreshed only on
  decreases. It then may be no lower than the threshold, so that no newcomer is kept: `LagCatchesUpIff` says exactly
  when, and four quiet intervals are an example (`SilenceClosesEarlyRemoval`).
- `nextPrime` returns an uninitialised variable for a prime argument and for 0, 1 and 4, and 0 from 4294967291 up.

## Model

| member | source | states |
|---|---|---|
| Base.KeyInjective | src/DataStructures.h:21-31 | The packed 13-byte image handed to the hash functions determines the 5-tuple, and conversely. |
| Base.FlowOfKey | src/DataStructures.h:21-31 | Conversely every 13-byte image is the key of a flow. |
| Base.KeyLayout | src/DataStructures.h:21-31 | The image holds the addresses, ports and protocol in this order, each with its low byte first. |
| UniversalHash.UniversalHashFunction.Hash | src/UniversalHashFunction.cpp:34-42 | The loop that reduces at every step returns the residue of the whole dot product. |
| UniversalHash.HashFitsInt | src/UniversalHashFunction.cpp:35-38 | Over all keys of a length and all drawn coefficients the int accumulator stays below 2^31 at every step if and only if the table size is at most 2^23 (8421505 for keys of one byte). |
| UniversalHash.UniversalHashFunction.RandomValues | src/UniversalHashFunction.cpp:43-50 | Every drawn coefficient is the scaled random number and lies in the requested range. |
| UniversalHash.DrawAtLeast | src/UniversalHashFunction.cpp:43-50 | A random number draws at least v if and only if it is at or above the share of the range below v. |
| UniversalHash.UniversalHashFunction.FunctionGenerator | src/UniversalHashFunction.cpp:66-74 | A stage function gets one of the coefficient vectors [0, m)^keyLength. |
| UniversalHash.DifferencesAreUniform | src/UniversalHashFunction.cpp:34-42 | For a prime size above 255 and two distinct keys, every difference of hashes is met by exactly m^(L-1) of the m^L vectors. |
| UniversalHash.Universality | src/UniversalHashFunction.h:27-36 | For such a size, exactly one coefficient vector in m makes two distinct keys of any length collide. |
| UniversalHash.UniversalIffAboveByte | src/UniversalHashFunction.h:31 | For a prime size, the family is universal on all pairs of keys if and only if the size exceeds 255. |
| FilterSpec.FlowsCollideRarely | src/MultistageFilter.cpp:40-55 | Two distinct flows share a bucket of a stage under exactly one in m of its possible coefficient vectors. |
| PrimeSearch.TrialDivisionDecides | src/utils.cpp:25-30 | Trial division by the numbers below n/2 decides primality for every n but 0, 1 and 4. |
| PrimeSearch.TrialDivision | src/utils.cpp:36-42 | The inner loop sets the flag exactly if it meets a divisor. |
| PrimeSearch.NextPrime | src/utils.cpp:23-47 | For a composite argument below 4294967291 the least prime above it, for one above it 0; the result is uninitialised exactly for primes and 0, 1, 4. |
| PrimeSearch.NextPrimeExists | src/utils.cpp:33-46 | The search ends with a prime if and only if the argument is below the largest prime of 32 bits. |
| TableSize.UsableExactly | src/FHFcapturing.cpp:219 | The size returned is a prime whose hash family is universal and whose hash never overflows an int, if and only if the argument is a composite number from 252 to 8388592; at a prime argument it is uninitialised. |
| TableSize.EntriesAre | src/FHFcapturing.cpp:218 | The entries asked for are the largest number whose product with the percentage is at most 1 plus the oversampling. |
| TableSize.SizeExceedsInverse | src/FHFcapturing.cpp:218-222 | At every percentage and oversampling the size returned is initialised and passes main's assertion if and only if the entries asked for are a composite number from 6 up, below the largest prime of 32 bits. |
| TableSize.UninitialisedSize | src/FHFcapturing.cpp:218-219 | A percentage of 1/100 with oversampling 1/100 asks for 101 entries, a prime, and leaves the size uninitialised. |
| TableSize.DefaultTableSize | src/FHFcapturing.cpp:218-219 | The defaults ask for 1200 entries and give 1201 buckets, a size with all these properties. |
| MultistageFilter.StageContainer.Check | src/MultistageFilter.cpp:53-60 | Reads the flow's counter and says whether the packet takes it over the threshold. |
| MultistageFilter.StageContainer.ConservativeUpdate | src/MultistageFilter.cpp:64-72 | Leaves all other counters and a flow's full counter, and sets any other to the smaller of counter plus size, modulo 2^64, and the bound. |
| MultistageFilter.StageContainer.Reset | src/MultistageFilter.cpp:75-79 | Zeroes all counters. |
| MultistageFilter.StageContainer.UpdateThreshold | src/MultistageFilter.cpp:81-84 | The new threshold is 0 or 1. |
| MultistageFilter.MultistageFilter.constructor | src/MultistageFilter.cpp:94-103 | All stages start empty with 100 times the threshold. |
| MultistageFilter.MultistageFilter.Scan | src/MultistageFilter.cpp:118-124 | The loop finds the decision of all stages and the minimum up to the first stage that fails. |
| MultistageFilter.MultistageFilter.Filter | src/MultistageFilter.cpp:116-135 | Passes without a change, or drops and updates one counter in every stage by the bound of the scan. |
| MultistageFilter.MultistageFilter.Reset | src/MultistageFilter.cpp:137-141 | Empties all stages and keeps their thresholds. |
| MultistageFilter.MultistageFilter.UpdateThreshold | src/MultistageFilter.cpp:109-113 | Gives all stages one threshold and keeps their counters. |
| WorkerRuns.ProgramThresholds | src/MultistageFilter.cpp:45 | Every threshold a stage can get is 0, 1 or 100 times the first one, far below the wrap. |
| WorkerRuns.SafeIffNoWrap | src/MultistageFilter.cpp:59 | Counters within the threshold plus a packet size never wrap if and only if the threshold is at most 2^64 - 2^32. |
| WorkerRuns.FirstFailure | src/MultistageFilter.cpp:118-129 | On a drop the minimum is the first failing stage's counter, strictly below all before it, and the bound is within the threshold. |
| Sketch.LiteralDrop | src/MultistageFilter.cpp:116-135 | A drop leaves full counters, adds the packet to every counter below that of the first failing stage, and sets the others to that one plus the packet. |
| Sketch.DocumentedDrop | src/MultistageFilter.cpp:126-132 | The same under the documented rule, where counters above that value stay. |
| Sketch.DropRaisesLeast | src/MultistageFilter.cpp:64-72 | Under either rule the least counter of a dropped packet's flow gains exactly its octets, and no counter of the flow is left below. |
| WorkerRuns.CountersStayBounded | src/MultistageFilter.cpp:64-72 | No counter exceeds the threshold in any state of any run, under either rule. |
| WorkerRuns.TableGrows | src/ParallelStages.cpp:364-370 | Within an interval no flow leaves the table. |
| Admission.NoFalseNegatives | src/MultistageFilter.cpp:126-132 | Documented rule: every counter of a flow outside the table is at least its octets since the clean. |
| Admission.HeavyFlowsAreAdmitted | src/MultistageFilter.cpp:116-135 | Documented rule: a flow over the threshold is in the table. |
| Admission.StepAsDocumented | src/MultistageFilter.cpp:64-72 | One step of the code equals the documented step if and only if it finds no counter between the bound and the threshold. |
| Admission.NeverLowersSuffices | src/MultistageFilter.cpp:116-135 | The code has no false negatives in runs that lower no counter. |
| Admission.TinyThresholdsAdmitHeavy | src/MultistageFilter.cpp:81-84 | With the threshold 0 or 1 the code has no false negatives in any run. |
| Admission.SharedBucketDefeats | src/MultistageFilter.cpp:66-69 | If two flows share a bucket in one stage and not in another, a run of three packet groups keeps a flow of 2T - 3 octets out of the table. |
| Admission.AdmitsHeavyIff | src/MultistageFilter.cpp:116-135 | From threshold 4 up, the code admits every flow over the threshold in every run if and only if all stages group the flows alike. |
| Sketch.StaysBelowPlain | src/MultistageFilter.cpp:64-72 | No counter exceeds the same counter of the plain multistage filter, under either rule. |
| Sketch.RefinesPlainFilter | src/MultistageFilter.cpp:116-135 | Whatever is admitted, the plain multistage filter would admit. |
| Sketch.PrivateFlowIsHeavy | src/MultistageFilter.cpp:53-60 | A flow with a private bucket in some stage is admitted only if its own octets exceed the threshold. |
| Sketch.StageConservation | src/MultistageFilter.cpp:129-133 | The counters of a stage sum to at most the octets dropped since the clean. |
| Sketch.OpenBucketsAreBounded | src/MultistageFilter.cpp:53-60 | Buckets that let a packet of d octets pass, times T - d + 1, are at most the dropped octets. |
| Sketch.PrivateFlowsAreExact | src/ParallelStages.cpp:365-370 | A flow without collisions is in the table if and only if it sent more than the threshold; until then its counters equal its octets. |
| FalsePositives.AdmittedOverLoad | src/MultistageFilter.cpp:116-135 | A flow is in the table only if its bucket got more than the threshold in every stage. |
| FalsePositives.SumOfLoads | src/UniversalHashFunction.cpp:34-42 | Over all coefficient vectors a flow's bucket gets its own octets every time and those of the other flows once in m. |
| FalsePositives.FalsePositivesAreRare | src/MultistageFilter.cpp:116-135 | A flow of s octets, within the threshold T, among C is admitted under at most ((C - s) m^12 / (T - s + 1))^d of the choices of d stages' vectors, under either rule. |
| FlowTable.HashTable.LookupFlow | src/HashTable.cpp:28-34 | Finds exactly the flows of the table. |
| FlowTable.HashTable.UpdateTable | src/HashTable.cpp:35-44 | Adds one packet and its octets to the flow's descriptor, modulo 2^32, and to no other; fails exactly for a flow not stored. |
| FlowTable.HashTable.InsertFlow | src/HashTable.cpp:46-54 | Adds an entry of one packet and no cycles; an entry that is there stays. |
| Worker.Worker.ProcessPacket | src/ParallelStages.cpp:347-381 | Table and filter change together as the shielded step does, and the lock is free again. |
| Worker.Worker.UpdateFilterThreshold | src/ParallelStages.cpp:415-418 | Sets all stage thresholds, truncates the worker's own copy, leaves counters and table. |
| Worker.Worker.CleanFilter | src/ParallelStages.cpp:420-422 | Zeroes the counters and leaves the table. |
| Dispatch.Emitter.DispatchPolicy | src/ParallelStages.cpp:135-157 | The victim is a function of the flow identifier below the number of workers. |
| Dispatch.EveryFieldMatters | src/ParallelStages.cpp:135-153 | With a mixing step that tells its arguments apart, flows that differ in one field get different seeds. |
| Dispatch.FieldOrder | src/ParallelStages.cpp:135-153 | The fields are mixed in the order destination address, destination port, protocol, source address, source port. |
| Measurement.EntryOctets | src/HashTable.cpp:35-54 | An entry counts, modulo 2^32, what its flow sent less what the filter dropped of it; a survivor of the last clean misses nothing. |
| Measurement.EntryPackets | src/HashTable.cpp:35-54 | An entry's packets are, modulo 2^32, those it began the interval with and those of its flow that the filter did not drop. |
| Measurement.NeverOverReported | src/HashTable.cpp:35-54 | No entry counts more than its flow sent, under either rule. |
| Measurement.ExactUpToMissed | src/ParallelStages.cpp:365-370 | Below 2^32 octets a count and what the filter dropped of the flow add up to what it sent, and nothing is dropped of a flow in the table at the start: the count is exact if and only if nothing was dropped. |
| Measurement.UnderReportedByAtMostThreshold | src/ParallelStages.cpp:365-370 | Documented rule: a count is at most the filter threshold below the truth. |
| Measurement.CodeUnderReportsByAtMostThreshold | src/ParallelStages.cpp:365-370 | The same of the code in runs that lower no counter. |
| Measurement.CountsAlmostAllIff | src/ParallelStages.cpp:365-370 | In every run of the code at most the threshold is missing from a count if and only if all stages group the flows alike (thresholds from 4 to 2^31 - 2). |
| Agreement.SameBucketsIff | src/MultistageFilter.cpp:40-55 | For a prime size from 257 to 65521, two stages put the same flows together if and only if one's coefficients are a unit multiple of the other's. |
| Agreement.StagesAgreeIff | src/MultistageFilter.cpp:40-55 | The stages agree on all flows if and only if all coefficient vectors are unit multiples of the first. |
| Agreement.SafeChoicesAreFew | src/MultistageFilter.cpp:116-135 | From threshold 4 up the code admits every flow over the threshold in every run under exactly (m^13 - 1)(m - 1)^(d - 1) + 1 of the choices of d stages' vectors. |
| Scaling.UpNeverLowers | src/Analyzer.cpp:322-323 | Over the target the upward step never lowers the threshold. |
| Scaling.UpReaches | src/Analyzer.cpp:322-323 | The upward step reaches v if and only if v times target cubed is at most t times usage cubed. |
| Scaling.DownLowers | src/Analyzer.cpp:330-332 | Within the target the downward step leaves at most nine tenths. |
| Scaling.DownReaches | src/Analyzer.cpp:330-332 | The downward step reaches r if and only if t^2 * usage * target is below (r + 1)^2. |
| Thresholds.RunKeepsInv | src/Analyzer.cpp:305-343 | In every interval 1 <= t <= first, r <= t/5, and at most three holds are counted. |
| Thresholds.NextKeepsInv | src/Analyzer.cpp:305-343 | The threshold falls in an interval if and only if that interval moves down and it was above 1. |
| Thresholds.DecreaseAfterThreeHolds | src/Analyzer.cpp:330-341 | A decrease comes after three intervals of holding, counted from the start of the run. |
| Thresholds.AverageOfLastThree | src/Analyzer.cpp:213-215 | The counts averaged are those of the last three intervals, with the table size before the first. |
| Thresholds.UpIffOverTarget | src/Analyzer.cpp:231-235 | In every interval of every run the threshold goes up if and only if the mean of the last three report counts, rounded down, plus one, is over nine tenths of the table. |
| Thresholds.UpAmount | src/Analyzer.cpp:322-328 | How far it goes up, in terms of that mean: the cube of usage over target, rounded down, at most to the first threshold. |
| Thresholds.DownAmount | src/Analyzer.cpp:330-337 | How far it goes down, in terms of that mean: the root of usage times target, rounded down, but not to 0. |
| Thresholds.EarlyRemovalOfLastDown | src/Analyzer.cpp:338 | The early-removal threshold is a fifth of the threshold set by the last decrease, or of the first one. |
| Thresholds.EarlyRemovalLags | src/Analyzer.cpp:309-310 | An analysis uses the early-removal threshold of one interval earlier. |
| Thresholds.ZeroStaysZero | src/Analyzer.cpp:324-325 | A first threshold of 0 is never left. |
| Thresholds.LowUsageDecay | src/Analyzer.cpp:330-341 | While usage is within the target every fourth interval goes down, and t falls by at least one and at least a tenth each time until it is 1. |
| Thresholds.LowUsageReachesOne | src/Analyzer.cpp:330-341 | Then the threshold is 1 after at most 4t intervals. |
| Thresholds.LagCatchesUpIff | src/Analyzer.cpp:309-338 | In every state, the early-removal threshold the next analysis uses is not below its threshold if and only if the interval goes down, from an early-removal threshold of at least 1, as far as t^2 * usage * target < (r + 1)^2. |
| Thresholds.SilenceClosesEarlyRemoval | src/Analyzer.cpp:309-310 | Exactly when this is so after the first four intervals without reports; a first threshold of 5 and a table of 23 suffice. |
| Cleanup.BandIsEmptyIff | src/Analyzer.cpp:355-356 | No newcomer can survive below the threshold if and only if the early-removal threshold is not below it. |
| Cleanup.ListSize | src/Analyzer.cpp:367-371 | Whatever the order of iteration, there is one record for each flow above the threshold. |
| Analyzer.Analyzer.constructor | src/Analyzer.cpp:28-63 | The thresholds and counts of a new analyzer. |
| Analyzer.Analyzer.UpdateThresholds | src/Analyzer.cpp:305-348 | The assignments, clamps included, compute the threshold step. |
| Analyzer.Analyzer.CheckCleanHashTable | src/Analyzer.cpp:350-392 | For any order of iteration the loop ends, leaves exactly the cleaned table and appends each flow above the threshold once, as it was before the reset. |
| Analyzer.Analyzer.VisitEntry | src/Analyzer.cpp:355-390 | One entry is kept, reported and kept, or erased. |
| Analyzer.Analyzer.DoBoundedAnalysis | src/Analyzer.cpp:212-251 | All tables are cleaned, all filters emptied with one new threshold, the thresholds stepped by the number of results, all locks released, and the results list the old tables one by one. |
| System.RunKeepsPlaces | src/ParallelStages.cpp:135-153 | In every reachable state a flow is in no table but that of the worker it is dispatched to. |
| System.NoFlowTwice | src/Analyzer.cpp:225-231 | Tables are disjoint, the combined results list every flow above the threshold once with its entry, and their number is what the thresholds are stepped by. |
| Intervals.WorkersRunApart | src/ParallelStages.cpp:135-153 | Within an interval each worker's state is that of a run on its own share of the packets. |
| Intervals.EveryIntervalStartsClean | src/Analyzer.cpp:237-242 | Every interval of every run starts with empty filters and entries without octets, and with filter threshold 1 after the first. |
| Intervals.ReportedFlowsAreHeavy | src/Analyzer.cpp:367-373 | Whatever is reported sent more than the threshold. |
| Intervals.TrackedFlowsAreExact | src/Analyzer.cpp:367-373 | A flow in its table when the interval began is reported if and only if what it sent, modulo 2^32, is more than the threshold. |
| Intervals.HeavyFlowsAreReported | src/Analyzer.cpp:367-373 | Documented rule: a flow that sent more than both thresholds together is reported. |
| Intervals.CodeFindsHeavyFlows | src/Analyzer.cpp:212-251 | The code in every interval but the first, whatever the hash functions: every flow above t + 1 octets is reported and none at or below t. |
| Intervals.AgreeingStagesReport | src/ParallelStages.cpp:365-370 | The code at any filter threshold reports every flow above both thresholds together if the stages agree on the worker's flows. |
| Intervals.DetectorFindsIff | src/Analyzer.cpp:212-251 | The code, the first interval included, reports every flow above both thresholds together in every interval of every run, if and only if each worker's stages agree on the flows dispatched to it (or no 32-bit count is above 101 times the first threshold). |
| Intervals.CountersAlwaysBounded | src/MultistageFilter.cpp:64-72 | In every state of every run of the detector no counter of any worker exceeds the filter threshold. |
| Intervals.SplitIntervals | src/Analyzer.cpp:212-251 | Every run is some whole intervals and the packets of one more, so what holds of every interval holds of every state. |
| Intervals.ReportSizeIsBounded | src/Analyzer.cpp:225-231 | The number of reported flows times t + 1 is at most the octets of the interval. |
| Intervals.FirstThresholdIs | src/FHFcapturing.cpp:226-227 | The first threshold is the largest number within the percentage of the link's capacity. |
| Intervals.FirstReportsFitTheTable | src/FHFcapturing.cpp:221-227 | At the first threshold, with the size main asserts, fewer flows are reported than the inverse of the percentage and than the table size. |
| LifeCycle.CyclesCountAnalyses | src/Analyzer.cpp:355-373 | An entry's cycles are, modulo 2^32, the analyses it has survived since its insertion. |
| LifeCycle.OnlyFirstSurvivalIsEarly | src/Analyzer.cpp:355-366 | Every analysis an entry survives after its first has reported it. |
| Survival.KeptByAnalysis | src/Analyzer.cpp:355-390 | After an interval and its analysis a flow is in its table if and only if it was counted for more than t, or had no cycles and was counted for more than the lagged r; its packets go on, its octets are 0, its cycles one more. |
| Survival.KeptExactly | src/Analyzer.cpp:355-366 | In runs of fewer than 2^32 analyses, without cycles means not in the table when the interval began. |
| Survival.RecordIs | src/Analyzer.cpp:367-371 | Every reported record holds the packets of the entry's life, the octets counted in the interval and the cycles. |
| Survival.CountedAre | src/HashTable.cpp:35-54 | What is counted, modulo 2^32: the octets sent in the interval and the packets, without those the filter dropped. |
| Survival.AloneInFirstInterval | src/MultistageFilter.cpp:45 | In the first interval a flow that meets no other in its buckets is admitted if and only if it sends more than 100 times the first threshold. |
| Interleaving.LocksAlwaysAgree | src/ParallelStages.cpp:439-445 | In every reachable state a mutex is held by its worker exactly in its critical section and by the analyzer exactly from its lock to its unlock. |
| Interleaving.EveryInterleavingIsSequential | src/Analyzer.cpp:220-245 | Every interleaving of the threads is in the state of one sequential run with the analysis as a single event, each worker's packets take effect once, in order, and all results so far are those of that run. |
| Interleaving.AnalysisExcludesWorkers | src/Analyzer.cpp:225-242 | While the analyzer cleans and renews, no worker is between lookup and unlock. |
| Interleaving.UpdateNeverThrows | src/HashTable.cpp:43 | Under no interleaving does a worker update a flow that is not stored. |
| Interleaving.ReportsAreSequential | src/Analyzer.cpp:224-231 | The results of analysis n list, once each and with its entry, the flows that interval n of the sequential run reports. |
| Interleaving.ThreadsFindHeavyFlows | src/Analyzer.cpp:212-251 | Code and threads together: report n, for n from 1, has every flow above t + 1 octets of its interval, none at or below t, and none twice. |
| Interleaving.StepsAreProgress | src/ParallelStages.cpp:363-371 | Every step of a thread at work brings all threads closer to rest. |
| Interleaving.NoDeadlock | src/Analyzer.cpp:220-245 | In every reachable state with a thread at work some thread at work can take its next step. |
| Schedules.EveryRunIsReached | src/ParallelStages.cpp:363-371 | Conversely every sequential run is the trace of a schedule of the threads. |
| Schedules.ThreadsFindIff | src/Analyzer.cpp:212-251 | Code and threads, all intervals: under every schedule every report has each flow above both thresholds together, if and only if each worker's stages agree on its flows (or no 32-bit count is above 101 times the first threshold). |
| Detector.Detector.constructor | src/FHFcapturing.cpp:225-250 | Workers, emitter and analyzer put together are in the start state of the model, no two workers share an object. |
| Detector.Detector.Serve | src/ParallelStages.cpp:135-157 | Dispatch and service of a packet take the objects through the packet step of the model. |
| Detector.Detector.Cut | src/Analyzer.cpp:212-251 | An analysis takes the objects through the cut step of the model, and its results are the report of the state it met. |
| Detector.Detector.Run | src/Analyzer.cpp:167-200 | After any sequence of packets and analyses the objects are in the state of the sequential run, with its reports. |
| Detector.Detect | src/FHFcapturing.cpp:213-260 | The program from its start: the report of every interval lists, once each with its entry, the flows that the model reports in it. |

## Left out

- Packet capture, header parsing and byte order of the network: a packet is its flow identifier and its octets; the key
  image is that of a little-endian machine.
- Signals, timers, thread creation and the farm library: actions `Take` and `Begin` come from outside, in any order; the
  queue between emitter and worker is not modelled.
- Interleaving is modelled on values, not on the objects; the objects run one method at a time and carry their mutex as a
  flag. Starvation is not excluded: a worker may retake its mutex before the waiting analyzer.
- boost's hash_combine and hash map: an arbitrary function of seed and field, and a map visited in arbitrary order.
- UniversalHash.UniversalHashFunction.Hash: computes in unbounded integers; `HashFitsInt` says for which table sizes the
  int of the program cannot overflow. The object keeps a copy of its coefficients where the original keeps the buffer.
- MultistageFilter.StageContainer.ConservativeUpdate: takes the bound as an unsigned long where the original passes a
  double, which is exact below 2^53.
- MultistageFilter.MultistageFilter.constructor: is given the hash functions, drawn elsewhere, and does not model the
  exceptions for sizes of 0.
- Analyzer.Analyzer.UpdateThresholds: computes the float expressions exactly, rounded down once; r_mul, target and the
  exponents are 1/5, 9/10, 3 and 1/2. The report counts are unbounded where the original has unsigned int.
- Intervals.FirstReportsFitTheTable: takes the first threshold as the exact product rounded down.
- Admission.AdmitsHeavyIff: thresholds 2 and 3 are not covered; no stage ever gets them.
- Measurement.CountsAlmostAllIff: the same, and thresholds of 2^31 - 1 and more, where the run that hides the octets of a
  flow takes it past 32 bits.
- Agreement.SameBucketsIff: from 2^16 buckets on two key bytes need not collide; which coefficients agree is left open.
  For several workers the stages need to agree on a part of the flows only; the count is of agreement on all.
- FalsePositives.FalsePositivesAreRare: counts choices of coefficient vectors; that the generator draws them uniformly is
  not part of this model.
- Destruction of objects, the exporter, printing, statistics and the unused generator of several hash functions.
