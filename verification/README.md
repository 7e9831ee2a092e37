# Port-Sentinel traffic pipeline and enforcement, verified

Port-Sentinel captures packets, accumulates byte counters per port, publishes
them through shared memory, turns them into rates and a live table, and lets
policies block ports through the operating system's firewall. This project models
that pipeline and the firewall state machines it drives, and proves properties of
whole runs of them. `dafny verify dfyconfig.toml` checks everything.

Each piece is bounded, indexed or cached state that must agree with something
simpler, so most results have one shape: the state after any run equals a plain
function of the run's history.

| file | what it models |
|---|---|
| Text, Decimal, Bits, OrderedDict, PortScan | strings, numerals, bits, insertion-ordered dictionaries and indexed scans that the rest builds on |
| SlotCodec, Inet, SharedMemory | the 32 data bytes and 32 MAC bytes of a port slot, addresses as text, the bitmap of active ports, the segment that is written and scanned |
| LockFree, QuietScan, Freshness, Timeline | the same writer and the reader that takes no lock, one memory byte per step; which ports a scan finds, and how current they are |
| Sniffer | counting packets, flushing to shared memory, dropping idle ports |
| PortMetrics, Conservation, DroppedPort | byte deltas and rounded rates; one port followed from packets to rates, and a run in which it is dropped and returns |
| SlidingWindow, ConcurrentCleanup, Dispatcher | the bounded history and the live table; its cleanup on another thread; one dispatcher tick, in which snapshots are changed after they were cached |
| Policy | ordered rules with a cooldown for each rule and port |
| LinuxBridge, Enforcement | the `iptables` chain under failing commands; the chain together with the table of blocked ports |
| PfRules | the macOS rules file, printed and parsed back |
| RateLimit, ThreatCache, ThreatPromises, Sparkline | the request limiter, the address cache with interleaved critical sections and when it keeps its promises, the browser's minute of points |

Objects that the program updates in place are classes; each method is proved
against a function of the old state, and the lemmas are about those functions.
Commands that may fail, database writes, clocks, pid tables, host lookups and
fetches are parameters, so every statement holds for all their outcomes.

Assumptions that are part of a statement:

- The MAC (HMAC, section 2 of RFC 2104) is an arbitrary function. Only
  `LockFree.LockFreeReadSafety` and `Freshness.ReadsAreCurrent` assume more, as an
  explicit hypothesis (`IdealMac`, `IdealInWindow`): a record put together from bytes of
  different signed records of a port, or of those that one copy can meet, does not
  verify. `LockFree.IdealMacExists` shows that the former can be met; without an
  overlapping write the latter is not needed (`Freshness.UndisturbedReadIsLast`).
- Conservation and Tick read shared memory in one step; Freshness says what a read at byte
  granularity returns. The methods of SlidingWindow add and clean up in one step;
  ConcurrentCleanup takes both apart.
- Rates and times are exact reals; `round` is any function that picks some nearest
  two-decimal number.
- Where a statement needs a clock that does not go back, it says so.

What the proofs showed about the code, beyond what it promises:

- The rules-file round trip fails for an interface that ends in a newline, which
  the interface check accepts because `$` also matches before a final newline
  (`PfRules.NewlineInterfaceBreaksRoundTrip`). Ports still survive; the rule text
  survives if and only if no rule in it holds a newline (`PfRules.RoundTrip`).
- A macOS cleanup that raises empties the dictionary but leaves the file, from which
  a later unblock would load the rules again (`PfRules.FailedCleanup`).
- On Linux a rule is doubled exactly when `-C` exits non-zero although the rule is there and the
  insertion succeeds (`LinuxBridge.BlockDuplicates`), and unblock undoes block
  exactly when the port had no managed rule (`LinuxBridge.UnblockUndoesBlock`).
- A block that raises after `iptables` applied it leaves a rule without a row
  (`Enforcement.AgreementAfter`, `RowLost`).
- The address cache is not bounded by its limit, since placeholders and failed fetches do
  not evict (`ThreatCache.PlaceholdersIgnoreTheLimit`); it stays within the limit exactly
  when no placeholder is inserted for a new address into a full cache
  (`ThreatPromises.LimitHolds`). A completed fetch may evict its own result
  (`ThreatCache.StoreEffect`). Two lookups that both miss may fetch twice, the late
  placeholder hiding a result (`ThreatCache.LatePlaceholderHidesResult`);
  `ThreatPromises.SecondFetch`, `DiscardsResult` and `FetchedOnce` say exactly when.
- A counter that restarts after its port was dropped reads as a wrap, and such a run exists
  (`DroppedPort.DroppedPortMisreads`); an interval is conserved exactly when the counter
  values dropped in it are a multiple of 2^64 (`Conservation.ByteConservation`).
- The cleanup of the snapshot cache takes no lock against the dispatcher: a snapshot that is
  added between its test for an empty deque and the deletion is lost
  (`ConcurrentCleanup.SnapshotIsLost`), and `ConcurrentCleanup.TableUnderRaces` says
  exactly when the live table suffers.
- A restarted macOS process that blocks before it unblocks overwrites the rules file and
  loses every other rule (`PfRules.RestartedBlock`).
- The dispatcher does not pass the remote address on to the accumulator
  (`backend/infrastructure/network/dispatcher.py:86-93`), so organisation and country
  in the live table are always those of `0.0.0.0`, and the risk score of the metadata is
  overwritten (`Dispatcher.DispatcherLoop.Tick` says so).

Where documentation and code disagree the code is modelled: the slot is 64 bytes as in
`backend/core/sniffer.py:41-54`, not 32 as in the module's docstring, and the layout
constants in `backend/infrastructure/network/dispatcher.py:23-25` are unused.

## Model

| member | source | states |
|---|---|---|
| SlotCodec.UnpackPack | backend/core/sniffer.py:49-54 | unpacking inverts packing: every field of every slot entry survives, 64-bit counters included |
| SlotCodec.PackUnpack | backend/core/sniffer.py:49-54 | packing inverts unpacking for exactly those 32-byte records whose three padding bytes are zero |
| SlotCodec.PackLayout | backend/core/sniffer.py:49-54 | where each byte of the 32-byte record is: little-endian port, counters and process, then protocol, active flag, risk, address and zero padding |
| Inet.AtonNtoa | backend/core/sniffer.py:342-344 | every 4-byte address survives being printed as dotted quad and parsed |
| Inet.NtoaAton | backend/core/sniffer.py:119-126 | text that parses as an address, in any of the forms that inet_aton takes, is what is printed for it iff it is canonical |
| Inet.FromFieldsMeans | backend/core/sniffer.py:119-126 | an address of one to four fields is the number that the fields stand for, the last one filling the remaining bytes |
| Inet.NumberMeans | backend/core/sniffer.py:119-126 | decimal, octal and hexadecimal fields, with an input each, and malformed ones that are rejected |
| SharedMemory.Segment.constructor | backend/core/sniffer.py:99-105 | a new segment is all zero |
| SharedMemory.Segment.WritePortEntry | backend/core/sniffer.py:111-140 | the buffer afterwards is the old one with this port's signed record and bitmap bit stored, and every slot still holds its own port; counters are taken modulo 2^64 and what is no address becomes 0.0.0.0 |
| SharedMemory.WriteEffect | backend/core/sniffer.py:132-140 | a write puts the whole signed record and its active bit in place and changes no other port's slot or bit |
| SharedMemory.WriteLayout | backend/core/sniffer.py:111-140 | a write puts the data at byte 64 * port, its MAC 32 bytes further on, and bit port % 8 of byte 4194304 + port / 8 |
| SharedMemory.AcceptRecord | backend/core/sniffer.py:329-348 | a signed record is accepted and decodes to its entry exactly when that is active |
| SharedMemory.ReadingOfMadeEntry | backend/core/sniffer.py:119-130 | the reader gets back the writer's arguments, counters modulo 2^64, and the address text unchanged iff it was canonical |
| SharedMemory.Segment.ReadPortEntry | backend/core/sniffer.py:318-348 | reads a slot as the specification of reads says: nothing if the MAC is wrong or the entry inactive |
| SharedMemory.Segment.ReadAllActivePorts | backend/core/sniffer.py:351-379 | the byte-by-byte bitmap loop, which skips zero bytes, collects exactly the readable entries of the ports whose bit is set, in port order |
| SharedMemory.ReadsLastWrite | backend/core/sniffer.py:111-140 | after any sequence of writes to zeroed memory a port reads as its last write if that was active, else as nothing, and its bit says which |
| SharedMemory.BitmapRefinesBruteForce | backend/core/sniffer.py:351-379 | after any sequence of writes the bitmap scan returns exactly what reading all 65536 ports in ascending order returns |
| PortScan.ReadIndexedSound | backend/core/sniffer.py:362-371 | an indexed scan of ports that read as themselves is strictly ascending and holds exactly the readable indexed entries |
| SharedMemory.ScanDistinct | backend/core/sniffer.py:351-379 | after any sequence of writes a scan returns every port at most once |
| SharedMemory.ScanMeans | backend/core/sniffer.py:351-379 | a scan is strictly ascending by port and holds exactly the entries that were the last write of their port and active |
| LockFree.RunKeeps | backend/core/sniffer.py:318-379 | in every interleaving of byte-level writer and reader steps, each byte in memory, in the reader's copy and in what it returned comes from its own place in a record signed for that port |
| LockFree.LockFreeReadSafety | backend/infrastructure/network/dispatcher.py:81 | under the ideal-MAC hypothesis every tuple returned by the reader without a lock is, whole, one that a single write signed as active for that port, never a mixture; which tuples a scan does return is said by QuietScan.QuietScanIsScan |
| LockFree.IdealMacExists | backend/core/sniffer.py:333-335 | for every set of signed entries some MAC satisfies the hypothesis |
| Freshness.RunKeepsCurrent | backend/core/sniffer.py:132-140 | in every interleaving each memory byte is that of the write under way or of the last completed one, and each copied byte that of a write that was the last before the copy or overlaps it |
| Freshness.ReadsAreCurrent | backend/infrastructure/network/dispatcher.py:81 | under the ideal-MAC hypothesis for the copy alone, every tuple returned is the last write of the port completed before the copy began, or one that overlapped the copy |
| Freshness.UndisturbedReadIsLast | backend/core/sniffer.py:327-348 | with any MAC, a tuple whose copy no write to the port overlapped is the last completed write of that port |
| Timeline.ReturnHasWindow | backend/core/sniffer.py:362-371 | every tuple returned was copied in one go between a step that found its bit set and a step that accepted its MAC, and carries the number of records completed before the one and of writes begun before the other |
| Timeline.BitsAreCurrent | backend/core/sniffer.py:132-140 | in every interleaving a port's bit says whether its last finished write was active; a bit is stored only after the whole record |
| Timeline.QuietScanReadsLastWrites | backend/core/sniffer.py:351-379 | after any interleaving, an undisturbed scan between two writes returns exactly the ports whose last write was active, each with that write, in ascending order |
| LockFree.QuietWrite | backend/core/sniffer.py:132-140 | writer steps with nothing in between do what the sequential write does |
| LockFree.QuietRead | backend/core/sniffer.py:327-348 | reader steps with nothing in between return what the sequential read returns, go on to the next bit and change nothing else |
| QuietScan.QuietScanIsScan | backend/core/sniffer.py:351-379 | from every state, reader steps with nothing in between visit the whole bitmap, change nothing else, and return exactly the sequential scan of that memory, in order |
| Sniffer.SnifferProcess.PacketCallback | backend/core/sniffer.py:142-198 | a packet is counted outbound for its source port and inbound for its destination port, keeping the bitmap invariants |
| Sniffer.PacketMeans | backend/core/sniffer.py:142-198 | what a packet does to any port, field by field: bytes by direction, the highest risk, the remote address, the time last seen |
| Sniffer.SnifferProcess.PublishAll | backend/core/sniffer.py:213-221 | whatever order the table yields, exactly the tracked ports' slots and bits are rewritten and active ports remember their process |
| Sniffer.SnifferProcess.FlushToShm | backend/core/sniffer.py:200-227 | one flush: publish every tracked port, then drop ports idle for more than 300 s if more than 5000 are tracked |
| Sniffer.FlushDecidesBits | backend/core/sniffer.py:214-227 | after a flush a port's bit is set iff the port was tracked with at most 30 idle seconds, and dropping ports orphans no set bit |
| Sniffer.FlushPublishes | backend/core/sniffer.py:214-219 | what the reader of a port sees after a flush: its counters modulo 2^64 while active, nothing otherwise |
| Sniffer.FlushMeans | backend/core/sniffer.py:213-227 | a flush drops counters iff more than 5000 ports are tracked, exactly those idle for more than 300 s, and changes nothing else but the process of active ports |
| Sniffer.AlwaysOwned | backend/core/sniffer.py:142-227 | in every run every set bit belongs to a tracked port and says exactly whether the port can be read |
| Sniffer.FlushOwnership | backend/core/sniffer.py:200-227 | after every flush of every run: bit set iff tracked and at most 30 s idle, set bits belong to tracked ports, and the bitmap scan equals the brute-force scan |
| Sniffer.ScanDistinct | backend/core/sniffer.py:200-227 | in every state of every run of packets and flushes a scan returns every port at most once |
| PortMetrics.HalfUpRounds | backend/application/services/metrics_service.py:101 | rounding half up is one of the roundings that the other results allow |
| PortMetrics.SafeDeltaIsModular | backend/application/services/metrics_service.py:103-108 | the overflow guard computes the difference modulo 2^64 |
| PortMetrics.DeltaIsGrowth | backend/application/services/metrics_service.py:103-108 | between two readings of a growing counter the delta is the true growth iff fewer than 2^64 bytes arrived |
| PortMetrics.RestartReadsAsWrap | backend/application/services/metrics_service.py:103-108 | if counter values were lost between two readings, the delta is the growth less the loss modulo 2^64, and the true growth iff a multiple of 2^64 was lost |
| PortMetrics.RebuiltBytes | backend/application/services/metrics_service.py:95-101 | bytes rebuilt from a rounded rate miss the delta by at most 5.12 per second |
| PortMetrics.RatesMean | backend/application/services/metrics_service.py:88-101 | no rate without a previous reading or without time passing, otherwise the bytes modulo 2^64 since then in KB per second, rounded |
| PortMetrics.Calculator.CalculateDelta | backend/application/services/metrics_service.py:65-101 | zero rates without a previous snapshot and when no time has passed, otherwise the bytes modulo 2^64 since the previous snapshot in KB per second, rounded; the snapshot is replaced in every case |
| Conservation.AlwaysConsistent | backend/core/sniffer.py:175-227 | at every point of every run of packets, flushes, drops and reads (torn ones included) the counters, the published record and every reading sampled agree with the bytes captured less the counter values dropped |
| Conservation.FlushedIsSampled | backend/core/sniffer.py:200-227 | a whole read after a flush gives a reading iff the port was tracked and at most 30 s idle at the flush, with the counters of the flush modulo 2^64, whatever is captured in between |
| Conservation.FirstSampleIsZero | backend/application/services/metrics_service.py:88-89 | in every run the first reading of a port shows no rate, however large its counters are |
| Conservation.OneInterval | backend/application/services/metrics_service.py:80-108 | between two readings the delta is the bytes captured iff the counter values dropped meanwhile are a multiple of 2^64, and the rounded rate stands for the delta to within 5.12 bytes per second |
| Conservation.SumsTelescope | backend/application/services/metrics_service.py:80-108 | the deltas of the readings add up to the growth if no interval loses anything, and the rounded rates to the deltas within 5.12 bytes per second |
| Conservation.ByteConservation | backend/application/services/metrics_service.py:80-108 | end to end, whether or not the port is dropped on the way, with reads strictly later and fewer than 2^64 bytes apart: each delta of the readings is exactly the bytes captured iff a multiple of 2^64 was dropped meanwhile; if so throughout, the deltas add up to exactly the bytes captured; the rates stand for the deltas to within 5.12 per elapsed second always |
| Conservation.KeptConserves | backend/core/sniffer.py:224-227 | a port not dropped once it has been read is conserved exactly, even if it was dropped before |
| DroppedPort.DroppedPortMisreads | backend/core/sniffer.py:224-227 | a run in which a port is dropped among more than 5000 and returns: 500 bytes arrive between two reads and the delta is 2^64 - 500 |
| Policy.PolicyEngine.Evaluate | backend/domain/policies/engine.py:40-98 | the loop with early exit fires a rule that is enabled, whose minimum rate and risk are reached, whose applications fit and whose cooldown has passed, and without an event there is no such rule; only that trigger is remembered |
| Policy.EvaluateMeans | backend/domain/policies/engine.py:51-98 | the event is that of the first rule in the list whose every condition holds, its time is remembered under rule and port and nothing else changes; without an event no rule meets its conditions |
| Policy.EvaluateIsMonotone | backend/domain/entities/rule.py:40-46 | raising the rate or the risk never stops a rule that would fire, and never silences the engine |
| Policy.PolicyEngine.RemovePolicy | backend/domain/policies/engine.py:104-108 | exactly the rules with that id go, the others keep their order, and the result says whether there was one |
| Policy.WithoutMeans | backend/domain/policies/engine.py:104-108 | removing goes rule by rule and keeps the order of the others |
| Policy.PoliciesAreKept | backend/domain/policies/engine.py:100-108 | after any run of operations the engine holds exactly the rules added and not removed by id since, in the order of adding |
| Policy.PolicyEngine.SetCooldown | backend/domain/policies/engine.py:110-112 | the cooldown becomes the larger of 1 and the argument |
| Policy.KeyInjective | backend/domain/policies/engine.py:55 | trigger keys of different rules or ports differ, even if ids contain colons |
| Policy.LogMeans | backend/domain/policies/engine.py:73-96 | the log of a run gains exactly the event of an evaluation, with the remembered time and the cooldown in force |
| Policy.CooldownHolds | backend/domain/policies/engine.py:55-60 | over any run of evaluate, add, remove and set_cooldown with a clock that does not go back, two triggers of one rule on one port are at least the cooldown in force at the later one apart |
| Policy.TriggersPerInterval | backend/domain/policies/engine.py:55-91 | with a fixed cooldown c an interval of length L holds at most floor(L / c) + 1 triggers of one rule on one port |
| Policy.EachFiresInTurn | backend/domain/policies/engine.py:51-98 | rules with distinct ids that match one snapshot and are off cooldown fire exactly once each, in list order, over successive evaluations within one cooldown, and then nothing fires |
| SlidingWindow.SlidingWindowCache.AddSnapshot | backend/application/services/metrics_service.py:129-134 | appends to the port's bounded deque, dropping the oldest entry when full |
| SlidingWindow.AppendedMeans | backend/application/services/metrics_service.py:129-134 | a full deque loses exactly its oldest entry and no other ever, and ends with the new one |
| SlidingWindow.SlidingWindowCache.GetHistory | backend/application/services/metrics_service.py:136-146 | all entries of a port, or exactly those not older than the given seconds, in order |
| SlidingWindow.RecentMeans | backend/application/services/metrics_service.py:145-146 | an entry exactly as old as the cutoff is kept, an older one is not, whatever lies around it |
| SlidingWindow.SlidingWindowCache.EvictStale | backend/application/services/metrics_service.py:148-159 | pops stale entries port by port, deletes the deques left empty, and returns exactly the drop in total entries |
| SlidingWindow.HistoryIsLogSuffix | backend/application/services/metrics_service.py:125-159 | over any run of adds and cleanups a port's deque is a suffix of all its added snapshots, no longer than max_entries |
| SlidingWindow.HistoryIsFull | backend/application/services/metrics_service.py:129-134 | without cleanups a deque holds as many of the added snapshots as its bound allows |
| SlidingWindow.EvictRemovesExactlyStale | backend/application/services/metrics_service.py:148-159 | with timestamps in order a cleanup keeps exactly the entries not older than the cutoff, and no empty deque |
| SlidingWindow.EvictKeepsHistory | backend/application/services/metrics_service.py:136-159 | a cleanup does not change a history query at the same time that reaches no further back than the maximum age |
| SlidingWindow.BoundedCacheIsInvisible | backend/application/services/metrics_service.py:129-159 | for any sequence of adds and cleanups, each atomic, with cleanups no later than the query, the live entry of every port is the one the unbounded log gives |
| SlidingWindow.TableOfUnboundedLog | backend/application/services/metrics_service.py:266-294 | rows are the live table of the cache iff they are the live table of the unbounded log: last snapshot per port, at most 5 s old, strictly ascending ports |
| SlidingWindow.TableIsUnique | backend/application/services/metrics_service.py:276-294 | there is only one such table |
| SlidingWindow.TableMeans | backend/application/services/metrics_service.py:271-294 | the table ascends by port and holds exactly each port's newest snapshot that is at most 5 s old |
| ConcurrentCleanup.AlwaysAgrees | backend/application/services/metrics_service.py:129-159 | in every interleaving of the steps of adds and of cleanups that take no lock, each port's deque agrees with its log up to what the fate of its last add says |
| ConcurrentCleanup.EntryUnderRaces | backend/application/services/metrics_service.py:148-159 | a port's live entry is the one of the unbounded log iff it is not the case that its last add was lost (the port was deleted during it, or it ended between the cleanup's test and what the cleanup does next) and would still show |
| ConcurrentCleanup.TableUnderRaces | backend/application/services/metrics_service.py:266-294 | the live table is the table of the unbounded log iff no port's last add was lost while its snapshot would still show |
| ConcurrentCleanup.SnapshotIsLost | backend/application/services/metrics_service.py:152-158 | an interleaving in which a fresh snapshot, added between the test for an empty deque and the deletion, is missing from the table |
| ConcurrentCleanup.QuietCleanup | backend/application/services/metrics_service.py:148-159 | with nothing in between, the steps of a cleanup are the atomic cleanup |
| Dispatcher.TrafficAccumulator.ProcessPortData | backend/application/services/metrics_service.py:192-235 | one snapshot is made with the port's rates and enriched risk, cached, and returned by reference |
| Dispatcher.TrafficAccumulator.GetPortTable | backend/application/services/metrics_service.py:266-294 | the rows are those of the unique live table of the cache, showing each snapshot as it is now |
| Dispatcher.AfterOpsKeyed | backend/application/services/metrics_service.py:129-159 | every cache that adds and cleanups lead to holds only snapshots of a port under that port |
| Dispatcher.DispatcherLoop.HandleEntry | backend/infrastructure/network/dispatcher.py:83-101 | one port: accumulate, override risk and address through the reference, evaluate the policies on the result |
| Dispatcher.RatesAtMean | backend/infrastructure/network/dispatcher.py:83-93 | the rates of a port in a tick are zero without a last snapshot or without time passing, otherwise those since the snapshot before the tick, whatever the other ports |
| Dispatcher.PortsDoNotInterfere | backend/infrastructure/network/dispatcher.py:81-101 | the events of a tick are exactly those that each active port gives on the engine as it was before the tick, and no port has two |
| Dispatcher.DispatcherLoop.Tick | backend/infrastructure/network/dispatcher.py:77-105 | each active port is accumulated and evaluated exactly once, in order, a port without a last snapshot with zero rates; the events are those of each port alone; the table is the live table of the cache, ascends strictly by port, and the port's one row carries its process, application, rates, protocol, and the risk score and address that shared memory held and the policies saw, although they were written after the snapshot was cached |
| LinuxBridge.Bridge.BlockPort | backend/os_adapters/linux_bridge.py:118-158 | the chain and the reply after a block, for every way its two commands can end; a rule that is inserted is the DROP rule with the product's comment, at the head |
| LinuxBridge.BlockMeans | backend/os_adapters/linux_bridge.py:118-158 | for every way the two commands end: a block that inserts puts its DROP rule first, so that the first-match verdict for that protocol and port is DROP and every other verdict is as before |
| LinuxBridge.Bridge.UnblockPort | backend/os_adapters/linux_bridge.py:160-180 | the four deletions, any of which may fail; success is reported all the same |
| LinuxBridge.ForeignRulesKeepOrder | backend/os_adapters/linux_bridge.py:130-180 | rules the bridge does not manage keep their relative order through any block or unblock, whichever commands fail |
| LinuxBridge.BlockIsIdempotent | backend/os_adapters/linux_bridge.py:130-140 | a second successful block of the same port and protocol changes nothing |
| LinuxBridge.BlockDuplicates | backend/os_adapters/linux_bridge.py:130-148 | a block doubles a managed rule iff the check misses a rule that is there and the insertion is applied |
| LinuxBridge.UnblockOccurs | backend/os_adapters/linux_bridge.py:165-180 | an unblock takes away exactly one copy of each managed rule of the port whose deletion is applied, and nothing else |
| LinuxBridge.ManagedForMeans | backend/os_adapters/linux_bridge.py:166-174 | the four rules that an unblock is after, spelled out |
| LinuxBridge.UnblockUndoesBlock | backend/os_adapters/linux_bridge.py:118-180 | unblock right after block restores the very chain iff the chain held no managed rule for the port |
| LinuxBridge.EditingLaws | backend/os_adapters/linux_bridge.py:118-180 | over every run of blocks and unblocks in which the check misses nothing, no managed rule is doubled and foreign rules keep their order |
| LinuxBridge.ManagedIsTagged | backend/os_adapters/linux_bridge.py:196-197 | the listing line of every managed rule carries a tag that cleanup looks for |
| LinuxBridge.NumberOfLine | backend/os_adapters/linux_bridge.py:196-200 | a numbered listing line yields its own number iff its rule is tagged |
| LinuxBridge.Bridge.CollectNumbers | backend/os_adapters/linux_bridge.py:194-203 | parsing the listing and sorting gives exactly the positions of the tagged rules, last first |
| LinuxBridge.CleanupUnderFailures | backend/os_adapters/linux_bridge.py:194-208 | whichever deletions fail or raise, only tagged rules go and the others keep their order; if none raises the number returned is exactly the number removed; if none fails exactly the untagged rules remain |
| LinuxBridge.CleanupMeans | backend/os_adapters/linux_bridge.py:194-208 | the rules whose listing line names neither Vigilant_Block_ nor Sentinel_Block_ stay, each copy and in order, whatever fails; if nothing fails no other rule stays |
| LinuxBridge.Bridge.CleanupAllRules | backend/os_adapters/linux_bridge.py:182-218 | descending deletion by line numbers collected beforehand: rules whose listing line names neither Vigilant_Block_ nor Sentinel_Block_ stay in order whatever fails, no other stays if nothing fails, the first exception stops it, and the count reported is the number of rules that went |
| Enforcement.FirewallCommandHandler.HandleBlock | backend/application/commands/firewall.py:44-73 | the row is written only after the bridge blocked the port; errors of the bridge or the database are passed on |
| Enforcement.FirewallCommandHandler.HandleUnblock | backend/application/commands/firewall.py:75-95 | rules are deleted as far as that works, and the row goes regardless |
| Enforcement.FirewallCommandHandler.OnPolicyEvaluated | backend/application/events/handlers.py:49-62 | a rule with action block blocks its port over TCP and adds a row; failures are swallowed |
| Enforcement.CoveredAfter | backend/application/commands/firewall.py:75-95 | one request keeps every listed port covered by a DROP rule iff it is not an unblock that deletes the last rule of a listed port whose row it cannot remove |
| Enforcement.CoverageHolds | backend/application/commands/firewall.py:44-95 | throughout a run every listed port is covered iff no request of the run is such an unblock |
| Enforcement.HasRuleMeans | backend/os_adapters/linux_bridge.py:166-174 | a port has a managed rule iff the chain holds such a DROP rule, spelled out |
| Enforcement.TableIsCovered | backend/application/commands/firewall.py:44-95 | over every interleaving of manual blocks, unblocks and automatic blocks, with any rule edits failing, the chain holds for every port in the table a rule of that port whose target is DROP (removals of rows being committed) |
| Enforcement.AgreementAfter | backend/application/commands/firewall.py:44-95 | one request keeps table and chain in agreement iff it loses no row of a rule it inserts, drops no row of a rule that stays and keeps no row of rules that go |
| Enforcement.TableAgrees | backend/application/events/handlers.py:54-62 | over every run without such faults a port is in the table iff the chain holds a rule of that port with target DROP, protocol tcp or udp and a comment of the product, and no managed rule is doubled |
| PfRules.SearchIsExact | backend/os_adapters/darwin_bridge.py:216 | the search for the trailing port clause succeeds with given digits iff the pattern matches somewhere with that group, and it matches in one place only |
| PfRules.RuleTextIsRule | backend/os_adapters/darwin_bridge.py:184-187 | every printed rule reads back as a rule for its port, and is one line iff the interface has no newline |
| PfRules.ArgumentsMean | backend/os_adapters/darwin_bridge.py:178-187 | a block is accepted iff on macOS with a port from 1 to 65535, protocol tcp or udp in any case, and a non-empty alphanumeric interface, with or without a final newline |
| PfRules.DarwinBridge.WritePfRules | backend/os_adapters/darwin_bridge.py:110-117 | the file holds the dictionary's rules in insertion order, one a line; an error leaves it as it was or cut off, and is ignored |
| PfRules.WriteMeans | backend/os_adapters/darwin_bridge.py:110-117 | the text written is the rules, each followed by a newline, in order |
| PfRules.DarwinBridge.ReadPfRules | backend/os_adapters/darwin_bridge.py:212-221 | each line that matches is put under its port, keeping the place of ports already there |
| PfRules.DarwinBridge.BlockPort | backend/os_adapters/darwin_bridge.py:176-208 | a valid rule is recorded and written before pfctl runs, and stays if that raises |
| PfRules.DarwinBridge.UnblockPort | backend/os_adapters/darwin_bridge.py:210-230 | a port not in the dictionary is looked up in the file first; the file is rewritten iff a rule was deleted; success is reported in every case |
| PfRules.UnblockMeans | backend/os_adapters/darwin_bridge.py:210-230 | after any run an unblock, however its writing ends, takes away exactly that port |
| PfRules.DarwinBridge.CleanupAllRules | backend/os_adapters/darwin_bridge.py:232-249 | the dictionary is emptied in any case, the file removed only if nothing raises |
| PfRules.LoadWritten | backend/os_adapters/darwin_bridge.py:110-115 | reading a written file, into an empty dictionary or over one with the same ports, gives every port in its place with the text its rule reads back as |
| PfRules.RoundTrip | backend/os_adapters/darwin_bridge.py:176-230 | after any run of blocks, unblocks and cleanups that do not raise, the file parses to the same ports in the same order, and to exactly the dictionary iff no rule in it holds a newline |
| PfRules.PlainInterfaces | backend/os_adapters/darwin_bridge.py:184-187 | if no block of the run uses an interface with a newline, no rule holds one |
| PfRules.NewlineInterfaceBreaksRoundTrip | backend/os_adapters/darwin_bridge.py:184 | the accepted interface "en0" plus newline, for which the round trip fails |
| PfRules.RestartedUnblock | backend/os_adapters/darwin_bridge.py:210-230 | a restarted process that unblocks a port leaves the file the old one would have left, iff the port is not active or no other rule holds a newline |
| PfRules.RestartedBlock | backend/os_adapters/darwin_bridge.py:190-191 | a restarted process that blocks before it reads the file keeps the old ports iff the block is rejected or there was none but the port blocked |
| PfRules.FileNotOpened | backend/os_adapters/darwin_bridge.py:110-117 | if the file cannot be opened, it stays in step with the dictionary iff the block is rejected or its port was active, and iff the port to unblock was not |
| PfRules.FailedCleanup | backend/os_adapters/darwin_bridge.py:232-249 | after a cleanup that raises, file and dictionary agree iff nothing was active |
| RateLimit.RateLimitMiddleware.Dispatch | backend/presentation/middleware/security.py:40-58 | prunes and extends the client's list, touching no other client, and admits iff the list is not too long |
| RateLimit.ClientMeans | backend/presentation/middleware/security.py:43 | two requests share a list iff their hosts are equal, a missing host being the host "unknown" |
| RateLimit.ListIsWindow | backend/presentation/middleware/security.py:43-53 | a client's list is its full log of requests, rejected ones included, restricted to the window that ends with its last request |
| RateLimit.RejectedIffTooMany | backend/presentation/middleware/security.py:55-56 | a request is rejected iff its client's requests in the window that ends with it exceed the maximum |
| RateLimit.RejectedByCount | backend/presentation/middleware/security.py:55-56 | the same as a count: a request is admitted iff with it at most max_requests requests of its client are less than a window old |
| RateLimit.WindowsAreBounded | backend/presentation/middleware/security.py:40-58 | no half-open window of the configured length, wherever it lies, holds more than max_requests admitted requests of a client |
| RateLimit.AdmittedAreBounded | backend/presentation/middleware/security.py:40-58 | the same as a count of requests of the log: at most max_requests of a client are admitted within any interval shorter than the window |
| RateLimit.HalfOpenWindows | backend/presentation/middleware/security.py:44-49 | intervals closed on either one side are windows in that sense |
| RateLimit.ClientsAreIndependent | backend/presentation/middleware/security.py:43-58 | a client's list and admitted requests are those it would have had alone, whatever the clocks |
| ThreatCache.ThreatIntel.LookUp | backend/core/threat_intel.py:47-67 | the first critical section: local and invalid addresses bypass the cache, a fresh entry is returned and moved to the end, a stale one is deleted from both maps |
| ThreatCache.IsLocalMeans | backend/core/threat_intel.py:51-52 | local are the empty address and those that begin with 127., 192.168. or 10. |
| ThreatCache.LookupMeans | backend/core/threat_intel.py:47-67 | what a lookup answers and leaves, case by case: local, invalid, absent, younger than 3600 s, or stale; the other addresses keep their entries |
| ThreatCache.ThreatIntel.MarkPending | backend/core/threat_intel.py:104-107 | the second critical section stores a placeholder, whatever the size |
| ThreatCache.MarkMeans | backend/core/threat_intel.py:104-107 | the placeholder with its time is what the cache then holds for the address, and no other address changes |
| ThreatCache.ThreatIntel.StoreFetched | backend/core/threat_intel.py:93-99 | a completed fetch is stored and at most the oldest entry evicted from both maps |
| ThreatCache.KeysAlwaysAgree | backend/core/threat_intel.py:59-107 | at every boundary between steps of any interleaving of lookups and completions both maps have the same keys |
| ThreatCache.HoldsLastStore | backend/core/threat_intel.py:59-107 | in every interleaving whatever the cache holds for an address is what was stored for it last, with the time of that store |
| ThreatCache.HitIsLatest | backend/core/threat_intel.py:59-63 | a hit is the latest thing stored for the queried address and younger than the time to live |
| ThreatCache.StoreEffect | backend/core/threat_intel.py:93-99 | a completion leaves the cache no larger than the larger of limit and previous size, drops the oldest entry alone and iff the limit is passed, and so its own result iff that is the oldest |
| ThreatCache.OrderIsRecency | backend/core/threat_intel.py:59-99 | in every interleaving the entries are in order of last use, by a hit or by a store for an absent address, so the entry a completed fetch evicts is the one unused for longest |
| ThreatCache.PlaceholdersIgnoreTheLimit | backend/core/threat_intel.py:104-107 | for any distinct addresses there is a run whose cache ends with all of them and nothing under way, whatever the limit |
| ThreatCache.LatePlaceholderHidesResult | backend/core/threat_intel.py:104-109 | an interleaving in which one address is fetched twice and a stored result is replaced by a placeholder |
| ThreatPromises.LimitHolds | backend/core/threat_intel.py:93-107 | the cache stays within its limit throughout a run iff no placeholder is inserted for a new address into a full cache |
| ThreatPromises.SecondFetch | backend/core/threat_intel.py:104-109 | marking an address as pending starts a second concurrent fetch iff one is under way |
| ThreatPromises.ResultIsVisible | backend/core/threat_intel.py:85-99 | the cache holds what a fetch found iff it holds an entry other than a placeholder |
| ThreatPromises.DiscardsResult | backend/core/threat_intel.py:104-107 | marking an address as pending discards a fetched result iff the cache holds an entry for it other than a placeholder |
| ThreatPromises.FetchedOnce | backend/core/threat_intel.py:104-109 | in a run in which no lookup misses while another of its address is between its sections or a fetch of it is under way, no address is fetched twice at once and no result is discarded |
| Sparkline.Sparklines.Evict | frontend/src/hooks/useSocket.ts:64-69 | findIndex and splice remove exactly the points in front of the first recent one |
| Sparkline.RecentMeans | frontend/src/hooks/useSocket.ts:64-69 | a point exactly as old as the cutoff is kept, an older one is not |
| Sparkline.Sparklines.ProcessPortTable | frontend/src/hooks/useSocket.ts:51-80 | pushing row by row, evicting after each push and deleting absent ports gives each port of the table its earlier points and the new ones without the old ones in front |
| Sparkline.PointsMean | frontend/src/hooks/useSocket.ts:55-62 | each row of a table adds one point with its rates to its own port and none to another |
| Sparkline.LinesAreWindows | frontend/src/hooks/useSocket.ts:51-80 | after every table of any run the map's keys are the table's ports, and each list is exactly the points pushed during the port's current uninterrupted presence that are at most 60 s old, in time order |

## Left out

- Inet.Aton: follows the GNU C library; the forms that other platforms' `inet_aton` takes may differ for text that is not canonical.
- Sniffer.SnifferProcess.FlushToShm: the pid table is a parameter of each flush, so its refresh at most every two seconds is not modelled.
- Conservation.ByteConservation: a read is one step or, if torn, returns nothing; reads at byte granularity are in LockFree and Freshness.
- ConcurrentCleanup.TableUnderRaces: the table is read in one step; a deletion while `get_port_table` iterates over the dictionary is not modelled.
- LinuxBridge.Bridge.CleanupAllRules: the chain changes only through the cleanup while it runs, and a rule's listing text is one line.
- Enforcement.TableIsCovered: the run is over the Linux chain and ends before shutdown, which clears the rules but not the table.
- PfRules.RoundTrip: is about runs whose file accesses succeed; for a file that cannot be opened see PfRules.FileNotOpened, and for one that is cut off while it is written only the method's contract says what is left. Text is ASCII, and the file holds only what the bridge wrote.
- Dispatcher.TrafficAccumulator.ProcessPortData: application names and address metadata are functions given to the call; the application-name cache is not modelled.
- IEEE rounding of times and rates: reals are used instead.
- The commands themselves, sockets, packet capture, HTTP fetches, SQL sessions and the event bus: they are inputs and outcomes.
- Attaching to a pre-existing segment and the injected mock traffic: a run starts from zeroed memory, and injected traffic would be further accumulator updates.
- MAC keys, SHA-256 and forgery: the MAC is uninterpreted.
- The Windows bridge deletes rules by name, without an order to preserve.
- Approvals, plugins, scheduler, watchdog, settings, routes, pages and migrations: short branches and plumbing that would add only easy members.
