# A verified model of the intrusion detection core

This project models, in Dafny 4.11, the algorithmic middle of a Snort-style intrusion detection
pipeline and proves what it promises: the content chain matcher, the flow tracker, the rule index and
evaluation loop, the rule language (line joining, tokenizer, option parsers, classification, loading)
and the percent and form decoders. `dafny verify dfyconfig.toml` checks all of it.

How the files follow the program:

| file | models |
|---|---|
| `ContentMatcher.dfy` | windows, `find`, and the memoised backtracking search of `match_chain` |
| `ContentWindows.dfy` | where a content may lie, in the rule's own numbers and the payload's bytes |
| `FlowKey.dfy`, `TcpState.dfy`, `FlowRecord.dfy` | keys, the TCP transition table, a flow's record and timeouts |
| `FlowHistories.dfy` | the tracker on packet histories: the table holds the packets of each open flow |
| `FlowTracker.dfy` | the mutable tracker (entries, LRU table, counters, clock, export), refining `FlowHistories` step by step |
| `TcpRuns.dfy`, `TcpLives.dfy` | whole lives of TCP flows: what holds along the way, and the state read off the packets' flags alone |
| `FlowRuns.dfy`, `FlowDiscipline.dfy`, `FlowFreshness.dfy`, `FlowSplitting.dfy`, `FlowInputs.dfy`, `FlowLifetimes.dfy` | whole runs of the tracker: conservation, export discipline, staleness, splitting into flows, conditions on the input alone, and how long a flow lives and why it is closed |
| `FlowSession.dfy` | the mutable tracker driven over a session |
| `FlowContext.dfy` | client and server roles |
| `Rules.dfy`, `RuleIndex.dfy`, `Evaluation.dfy` | rules and match stages, repository and index, the engine loop and its counters |
| `PyText.dfy`, `RuleScanner.dfy`, `OptionText.dfy`, `RuleRoundTrip.dfy` | string methods, the tokenizer, the two decoders, and a printer they undo |
| `OptionSpellings.dfy` | which texts the two decoders accept, and as what |
| `OptionValues.dfy`, `RuleValidator.dfy` | value parsers, option parsers and classification |
| `RuleClassification.dfy`, `RuleSupport.dfy` | what the classification guarantees, and that unsupported parts decide nothing |
| `ContentPrinter.dfy`, `RulePrinter.dfy` | a printer of whole rules which the parser undoes |
| `RuleLines.dfy`, `RuleLoader.dfy` | continuation lines, and loading with duplicate and disabled sids |
| `RuleMeaning.dfy` | what a rule's text asks of a packet, from the line to the outcome |
| `Engine.dfy` | loading, storing, indexing and evaluating behind one object |
| `Pipeline.dfy` | one event through the tracker's update and the engine, with its flow context |
| `UrlDecoder.dfy` | multi-pass percent decoding and form decoding, on bytes |

Conventions. Code that the program writes as state changes is a class or a method with loops, proved
against a function of its inputs or its old state; the theorems are lemmas about those functions.
Time is `real`, ports and counters are unbounded integers, addresses in flow keys are strings and in
rules 32-bit words, and an exception is a `Result`, an `Option` or a failure outcome. What the
program gets from elsewhere (`ipaddress.ip_network`, the files, which rules make the content or build
step raise, the configuration) is a parameter. Where a member's name in the table below has a class in
the middle, it is a method of that class.

The definitions the theorems rest on (search windows, TCP states, timeouts, client and server, match
stages, parsers of values) are each stated a second time in other terms and proved equal to them:
`ContentWindows.dfy` on payload bytes, `TcpLives.dfy` and `FlowLifetimes.dfy` on packet flags and times,
`RuleMeaning.dfy` on the text of a rule, and the members below whose names end in `Exactly`.

Two promises are about runs in timestamp order, and how far they reach is proved exactly:

- Bounded staleness. Every open flow satisfies clock - last_seen < timeout + sweep_interval after every
  update of a run in timestamp order, as long as no packet lies further before time 0, where the clock
  starts, than the least timeout (`OpenFlowsAreFresh`); for packets from m on, this holds on every run
  exactly when m meets that condition (`OpenFlowsAreFreshIffEarlyEnough`). In the program every packet
  does: src/preprocessor/validator.py:134 marks a timestamp that is not positive as invalid, and the
  tracker skips invalid events, so negative times reach `update` only when it is called directly.
- The periodic sweep cannot be observed on runs in timestamp order without evictions: neither in how
  packets split into flows, nor in a packet's flow context, nor in the detections of a session
  (`SweepsDoNotChangeDetections`). A run with no more distinct keys than the table has places evicts
  nothing (`FewKeysAreNotEvicted`). On any run at all, every packet is given the flow that lazy expiry
  alone would give it exactly when each finds its flow still open, or its key new, or would have ended that
  flow anyway (`SameFlowsIffUnharmed`); without evictions the timestamps and the key's own packets decide
  whether they do (`SameFlowsIffAllJoin`). `LatePacketSeesTheSweep` is a family of late packets that do not.

## Model

| member | source | states |
|---|---|---|
| ContentMatcher.BytesFind | src/engine/content_matcher.py:39-48 | the first-occurrence loop returns the least position at which the needle lies completely before the stop, or -1 exactly when there is none |
| ContentMatcher.Find | src/engine/content_matcher.py:15-48 | the least position at which the pattern, ASCII-folded under nocase, lies fully inside data[start:end], or -1 exactly when there is none; a cached lower-cased payload changes nothing |
| ContentMatcher.SolvesIsPlacement | src/engine/content_matcher.py:136-156 | the recursive notion the search works with is the position-by-position one: every content inside its own absolute or relative window |
| ContentMatcher.SameStateSameOutcome | src/engine/content_matcher.py:139-141 | the memo may share one state per absolute content: solvability and the first solution depend on the state alone |
| ContentMatcher.ChainSearch.TryOccurrences | src/engine/content_matcher.py:144-154 | enumerating the occurrences left to right finds the lexicographically first completion, or shows there is none and restores `path`; it costs at most n + 1 calls of find besides those of newly expanded states |
| ContentMatcher.ChainSearch.Search | src/engine/content_matcher.py:136-156 | the memoised search returns True with the first solution appended to `path`, or False with no solution and `path` as it was; remembered failures are real ones, and no state is expanded twice |
| ContentMatcher.FirstExtends | src/engine/content_matcher.py:146-154 | the first position that leads somewhere followed by the first completion after it is the lexicographically first placement |
| ContentMatcher.FirstExists | src/engine/content_matcher.py:101-158 | whenever some placement exists a lexicographically first one does |
| ContentMatcher.FirstIsUnique | src/engine/content_matcher.py:101-158 | there is at most one lexicographically first placement |
| ContentMatcher.ChainIsFirstPlacement | src/engine/content_matcher.py:101-158 | the reference result exists exactly when some assignment puts every content inside its window, is such an assignment, and precedes every other one |
| ContentMatcher.MatchChain | src/engine/content_matcher.py:101-158 | match_chain returns positions exactly when a placement exists, and then the lexicographically first one with the pattern lengths, within k * (n + 1) * (n + 1) calls of find |
| ContentMatcher.WorkBound | src/engine/content_matcher.py:133-158 | the states a search can expand cost at most k * (n + 1) * (n + 1) calls of find together |
| ContentMatcher.MatchContents | src/engine/content_matcher.py:161-184 | one entry per content in rule order, at the place of the first placement; None exactly when there is no placement |
| ContentWindows.AdmitsExactly | src/engine/content_matcher.py:15-98 | a content may lie at a position exactly when its bytes read there (ASCII letters in either case under nocase) and the position meets the inequalities its offset, depth, distance and within stand for |
| ContentWindows.ChainExactly | src/engine/content_matcher.py:101-158 | match_chain succeeds exactly when all contents can be laid so, one after the other, and finds the lexicographically first way |
| ContentWindows.FoundWhereReported | src/engine/content_matcher.py:161-184 | every reported entry shows its content's text and a place where its bytes read, within reach of the end of the entry before |
| ContentWindows.OffsetExactly | src/engine/content_matcher.py:61-71 | one content with an offset and perhaps a depth matches exactly the payloads that have it after enough bytes and not beyond the depth |
| ContentWindows.GapExactly | src/engine/content_matcher.py:87-98 | two contents, the second at a distance of at least 0 after the first, match exactly the payloads that have both with a gap no shorter than the distance and no longer than within leaves |
| ContentWindows.ExactGap | src/engine/content_matcher.py:87-98 | with distance d and within the length of the second content the gap is exactly d bytes |
| FlowKey.SameKeySameEndpoints | src/flow/flow_key.py:4-29 | two packets share a key exactly when they have the same protocol and the same two endpoints in either order |
| FlowKey.KeyIsOrdered | src/flow/flow_key.py:4-29 | the first endpoint of a key is the lesser one, by address and then by port |
| FlowKey.ReverseReverses | src/flow/flow_key.py:32-54 | a packet's direction tells which endpoint of the flow sent it, and reversing the endpoints keeps the key |
| TcpState.TcpContext.NextState | src/flow/tcp_state.py:16-98 | next_state, writing the ctx dict as it goes, computes the transition table of new state and new context |
| TcpRuns.StateNeverDrops | src/flow/tcp_state.py:36-98 | one more packet never lowers HANDSHAKE < ESTABLISHED < CLOSING < CLOSED/RESET, never leaves CLOSED or RESET and never changes midstream |
| TcpRuns.RankIsMonotone | src/flow/tcp_state.py:36-98 | of two moments in a flow's life the later has the higher rank and the same midstream mark |
| TcpRuns.ResetIffRst | src/flow/tcp_state.py:36-42 | a flow is RESET exactly when an RST reached it before it was over; until it is over its rst_count is 0 |
| TcpRuns.FinMarks | src/flow/tcp_state.py:62-75 | fin_fwd and fin_bwd say exactly which endpoints have sent a FIN that counts, and fin_count covers both |
| TcpRuns.ClosedIffBothFins | src/flow/tcp_state.py:62-91 | CLOSED implies a FIN that counts from each endpoint and fin_count >= 2; without the final-ACK option the two FINs are also enough |
| TcpRuns.ClosedIffFinalAck | src/flow/tcp_state.py:77-91 | with the final-ACK option a flow is CLOSED exactly when a bare ACK reached it, before it was over, after a FIN that counts from each endpoint |
| TcpRuns.HandshakeMarks | src/flow/tcp_state.py:44-60 | in a flow not picked up midstream, synack_seen means the opening SYN was answered by a SYN/ACK of endpoint_b |
| TcpRuns.EstablishedMeansHandshake | src/flow/tcp_state.py:44-98 | ESTABLISHED and not midstream means SYN, SYN/ACK from endpoint_b, ACK from endpoint_a in that order, with syn_count >= 2 and ack_count >= 2 |
| TcpLives.LivesShow | src/flow/tcp_state.py:16-98 | the state of any TCP flow is the one its packets' flags show, with no state machine: CLOSED, RESET, CLOSING, ESTABLISHED or HANDSHAKE |
| TcpLives.MidstreamExactly | src/flow/tcp_state.py:44-98 | a flow is midstream exactly when its first packet is neither a bare SYN nor an RST |
| TcpLives.EstablishedIffOpened | src/flow/tcp_state.py:84-85 | without RST and FIN, a flow opened by a bare SYN is ESTABLISHED exactly when the three-way handshake took place, else in HANDSHAKE |
| TcpLives.EstablishedIffOtherAcks | src/flow/tcp_state.py:84-85 | a flow opened by a SYN/ACK is ESTABLISHED exactly when an ACK of the other endpoint follows, as long as that endpoint sends no SYN/ACK itself |
| TcpLives.SecondSynAckTurnsRound | src/flow/tcp_state.py:53-60 | if it does, its own ACK leaves the flow in HANDSHAKE |
| FlowRecord.RecordIdentity | src/flow/tracker.py:211-233 | the identity fields of a record come from the flow's first packet and packet_count is the length of its history |
| FlowRecord.RecordTotals | src/flow/tracker.py:281-303 | every packet and byte counter is the sum over the flow's packets it is named after, and the two directions add up to the totals |
| FlowRecord.RecordFlags | src/flow/tracker.py:305-314 | each flag counter counts the flow's packets carrying that flag |
| FlowRecord.RecordSpan | src/flow/tracker.py:284-285 | start_time and last_seen are the least and the greatest timestamp of the flow, in whatever order its packets came |
| FlowRecord.RecordApp | src/flow/tracker.py:316-323 | the application protocol is the first one reported other than UNKNOWN, else UNKNOWN if any packet reported one |
| FlowHistories.ArriveWellFormed | src/flow/tracker.py:171-241 | an arrival keeps the table well formed: every stored key is the key of all its flow's packets, the order lists each open flow once, and the capacity holds |
| FlowHistories.ExportAllLive | src/flow/tracker.py:108-110 | a bulk export removes exactly the flows named and leaves the others as they were |
| FlowHistories.ExportAllLog | src/flow/tracker.py:108-110 | ... and logs each of them once, in order, with its packets and reason |
| FlowTracker.FlowTable.Add | src/flow/flow_table.py:35-38 | a stored key becomes the newest in the order |
| FlowTracker.FlowTable.Touch | src/flow/flow_table.py:40-43 | a touched key moves to the end of the order and nothing else changes |
| FlowTracker.FlowTable.Remove | src/flow/flow_table.py:45-47 | a removed key leaves the map and the order, and its entry is returned |
| FlowTracker.FlowTracker.KeyRebuilt | src/flow/tracker.py:338-346 | the key rebuilt from an entry's endpoints is the key it is stored under, so the defensive removals at 137 and 208 never fire |
| FlowTracker.FlowTracker.ExportFlow | src/flow/tracker.py:334-356 | exporting an entry removes its flow from the table and logs its record, the fold of its packets, with the reason |
| FlowTracker.FlowTracker.CollectExpired | src/flow/tracker.py:102-106 | the first loop of sweep lists exactly the expired flows, in table order, with their reasons |
| FlowTracker.FlowTracker.SweepTable | src/flow/tracker.py:83-112 | sweep exports exactly the flows that have timed out, stamps min(now, clock) and returns how many it exported |
| FlowTracker.FlowTracker.FlushTable | src/flow/tracker.py:114-140 | flush exports every open flow, oldest first, and returns their number |
| FlowTracker.FlowTracker.Lookup | src/flow/tracker.py:177-195 | a flow that has timed out or is reused by a bare SYN is exported before the packet is counted |
| FlowTracker.FlowTracker.Evict | src/flow/tracker.py:197-209 | the capacity loop runs at most once and exports the least recently touched flow |
| FlowTracker.FlowTracker.Create | src/flow/tracker.py:197-235 | a new flow is placed as the newest entry of a table with room |
| FlowTracker.FlowTracker.CountPacket | src/flow/tracker.py:239-323 | state machine and statistics keep the entry the fold of its packets, with the new one appended |
| FlowTracker.FlowTracker.Receive | src/flow/tracker.py:171-323 | steps 2 to 7 of update are the arrival of the specification, and the tag is that of the packet's flow |
| FlowTracker.FlowTracker.Track | src/flow/tracker.py:171-332 | update on a tracked event is the specification's update: arrival, then the periodic sweep if one is due |
| FlowTracker.FlowTracker.UpdateEvent | src/flow/tracker.py:143-332 | an event the guard rejects gets no tag and changes nothing; any other is tracked |
| FlowTracker.FlowTracker.Snapshot | src/flow/tracker.py:49-76 | snapshot returns the live entry of the event's open flow, whose record is the fold of its packets, or nothing exactly when the event is not tracked or has no open flow; it changes nothing |
| FlowRuns.InputIsPartitioned | src/flow/tracker.py:83-332 | over any run of update, sweep and flush, the exported flows of a key followed by its open one hold exactly the key's packets, each once and in order |
| FlowRuns.TotalsAreConserved | src/flow/tracker.py:281-314 | packets, bytes, payload bytes, flag counts and every other sum over packets agree between the input and active plus exported flows |
| FlowDiscipline.CapacityIsRespected | src/flow/tracker.py:199-209 | over any run the table never holds more than max_active_flows flows |
| FlowDiscipline.CreatedIsExportedPlusOpen | src/flow/tracker.py:197-235 | over any run, flows exported plus flows open is the number of flows created |
| FlowDiscipline.FlushExportsTheRest | src/flow/tracker.py:114-140 | after a flush the table is empty and every flow ever created has been exported exactly once, the last ones oldest first |
| FlowDiscipline.OrderIsLastTouch | src/flow/flow_table.py:22-47 | over any run the table order is the order in which the keys were last touched |
| FlowDiscipline.UpdateExportsAtMostOne | src/flow/tracker.py:186-209 | before its periodic sweep an update exports at most one flow: the packet's own for its reason, or the least recently touched when a new key finds the table full |
| FlowDiscipline.SweepIsRecent | src/flow/tracker.py:325-330 | after every tracked update 0 <= clock - last_sweep < sweep_interval |
| FlowFreshness.OpenFlowsAreFresh | src/flow/timeout.py:22-59 | on every run in timestamp order, with sweeps and flushes anywhere, every open flow satisfies clock - last_seen < timeout + sweep_interval after every update, provided no packet lies too far before time 0 |
| FlowFreshness.OpenFlowsAreFreshIffEarlyEnough | src/flow/tracker.py:325-330 | for packets from m on, the bound holds on all such runs exactly when -m is at most the least timeout (with room for one flow only: less than the least timeout plus the sweep interval) |
| FlowFreshness.TimelyRunsAreFresh | src/flow/tracker.py:83-112 | also out of order, the bound holds as long as no packet leaves its own flow timed out already at the last sweep |
| FlowFreshness.RecentIsTimely | src/flow/tracker.py:171-173 | a packet no older than the least timeout before the clock does not leave its flow so |
| FlowFreshness.FreshUntilSweptIffNotOverdue | src/flow/tracker.py:325-330 | one step of the converse: in a table with room, an open flow stays within its bound through the next update, of another key and before the next sweep is due, exactly when it had not timed out at the last sweep |
| FlowFreshness.OnTimeIsTimely | src/flow/tracker.py:171-173 | nor does a packet whose timestamp is at or after the clock |
| FlowFreshness.TooEarlyGoesStale | src/flow/tracker.py:42-43 | for every m further before time 0 than that, a run of one or two packets in order from m on breaks the bound |
| FlowSplitting.RunAgrees | src/flow/tracker.py:186-195 | on runs in order without evictions the tracker agrees on every key with a walk over that key's packets alone, except that a sweep may already have exported a flow that has timed out |
| FlowSplitting.TagsAreTheWalks | src/flow/tracker.py:239-279 | flow id, direction and flow_state of every packet are those of lazy expiry alone |
| FlowSplitting.FlowsAreTheWalks | src/flow/tracker.py:334-356 | after a flush the exported flows of a key are the walk's, records and reasons included, but for the last one's `flush`, which may be a timeout reason |
| FlowSplitting.SweepsAndOtherKeysDoNotMatter | src/flow/tracker.py:325-330 | two trackers that differ in sweep interval, capacity, manual sweeps and every other key's packets tag a packet alike |
| FlowSplitting.SameFlowIffUnharmed | src/flow/tracker.py:186-195 | for a packet with any timestamp, the tracker gives it the flow lazy expiry alone would give it exactly when its flow is still open, its key is new, or it would end that flow anyway |
| FlowSplitting.SameFlowsIffUnharmed | src/flow/tracker.py:83-332 | over any run, out of order and with sweeps, flushes and evictions, every packet is given that flow exactly when each packet meets the condition |
| FlowSplitting.InOrderIsUnharmed | src/flow/tracker.py:325-330 | on runs in order without evictions every packet meets it |
| FlowSplitting.LatePacketSeesTheSweep | src/flow/tracker.py:325-330 | a family of late packets that do not: each opens a second flow where lazy expiry alone would continue the first |
| FlowInputs.TimesAreTheInputs | src/flow/tracker.py:325-332 | over any run the clock and the time of the last sweep follow from the commands alone, whatever is in the table |
| FlowInputs.OpenIsKept | src/flow/tracker.py:83-140 | on a run without evictions whose packets all got the flow lazy expiry gives, a key's flow is open exactly when no sweep since the key's last packet found it timed out and no flush came after it |
| FlowInputs.SameFlowsIffAllJoin | src/flow/tracker.py:83-332 | on any run without evictions, every packet is given the flow lazy expiry alone would give it exactly when no sweep or flush takes a flow that its key's next packet would have continued, a condition on the input alone |
| FlowInputs.FewKeysAreNotEvicted | src/flow/tracker.py:197-209 | a run whose packets have at most max_active_flows distinct keys evicts nothing |
| FlowLifetimes.ExpiredExactly | src/flow/timeout.py:22-59 | a flow has expired exactly when each of its packets is longer ago than the limit its packets select: UDP idle, linger once an RST or both FINs have come, handshake while the opening SYN is unacknowledged, idle otherwise |
| FlowLifetimes.SweepExactly | src/flow/tracker.py:83-112 | a sweep leaves exactly the open flows that have a packet within that limit of the time it looks at |
| FlowLifetimes.ArriveExactly | src/flow/tracker.py:186-195 | a packet continues the open flow of its key unless that limit has elapsed, or it is a bare SYN and the flow is over |
| FlowLifetimes.SecondPacketJoins | src/flow/timeout.py:22-59 | the second packet of a key joins the first one's flow exactly when it comes within the timeout the first packet's protocol and flags select |
| FlowLifetimes.ReasonExactly | src/flow/timeout.py:62-75 | the reason of a timed out flow, and the one a flush gives, in terms of its packets |
| FlowLifetimes.ReasonsAreTrue | src/flow/tracker.py:334-356 | over any run, the reason logged with every exported flow is true of the flow's packets |
| FlowSession.Drive | src/pipeline/pipeline.py:414-415 | the mutable tracker driven over any session of update, sweep and flush calls holds what the run of its commands holds and tags every event as the specification does, so the theorems about runs are about it |
| FlowContext.RolesAreStable | src/engine/flow_context.py:77-100 | an endpoint keeps one role for its flow's whole life and the two endpoints of a flow have opposite roles |
| FlowContext.FirstSeenDoesNotMatter | src/engine/flow_context.py:18-29 | when ports decide and differ, a sender's role does not depend on which endpoint was seen first |
| FlowContext.UdpEstablishedIffAnswered | src/engine/flow_context.py:42-74 | a UDP packet is established exactly when the other endpoint of its flow has sent a packet by then |
| FlowContext.RoleExactly | src/engine/flow_context.py:18-89 | in a TCP flow seen from its start the endpoint that opened it is the client; otherwise the endpoint with the only known port is the server, or else the one with the smaller port, and with equal ports the first sender is the client |
| FlowContext.TcpContextExactly | src/engine/flow_context.py:77-100 | direction, midstream, state and established of a TCP packet's context, from the flow's packets up to it |
| RuleIndex.RuleRepository.Add | src/rules/repository.py:26-41 | a rule is added at the next order unless the repository is frozen or already holds its sid, and then nothing changes |
| RuleIndex.RuleRepository.Freeze | src/rules/repository.py:68-72 | freezing keeps the rules |
| RuleIndex.RuleRepository.OrderOf | src/rules/repository.py:54-57 | the order of a sid is the position of the rule that has it, and None exactly when no rule does |
| RuleIndex.RuleRepository.All | src/rules/repository.py:59-66 | the stored snapshot of a frozen repository and the tuple built before freezing are the same: every rule in the order added |
| RuleIndex.Bucket.Register | src/rules/indexer.py:17-23 | a bucket then holds the order for exactly the ports of the range, besides what it held before |
| RuleIndex.Bucket.Collect | src/rules/indexer.py:25-28 | the orders collected for a port are those stored for it and those given |
| RuleIndex.RuleIndexer.constructor | src/rules/indexer.py:52-61 | each bucket holds exactly the rules of its protocol under the ports of their destination and, for `<>`, source |
| RuleIndex.RuleIndexer.Candidates | src/rules/indexer.py:66-89 | candidates is exactly the protocol-and-port filter of all rules, in repository order and without duplicates |
| RuleIndex.PickIsScan | src/rules/indexer.py:85-89 | picking the sorted orders of a set of candidates is the naive scan over all rules |
| RuleIndex.HeaderMatchIsCandidate | src/engine/matcher.py:31-69 | a rule whose header fits a packet, forwards or reversed, is a candidate for it |
| RuleIndex.CandidateExactly | src/rules/indexer.py:66-89 | a rule is a candidate exactly when, addresses aside, some packet of that protocol to that port fits its header |
| Evaluation.DetectedIff | src/engine/matcher.py:174-233 | a rule is detected exactly when header, flow, flags, dsize and contents all match and nothing raises |
| Evaluation.MatchCarries | src/engine/matcher.py:174-233 | a match carries the header entry alone if the rule has no contents, else one entry per content where the contents were found first |
| Evaluation.IndexLosesNothing | src/engine/evaluator.py:82-111 | testing the candidates gives the detections and the errors of testing every rule, in the same order |
| Evaluation.ContentFn.Call | src/engine/evaluator.py:126-145 | the shared lower-case cache cannot be seen: each call is a search without it |
| Evaluation.MatchRule | src/engine/matcher.py:174-233 | the stages run in order, the first failure is recorded and returned, and the counters move by exactly that outcome |
| Evaluation.EvaluationEngine.TestOne | src/engine/evaluator.py:94-110 | a rule that raises is counted and its sid noted, without touching what the other rules found |
| Evaluation.EvaluationEngine.Run | src/engine/evaluator.py:82-111 | detect returns what the naive loop over all rules gives, skips ineligible events, and counts exactly the outcomes |
| Evaluation.EvaluationEngine.DetectAll | src/engine/evaluator.py:69-111 | the engine over any session returns for each event what the naive loop gives and ends with the counters of the session, on which is_consistent (src/engine/stats.py:81-85) always succeeds |
| Evaluation.AccountsBalance | src/engine/stats.py:54-85 | over any session, with any rules failing, candidate_rules = rejections + matches + rule_errors, matches = items returned, and content_evaluations = content rejections + content matches + later errors |
| Evaluation.CountersExactly | src/engine/stats.py:54-85 | over any session every counter counts what its name says: the rejections of each stage, the errors, the candidates and the events not looked at |
| Pipeline.Process | src/engine/engine.py:87-105 | process evaluates the event with the context of its tagged flow, asked for only when there are rules, the engine is enabled and the event has a flow id; the tracker is only read |
| Pipeline.ReadersAgree | src/flow/tracker.py:149-170 | the packet the tracker counts and the one the rules are tested on are the same: addresses, ports, protocol, flags and payload length of one event, which is tracked exactly when it is neither skipped nor invalid and has all of them and a timestamp |
| Pipeline.Handle | src/pipeline/pipeline.py:402-425 | a skipped event does not reach the tracker; any other is tracked, and the engine then detects what the naive loop gives with the packet's flow as the update leaves it |
| Pipeline.Drive | src/pipeline/pipeline.py:402-425 | over any session of events and sweeps the tracker holds the run of its commands, and the engine returns the items and ends with the counters of the inputs that run gives |
| Pipeline.FlowIdAlwaysAgrees | src/engine/engine.py:102-104 | after an update the flow the snapshot finds is always the one the tracker assigned, so the flow id test never fails |
| Pipeline.NoContextIffSwept | src/engine/flow_context.py:65-71 | a tracked packet has no flow context exactly when the sweep due at its update finds its own flow timed out |
| Pipeline.ContextIsTheWalks | src/engine/engine.py:91-105 | on a run in order without evictions the context of every packet is the one the walk over its own key's packets gives right after it |
| Pipeline.SameInputs | src/engine/engine.py:87-105 | two in-order sessions of the same events without evictions give the engine the same input event by event, whatever the sweep interval, the capacity and the sweeps in between |
| Pipeline.SweepsDoNotChangeDetections | src/engine/engine.py:87-105 | so their detections and every counter are the same |
| RuleScanner.ScanPieces | src/rules/parser.py:72-96 | the scanner that skips escaped characters in pairs cuts at the unescaped `;` outside quotes and sees an unterminated quote exactly when one is open |
| RuleScanner.SplitIsLossless | src/rules/parser.py:72-96 | joining the raw pieces with `;` gives the body back |
| RuleScanner.CutsAreTheSeparators | src/rules/parser.py:78-92 | the cut positions are exactly the unescaped `;` outside quotes, each once, left to right |
| RuleScanner.PiecesLieBetweenCuts | src/rules/parser.py:78-96 | each piece is what lies between two consecutive cuts |
| RuleScanner.TokenizeRule | src/rules/parser.py:32-69 | structure errors come before a wrong number of header words; otherwise the words before the first `(` and the options up to the last `)` |
| OptionText.UnquoteString | src/rules/parser.py:322-347 | the loop computes the unescaping of the text between quotes, None for a bare quote or a dangling backslash |
| OptionText.DecodeContent | src/rules/parser.py:434-496 | the loop over text, escapes and hex blocks computes the decoding, with its errors and the negated case |
| OptionSpellings.UnquotedExactly | src/rules/parser.py:322-347 | a value is unquoted to a text exactly when it is a quoted run of plain characters and backslash pairs that mean that text |
| OptionSpellings.ContentExactly | src/rules/parser.py:434-496 | a value is accepted as some bytes exactly when it is a quoted run of text, backslash pairs and hex blocks with an even number of digits that stand for those bytes, and they are not empty |
| OptionSpellings.NegationExactly | src/rules/parser.py:434-496 | a content is reported as negated exactly when its value opens with an exclamation mark and a quote |
| OptionSpellings.BlockSurvives | src/rules/parser.py:434-496 | a hex block with two digits a byte, in either case, decodes to those bytes |
| OptionSpellings.CharsAreUtf8 | src/rules/parser.py:434-496 | the bytes of a character are its UTF-8 sequence (section 3 of RFC 3629), in shortest form |
| RuleRoundTrip.UnquoteQuotes | src/rules/parser.py:322-347 | quoting and escaping any text and unquoting it gives the text back |
| RuleRoundTrip.ContentSurvives | src/rules/parser.py:434-496 | a content printed as any mix of escaped ASCII and hex blocks decodes to the same bytes |
| RuleRoundTrip.TokensSurvive | src/rules/parser.py:32-108 | every header and option list that can be printed is tokenized back exactly, in order |
| RuleRoundTrip.RuleSurvives | src/rules/parser.py:32-108 | a printed line gives back its header words, its options in order, every text and every byte string |
| RuleRoundTrip.EveryPatternIsWritable | src/rules/parser.py:434-496 | every non-empty byte string has a printed form |
| OptionValues.PortsSurvive | src/rules/parser.py:148-177 | every port range is read back from each of its numeric spellings |
| OptionValues.PortsExactly | src/rules/parser.py:148-186 | a text is accepted as the range lo..hi exactly when it is `any` for all ports, the number lo = hi, or lo:hi with either end possibly open |
| OptionValues.FirstFaultExists | src/rules/parser.py:263-275 | an invalid (or unsupported) header code is reported exactly when some field has a fault of that kind |
| OptionValues.ParseHeader | src/rules/parser.py:244-275 | any invalid field wins over every unsupported one, the first of its kind in header order; otherwise every field is read |
| OptionValues.FlowExactly | src/rules/parser.py:616-641 | a flow value is accepted exactly when all its items are known words, and its role and state are then the ones those words give |
| OptionValues.FlowIsASet | src/rules/parser.py:628-641 | order and repetition of the words do not matter, but for which unknown word is reported |
| OptionValues.NumeralExactly | src/rules/parser.py:536-544 | the numbers of the options are exactly the decimal numerals, with any zeros before them |
| OptionValues.FlagsSurvive | src/rules/parser.py:644-689 | each way of writing flag letters is read back; with a mask it is unsupported, not invalid |
| OptionValues.FlagsExactly | src/rules/parser.py:644-689 | a flags value is accepted as a mode and a set exactly when it is `0` for no flag at all or letters of that set with the mode's modifier in its place |
| OptionValues.DsizesSurvive | src/rules/parser.py:692-725 | each payload length test is read back, and a range upside down is invalid |
| OptionValues.DsizesExactly | src/rules/parser.py:692-725 | a dsize value is accepted as a test exactly when, blanks around it and its operator aside, it is a spelling of that test |
| RuleValidator.ParseIdentification | src/rules/parser.py:364-425 | the first faulty identification option in rule order is reported, then a missing sid, then a missing msg; otherwise the values of the options |
| RuleValidator.ParseContentsFull | src/rules/parser.py:547-594 | the first faulty content or modifier is reported; otherwise each content with the modifiers that follow it, and whether one was negated |
| RuleValidator.SingleOption | src/rules/parser.py:728-736 | an option given twice is a duplicate, otherwise its value |
| RuleValidator.ParseMatchOptions | src/rules/validator.py:125-145 | the first invalid code of flow, flags and dsize stops; otherwise the values, and the list of the unsupported codes in that order |
| RuleValidator.ValidateContents | src/rules/validator.py:16-33 | the first content in conflict with itself is reported with its code |
| RuleValidator.Classify | src/rules/validator.py:97-172 | the interleaved checks with a list of remembered unsupported codes give: the first invalid code if any, else the first unsupported one, else the rule with every field the header and the options stand for, stored options and defaults included |
| RuleValidator.RuleOf | src/rules/validator.py:163-172 | a line without invalid or unsupported parts has every part a rule needs, and the rule is the one they stand for |
| RuleValidator.ParseRule | src/rules/validator.py:90-172 | the same from the text of a line, with the best-effort sid on every rejection after the tokenizer |
| RuleMeaning.PositiveExactly | src/rules/parser.py:353-361 | sid, rev and priority take the numerals from 1 to 2^32 - 1 |
| RuleMeaning.ClassTypeExactly | src/rules/parser.py:364-425 | a classtype is one or more letters, digits, underscores and hyphens |
| RuleMeaning.ModifierExactly | src/rules/parser.py:513-544 | offset, depth, within and distance take exactly the numerals in their ranges, distance also negative ones |
| RuleMeaning.FlagsMean | src/engine/matcher.py:105-138 | a flags value holds of a packet exactly as its text says: with `+` all the letters' flags, with `*` one of them, with `!` none, else those and no others |
| RuleMeaning.LengthMeans | src/engine/matcher.py:141-171 | a dsize value holds exactly when the payload length is the number, below or above it, or between the two |
| RuleMeaning.WordsMean | src/engine/matcher.py:72-102 | a flow value holds exactly when the packet has a context and every word is true of it |
| RuleMeaning.HeaderMeans | src/engine/matcher.py:31-69 | a header holds of a packet exactly when its protocol word, addresses and port texts do, as sent or, for `<>`, the other way round |
| RuleMeaning.HeaderWordsExactly | src/rules/parser.py:188-234 | which action, protocol and direction words are accepted, which are unsupported and which invalid |
| RuleMeaning.AddressExactly | src/rules/parser.py:118-145 | an address text is read exactly when it is `any`, or stands for a network, opens with none of `$`, `!` and `[` and has only digits after its first slash |
| RuleMeaning.ReportedSidExactly | src/rules/validator.py:42-51 | the sid reported with a rejected line is that of its only sid option, if that holds one |
| RuleMeaning.LineExactly | src/engine/matcher.py:174-233 | a line accepted as a rule is rejected at the first stage whose part of the line's text does not hold of the packet, and detected when all hold, its contents can be laid in the payload and nothing raises |
| RuleClassification.InvalidIffFaulty | src/rules/validator.py:90-153 | an invalid code is reported exactly when some header field, option or cross-option check fails, whatever is unsupported |
| RuleClassification.ClassificationIsExact | src/rules/validator.py:73-78 | invalid exactly when a check fails, unsupported exactly when none fails but a part is unsupported, and a valid rule has only supported keywords and no negated content |
| RuleSupport.UnsupportedPartsHideNothing | src/rules/validator.py:104-158 | taking out everything unsupported, wherever it stands (header fields, unknown keywords, negations, flags masks, and the unknown words of a flow value, which becomes `established` when no other word is left), leaves nothing unsupported and changes neither whether a rule is invalid nor its code |
| RuleSupport.InvalidIffSupportedPartIsNotValid | src/rules/validator.py:73-78 | so a rule is invalid exactly when its supported part is not a valid rule |
| RuleClassification.SpecsInRange | src/rules/parser.py:513-594 | parsed contents are not empty and their numbers are in range |
| RuleClassification.ValidRulesAreUsable | src/rules/validator.py:147-172 | a valid rule has depth and within at least the pattern length, mixes no absolute and relative modifiers, has a sid in range and tests no flags on UDP |
| RuleClassification.TooNarrowIffNeverMatches | src/engine/content_matcher.py:61-98 | some payload matches a content exactly when the window the engine uses for it can hold the pattern |
| RuleClassification.ConflictIffNeverMatches | src/rules/validator.py:16-33 | among the contents that do not mix absolute and relative modifiers, the cross-option checks reject exactly those no payload can match |
| RuleClassification.MixedConflictsAnyway | src/rules/validator.py:31-33 | a content that mixes them is always rejected, though it matches some payload whenever its relative window can hold the pattern |
| RuleClassification.ConflictNamesItsCause | src/rules/validator.py:16-33 | the code of a conflicting content names its cause: depth too short, else within too short, else the mixture |
| RuleClassification.RejectedMixedContentMatches | src/rules/validator.py:27-28 | for instance "abc" with distance 0 and depth 1, rejected for its depth, would be found in the payload "abc" |
| RuleClassification.LoadedRulesAreUsable | src/rules/loader.py:154-171 | every rule the loader returns with this parser, whatever the files hold, is one the engine may rely on in that sense |
| ContentPrinter.ContentsAreRead | src/rules/parser.py:547-594 | printed contents with all their modifiers are read back without fault as the same list |
| RulePrinter.PrintedRuleIsRead | src/rules/validator.py:61-172 | printing a whole rule, with ports, direction, contents and modifiers, flow, flags, dsize, texts, numbers and stored options, and parsing the line gives the same rule back |
| RuleLines.GatherRule | src/rules/loader.py:70-77 | the continuation loop terminates, each step taking one more line or stopping at the end of the file |
| RuleLines.IterRuleLines | src/rules/loader.py:47-82 | yields the rule lines of the line scan with their numbers and counts every kind |
| RuleLines.LinesTile | src/rules/loader.py:47-82 | every physical line belongs to exactly one logical line |
| RuleLines.NumbersIncrease | src/rules/loader.py:47-82 | reported line numbers strictly increase |
| RuleLines.LinesAreAccounted | src/rules/loader.py:47-82 | total_lines = blank + comment + rule_lines, one yield per rule line |
| RuleLines.KindExactly | src/rules/loader.py:47-82 | a line is blank when it holds nothing but blanks and a comment when its first other character is `#` |
| RuleLines.FileLinesSurvive | src/rules/loader.py:45-50 | the physical lines of a file are read back, whether they end in a newline or a carriage return and a newline, and a last one without either |
| RuleLines.BrokenRuleReadsAsOne | src/rules/loader.py:70-77 | a rule broken over any number of lines with backslashes is read as one line, its parts joined by single blanks |
| RuleLoader.LoadState.Collect | src/rules/loader.py:192-218 | every parsed line gets one record and one count, and is kept exactly when it is valid, first of its sid and not disabled |
| RuleLoader.LoadSource | src/rules/loader.py:145-169 | a disabled source, a path read before and an unreadable file add no rule; any other adds its parsed lines |
| RuleLoader.CheckExtras | src/rules/loader.py:135-137 | the first extra path that is not a file is found, if there is one |
| RuleLoader.LoadRules | src/rules/loader.py:88-171 | a missing extra file is an error before anything is loaded; otherwise the rules, records and counters are those of all lines parsed, in file order, each file once |
| Engine.Open | src/engine/engine.py:47-75 | the engine opens unless an extra file is missing, with the rules of the files if it is enabled and none if not, its counters at zero, and without ever meeting a duplicate sid |
| Engine.ActiveRulesAreUsable | src/engine/engine.py:69-75 | its rules are usable, with distinct sids, none disabled |
| RuleLoader.StatusesAddUp | src/rules/loader.py:207-214 | every rule line gets exactly one status, and there are as many rules as valid lines |
| RuleLoader.KeptSidsAreUnique | src/rules/loader.py:197-205 | the returned rules have distinct sids, none disabled, each the first valid result of its sid |
| RuleLoader.KeptExactly | src/rules/loader.py:192-218 | a rule is kept exactly when some line is the first valid one of its sid and the sid is not disabled |
| RuleLoader.RecordExactly | src/rules/loader.py:192-218 | the status, reason and sid reported for each line |
| RuleLoader.ExtrasAreRead | src/rules/loader.py:122-169 | every rule line of the file of every --rules argument is parsed, if the file can be read, under the first source that names its path |
| RuleLoader.FillRepository | src/rules/repository.py:26-41 | feeding the loaded rules to the repository never meets its duplicate error |
| RuleLoader.LoadBalances | src/rules/loader.py:119-120 | rule_lines = valid + invalid + unsupported + disabled = records, and as many rules as valid lines |
| UrlDecoder.PercentDecode | src/decoder/url_decoder.py:18-70 | the loop with early exits equals `passes` single passes; encodings is the number of passes that changed something, each saving two bytes or more; the invalid mark says whether some pass met a malformed `%` |
| UrlDecoder.PassSaves | src/decoder/url_decoder.py:48-54 | a pass changes nothing or makes the input at least two bytes shorter |
| UrlDecoder.UriBytes | src/decoder/url_decoder.py:81-86 | `+` becomes a blank only after the first `?` |
| UrlDecoder.UnquoteEncodes | src/decoder/url_decoder.py:48-50 | one pass undoes percent-encoding, whichever bytes the encoder left alone |
| UrlDecoder.PassesUndoEncodings | src/decoder/url_decoder.py:40-54 | k passes undo a k-fold percent-encoding |
| UrlDecoder.PassExactly | src/decoder/url_decoder.py:48-50 | a pass turns a text without a malformed `%` into some bytes exactly when the text is a percent-encoding of them, digits in either case |
| UrlDecoder.PassesUndo | src/decoder/url_decoder.py:40-54 | k passes undo any k encodings, however each was written |
| UrlDecoder.DecodeForm | src/decoder/url_decoder.py:91-152 | the pairs are those of the non-empty pieces in order, split at the first `=`; encodings is the most any half needed; the invalid mark says whether some half was malformed |
| UrlDecoder.FormSurvives | src/decoder/url_decoder.py:112-124 | serialising a form (section 5.2 of the WHATWG URL Standard) whose names and values are encoded k - 1 times more, and decoding it with k passes, gives the same ordered pairs, duplicates and empty ones included |

## Left out

- Capture, packet parsing, protocol detection, the command line, configuration files, JSONL and report writing: input, output and library calls.
- Charset detection and decoding, base64, quoted-printable and HTML decoding: library behaviour; the decoders are modelled on bytes and the status strings derived from charsets are not.
- Dotted-quad parsing: `ipaddress.ip_network` is a parameter of the header parser; matching an address is bit arithmetic on 32-bit words.
- Guards against values of the wrong Python type, logging, configuration defaults and once-per-sid warning texts: typed out; the set of sids warned about is kept.
- `make_flow_id`: an event's flow id is modelled as the key and creation time it hashes; that ids differ is not claimed.
- `on_export` failing and the `safe_stage` wrapper around update: an export callback neither fails nor changes the tracker.
- The recursion limit of Python, which a very long content chain may hit: it is one of the faults the content step may raise.
- `evaluate`, which runs the same loop as `detect` and builds another kind of item.
- `int` refusing more than 4300 digits is modelled; the limit being configurable is not.
- Text files are sequences of characters: reading UTF-8, a byte order mark and undecodable bytes are not modelled, except that U+FFFD is refused in contents.
- Preprocessor validation, normalisation and policy tables, and the pipeline before its tracker stage: mostly one-branch facts.
- FlowTracker.FlowTracker.Process: an entry and its flow are one object here, where the program keeps a Flow inside a FlowEntry.
- RuleIndex.Bucket.Collect: returns the enlarged set instead of updating the one passed in.
- RuleRoundTrip.RuleSurvives: the printer writes contents as ASCII text and hex blocks; RulePrinter.PrintedRuleIsRead takes any text that decodes to the pattern, non-ASCII text included.
- RulePrinter.PrintedRuleIsRead: addresses are printed as given words that the address parser reads, since address text is a library's; stored options are those whose text ends in no open escape, which is what the option scanner needs to find the end of one.
