# A Dafny model of PRISM

PRISM watches SCADA traffic passively. Each packet is parsed into a record, records are
grouped into sliding windows, a window gives eight features and two scores, the scores
drive an alarm with two thresholds, and an alarm makes the enforcer send one Modbus frame
that write-locks a PLC. This project models that path and the simulated PLC at its end, and
proves what every run of it keeps.

`dafny verify dfyconfig.toml` checks everything.

## How it is laid out

| file | contents |
|---|---|
| `Types.dfy`, `History.dfy` | packets, records, windows, decisions; filtering a history of records by time |
| `Reference.dfy` | the simple sliding-window index: keeps every accepted record and cuts windows out of the whole history |
| `WindowManager.dfy` | the index PRISM runs, a class with a pruned deque, proved to behave like the simple one on every call |
| `WindowTheorems.dfy` | whole-run theorems about emitted windows |
| `RealArithmetic.dfy`, `Maths.dfy`, `Counting.dfy`, `Entropy.dfy`, `Timing.dfy` | real arithmetic, the laws of `exp`, `log2` and `sqrt`, hash-map counters, entropy, inter-arrival variance |
| `Features.dfy`, `Scores.dfy`, `Risk.dfy` | the feature extractor's loops, the two scores, the alarm, and their ranges |
| `Modbus.dfy`, `Parsers.dfy`, `FlowTable.dfy` | framing, the three protocol parsers, the flow table |
| `Enforcement.dfy`, `Plc.dfy` | the sender's latch and the PLC's lock |
| `Pipeline.dfy`, `EndToEnd.dfy` | the detector as a whole with both main loops; what traffic decides |
| `LockProtocol.dfy` | detector, clients, operator and PLC joined by frames in flight |

Objects whose methods update fields are classes (`WindowManager`, `RiskModel`,
`EnforcementEngine`, `FlowTable`, `Server`, `Detector`); their methods are proved against
functions on values, and the whole-run theorems are about those functions. A window's
probability enters the pipeline as a function `judge` of its records, tied to the scores by
`Scores.Judges`, so that theorems about states and frames do not depend on real arithmetic.

## Where code and documentation disagree

The model follows the code.

- `docs/theory.md:66` says the window slides on every record; the code moves one grid step
  per emitted window.
- `docs/theory.md:76-77` describes a function spread and an entropy of function codes; the
  code takes the share of the most frequent function code and the entropy of addresses.
- `docs/theory.md:97` says scores are fused with weights; the code takes the larger of two
  sigmoids.
- `docs/theory.md:139` says the lock frame is sent once per attack engagement; the latch is
  never cleared, so it is sent once ever. `LockProtocol.ReleaseIsFinal` states the exact
  consequence: with the latch set, some continuation still locks the PLC if and only if the
  PLC is locked or a lock frame is still in flight. A release read before either of those is
  settled can be followed by a lock; one read afterwards cannot.
- `PRISM/docs/heuristics.md:11-14` gives p > 0.7 and a function coefficient of 5; the code
  has p >= 0.7 and 2.5.
- `PRISM/docs/proto.md:46-60` calls every Modbus code from 5 a write and reads the DNP3
  code at byte 6 of 12; the code lists four Modbus codes and reads DNP3 byte 12 of 13.

## What is assumed

- Time is an unbounded integer number of nanoseconds; counters are unbounded; scores are
  real numbers.
- `exp`, `log2` and `sqrt` are parameters with the laws in `Maths.Lawful`: exp(0) = 1,
  strictly increasing, exp(x) exp(-x) = 1, exp(x) >= 1 + x; log2(2) = 1, increasing,
  additive over products, below some line through (1, 0); the square root is the
  non-negative one.
- The network's answer to a send is a parameter: no socket, no connection, or a write that
  took some of the twelve bytes. Packets arrive as a sequence in batches of any size.

## Model

| member | source | states |
|---|---|---|
| `Windowing.WindowManager.AddRecord` | PRISM/src/window/window_manager.cpp:13-49 | for any window and step, negative ones included, one call on the pruned deque accepts, cuts and returns exactly what the reference does that filters the whole accepted history; the caller's window is overwritten only when one is cut |
| `Windowing.WindowManager.Emit` | PRISM/src/window/window_manager.cpp:26-45 | the window cut from the deque is the interval filter of everything ever accepted; the grid moves one step; what is dropped no later window can ask for |
| `Windowing.WindowManager.Prune` | PRISM/src/window/window_manager.cpp:39-43 | popping the front leaves exactly the accepted records at or after the oldest needed time |
| `Windowing.WindowManager.Collect` | PRISM/src/window/window_manager.cpp:29-35 | the loop yields the order-preserving interval filter of the deque |
| `Windowing.WindowManager.constructor` | PRISM/src/window/window_manager.cpp:10-11 | milliseconds become nanoseconds; nothing accepted yet |
| `Reference.RunCoherent` | PRISM/src/window/window_manager.cpp:13-49 | every reachable history is sorted, nothing dropped is still needed, and the previous due time never exceeds the last timestamp |
| `WindowTheorems.AcceptedArrivals` | PRISM/src/window/window_manager.cpp:14-24 | whatever the grid, a run accepts exactly the arrivals not stamped before any earlier arrival, in their order; the first arrival fixes the grid |
| `WindowTheorems.SortedArrivals` | PRISM/src/window/window_manager.cpp:14-24 | so arrivals in order are all accepted |
| `WindowTheorems.CutsIff` | PRISM/src/window/window_manager.cpp:14-26 | over any run and for any grid, an arrival cuts a window if and only if it is not stamped before an earlier one and not before first + n step + size, n windows having been cut |
| `WindowTheorems.WindowFromArrivals` | PRISM/src/window/window_manager.cpp:27-37 | the k-th window starts at first + k step, is as long as the size, and shows exactly the stretch stamped from its start to its end, both included, of what was accepted up to the arrival that cut it |
| `WindowTheorems.KthWindow` | PRISM/src/window/window_manager.cpp:19-37 | the k-th window of any run starts k steps after the first record and is cut, by one particular arrival stamped at or after its end, from exactly the records accepted by then |
| `WindowTheorems.Finality` | PRISM/src/window/window_manager.cpp:14-16 | after a window is cut nothing accepted is stamped before its end, and at its end only if the last record accepted by then is stamped there too |
| `WindowTheorems.WindowsAreFinal` | PRISM/src/window/window_manager.cpp:26-35 | up to its end an emitted window already equals the interval filter of the whole history, past and future; as a whole it is a prefix of it |
| `WindowTheorems.Coverage` | PRISM/src/window/window_manager.cpp:26-37 | with the step dividing the size, a record is shown by exactly min(size/step, d/step + 1) windows ending after it, d its offset from the first record |
| `WindowTheorems.OneWindowEndsAt` | PRISM/src/window/window_manager.cpp:37 | at most one window of a run ends at a given time |
| `WindowTheorems.EmissionCount` | PRISM/src/window/window_manager.cpp:26-45 | never more windows than floor((last - first - size)/step) + 1, and exactly that many if and only if none is due |
| `WindowTheorems.ExactCount` | PRISM/src/window/window_manager.cpp:13-49 | the exact count for every run: the least, over all prefixes of the accepted records, of the windows ended by then plus the records accepted since |
| `WindowTheorems.KeepsUpIff` | PRISM/src/window/window_manager.cpp:26-45 | no window is left due if and only if no stretch of the accepted records has seen more windows end than it has records |
| `WindowTheorems.SteadyStreamKeepsUp` | PRISM/src/window/window_manager.cpp:26-45 | if no gap exceeds the step, no window is ever left due and the count is exact |
| `WindowTheorems.SteadyWindowsNotEmpty` | PRISM/src/window/window_manager.cpp:29-35 | under the same condition no emitted window is empty |
| `WindowTheorems.BehindStep` | PRISM/src/window/window_manager.cpp:26-37 | while a window is due every accepted record cuts one; the lag falls by a step and rises by the time passed |
| `WindowTheorems.CatchesUp` | PRISM/src/window/window_manager.cpp:26-37 | after any gap the lag is gone once the steps of the further records exceed the lag plus the time they span |
| `WindowTheorems.ExactIffOverlapping` | PRISM/src/window/window_manager.cpp:37-43 | the deque holds exactly the records later windows can ask for, on every run, if and only if the step does not exceed the size |
| `WindowTheorems.StaleRecord` | PRISM/src/window/window_manager.cpp:39-43 | a run with the step above the size after which the deque keeps a record no window will show |
| `Features.FeatureExtractor.Compute` | PRISM/src/feature/feat_miner.cpp:9-91 | the eight features mean what their names say: counts, shares of the most frequent key, entropy in bits, mean and deviation of gaps; zeros for an empty window |
| `Features.FeatureExtractor.CountAll` | PRISM/src/feature/feat_miner.cpp:16-26 | one pass leaves each hash map holding every key's multiplicity |
| `Features.LargestCount` | PRISM/src/feature/feat_miner.cpp:32-35 | the largest counter, whatever order the map is iterated in |
| `Features.AddressEntropy` | PRISM/src/feature/feat_miner.cpp:38-44 | the Shannon entropy, whatever order the map is iterated in |
| `Features.Interarrivals` | PRISM/src/feature/feat_miner.cpp:57-62 | the gaps between neighbouring records in seconds |
| `Features.VarianceOf` | PRISM/src/feature/feat_miner.cpp:68-72 | the population variance of the gaps |
| `Features.OrderIndependence` | PRISM/src/feature/feat_miner.cpp:16-50 | every feature but the two timing ones depends only on the multiset of records |
| `Features.CountsConserved` | PRISM/src/feature/feat_miner.cpp:21-28 | the values held by the function, address and protocol counters each add up to the number of records, which is the count feature |
| `Features.FunctionDominance` | PRISM/src/feature/feat_miner.cpp:32-36 | function concentration, for each record, is the count of the most frequent code: no code has more, some code has exactly that; it lies between 1/distinct and 1 |
| `Features.ProtocolDominance` | PRISM/src/feature/feat_miner.cpp:46-50 | the same for protocol dominance and protocol names |
| `Features.AddressDominance` | PRISM/src/feature/feat_miner.cpp:75-79 | the same for target density and addresses |
| `Features.WriteFeature` | PRISM/src/feature/feat_miner.cpp:22-30 | the write ratio, for each record, adds up to the number of positions that hold a write |
| `Features.EntropyFeature` | PRISM/src/feature/feat_miner.cpp:38-44 | entropy is between max(0, -log2(target density)) and log2(distinct addresses), and zero exactly when all records share one address |
| `Entropy.EntropyAtMost` | PRISM/src/feature/feat_miner.cpp:38-44 | no distribution over k keys exceeds log2(k) bits |
| `Entropy.EntropyAtLeast` | PRISM/src/feature/feat_miner.cpp:38-44 | the entropy is at least the information of the most frequent key |
| `Entropy.Grouping` | PRISM/src/feature/feat_miner.cpp:38-44 | for two sequences without a common key, drawn from with shares p and q: H(a + b) = p H(a) + q H(b) - p log2(p) - q log2(q), which with the zero case and order independence fixes the entropy of every window |
| `Entropy.EvenEntropy` | PRISM/src/feature/feat_miner.cpp:38-44 | keys that all occur equally often have exactly log2(distinct) bits |
| `Features.MeanFeature` | PRISM/src/feature/feat_miner.cpp:54-66 | the gaps telescope: the mean is (last - first)/(n - 1) in seconds, and 0 for fewer than two records |
| `Features.DeviationFeature` | PRISM/src/feature/feat_miner.cpp:55-72 | for every window the deviation is non-negative and its square, for each pair of gaps, is half the squared differences of all pairs of gaps; 0 for fewer than two records |
| `Timing.PairwiseVariance` | PRISM/src/feature/feat_miner.cpp:68-72 | the squared differences of all n^2 pairs add up to 2 n^2 times the variance, with no mean in the statement |
| `Scores.VarianceOfSpan` | PRISM/src/feature/feat_miner.cpp:68-72 | the m gaps of m + 1 records that span at most W vary by at most W^2 (m - 1)/m^2 |
| `Scores.VarianceLimits` | PRISM/src/feature/feat_miner.cpp:68-72 | hence by at most W^2/4, and by at most 0.5125 with 49 records in five seconds |
| `Timing.VarianceOfSum` | PRISM/src/feature/feat_miner.cpp:68-72 | m non-negative gaps with a given mean vary by at most m - 1 times its square |
| `Timing.VarianceOfSumTight` | PRISM/src/feature/feat_miner.cpp:68-72 | that bound is attained if and only if at most one gap is not zero |
| `Timing.VarianceOfBand` | PRISM/src/feature/feat_miner.cpp:68-72 | gaps no longer than g vary by at most g squared over four |
| `Scores.HstRange` | PRISM/src/detection/hst.cpp:14-18 | the score lies strictly above 50 times the write ratio and never above 372.5; without writes it is at most 2.5 |
| `Scores.HstOfWindow` | PRISM/src/detection/hst.cpp:14-18 | the score is 50 w + 2.5 f + 20 w h in the share of writes w, the share f of the most frequent code and the address entropy h |
| `Scores.HstOfEvenWrites` | PRISM/src/detection/hst.cpp:14-18 | writes alone, with one function code and addresses spread evenly over 2^k values, score exactly 52.5 + 20 k |
| `Scores.HstRangeTight` | PRISM/src/detection/hst.cpp:14-18 | one write to each of the 65536 addresses scores exactly 372.5 |
| `Scores.BurstOfVariance` | PRISM/src/detection/burst.cpp:14-23 | the burst score is a function of the gap variance alone |
| `Scores.BurstMeasures` | PRISM/src/detection/burst.cpp:16-23 | 0.051 times the score is the distance of the gap variance from 0.0025, above or below |
| `Scores.BurstRange` | PRISM/src/detection/burst.cpp:16-23 | over a five-second window it lies between 0 and 6.2475/0.051 |
| `Scores.BurstRangeTight` | PRISM/src/detection/burst.cpp:16-23 | two records together and one five seconds later score exactly 6.2475/0.051 |
| `Scores.KeepsAlarmIff` | PRISM/src/risk/risk_model.cpp:20-35 | any window keeps an alarm on if and only if 50 w + 2.5 f + 20 w h exceeds 10 or the gap variance exceeds 0.5125 |
| `Scores.SprayAlarms` | PRISM/src/detection/hst.cpp:16-18 | writes spread over many addresses keep an alarm on from 5 w + 2 w h = 1 and raise it from 5/3 |
| `Scores.WriteHeavyAlarms` | PRISM/src/risk/risk_model.cpp:20-41 | a window a third of which is writes is High with restriction from either alarm state |
| `Scores.WritesKeepAlarm` | PRISM/src/risk/risk_model.cpp:30-35 | a window a fifth of which is writes cannot clear the alarm |
| `Scores.ReadOnlyClears` | PRISM/src/risk/risk_model.cpp:20-35 | a read-only window clears the alarm if and only if its gap variance is at most 0.5125, and raises it if and only if the exponential of the burst score's excess reaches 7/3, which needs more than that |
| `Risk.RiskModel.Evaluate` | PRISM/src/risk/risk_model.cpp:17-53 | the new alarm state and the whole decision from the old state and the probability |
| `Risk.Odds` | PRISM/src/risk/risk_model.cpp:20-28 | the odds of the probability are exp(s/5 - 2) for the larger score s, which fixes it for every detection |
| `Risk.DecisionAfterRun` | PRISM/src/risk/risk_model.cpp:30-52 | after any run of detections the decision is High exactly while a peak of 0.7 is uncleared, escalation and restriction come with High only, Medium otherwise means above 0.4, and the probability reported is the last one |
| `Risk.SigmoidAlarms` | PRISM/src/risk/risk_model.cpp:61-64 | a score reaches probability 0.7 exactly when exp(2(z - 1)) reaches 7/3 |
| `Risk.AlarmBracket` | PRISM/src/risk/risk_model.cpp:61-64 | that is the case from z = 5/3 and not the case below z = 9/7 |
| `Risk.RaisesIff` | PRISM/src/risk/risk_model.cpp:20-32 | the alarm is raised exactly by a detection one of whose scores gets there |
| `Risk.ClearsIff` | PRISM/src/risk/risk_model.cpp:20-35 | it is cleared exactly by a detection with both scores at or below the baseline of 10 |
| `Risk.ProbabilityMonotone` | PRISM/src/risk/risk_model.cpp:20-28 | larger scores never give a smaller probability; it lies strictly between 0 and 1 |
| `Risk.OnMeansUnclearedPeak` | PRISM/src/risk/risk_model.cpp:30-35 | after any run the alarm is on exactly when some probability reached 0.7 and none since came down to 0.5 |
| `Risk.AntiFlapping` | PRISM/src/risk/risk_model.cpp:30-35 | T state changes cost the probability sequence a total variation of at least 0.2 (T - 1) |
| `Risk.AntiFlappingTight` | PRISM/src/risk/risk_model.cpp:57-58 | for every T a run attains that bound |
| `Risk.RunMonotone` | PRISM/src/risk/risk_model.cpp:30-50 | a run of detections that dominates another pointwise is never at a lower level |
| `Modbus.EncodeMbapPdu` | PRISM_simulator/proto/modbus/common.hpp:14-32 | the twelve bytes of a frame |
| `Modbus.EncodeException` | PRISM_simulator/proto/modbus/common.hpp:36-48 | the nine bytes of an exception response |
| `Modbus.DecodeMbapPdu` | PRISM_simulator/proto/modbus/common.hpp:50-60 | code, address and value of twelve bytes or more; zeros for fewer |
| `Modbus.DecodeInvertsEncode` | PRISM_simulator/proto/modbus/common.hpp:14-60 | decoding inverts encoding for all field values |
| `Modbus.EncodeNormalises` | PRISM_simulator/proto/modbus/common.hpp:14-60 | encoding after decoding keeps the five payload bytes, and keeps the frame exactly when it is twelve bytes with the standard header |
| `Modbus.EncodeIdempotent` | PRISM_simulator/proto/modbus/common.hpp:14-60 | encoding after decoding, done twice, changes nothing more |
| `Modbus.DecodePrefix` | PRISM_simulator/proto/modbus/common.hpp:53 | only the first twelve bytes count; fewer decode to zeros |
| `Modbus.EncodeClientPdu` | PRISM_simulator/proto/modbus/client.cpp:22-32 | the client's frame with its own header |
| `Modbus.DecodeInvertsClient` | PRISM_simulator/proto/modbus/client.cpp:22-32 | the PLC recovers the request whatever the header holds, and all four header fields can be read back off the wire |
| `Modbus.ClientAgrees` | PRISM_simulator/proto/modbus/client.cpp:12-32 | with the default header it is the shared encoder's frame |
| `Modbus.LengthField` | PRISM_simulator/proto/modbus/common.hpp:20-45 | in frames and exceptions alike the length field counts the bytes after it; an exception carries the request's code with its high bit set |
| `Parsers.AdmittedRecords` | PRISM/src/parser/proto_classifier.cpp:5-13 | which packets are kept and every field of their record, from port numbers and payload bytes alone, for all four kinds of packet: 502 before 20000 before 2404 before neither |
| `Parsers.DetectorReadsFrames` | PRISM/src/parser/modbus_parser.cpp:10-37 | detector and PLC read the same function and address out of a frame and agree on what is a write |
| `Parsers.ExceptionsAreDropped` | PRISM/src/parser/modbus_parser.cpp:19-22 | no exception response reaches a window |
| `Parsers.ObjectAddressTruncated` | PRISM/src/parser/iec104_parser.cpp:33-36 | the third byte of an object address is lost |
| `Flows.FlowTable.Classify` | PRISM/src/parser/flow_table.cpp:33-59 | after any packets the table has one entry per flow under its initiator's key with the latest time either way; the result says whether the packet travels as the first of its flow did |
| `Flows.InitiatorIsFirst` | PRISM/src/parser/flow_table.cpp:53-58 | the initiator is the key of the earliest packet of the flow, and exists exactly if there is one |
| `Flows.LatestIsLast` | PRISM/src/parser/flow_table.cpp:40-48 | a flow was last seen when the last packet on it was |
| `Flows.SameEndpoints` | PRISM/src/parser/flow_table.cpp:12-15 | two packets are on one flow if and only if they connect the same two address and port pairs |
| `Flows.OneEntryPerFlow` | PRISM/src/parser/flow_table.cpp:45-51 | never both directions of a flow |
| `Enforcement.EnforcementEngine.Apply` | PRISM/src/enforcement/enforcer.cpp:18-43 | latch, number of sends attempted, bytes sent and kind of result for every decision, latch state and network outcome |
| `Enforcement.EnforcementEngine.SendSafetyCoil` | PRISM/src/enforcement/enforcer.cpp:48-77 | one attempt, a success exactly when all twelve bytes went out; the hand-built frame is the shared encoder's |
| `Enforcement.AtMostOneLockFrame` | PRISM/src/enforcement/enforcer.cpp:24-37 | over any run the complete frame is sent once if the latch is set and never otherwise; anything else sent is cut short |
| `Enforcement.LatchMeansDelivered` | PRISM/src/enforcement/enforcer.cpp:24-37 | the latch is set exactly when some demand was sent completely |
| `Enforcement.AttemptsUpToDelivery` | PRISM/src/enforcement/enforcer.cpp:24-37 | over any run the sends `Apply` attempts number the demands up to and including the first delivered one |
| `Enforcement.BytesConserved` | PRISM/src/enforcement/enforcer.cpp:48-77 | over any run the bytes sent are what the network took of the demands up to and including the first delivered one, cut short or not |
| `Enforcement.ActionsTell` | PRISM/src/enforcement/enforcer.cpp:19-41 | over any run the reported action is engaged for the first delivered demand alone, active for every later demand, failed for every demand before it; the other three follow the decision |
| `Enforcement.NoAttemptAfterLatch` | PRISM/src/enforcement/enforcer.cpp:26-37 | nothing is attempted or sent once it is set |
| `Plc.Server.Serve` | PRISM_simulator/proto/modbus/server.cpp:43-76 | lock and reply for every read, empty and truncated ones included |
| `Plc.LockIsLatestCommand` | PRISM_simulator/proto/modbus/server.cpp:54-61 | the lock is on exactly when some read carried 05 FF FF FF 00 at byte 7 and no later one carried 05 FF FF 00 00 |
| `Plc.RepliesFollowTrace` | PRISM_simulator/proto/modbus/server.cpp:62-75 | the reply to any bytes, byte for byte: under a standing lock a write other than to coil 0xFFFF gets 00 01 00 00 00 03 01, its code plus 0x80, 01; everything else gets the standard header and its own five bytes, or zeros if it was cut short |
| `Pipeline.Detector.Judge` | PRISM/src/main.cpp:177-184 | features, scores, alarm and enforcement of one window compose as specified |
| `Pipeline.Detector.DrainPacket` | PRISM/src/main.cpp:155-224 | what one polled packet does to window, alarm and latch, and whether the loop counts it |
| `Pipeline.Detector.FallbackPacket` | PRISM/src/main.cpp:237-261 | the same for the fallback loop |
| `Pipeline.Detector.DrainLoop` | PRISM/src/main.cpp:150-225 | a wake-up handles a prefix of the waiting packets in order and leaves some behind only after counting exactly 1024 |
| `Pipeline.Detector.PollingLoop` | PRISM/src/main.cpp:141-227 | for any split into batches, state and verdicts are those of handling all packets one by one |
| `Pipeline.Detector.FallbackLoop` | PRISM/src/main.cpp:231-297 | the same for packets offered one at a time with idle gaps |
| `Pipeline.MonitorInterface` | PRISM/src/main.cpp:132-298 | neither the verdicts nor the final state of window, alarm and latch depend on which of the two loops is taken |
| `EndToEnd.AlarmFollowsWindows` | PRISM/src/main.cpp:170-182 | the windows judged are the non-empty windows of the whole admitted history, and the alarm is a function of their contents alone |
| `EndToEnd.RecordsConcat` | PRISM/src/main.cpp:155-170 | the records reaching the window manager are those of the admitted packets, one each, in the order of the packets |
| `EndToEnd.DetectorWindows` | PRISM/src/main.cpp:61 | the detector accepts the admitted records not stamped before an earlier one, and its k-th window starts k seconds after the first and lasts five |
| `EndToEnd.DecisionsFollowWindows` | PRISM/src/main.cpp:176-184 | every decision is the one the alarm model gives after the windows judged by then |
| `EndToEnd.WindowShape` | PRISM/src/window/window_manager.cpp:31-35 | an emitted window is sorted, no longer than its size, and a run of consecutive accepted records |
| `EndToEnd.QuietWindowsStaySilent` | PRISM/src/risk/risk_model.cpp:30-50 | if every judged window is read-only with gap variance at most 0.5125, the alarm stays off and nothing is sent |
| `EndToEnd.SteadyReadsStaySilent` | PRISM/src/main.cpp:170-184 | read-only traffic with no gap over 1.43 s never raises the alarm or sends anything |
| `EndToEnd.BusyReadsStaySilent` | PRISM/src/main.cpp:170-184 | neither does read-only traffic with 49 records in every judged window, whatever their timing |
| `EndToEnd.WriteHeavyWindowLocks` | PRISM/src/main.cpp:177-184 | a packet completing a window a third of which is writes turns the alarm on and, if the network takes the frame, sets the latch |
| `EndToEnd.WritesKeepAlarmOn` | PRISM/src/risk/risk_model.cpp:33-35 | an alarm survives any run of windows a fifth of which is writes |
| `EndToEnd.WindowAfterWrites` | PRISM/src/main.cpp:170-182 | a judged window that starts after the last write leaves the alarm off from either state if its gap variance is at most 0.5125, and clears an alarm in no other case |
| `EndToEnd.SteadyReadsRecover` | PRISM/src/main.cpp:170-182 | in traffic with no gap over a second the alarm is off whenever the last write lies six seconds back, whatever was written before |
| `EndToEnd.DetectorSendsOnce` | PRISM/src/enforcement/enforcer.cpp:24-39 | over any traffic the complete lock frame is sent at most once, as the latch says; escalation without restriction is unreachable |
| `EndToEnd.DetectorEnforces` | PRISM/src/main.cpp:182-184 | over any traffic latch, bytes sent, actions and attempts are those of a run of the enforcer |
| `EndToEnd.DrainAccounts` | PRISM/src/main.cpp:151-224 | over any packets the drain loop counts all but the malformed ones and those that complete an empty window, foreign ports included |
| `LockProtocol.LatchAndLock` | PRISM_simulator/proto/modbus/server.cpp:47-66 | in every interleaving the latch is set exactly when one lock frame is in flight or taken, a locked PLC implies a set latch, and the PLC's lock is what its trace says |
| `LockProtocol.StepKeepsInv` | PRISM/src/enforcement/enforcer.cpp:24-37 | every step of detector, client, operator and PLC keeps that invariant |
| `LockProtocol.FramesConserved` | PRISM_simulator/proto/modbus/server.cpp:38-48 | over any run every frame sent is in flight or taken exactly once and nothing else is; every read is the start of a taken frame |
| `LockProtocol.TruncatedReadKeepsLock` | PRISM_simulator/proto/modbus/common.hpp:53 | reading fewer than twelve bytes of any frame leaves the lock alone |
| `LockProtocol.ReleaseSpendsLatch` | PRISM_simulator/proto/modbus/server.cpp:58-61 | a release read with no lock frame in flight leaves the PLC unlocked with the latch set |
| `LockProtocol.ReleaseIsFinal` | PRISM/src/enforcement/enforcer.cpp:26-37 | with the latch set, some continuation locks the PLC if and only if it is locked or a lock frame is in flight; otherwise it stays unlocked whatever the detector sees |
| `LockProtocol.LockIsReachable` | PRISM/src/main.cpp:170-184 | from the start, two writes five seconds apart and one read lock the PLC |
| `LockProtocol.SpentIsReachable` | PRISM/src/enforcement/enforcer.cpp:26-37 | a release sent and read after that leaves the latch set and the PLC unlocked for good |
| `LockProtocol.LockHolds` | PRISM_simulator/proto/modbus/server.cpp:54-66 | a locked PLC with no release in flight stays locked until an operator releases it |
| `LockProtocol.AttackSendsLock` | PRISM/src/main.cpp:177-184 | a write-heavy window puts the complete lock frame in flight |
| `LockProtocol.AttackIsContained` | PRISM/src/main.cpp:177-184 | from a write-heavy window, through the frame being read whole, to every later write being refused until a release |

## Left out

- Floating-point rounding, NaN, and overflow of `int` counters and of `int64` time: the model uses reals and unbounded integers.
- Packet capture, sockets, threads, signals, `poll` and the `running` flag: represented by packet batches and an outcome per send.
- Alert text, logging, progress bars, function-code names and the alert dispatcher: display only.
- `PRISM_simulator/api/main.go`, the command-line tools, `test_cli.py`, shell scripts and Docker files: process launching.
- `PRISM/src/simulator`: an older copy of the simulator without the write lock.
- The DNP3 and IEC-104 simulator processes: a DNP3 request of theirs is 12 bytes and so is dropped by the parser, which wants 13.
- The hash function of the flow table: it affects speed only.
- MonitorInterface: the two loops' bodies are the same after the window manager, so that part is modelled once, as `Feed`.
- Learning: the class named after half-space trees is a fixed formula in the code, and is modelled as one.
