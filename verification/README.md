# A verified model of the BLE usage meter

The meter watches a BLE link, counts the writes that match the operator's rules, and posts
signed cumulative counts to a backend that answers a licence question about them. This project
models that pipeline in Dafny, from ATT fragments to the licence decision, and proves what its
parts promise each other. `dafny verify dfyconfig.toml` checks everything.

| file | models |
|---|---|
| `Protocol.dfy` | the whole pipeline as a transition system: observer, report processes, network, backend, with stops between any two durable writes |
| `ConcurrentProtocol.dfy` | the same gateway and network over a backend that verifies and commits in separate steps |
| `Backend.dfy`, `Interleaving.dfy` | report acceptance, one request at a time and with verification and commit interleaved |
| `Policy.dfy` | rolling usage and licence decisions over accepted histories |
| `Reporter.dfy`, `ReportRuns.dfy` | the retry loop over a lossy link and the report command, and their refinement of the protocol's steps |
| `Gateway.dfy`, `Firmware.dfy` | the gateway's store, counter and pipeline; the firmware's counter, and the agreement of the two |
| `Matching.dfy`, `Uuid.dfy` | the two rule matchers, and UUID comparison as text and as bytes |
| `Reassembly.dfy`, `OpenRuns.dfy` | the four-slot reassembly pool, the map of open runs behind it, and what it emits over traces |
| `Canonical.dfy`, `Utf8.dfy`, `Bytes.dfy` | the three canonical encoders and their common layout |
| `RingLog.dfy` | the flash ring against an unbounded log |
| `Joiner.dfy`, `Snoop.dfy` | chunk joining by MTU, and the HCI snoop parser with the encoders it inverts |

Objects that the source updates in place are classes; each method is proved equal to a function
of the old state, and the protocol, trace and history theorems are about those functions.

## Assumptions

- Signatures are ideal. A signature value is the pair of the key that made it and the bytes it was
  made over; the network may present any signature of another key, and one of the gateway's key
  only if the gateway made it.
- There is one observer per store, and report processes run one after another.
- Each autocommitted statement, each transaction and each NVS set is one atomic durable step.
- In `Protocol` and `ReportRuns` the backend handles one request at a time, verification and commit
  together. `ConcurrentProtocol` drops that assumption.
- A stored datetime is its instant together with the text `isoformat()` gives; text is compared
  lexicographically, as SQLite does.

## Where the code and its documentation differ

- `gateway/matcher.py` says that distinct triples make rule order irrelevant. They do not:
  `Matching.OrderIrrelevantIff` gives the exact condition, `Matching.DistinctTriplesNotEnough` an instance.
- `gateway/matcher.py` calls the two matchers identical. They agree when all UUIDs are in 8-4-4-4-12
  form. For rules with any UUID the gateway accepts, `Matching.MatchersAgreeIff` gives the exact
  condition on the rule list for picking the same rule, and `Firmware.CountsAgreeIff` the exact
  condition for equal counts, which takes in rules named "" or "unknown" as well;
  `Firmware.MovedDashMiscounts` and `Firmware.RuleNamedUnknownMiscounts` are instances.
- `gateway/reporter.py` treats an undelivered report as one to look into. After a lost response the
  retry is refused as a replay although the report is stored: `Reporter.DeliveryMeaning`,
  `Reporter.LostResponseLooksUndelivered`.
- `backend/policy.py` takes the baseline "strictly before the window". A report that ends in the
  cutoff's own second counts as before it: `Policy.StoredUtcBeforeCutoffIff`, with the instance
  `Policy.SameInstantIsBefore`.
- `backend/app.py` verifies outside its transaction, so marks can move back under concurrency:
  `Interleaving.CommitOrderIrrelevantIff`, `Interleaving.RegressionReachable`. Measured usage is
  not distorted by it: `ConcurrentProtocol.UsageUnderConcurrency`.
- `firmware/esp32/ble_observer.cpp` says a stale partial value is dropped so that it cannot be glued
  on. Only a claim by another key drops it: `OpenRuns.ValueEmittedIffNeverSwept` gives the exact
  condition, `OpenRuns.StalePrefixIsJoined` an instance.
- `firmware/esp32/signer.cpp` says the length prefix keeps messages apart. It wraps above 65535 bytes:
  `Canonical.FirmwareStartsWithAnotherIff`.
- `tools/parse_snoop.py` says fragmented writes are skipped. A first fragment is reported with the
  bytes it has: `Snoop.FirstFragmentIff`.

## Model

| member | source | states |
|---|---|---|
| Protocol.EveryRunFromStartSafe | gateway/cli.py:43-125 | after every run from a blank store, with stops and network behaviour anywhere, the joint invariant of store, observer, reporter, signed reports and backend tables holds |
| Protocol.HonestVerdict | backend/verify.py:118-132 | when requests are handled one at a time, the verdict on an authentic report of the gateway depends on the sequence alone: accepted if above the mark, a replay otherwise (a server error if it outgrows SQLite's integers) |
| Protocol.CountRollbackUnreachable | backend/verify.py:93-107 | when requests are handled one at a time, no report, honest or altered, is ever refused as a count rollback for a device under the gateway's key |
| Protocol.BatchReportCatchesUp | gateway/reporter.py:5-11 | after any run that is posting a batch, whatever arrived before, an authentic storable report of that batch leaves the marks at exactly the batch's sequence and count |
| Protocol.AcceptedWithinDurable | gateway/cli.py:100-125 | accepted sequence and count never exceed the gateway's durable ones, and the durable count never exceeds the recognised events logged |
| Protocol.EventsConserved | gateway/cli.py:43-59 | recognised log rows = stored count + the run's actions that lose an event (a stop between logging and saving, or a count SQLite cannot hold) + the one in progress; the live count is never below the stored one, so the rollback trigger never fires |
| Protocol.LogIsSightings | gateway/cli.py:43-52 | over every run the log grows by exactly the writes the observer saw, row for row: address, UUIDs, sequence, the first matching rule's name or "unknown", and the first 16 payload bytes |
| Protocol.RecognisedIsCounted | gateway/cli.py:53-58 | after every run a device's recognised log rows are as many as the writes seen from it whose first matching rule has a name that counts |
| Protocol.EveryBatchFresh | gateway/cli.py:116-117 | after any run each new batch takes a sequence above every sequence signed before, and the store accepts it |
| Protocol.SignedHistoryOrdered | gateway/counter.py:48-51 | over every run, one device's signed reports are determined by their sequence, and a later one never carries a lower count |
| Protocol.SignedForDevice | gateway/cli.py:116-125 | from every safe state, a batch taken and signed for a device adds exactly the tuple of its loaded count, the next sequence and the window from `now - interval` to `now`, or nothing when that cannot be encoded |
| Protocol.AcceptedMeansSigned | backend/verify.py:53-73 | a report whose signature passes under the gateway's key is, at whole-second resolution, a tuple the gateway signed |
| Protocol.UsageNeverExceedsLog | backend/policy.py:63-90 | measured usage over any period is between 0 and the recognised events in the gateway's own log |
| Protocol.HandleIsObserveThenSave | gateway/cli.py:43-59 | one pipeline call is the protocol's log step followed by its save step |
| ConcurrentProtocol.EveryPlayFromBootSecure | backend/app.py:91-123 | with verification and commit as separate steps, interleaved with everything else, the gateway's invariant, the soundness of the tables and the signature behind every row and every in-flight report hold after every run |
| ConcurrentProtocol.VerdictUnderConcurrency | backend/verify.py:118-132 | under any interleaving, even after marks moved back, the gate passes an authentic report of the gateway exactly when its sequence is above the mark, and otherwise calls it a replay |
| ConcurrentProtocol.CountRollbackUnreachableUnderConcurrency | backend/verify.py:93-107 | under any interleaving no well-formed report, honest or altered, is refused as a count rollback for a device under the gateway's key |
| ConcurrentProtocol.CommitUnderConcurrency | backend/app.py:97-127 | a report that passed verification under the gateway's key commits exactly when its sequence fits SQLite and is not stored yet; otherwise the tables stay as they are |
| ConcurrentProtocol.AcceptedWithinDurableUnderConcurrency | gateway/cli.py:100-125 | under any interleaving accepted sequence and count never exceed the gateway's durable ones, nor the count the recognised events logged |
| ConcurrentProtocol.UsageUnderConcurrency | backend/policy.py:63-90 | under any interleaving usage is the newest row's count less the baseline's, never clamped, and between 0 and the recognised events in the gateway's log |
| ConcurrentProtocol.CatchUpUnderConcurrency | gateway/reporter.py:5-11 | once a verified report of the current batch has been through its commit, the newest row of its device has the batch's sequence and count, whatever else is in flight |
| ReportRuns.DeliverIsRun | gateway/reporter.py:66-94 | retrying one report is a run of arrivals that changes the backend as the delivery specification says and nothing else |
| ReportRuns.ReportIsRun | gateway/cli.py:100-135 | the report command is the run StartReport, TakeSequence, then Sign and arrivals per device: it ends in the world with the new sequence stored, the command's backend tables and exactly the batch's tuples newly signed, while others may replay whatever is signed by then |
| ReportRuns.BatchTuples | gateway/cli.py:117-124 | the tuples of a batch are, for each of its devices, the loaded count with the batch's sequence, `now - interval` and `now` |
| ReportRuns.ReportCatchesUp | gateway/cli.py:100-135 | after any run, a report command of which some attempt reaches the backend for an enrolled device leaves the accepted count at the recognised events logged, less those lost and the one in progress, when the command loaded the store; any interference, losses and repeats in between |
| Backend.Server.PostReport | backend/app.py:89-127 | answers and changes the tables as gate plus transaction do: row and marks together, or nothing |
| Backend.Server.RegisterDevice | backend/app.py:60-86 | enrols a new identifier with marks (-1, 0) and refuses a bad key or a known identifier, changing nothing |
| Backend.RegisterAnswers | backend/app.py:60-86 | each answer to an enrolment holds exactly under its own condition, and only an enrolled device changes |
| Backend.AcceptedIff | backend/app.py:89-127 | in every consistent state a report is accepted exactly when it is well formed, authentic, fresh, not below the count mark and storable; otherwise the tables stay as they are |
| Backend.PostAnswers | backend/verify.py:53-132 | on all tables and reports, each answer holds exactly under its own condition on the request and the tables: bad fields, unknown device, unusable key, undecodable signature, signature not this key's over the canonical message, replay, count rollback, a number that cannot be encoded or stored, or acceptance |
| Backend.AcceptedStores | backend/app.py:97-118 | an accepted report leaves one new row with its own fields and times, and marks equal to it; nothing else changes |
| Backend.RejectedIff | backend/verify.py:76-107 | in every consistent state an authentic report is a replay exactly when its sequence is not above the mark, and a count rollback exactly when it is fresh with a count below the mark |
| Backend.WellFormedRaisesIff | backend/models.py:52-54 | the field constraints keep identifiers short enough, so encoding a well-formed report raises exactly when a number does not fit 64 bits |
| Backend.MarksAreMaxima | backend/verify.py:76-107 | the marks bound every stored sequence and count of the device |
| Backend.EveryRunConsistent | backend/schema.sql:19-40 | over all request sequences, from empty tables on, each device's rows strictly increase in sequence and never decrease in count, its marks are (-1, 0) or those of its last row, rows are only appended, keys never change and marks never move back |
| Backend.AcceptedOnceIsReplayForEver | backend/verify.py:76-90 | a report accepted once is refused as a replay after any later requests |
| Interleaving.AnyInterleavingSound | backend/app.py:91-123 | under any interleaving of verify and commit no device has two rows with one sequence, and marks equal the last committed row |
| Interleaving.VerifyThenFinishIsPost | backend/app.py:89-127 | with nothing in between, verifying and then committing is handling the request at once |
| Interleaving.OneSequenceNeverRegresses | backend/app.py:91-118 | while the live in-flight reports of each device share one sequence, no mark ever moves back |
| Interleaving.CommitOrderIrrelevantIff | backend/app.py:91-118 | in-flight reports may commit in any order without moving a mark back exactly when the live ones of each device share one sequence |
| Interleaving.RegressionReachable | backend/app.py:91-118 | any two authentic reports verified side by side and committed newest first leave the marks at the older one |
| Policy.UsageIsIncreaseSinceCut | backend/policy.py:63-90 | on atomic histories usage is the sum of count increases after the last row keyed before the cutoff; the clamp at zero never acts |
| Policy.UsageMissesEarlyInWindowRows | backend/policy.py:83-90 | usage falls short of the in-window increases by exactly those of in-window rows that precede a row keyed before the cutoff |
| Policy.UsageIsInWindowIncrease | backend/policy.py:67-70 | when window ends never go back, usage is the increase of exactly the in-window rows |
| Policy.UsageGrowsWithPeriod | backend/policy.py:70-90 | moving the cutoff earlier never lowers usage |
| Policy.OverQuotaPersists | backend/policy.py:93-120 | for a fixed policy, day and cutoff an over-quota denial survives all further requests whose reports end at or after the cutoff |
| Policy.AllowedStaysUnderQuota | backend/policy.py:93-147 | on atomic histories an allowed device with a quota has reported fewer units than the quota since the last row keyed before the cutoff |
| Policy.ReasonIff | backend/policy.py:93-147 | each reason is given exactly under its own condition of the policy on record, the day and the measured usage |
| Policy.BeforeIff | backend/policy.py:83-87 | one text is before another exactly when at some first difference it ends or has the smaller character |
| Policy.StoredUtcBeforeCutoffIff | backend/policy.py:71-86 | a stored time, with any offset, a fraction or neither, is before the cutoff as text exactly when the cutoff's whole-second stamp is at no first difference the lower one |
| Policy.StampBeforeCutoffIff | backend/policy.py:71-86 | for stamps of the form YYYY-MM-DDTHH:MM:SS that is so exactly when the number the stored stamp's digits spell is at most the cutoff's |
| Policy.UsageByStamps | backend/policy.py:75-90 | on atomic histories of such times usage is the newest count less the count of the last row whose stamp is not later than the cutoff's |
| Policy.OneRowCountsIff | backend/policy.py:75-90 | a device's only row counts in full when its stamp is later than the cutoff's and not at all otherwise |
| Policy.SameInstantIsBefore | backend/policy.py:71-86 | a report that ends at the cutoff itself is before it as text |
| Reporter.PostWithRetry | gateway/reporter.py:66-94 | the retry loop leaves the backend and returns the result that the delivery specification gives |
| Reporter.StatusIff | backend/app.py:38-52 | each status stands for one kind of answer: 200 acceptance, 404 an unknown device, 401 a bad signature, 400 an undecodable signature or stored key, 409 a replay or count rollback, 422 bad fields, 500 an exception |
| Reporter.AnswerDecides | gateway/reporter.py:77-86 | an answered attempt is delivery exactly on acceptance, is retried exactly after a server error, and otherwise ends the loop with its own status |
| Reporter.DeliveredIsStoredOnce | gateway/reporter.py:66-94 | over any lossy link and any interference, retries store at most one row per device and sequence, and delivered means exactly one, with that count |
| Reporter.QuietDelivery | gateway/reporter.py:71-94 | without interference an acceptable report is stored exactly when some attempt reaches the backend, and called delivered exactly when the first that does is answered |
| Reporter.DeliveryMeaning | gateway/reporter.py:71-94 | whatever others post in between: an accepted attempt stores the report, it is called delivered exactly when that attempt is answered, a lost response leads to silence or 409, and if no attempt is accepted the tables are as if only the others had posted |
| Reporter.LostResponseLooksUndelivered | gateway/reporter.py:78-84 | with the first response lost and the retry answered, an acceptable report is stored and called undelivered with status 409 |
| Reporter.Report | gateway/cli.py:100-135 | a report command stores the next sequence, changes nothing else in the store, posts each device once in some order and leaves the backend as that batch does; each delivered device has one row of that sequence, with its durable count, window `now - interval` to `now` as the backend renders times, and a signature of the key over a message that reads back as exactly those |
| Gateway.Store.Save | gateway/store.py:88-95 | upserts a count unless it is too large, negative or lower than the stored one, which change nothing |
| Gateway.SaveCounterAnswers | gateway/store.py:23-66 | each refusal to store a count holds exactly under its own condition, and a stored count changes that device's entry alone |
| Gateway.Store.SaveSequenceNumber | gateway/store.py:101-109 | stores a sequence unless it is below the stored one |
| Gateway.SaveSequenceAnswers | gateway/store.py:101-113 | a sequence is refused exactly when it is below the stored one, taken as 0 when there is none, and a stored one changes nothing else |
| Gateway.Load | gateway/cli.py:62-69 | restoring all stored rows into a new counter rebuilds exactly the stored counts and sequence |
| Gateway.Counter.IncrementBy | gateway/counter.py:31-36 | raises one device's count by a positive amount and moves no other; refuses the rest |
| Gateway.Pipeline.Handle | gateway/cli.py:43-59 | appends one row that carries the write's address and UUIDs, the counter's sequence, the first matching rule's name or "unknown", and the first 16 payload bytes; then, for a name that counts, raises the device's live count by one and stores it unless the store refuses it; a failed append changes nothing |
| Matching.Matcher.Match | gateway/matcher.py:46-61 | the index lookup returns the first matching rule of the whole list |
| Matching.Matcher.constructor | gateway/matcher.py:36-40 | the index holds exactly the non-empty buckets of the rule list |
| Matching.EventMatcher.Match | firmware/esp32/event_matcher.cpp:69-94 | the scan returns the first matching rule |
| Matching.BucketFindsFirstMatch | gateway/matcher.py:48-61 | looking only at one characteristic's rules finds the same rule as scanning all |
| Matching.MatchesIff | gateway/matcher.py:46-61 | a rule matches exactly when both UUIDs are equal up to case and its prefix starts the payload |
| Matching.RuleMatchesAgreeIff | gateway/matcher.py:57-60 | on all UUIDs the gateway accepts, a rule matches a write in the gateway exactly when it does in the firmware and the dashes agree |
| Matching.MatchersAgreeIff | firmware/esp32/event_matcher.cpp:69-94 | for writes in 8-4-4-4-12 form, index and scan pick the same rule for every write exactly when each rule not in that form is preceded by one with the same bytes and a prefix that starts its own |
| Matching.MatchersAgree | firmware/esp32/event_matcher.cpp:69-94 | over UUIDs in 8-4-4-4-12 form index and scan give the same event for every write |
| Matching.OrderIrrelevantIff | gateway/matcher.py:46-65 | labels are the same under every order of the rules exactly when rules that can match together carry one label |
| Matching.DistinctTriplesNotEnough | gateway/config.py:95-100 | two rules with distinct triples over well-formed UUIDs that label one write "short" in one order and "long" in the other |
| Matching.IndependentIsUnambiguous | gateway/config.py:95-100 | prefixes of which none starts another on its characteristic make order irrelevant |
| Uuid.UuidFromString | firmware/esp32/event_matcher.cpp:34-63 | accepts exactly the texts of 32 hexadecimal digits (or 4), dashes anywhere, and writes their bytes |
| Uuid.ParseAcceptsIff | firmware/esp32/event_matcher.cpp:34-63 | exactly the texts of hexadecimal digits and dashes with 32 digits, or of four digits and nothing else, are accepted |
| Uuid.HexDigits | firmware/esp32/event_matcher.cpp:26-31 | the sixteen digits in either case have the values 0 to 15, and no other character has one |
| Uuid.FullBytes | firmware/esp32/event_matcher.cpp:48-62 | byte k of a full UUID is its k-th pair of digits, dashes left out, the high digit first |
| Uuid.GroupedBytes | firmware/esp32/event_matcher.cpp:48-62 | in 8-4-4-4-12 form that pair stands at a fixed place of the text |
| Uuid.ShortFormBytes | firmware/esp32/event_matcher.cpp:15-46 | four digits give the Bluetooth Base UUID with them in its third and fourth byte |
| Uuid.LowerLetters | gateway/matcher.py:46-50 | lower-casing maps each of the 26 letters to its small form and leaves every other ASCII character |
| Uuid.ComparisonsAgreeIff | gateway/config.py:25-36 | on all full UUIDs the gateway accepts, lower-cased text and parsed bytes compare alike exactly when the dashes agree or the bytes differ |
| Uuid.MovedDashDisagrees | firmware/esp32/event_matcher.cpp:49-61 | moving a dash gives a text the gateway accepts that is equal to the firmware and different to the gateway |
| Uuid.GroupedTwin | firmware/esp32/event_matcher.cpp:49-61 | every UUID the gateway accepts has the bytes of one in 8-4-4-4-12 form |
| Firmware.Counter.Increment | firmware/esp32/counter.cpp:47-60 | raises one entry, saturating at 2^64 - 1, or appends a new one |
| Firmware.Counter.Restore | firmware/esp32/counter.cpp:28-41 | keeps the larger of the live and the restored count, or appends a new entry |
| Firmware.Record | firmware/esp32/main.cpp:51-76 | logs every write in the ring, in an entry with its address, event name or "unknown", payload length and first bytes cut to their fields; counts exactly the matched ones and saves their new count unless the storage holds more, which a storage not ahead of the live counter never does |
| Firmware.CountsAgree | gateway/counter.py:20-36 | over any trace of restores and non-empty writes in 8-4-4-4-12 form, under the condition of the next row on the rule list, each firmware count is the gateway's capped at 2^64 - 1 |
| Firmware.CountedAlikeIff | gateway/matcher.py:63-65 | for every rule list the gateway accepts, gateway and firmware count the same non-empty writes in 8-4-4-4-12 form exactly when each rule with a UUID not in that form is backed by rules that are (same bytes, and a prefix that starts its own or, if it has none, one rule per first byte), and each rule in that form named "" or "unknown" is shadowed likewise by earlier rules |
| Firmware.CountsAgreeIff | gateway/cli.py:53-58 | for every rule list the gateway accepts, the two give equal counts up to saturation on all traces from empty counters exactly under that condition |
| Firmware.GroupedProperAlike | gateway/config.py:91-92 | rules in 8-4-4-4-12 form, none named "" or "unknown", meet that condition |
| Firmware.MovedDashMiscounts | firmware/esp32/event_matcher.cpp:49-61 | for every UUID in 8-4-4-4-12 form, one rule with its first dash moved makes the counts part; with the unmoved rule added after it they agree, although the two matchers pick different rules |
| Firmware.RuleNamedUnknownMiscounts | gateway/matcher.py:63-65 | one rule named "unknown" and one matching write give a count of 1 in the firmware and none in the gateway |
| Firmware.ReorderingKeepsCounts | gateway/cli.py:53-58 | when rules of one characteristic of which one prefix starts the other are both counted or both not, reordering the rules changes no device's count over any trace |
| Firmware.CountingOrderIrrelevantIff | gateway/cli.py:53-58 | counts over every trace are the same under every order of the rules exactly under that condition |
| Reassembly.Observer.Handle | firmware/esp32/ble_observer.cpp:121-261 | fragments, disconnects, start and stop change the slots in place and emit as the pool's step function says |
| OpenRuns.PoolSimulatesBook | firmware/esp32/ble_observer.cpp:55-165 | over every trace the pool is a finite map from (connection, attribute) to partial value, and both emit the same |
| OpenRuns.OneSlotPerKey | firmware/esp32/ble_observer.cpp:59-64 | in every reachable state at most one slot in use serves a key |
| OpenRuns.ClaimRefusedIff | firmware/esp32/ble_observer.cpp:66-87 | a claim is refused exactly when four open runs are not stale |
| OpenRuns.EmittedIsConcatenation | firmware/esp32/ble_observer.cpp:121-165 | every emitted value has 1 to 512 bytes and is the concatenation of consecutive fragments of one key with running offsets, uninterrupted, ending in a final one |
| OpenRuns.EmissionsShareNoFragment | firmware/esp32/ble_observer.cpp:95-117 | no fragment contributes to two emissions |
| OpenRuns.NoMoreEmissionsThanFinals | firmware/esp32/ble_observer.cpp:163-164 | over every trace emissions never outnumber final fragments |
| OpenRuns.FlagsFollowStarts | firmware/esp32/ble_observer.cpp:234-261 | after every trace the two flags are what its starts and stops make them: the host is up since a successful start without a stop, and an observer listens since a start without a stop that found the host up |
| OpenRuns.EmittedWhileListening | firmware/esp32/ble_observer.cpp:97-102 | nothing is emitted unless an observer is listening |
| OpenRuns.CleanValueEmittedOnce | firmware/esp32/ble_observer.cpp:66-165 | a clean value that gets a slot is emitted once and whole at its final fragment, whatever other keys interleave |
| OpenRuns.ValueEmittedIffNeverSwept | firmware/esp32/ble_observer.cpp:38-165 | a value that gets a slot, with any pauses, is emitted whole at its final fragment exactly when no claim by another key in between finds it idle for more than five seconds, and nowhere else |
| OpenRuns.StalePrefixIsJoined | firmware/esp32/ble_observer.cpp:38-40 | ten seconds between the two halves of a value, and it is emitted joined |
| OpenRuns.SingleWriteEmitted | firmware/esp32/ble_observer.cpp:119-165 | after a start a single final fragment is emitted as it is exactly when it has 1 to 512 bytes |
| Canonical.ByteBuffer.PutU64Be | firmware/esp32/signer.cpp:30-32 | the shift loop pushes the big-endian form |
| Canonical.FirmwareCanonicalBytes | firmware/esp32/signer.cpp:43-58 | builds the layout with the identifier's length modulo 65536 |
| Canonical.BackendCanonicalMessage | backend/models.py:44-64 | builds the layout at whole-second resolution, or raises when an identifier or number does not fit |
| Canonical.PythonEncodersAgree | gateway/signer.py:44-58 | gateway and backend raise on the same tuples and otherwise give the same bytes |
| Canonical.ThreeEncodersAgree | firmware/esp32/signer.cpp:34-58 | all three encoders agree exactly when the identifier takes at most 65535 bytes |
| Canonical.ReadInvertsEncoding | backend/models.py:21-28 | a reader of the documented layout, with its own UTF-8 decoder, recovers every report from its message, whatever follows it |
| Canonical.EncodingInvertsRead | backend/models.py:21-28 | whatever that reader accepts is the one canonical message of the report it returns |
| Canonical.AsciiEncoding | gateway/signer.py:46 | an ASCII identifier is encoded as its character codes |
| Canonical.SampleMessage | backend/models.py:33-64 | one message byte for byte |
| Canonical.SecondsIff | backend/models.py:37-41 | a time is taken to the whole second that holds it, toward zero |
| Utf8.EncodeCharSpells | backend/models.py:52 | a character's bytes spell its code point in base 64 with the lead and continuation ranges of UTF-8, in the shortest form |
| Utf8.DecodeInvertsEncode | gateway/signer.py:46 | a strict UTF-8 decoder recovers every text from its encoding |
| Utf8.EncodeInvertsDecode | gateway/signer.py:46 | whatever that decoder accepts is the encoding of the text it returns |
| Canonical.EncodingPrefixFree | backend/models.py:30-32 | no canonical message starts another, and equal messages encode equal tuples |
| Canonical.FirmwareReadBackIff | firmware/esp32/signer.cpp:34-58 | the firmware's message is read back as its own report exactly when the identifier takes at most 65535 bytes |
| Canonical.FirmwareStartsWithAnotherIff | firmware/esp32/signer.cpp:34-41 | the firmware's message properly starts with another tuple's canonical message exactly when the identifier is longer and its wrapped length falls between two characters |
| Canonical.LongAsciiIdBreaksPrefixFreedom | firmware/esp32/signer.cpp:34-41 | every ASCII identifier of more than 65535 characters is such a case |
| RingLog.Storage.AppendEvent | firmware/esp32/storage_nvs.cpp:126-142 | writes the slot of the head, then the next head |
| RingLog.Storage.ReadRecent | firmware/esp32/storage_nvs.cpp:144-165 | returns the entries found in the newest slots, newest first |
| RingLog.Storage.SaveCounter | firmware/esp32/storage_nvs.cpp:58-81 | stores a count unless it is below the stored one or the storage is not ready |
| RingLog.EveryRunRefines | firmware/esp32/storage_nvs.cpp:126-142 | after any run with resets anywhere the ring refines the unbounded log of completed appends |
| RingLog.ReadRecentExact | firmware/esp32/storage_nvs.cpp:144-165 | a read is the newest min(k, appends mod 2^32, 512) entries in reverse; only the 512th can be the entry of an append cut off after its slot |
| RingLog.ReadRecentWithoutCrash | firmware/esp32/storage_nvs.cpp:144-165 | without a cut-off append every read is exact |
| Joiner.Handler.OnData | gateway/observer.py:71-87 | a chunk of MTU size is kept, any other completes a value |
| Joiner.BytesConserved | gateway/observer.py:71-87 | emitted values followed by the buffer are all bytes received |
| Joiner.ValueAtEachEnd | gateway/observer.py:71-87 | a value ends at every chunk that is not as long as its reported MTU or has none reported, and is all the data since the last such chunk |
| Joiner.JoinInvertsSplitIff | gateway/observer.py:66-87 | joining MTU-sized chunks gives the payloads back exactly when none of them ends on a full chunk |
| Snoop.IterRecords | tools/parse_snoop.py:56-68 | the offset loop yields the records of the format, stopping at the first that does not fit |
| Snoop.ReadableIff | tools/parse_snoop.py:56-59 | a file is read exactly when it starts with "btsnoop" and a zero byte |
| Snoop.ParsingInvertsEncoding | tools/parse_snoop.py:56-68 | a capture file yields exactly the records encoded in it |
| Snoop.TruncationYieldsPrefix | tools/parse_snoop.py:58-68 | the records of a capture are a prefix of those of any extension of it |
| Snoop.CutYieldsRecordsBefore | tools/parse_snoop.py:62-68 | a capture cut inside a record yields exactly the records before it |
| Snoop.ParseInvertsWrite | tools/parse_snoop.py:71-109 | every ATT write in an unfragmented frame with PB = 0b10 is recovered |
| Snoop.ReportedIff | tools/parse_snoop.py:71-109 | byte for byte, which packets are reported, and with which opcode, handle and payload |
| Snoop.FirstFragmentIff | tools/parse_snoop.py:71-109 | of a first fragment the write is recovered exactly when it is all there, or when a prepare request is cut inside its offset and the offset bytes present equal its value; any packet with opcode and handle is reported |
| Snoop.CutPrepareRecovered | tools/parse_snoop.py:105-108 | a prepare request without a value, cut right after its handle, is recovered |
| Snoop.Collect | tools/parse_snoop.py:112-124 | the groups are the multiset of keys of the records that parse |
| Snoop.GroupKeyHolds | tools/parse_snoop.py:122 | a group is one opcode, one handle and the first bytes of the payload, or for a negative length all but the last |
| Snoop.GroupsTotalParsed | tools/parse_snoop.py:112-124 | group counts total the records that parse |

## Left out

- Radio, NimBLE, bleak, asyncio scheduling, FreeRTOS tasks, WiFi, TLS, HTTP framing: only fragments, disconnects, clock readings and the fate of each request appear.
- Ed25519, base64 and key files: replaced by ideal signatures over byte strings.
- JSON and field parsing: the gateway sends the key "sig" where the backend expects "signature", so the literal wire forms do not compose; composition is at the report tuple.
- Date arithmetic and `isoformat()` themselves: a timestamp is its instant and its text, and the cutoff text is a parameter; the float rounding of `timestamp()` is taken as exact.
- `usage_in_period` for a period so long that the date subtraction raises.
- Text outside ASCII in `str.lower()`, lone surrogates in identifiers, and the 4-digit and 8-digit expansions of `_normalise_uuid`.
- YAML loading, prefix parsing and the error texts of `gateway/config.py`: easy checks, except the duplicate test, whose insufficiency is stated.
- `gateway/proxy.py`, status printing, keygen, retry delays, the get_usage endpoint: plumbing.
- Firmware restart: boot restores only one fixed device id while counts are kept under the peer address, so restart survival is stated for the gateway alone; NVS errors other than resets are not modelled.
- RingLog.Storage.SaveCounter: keys counters by device id, not by the 32-bit hash of it, so hash collisions are not modelled.
- Reporter.Report: visits the devices in some order, which it returns, where the source follows dictionary order.
- ReportRuns.ReportCatchesUp: the backend handles one request at a time here; `ConcurrentProtocol.CatchUpUnderConcurrency` is about one commit, not the whole command.
- Protocol: backend crashes do not occur separately, because its transaction is atomic and its verification writes nothing.
- OpenRuns.ValueEmittedIffNeverSwept: asks that the first fragment has bytes; an empty one that is swept can be opened anew by the next.
- OpenRuns.CleanValueEmittedOnce: asks that the observer stays attached during the value, since a stopped observer drops values.
