/** The firmware's counter (firmware/esp32/counter.cpp) and its match-and-count step
    (firmware/esp32/main.cpp), and their agreement with the gateway's over whole traces. */
module Firmware {
  import opened Bytes
  import opened Common
  import opened Matching
  import Gateway
  import RingLog

  datatype CounterEntry = CounterEntry(deviceId: string, count: nat)

  /** The index of the first entry of `d`, or the length. */
  function Find(entries: seq<CounterEntry>, d: string): (i: nat)
    ensures i <= |entries|
    ensures i < |entries| ==> entries[i].deviceId == d
  {
    if entries == [] || entries[0].deviceId == d then 0 else 1 + Find(entries[1..], d)
  }

  function Get(entries: seq<CounterEntry>, d: string): nat {
    if Find(entries, d) < |entries| then entries[Find(entries, d)].count else 0
  }

  function Restored(entries: seq<CounterEntry>, d: string, count: nat): seq<CounterEntry> {
    var i := Find(entries, d);
    if i == |entries| then entries + [CounterEntry(d, count)]
    else if count < entries[i].count then entries
    else entries[i := CounterEntry(d, count)]
  }

  function Incremented(entries: seq<CounterEntry>, d: string, n: nat): seq<CounterEntry> {
    var i := Find(entries, d);
    if i == |entries| then entries + [CounterEntry(d, n)]
    else entries[i := CounterEntry(d, Min(entries[i].count + n, U64_MAX))]
  }

  predicate InRange(entries: seq<CounterEntry>) {
    forall i :: 0 <= i < |entries| ==> entries[i].count <= U64_MAX
  }

  class Counter {
    var entries: seq<CounterEntry>
    var sequence: nat

    constructor ()
      ensures entries == [] && sequence == 0
    {
      entries, sequence := [], 0;
    }

    method FindIndex(d: string) returns (i: nat)
      ensures i == Find(entries, d)
    {
      i := 0;
      while i < |entries|
        invariant i <= |entries| && Find(entries, d) == i + Find(entries[i..], d)
      {
        if entries[i].deviceId == d {
          return;
        }
        assert entries[i..][1..] == entries[i + 1..];
        i := i + 1;
      }
    }

    method Restore(d: string, count: nat)
      modifies this
      ensures entries == Restored(old(entries), d, count) && sequence == old(sequence)
    {
      var i := FindIndex(d);
      if i == |entries| {
        entries := entries + [CounterEntry(d, count)];
        return;
      }
      if count < entries[i].count {
        return;
      }
      entries := entries[i := CounterEntry(d, count)];
    }

    method Increment(d: string, n: nat) returns (count: nat)
      requires n <= U64_MAX && InRange(entries)
      modifies this
      ensures entries == Incremented(old(entries), d, n) && sequence == old(sequence)
      ensures entries[Find(old(entries), d)] == CounterEntry(d, count)
    {
      var i := FindIndex(d);
      if i == |entries| {
        entries := entries + [CounterEntry(d, n)];
        return n;
      }
      if entries[i].count > U64_MAX - n {
        entries := entries[i := CounterEntry(d, U64_MAX)];
      } else {
        entries := entries[i := CounterEntry(d, entries[i].count + n)];
      }
      return entries[i].count;
    }

    /** `++sequence_` on a `uint64_t`. */
    method NextSequence() returns (value: nat)
      modifies this
      ensures value == (old(sequence) + 1) % (U64_MAX + 1) && sequence == value
      ensures entries == old(entries)
    {
      sequence := (sequence + 1) % (U64_MAX + 1);
      return sequence;
    }
  }

  /** The log entry for a write; the fixed-size fields keep 23 characters and 16 bytes. */
  function EntryFor(w: Write, event: Option<string>, sequence: nat, nowUs: int): RingLog.LogEntry {
    var name := if event.Some? then event.value else UNKNOWN;
    RingLog.LogEntry(sequence, nowUs, w.peer[..Min(23, |w.peer|)], name[..Min(23, |name|)],
                     |w.payload| % 0x1_0000, w.payload[..Min(16, |w.payload|)])
  }

  /** What the entry of a write keeps: 23 characters of address and event name, "unknown" without a
      match, 16 bytes of payload and its length in 16 bits. */
  predicate Notes(e: RingLog.LogEntry, w: Write, event: Option<string>, sequence: nat, nowUs: int) {
    var name := if event.None? then "unknown" else event.value;
    && e.sequence == sequence && e.tsUs == nowUs
    && e.deviceId <= w.peer && |e.deviceId| == Min(23, |w.peer|)
    && e.event <= name && |e.event| == Min(23, |name|)
    && 0 <= e.payloadLen < 65536 && (|w.payload| - e.payloadLen) % 65536 == 0
    && e.payloadHead <= w.payload && |e.payloadHead| == Min(16, |w.payload|)
  }

  lemma EntryNotes(w: Write, event: Option<string>, sequence: nat, nowUs: int)
    ensures Notes(EntryFor(w, event, sequence, nowUs), w, event, sequence, nowUs)
  {
  }

  lemma {:induction false} FindAfterAppend(entries: seq<CounterEntry>, e: CounterEntry, d: string)
    ensures Find(entries + [e], d) == if Find(entries, d) < |entries| then Find(entries, d)
      else if e.deviceId == d then |entries| else |entries| + 1
  {
    if entries == [] {
      assert (entries + [e])[1..] == [];
    } else {
      assert (entries + [e])[1..] == entries[1..] + [e];
      FindAfterAppend(entries[1..], e, d);
    }
  }

  lemma {:induction false} FindAfterUpdate(entries: seq<CounterEntry>, i: nat, count: nat, d: string)
    requires i < |entries|
    ensures Find(entries[i := entries[i].(count := count)], d) == Find(entries, d)
  {
    var after := entries[i := entries[i].(count := count)];
    if entries[0].deviceId != d {
      if i == 0 {
        assert after[1..] == entries[1..];
      } else {
        assert after[1..] == entries[1..][i - 1 := entries[1..][i - 1].(count := count)];
        FindAfterUpdate(entries[1..], i - 1, count, d);
      }
    }
  }

  lemma GetAfterRestore(entries: seq<CounterEntry>, d: string, count: nat, e: string)
    ensures Get(Restored(entries, d, count), e) == if d == e then Max(Get(entries, d), count) else Get(entries, e)
  {
    var i := Find(entries, d);
    if i == |entries| {
      FindAfterAppend(entries, CounterEntry(d, count), e);
    } else if count >= entries[i].count {
      FindAfterUpdate(entries, i, count, e);
    }
  }

  lemma GetAfterIncrement(entries: seq<CounterEntry>, d: string, n: nat, e: string)
    requires n <= U64_MAX
    ensures Get(Incremented(entries, d, n), e) ==
      if d == e then Min(Get(entries, d) + n, U64_MAX) else Get(entries, e)
  {
    var i := Find(entries, d);
    if i == |entries| {
      FindAfterAppend(entries, CounterEntry(d, n), e);
    } else {
      FindAfterUpdate(entries, i, Min(entries[i].count + n, U64_MAX), e);
    }
  }

  lemma GetInRange(entries: seq<CounterEntry>, d: string)
    requires InRange(entries)
    ensures Get(entries, d) <= U64_MAX
  {
  }

  lemma CountIsGet(entries: seq<CounterEntry>, d: string)
    ensures Find(Incremented(entries, d, 1), d) == Find(entries, d)
    ensures Get(Incremented(entries, d, 1), d) == Incremented(entries, d, 1)[Find(entries, d)].count
  {
    if Find(entries, d) == |entries| {
      FindAfterAppend(entries, CounterEntry(d, 1), d);
    } else {
      FindAfterUpdate(entries, Find(entries, d), Min(entries[Find(entries, d)].count + 1, U64_MAX), d);
    }
  }

  /** Whether the storage takes a count: it refuses one below the stored value. */
  predicate Accepts(stored: map<string, nat>, d: string, count: nat) {
    d in stored ==> count >= stored[d]
  }

  /** The stored counters are not ahead of the live ones. */
  ghost predicate StoredWithin(stored: map<string, nat>, entries: seq<CounterEntry>) {
    forall d :: d in stored ==> stored[d] <= Get(entries, d)
  }

  /** `record`: every write is logged, and exactly the matched ones are counted and their new count
      saved, unless the storage is not ready or already holds more; a storage that is not ahead of
      the live counter stays so and refuses nothing. */
  method Record(matcher: EventMatcher, storage: RingLog.Storage, counter: Counter,
                service: seq<byte>, characteristic: seq<byte>, w: Write, nowUs: int)
    requires InRange(counter.entries)
    modifies storage, counter
    ensures var event := FwFirstMatch(matcher.rules, service, characteristic, w.payload);
      && storage.State() == (if old(storage.ready)
           then RingLog.WriteHead(RingLog.WriteSlot(old(storage.State()),
                                                    EntryFor(w, event, old(counter.sequence), nowUs)))
           else old(storage.State()))
      && counter.entries == (if event.None? then old(counter.entries) else Incremented(old(counter.entries), w.peer, 1))
      && counter.sequence == old(counter.sequence)
      && storage.counters ==
           (if event.Some? && old(storage.ready) && Accepts(old(storage.counters), w.peer, Get(counter.entries, w.peer))
            then old(storage.counters)[w.peer := Get(counter.entries, w.peer)] else old(storage.counters))
    ensures old(storage.ready) ==>
      var slot := old(storage.head) % 512;
      && slot in storage.blobs
      && Notes(storage.blobs[slot], w, FwFirstMatch(matcher.rules, service, characteristic, w.payload),
               old(counter.sequence), nowUs)
    ensures old(StoredWithin(storage.counters, counter.entries)) ==>
      StoredWithin(storage.counters, counter.entries) &&
      Accepts(old(storage.counters), w.peer, Get(counter.entries, w.peer))
  {
    var event := matcher.Match(service, characteristic, w.payload);
    EntryNotes(w, event, counter.sequence, nowUs);
    hide EntryFor, Notes, FwFirstMatch;
    var ok := storage.AppendEvent(EntryFor(w, event, counter.sequence, nowUs));
    if event.None? {
      return;
    }
    forall d
      ensures Get(Incremented(counter.entries, w.peer, 1), d) ==
        if w.peer == d then Min(Get(counter.entries, w.peer) + 1, U64_MAX) else Get(counter.entries, d)
    {
      GetAfterIncrement(counter.entries, w.peer, 1, d);
    }
    GetInRange(counter.entries, w.peer);
    CountIsGet(counter.entries, w.peer);
    var count := counter.Increment(w.peer, 1);
    ok := storage.SaveCounter(w.peer, count);
  }

  // ---------------------------------------------------------------- traces

  /** A restored value, which a firmware reads as uint64_t, or an observed write. */
  datatype Op = RestoreOp(deviceId: string, count: nat) | WriteOp(write: Write)

  predicate ProperOp(op: Op) {
    match op
    case RestoreOp(_, count) => count <= U64_MAX
    case WriteOp(w) => GroupedWrite(w) && w.payload != []
  }

  function GatewayStep(rules: seq<Rule>, live: Gateway.Live, op: Op): Gateway.Live {
    match op
    case RestoreOp(d, count) => Gateway.Restore(live, d, count)
    case WriteOp(w) => if Classify(rules, w) == UNKNOWN then live else Gateway.Increment(live, w.peer)
  }

  /** `record`: every match is counted, whatever its name. An empty value is never delivered. */
  function FirmwareStep(rules: seq<Rule>, entries: seq<CounterEntry>, op: Op): seq<CounterEntry>
    requires FullRules(rules) && ProperOp(op)
  {
    match op
    case RestoreOp(d, count) => Restored(entries, d, count)
    case WriteOp(w) => if FwMatchOf(rules, w).None? then entries else Incremented(entries, w.peer, 1)
  }

  function GatewayRun(rules: seq<Rule>, live: Gateway.Live, ops: seq<Op>): Gateway.Live {
    if ops == [] then live
    else GatewayStep(rules, GatewayRun(rules, live, ops[..|ops| - 1]), ops[|ops| - 1])
  }

  predicate ProperOps(ops: seq<Op>) {
    forall i :: 0 <= i < |ops| ==> ProperOp(ops[i])
  }

  function FirmwareRun(rules: seq<Rule>, entries: seq<CounterEntry>, ops: seq<Op>): seq<CounterEntry>
    requires FullRules(rules) && ProperOps(ops)
  {
    if ops == [] then entries
    else FirmwareStep(rules, FirmwareRun(rules, entries, ops[..|ops| - 1]), ops[|ops| - 1])
  }

  /** Each device's firmware count is the gateway's, capped at 2^64 - 1. */
  ghost predicate Capped(entries: seq<CounterEntry>, live: Gateway.Live) {
    forall d :: Get(entries, d) == Min(GetOrZero(live.counts, d), U64_MAX)
  }

  /** Gateway and firmware agree on whether a write is counted. */
  predicate CountedAlike(rules: seq<Rule>, w: Write)
    requires FullRules(rules) && FullWrite(w)
  {
    FwMatchOf(rules, w).Some? <==> Classify(rules, w) != UNKNOWN
  }

  predicate Covers(q: Rule, r: Rule) {
    KeyOfRule(q) == KeyOfRule(r) && q.prefix <= r.prefix
  }

  predicate TakesByte(q: Rule, r: Rule, b: byte) {
    KeyOfRule(q) == KeyOfRule(r) && q.prefix == [b]
  }

  ghost predicate ByteTaken(rules: seq<Rule>, i: nat, b: byte)
    requires i < |rules|
  {
    exists j :: 0 <= j < i && TakesByte(rules[j], rules[i], b)
  }

  /** Earlier rules take every non-empty write that rule `i` could match: one of them has a prefix
      that starts rule `i`'s or, when rule `i` has none, they take every first byte. */
  ghost predicate Shadowed(rules: seq<Rule>, i: nat)
    requires i < |rules|
  {
    || (exists j :: 0 <= j < i && Covers(rules[j], rules[i]))
    || (rules[i].prefix == [] && forall b: byte :: ByteTaken(rules, i, b))
  }

  predicate SameBytes(q: Rule, r: Rule)
    requires FullRule(q) && FullRule(r)
  {
    ParseFull(q.service) == ParseFull(r.service) && ParseFull(q.characteristic) == ParseFull(r.characteristic)
  }

  /** A rule with the bytes of rule `r`, in 8-4-4-4-12 form, whose prefix is the single byte `b`. */
  predicate BacksByte(q: Rule, r: Rule, b: byte)
    requires FullRule(q) && FullRule(r)
  {
    GroupedRule(q) && SameBytes(q, r) && q.prefix == [b]
  }

  ghost predicate ByteBacked(rules: seq<Rule>, r: Rule, b: byte)
    requires FullRules(rules) && FullRule(r)
  {
    exists j :: 0 <= j < |rules| && BacksByte(rules[j], r, b)
  }

  /** Rules in 8-4-4-4-12 form, anywhere in the list, match every non-empty write whose bytes rule
      `r` could match in the firmware: one has a prefix that starts `r`'s or, when `r` has none,
      they have every first byte for prefix. */
  ghost predicate Backed(rules: seq<Rule>, r: Rule)
    requires FullRules(rules) && FullRule(r)
  {
    || (exists j :: 0 <= j < |rules| && GroupedRule(rules[j]) && FwCovers(rules[j], r))
    || (r.prefix == [] && forall b: byte :: ByteBacked(rules, r, b))
  }

  /** Every rule not in 8-4-4-4-12 form is backed by rules that are, and every rule in that form
      that is named "" or "unknown" is shadowed by earlier rules. */
  ghost predicate AlikeRules(rules: seq<Rule>)
    requires FullRules(rules)
  {
    && (forall i :: 0 <= i < |rules| && !GroupedRule(rules[i]) ==> Backed(rules, rules[i]))
    && (forall i :: 0 <= i < |rules| && GroupedRule(rules[i]) && Improper(rules[i]) ==> Shadowed(rules, i))
  }

  lemma ShadowedNeverFirst(rules: seq<Rule>, w: Write, i: nat)
    requires i < |rules| && Shadowed(rules, i) && w.payload != []
    ensures FirstIndex(rules, w) != i
  {
    if Matches(rules[i], w) {
      if exists j :: 0 <= j < i && Covers(rules[j], rules[i]) {
        var j :| 0 <= j < i && Covers(rules[j], rules[i]);
        assert rules[j].prefix == rules[i].prefix[..|rules[j].prefix|];
        assert Matches(rules[j], w);
      } else {
        var b := w.payload[0];
        assert ByteTaken(rules, i, b);
        var j :| 0 <= j < i && TakesByte(rules[j], rules[i], b);
        assert w.payload[..1] == [b];
        assert Matches(rules[j], w);
      }
    }
  }

  /** What another rule must be to match a write that carries just rule `r`'s prefix, or one byte
      when that is empty. */
  lemma MatchTakes(q: Rule, r: Rule, w: Write)
    requires Matches(q, w) && KeyOfRule(r) == KeyOfWrite(w)
    requires w.payload == r.prefix || (r.prefix == [] && |w.payload| == 1)
    ensures Covers(q, r) || (r.prefix == [] && w.payload != [] && TakesByte(q, r, w.payload[0]))
  {
    assert q.prefix == w.payload[..|q.prefix|];
  }

  /** A non-empty write whose first match is rule `i`. */
  lemma UnshadowedComesFirst(rules: seq<Rule>, i: nat) returns (w: Write)
    requires i < |rules| && !Shadowed(rules, i) && GroupedRule(rules[i])
    ensures ProperOp(WriteOp(w)) && FirstIndex(rules, w) == i
  {
    var payload := rules[i].prefix;
    if payload == [] {
      var b: byte :| !ByteTaken(rules, i, b);
      payload := [b];
    }
    w := Write("", rules[i].service, rules[i].characteristic, payload);
    assert Matches(rules[i], w);
    forall j | 0 <= j < i
      ensures !Matches(rules[j], w)
    {
      if Matches(rules[j], w) {
        MatchTakes(rules[j], rules[i], w);
      }
    }
  }

  /** When two counts part on a write: the gateway's first match is improper, or the gateway has
      no match and the firmware has one. */
  lemma AlikeAt(rules: seq<Rule>, w: Write)
    requires FullRules(rules) && GroupedWrite(w)
    ensures CountedAlike(rules, w) <==>
      if FirstIndex(rules, w) < |rules| then !Improper(rules[FirstIndex(rules, w)])
      else FwIndexOf(rules, w) == |rules|
  {
    FirstMatchAtIndex(rules, w);
    FwMatchAtIndex(rules, w);
    var i := FirstIndex(rules, w);
    if i < |rules| {
      GroupedMatchesAgree(rules[i], w);
    }
  }

  lemma BackedMatchesInGateway(rules: seq<Rule>, r: Rule, w: Write)
    requires FullRules(rules) && FullRule(r) && Backed(rules, r)
    requires GroupedWrite(w) && w.payload != [] && FwRuleMatches(r, w)
    ensures FirstIndex(rules, w) < |rules|
  {
    if exists j :: 0 <= j < |rules| && GroupedRule(rules[j]) && FwCovers(rules[j], r) {
      var j :| 0 <= j < |rules| && GroupedRule(rules[j]) && FwCovers(rules[j], r);
      CoveredMatchesToo(rules[j], r, w);
      GroupedMatchesAgree(rules[j], w);
    } else {
      var b := w.payload[0];
      assert ByteBacked(rules, r, b);
      var j :| 0 <= j < |rules| && BacksByte(rules[j], r, b);
      assert [b] <= w.payload;
      GroupedMatchesAgree(rules[j], w);
    }
  }

  lemma AlikeRulesCountAlike(rules: seq<Rule>, w: Write)
    requires FullRules(rules) && AlikeRules(rules) && ProperOp(WriteOp(w))
    ensures CountedAlike(rules, w)
  {
    AlikeAt(rules, w);
    var i, k := FirstIndex(rules, w), FwIndexOf(rules, w);
    if i < |rules| {
      GroupedMatchesAgree(rules[i], w);
      if Improper(rules[i]) {
        ShadowedNeverFirst(rules, w, i);
      }
    } else if k < |rules| {
      GroupedMatchesAgree(rules[k], w);
      BackedMatchesInGateway(rules, rules[k], w);
    }
  }

  /** What a rule must be to match, in the firmware, a write that carries just rule `r`'s bytes and
      prefix, or one byte when that is empty. */
  lemma FwMatchTakes(q: Rule, r: Rule, w: Write)
    requires FullRule(q) && FullRule(r) && FullWrite(w) && FwRuleMatches(q, w) && FwRuleMatches(r, w)
    requires w.payload == r.prefix || (r.prefix == [] && |w.payload| == 1)
    ensures FwCovers(q, r) || (r.prefix == [] && w.payload != [] && SameBytes(q, r) && q.prefix == [w.payload[0]])
  {
    assert q.prefix == w.payload[..|q.prefix|];
  }

  /** A non-empty write that the firmware counts and the gateway does not match. */
  lemma UnbackedMatchesInFirmwareOnly(rules: seq<Rule>, i: nat) returns (w: Write)
    requires FullRules(rules) && i < |rules| && !GroupedRule(rules[i]) && !Backed(rules, rules[i])
    ensures ProperOp(WriteOp(w)) && FirstIndex(rules, w) == |rules| && FwIndexOf(rules, w) < |rules|
  {
    var r := rules[i];
    w := WriteFor(r);
    if r.prefix == [] {
      var b: byte :| !ByteBacked(rules, r, b);
      w := w.(payload := [b]);
    }
    assert FwRuleMatches(r, w);
    forall j | 0 <= j < |rules|
      ensures !Matches(rules[j], w)
    {
      GroupedMatchesAgree(rules[j], w);
      if GroupedRule(rules[j]) && FwRuleMatches(rules[j], w) {
        FwMatchTakes(rules[j], r, w);
      }
    }
  }

  /** For rules with any UUIDs the gateway accepts and writes in 8-4-4-4-12 form, gateway and
      firmware count the same non-empty writes exactly when the rule list is alike to both. */
  lemma CountedAlikeIff(rules: seq<Rule>)
    requires FullRules(rules)
    ensures (forall w :: ProperOp(WriteOp(w)) ==> CountedAlike(rules, w)) <==> AlikeRules(rules)
  {
    if AlikeRules(rules) {
      forall w | ProperOp(WriteOp(w))
        ensures CountedAlike(rules, w)
      {
        AlikeRulesCountAlike(rules, w);
      }
    } else if exists i :: 0 <= i < |rules| && !GroupedRule(rules[i]) && !Backed(rules, rules[i]) {
      var i :| 0 <= i < |rules| && !GroupedRule(rules[i]) && !Backed(rules, rules[i]);
      var w := UnbackedMatchesInFirmwareOnly(rules, i);
      AlikeAt(rules, w);
    } else {
      var i :| 0 <= i < |rules| && GroupedRule(rules[i]) && Improper(rules[i]) && !Shadowed(rules, i);
      var w := UnshadowedComesFirst(rules, i);
      AlikeAt(rules, w);
    }
  }

  lemma StepKeepsCapped(rules: seq<Rule>, entries: seq<CounterEntry>, live: Gateway.Live, op: Op)
    requires FullRules(rules) && AlikeRules(rules) && ProperOp(op) && Capped(entries, live)
    ensures Capped(FirmwareStep(rules, entries, op), GatewayStep(rules, live, op))
  {
    forall e
      ensures Get(FirmwareStep(rules, entries, op), e) ==
              Min(GetOrZero(GatewayStep(rules, live, op).counts, e), U64_MAX)
    {
      match op {
        case RestoreOp(d, count) => GetAfterRestore(entries, d, count, e);
        case WriteOp(w) =>
          AlikeRulesCountAlike(rules, w);
          GetAfterIncrement(entries, w.peer, 1, e);
      }
    }
  }

  /** Over any trace of restores and non-empty writes, from agreeing counts, firmware and
      gateway give every device the same count up to saturation. */
  lemma {:induction false} CountsAgree(rules: seq<Rule>, entries: seq<CounterEntry>, live: Gateway.Live, ops: seq<Op>)
    requires FullRules(rules) && AlikeRules(rules) && Capped(entries, live) && ProperOps(ops)
    ensures Capped(FirmwareRun(rules, entries, ops), GatewayRun(rules, live, ops))
  {
    if ops == [] {
    } else {
      var init := ops[..|ops| - 1];
      CountsAgree(rules, entries, live, init);
      StepKeepsCapped(rules, FirmwareRun(rules, entries, init), GatewayRun(rules, live, init), ops[|ops| - 1]);
    }
  }

  /** Properly named rules in 8-4-4-4-12 form are a special case. */
  lemma GroupedProperAlike(rules: seq<Rule>)
    requires GroupedRules(rules) && ProperNames(rules)
    ensures AlikeRules(rules)
  {
    forall i | 0 <= i < |rules|
      ensures !Improper(rules[i])
    {
      assert rules[i] in rules;
    }
  }

  ghost predicate AgreeOnEveryTrace(rules: seq<Rule>)
    requires FullRules(rules)
  {
    forall ops :: ProperOps(ops) ==> Capped(FirmwareRun(rules, [], ops), GatewayRun(rules, Gateway.FRESH, ops))
  }

  lemma OneWriteCounts(rules: seq<Rule>, w: Write)
    requires FullRules(rules) && ProperOp(WriteOp(w)) && !CountedAlike(rules, w)
    ensures ProperOps([WriteOp(w)])
    ensures !Capped(FirmwareRun(rules, [], [WriteOp(w)]), GatewayRun(rules, Gateway.FRESH, [WriteOp(w)]))
  {
    var ops := [WriteOp(w)];
    assert ops[..0] == [];
    assert FirmwareRun(rules, [], ops) == FirmwareStep(rules, [], ops[0]);
    assert GatewayRun(rules, Gateway.FRESH, ops) == GatewayStep(rules, Gateway.FRESH, ops[0]);
    GetAfterIncrement([], w.peer, 1, w.peer);
    assert Get([], w.peer) == 0;
  }

  /** Over whole traces from empty counters, the two give every device the same count up to
      saturation on every trace exactly when the rule list is alike to both. */
  lemma CountsAgreeIff(rules: seq<Rule>)
    requires FullRules(rules)
    ensures AgreeOnEveryTrace(rules) <==> AlikeRules(rules)
  {
    if AlikeRules(rules) {
      forall ops | ProperOps(ops)
        ensures Capped(FirmwareRun(rules, [], ops), GatewayRun(rules, Gateway.FRESH, ops))
      {
        CountsAgree(rules, [], Gateway.FRESH, ops);
      }
    } else {
      CountedAlikeIff(rules);
      var w :| ProperOp(WriteOp(w)) && !CountedAlike(rules, w);
      OneWriteCounts(rules, w);
    }
  }

  lemma MovedDashTwin(s: string) returns (t: string)
    requires Uuid.Grouped(s)
    ensures t == "-" + (s[..8] + s[9..]) && Uuid.FullUuid(t) && Uuid.FullUuid(s)
    ensures !Uuid.Grouped(t) && ParseFull(t) == ParseFull(s)
  {
    t := "-" + (s[..8] + s[9..]);
    Uuid.GroupedIsFull(s);
    Uuid.MovedDashDisagrees(s);
    assert t[0] == '-' && Uuid.HexNibble('-').None?;
  }

  /** Instances: one rule whose service has its first dash moved makes the counts part; adding the
      rule in 8-4-4-4-12 form after it makes them agree again, though the firmware then picks the
      first rule and the gateway the second. */
  lemma MovedDashMiscounts(s: string)
    requires Uuid.Grouped(s)
    ensures Uuid.FullUuid("-" + (s[..8] + s[9..])) && Uuid.FullUuid(s)
    ensures var moved := Rule("-" + (s[..8] + s[9..]), s, [], "e");
      && !AgreeOnEveryTrace([moved])
      && AgreeOnEveryTrace([moved, Rule(s, s, [], "e")])
      && !UngroupedShadowed([moved, Rule(s, s, [], "e")])
  {
    var t := MovedDashTwin(s);
    var moved, good := Rule(t, s, [], "e"), Rule(s, s, [], "e");
    assert GroupedRule(good) && !GroupedRule(moved);
    var alone, both := [moved], [moved, good];
    CountsAgreeIff(alone);
    CountsAgreeIff(both);
    assert !Backed(alone, moved) by {
      var b: byte := 0;
      assert !ByteBacked(alone, moved, b);
    }
    assert alone[0] == moved;
    assert both[1] == good && FwCovers(good, moved);
    assert !FwShadowed(both, 0);
  }

  /** An instance: one rule named "unknown" and one write that matches it give the device a count
      of 1 in the firmware and none in the gateway. */
  lemma RuleNamedUnknownMiscounts()
    ensures var rules := [Rule(DEMO_SERVICE, DEMO_CHARACTERISTIC, [0xAA, 0x01], UNKNOWN)];
      var ops := [WriteOp(Write("p", DEMO_SERVICE, DEMO_CHARACTERISTIC, [0xAA, 0x01]))];
      && GroupedRules(rules) && ProperOps(ops)
      && Get(FirmwareRun(rules, [], ops), "p") == 1
      && GetOrZero(GatewayRun(rules, Gateway.FRESH, ops).counts, "p") == 0
  {
    DemoUuidsGrouped();
    hide Uuid.Grouped, Uuid.Lower;
    var rules := [Rule(DEMO_SERVICE, DEMO_CHARACTERISTIC, [0xAA, 0x01], UNKNOWN)];
    var w := Write("p", DEMO_SERVICE, DEMO_CHARACTERISTIC, [0xAA, 0x01]);
    var ops := [WriteOp(w)];
    assert w.payload[..2] == [0xAA, 0x01] && Matches(rules[0], w);
    MatchersAgree(rules, w);
    assert ops[..0] == [];
    assert FirmwareRun(rules, [], ops) == FirmwareStep(rules, [], ops[0]);
    assert GatewayRun(rules, Gateway.FRESH, ops) == GatewayStep(rules, Gateway.FRESH, ops[0]);
    GetAfterIncrement([], "p", 1, "p");
    assert Get([], "p") == 0;
  }

  lemma {:induction false} ReorderingKeepsCounts(rules: seq<Rule>, other: seq<Rule>, live: Gateway.Live, ops: seq<Op>)
    requires multiset(rules) == multiset(other) && CountedTogether(rules)
    ensures GatewayRun(other, live, ops) == GatewayRun(rules, live, ops)
  {
    if ops == [] {
    } else {
      ReorderingKeepsCounts(rules, other, live, ops[..|ops| - 1]);
      if ops[|ops| - 1].WriteOp? {
        ReorderingKeepsCounting(rules, other, ops[|ops| - 1].write);
      }
    }
  }

  lemma CountsShowCounting(rules: seq<Rule>, w: Write)
    ensures GetOrZero(GatewayRun(rules, Gateway.FRESH, [WriteOp(w)]).counts, w.peer) ==
            if Classify(rules, w) == UNKNOWN then 0 else 1
  {
    var ops := [WriteOp(w)];
    assert ops[..0] == [];
    assert GatewayRun(rules, Gateway.FRESH, ops) == GatewayStep(rules, Gateway.FRESH, ops[0]);
  }

  /** The gateway's counts are the same over every trace under every order of the rules exactly
      when rules that can match together are all counted or all not. */
  lemma CountingOrderIrrelevantIff(rules: seq<Rule>)
    ensures (forall other, ops :: multiset(other) == multiset(rules) ==>
               GatewayRun(other, Gateway.FRESH, ops) == GatewayRun(rules, Gateway.FRESH, ops))
            <==> CountedTogether(rules)
  {
    if CountedTogether(rules) {
      forall other, ops | multiset(other) == multiset(rules)
        ensures GatewayRun(other, Gateway.FRESH, ops) == GatewayRun(rules, Gateway.FRESH, ops)
      {
        ReorderingKeepsCounts(rules, other, Gateway.FRESH, ops);
      }
    } else {
      var q, r :| q in rules && r in rules && KeyOfRule(q) == KeyOfRule(r) && q.prefix <= r.prefix &&
        Improper(q) != Improper(r);
      var first, second, w := OrderDecidesCounting(rules, q, r);
      CountsShowCounting(first, w);
      CountsShowCounting(second, w);
      assert GatewayRun(first, Gateway.FRESH, [WriteOp(w)]) != GatewayRun(second, Gateway.FRESH, [WriteOp(w)]);
    }
  }
}
