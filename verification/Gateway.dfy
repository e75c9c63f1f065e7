/** The gateway's durable store, live counter and match-log-count pipeline
    (gateway/store.py, gateway/counter.py, gateway/cli.py). */
module Gateway {
  import opened Bytes
  import opened Common
  import opened Matching
  import Canonical

  // ---------------------------------------------------------------- durable state

  datatype EventRow = EventRow(
    deviceId: string, event: string, sequence: int,
    service: string, characteristic: string, payloadHead: Option<seq<byte>>)

  /** The tables of one SQLite file: counters, the sequence entry of meta, and events. */
  datatype Disk = Disk(counters: map<string, int>, sequence: Option<int>, events: seq<EventRow>)

  const BLANK := Disk(map[], None, [])

  datatype StoreError = Overflow | NegativeCount | CounterRollback | SequenceRollback

  /** The upsert under the CHECK constraint and the rollback trigger. */
  function SaveCounter(disk: Disk, deviceId: string, count: int): Result<Disk, StoreError> {
    if !FitsSqlite(count) then Err(Overflow)
    else if count < 0 then Err(NegativeCount)
    else if deviceId in disk.counters && count < disk.counters[deviceId] then Err(CounterRollback)
    else Ok(disk.(counters := disk.counters[deviceId := count]))
  }

  function LoadSequence(disk: Disk): int {
    if disk.sequence.None? then 0 else disk.sequence.value
  }

  function SaveSequence(disk: Disk, sequence: int): Result<Disk, StoreError> {
    if sequence < LoadSequence(disk) then Err(SequenceRollback)
    else Ok(disk.(sequence := Some(sequence)))
  }

  function WithEvent(disk: Disk, row: EventRow): Disk {
    disk.(events := disk.events + [row])
  }

  /** The sequence column is an integer, so a larger live sequence raises. */
  function AppendEvent(disk: Disk, row: EventRow): Result<Disk, StoreError> {
    if !FitsSqlite(row.sequence) then Err(Overflow) else Ok(WithEvent(disk, row))
  }

  function EventRowFor(w: Write, event: string, sequence: int): EventRow {
    EventRow(w.peer, event, sequence, w.service, w.characteristic,
             if w.payload == [] then None else Some(w.payload[..Min(16, |w.payload|)]))
  }

  /** What each refusal means, and what a stored count leaves. */
  lemma SaveCounterAnswers(disk: Disk, d: string, count: int)
    ensures var answer := SaveCounter(disk, d, count);
      var storable := -0x8000_0000_0000_0000 <= count < 0x8000_0000_0000_0000;
      && (answer == Err(Overflow) <==> !storable)
      && (answer == Err(NegativeCount) <==> storable && count < 0)
      && (answer == Err(CounterRollback) <==>
            storable && count >= 0 && d in disk.counters && count < disk.counters[d])
      && (answer.Ok? ==>
            && answer.value.events == disk.events && answer.value.sequence == disk.sequence
            && d in answer.value.counters && answer.value.counters[d] == count
            && forall e :: e != d ==> GetOrZero(answer.value.counters, e) == GetOrZero(disk.counters, e)
                                      && (e in answer.value.counters <==> e in disk.counters))
  {
  }

  /** A sequence is refused exactly when it is below the stored one, or below 0 when none is stored. */
  lemma SaveSequenceAnswers(disk: Disk, sequence: int)
    ensures var answer := SaveSequence(disk, sequence);
      && (answer == Err(SequenceRollback) <==>
            if disk.sequence.Some? then sequence < disk.sequence.value else sequence < 0)
      && (answer.Ok? ==>
            && LoadSequence(answer.value) == sequence
            && answer.value.counters == disk.counters && answer.value.events == disk.events)
      && (answer.Err? ==> answer == Err(SequenceRollback))
  {
  }

  class Store {
    var counters: map<string, int>
    var sequence: Option<int>
    var events: seq<EventRow>

    function State(): Disk
      reads this
    {
      Disk(counters, sequence, events)
    }

    constructor ()
      ensures State() == BLANK
    {
      counters, sequence, events := map[], None, [];
    }

    method Save(deviceId: string, count: int) returns (error: Option<StoreError>)
      modifies this
      ensures match SaveCounter(old(State()), deviceId, count)
        case Ok(disk) => error == None && State() == disk
        case Err(e) => error == Some(e) && State() == old(State())
    {
      if !FitsSqlite(count) {
        return Some(Overflow);
      }
      if count < 0 {
        return Some(NegativeCount);
      }
      if deviceId in counters && count < counters[deviceId] {
        return Some(CounterRollback);
      }
      counters := counters[deviceId := count];
      return None;
    }

    method SaveSequenceNumber(value: int) returns (error: Option<StoreError>)
      modifies this
      ensures match SaveSequence(old(State()), value)
        case Ok(disk) => error == None && State() == disk
        case Err(e) => error == Some(e) && State() == old(State())
    {
      var current := if sequence.None? then 0 else sequence.value;
      if value < current {
        return Some(SequenceRollback);
      }
      sequence := Some(value);
      return None;
    }

    method Append(w: Write, event: string, sequenceNow: int) returns (error: Option<StoreError>)
      modifies this
      ensures match AppendEvent(old(State()), EventRowFor(w, event, sequenceNow))
        case Ok(disk) => error == None && State() == disk
        case Err(e) => error == Some(e) && State() == old(State())
    {
      if !FitsSqlite(sequenceNow) {
        return Some(Overflow);
      }
      var head := w.payload[..Min(16, |w.payload|)];
      events := events + [EventRow(w.peer, event, sequenceNow, w.service, w.characteristic,
                                   if head == [] then None else Some(head))];
      return None;
    }
  }

  // ---------------------------------------------------------------- live counter

  /** What a running process holds in memory. */
  datatype Live = Live(counts: map<string, int>, sequence: int)

  const FRESH := Live(map[], 0)

  function Restore(live: Live, deviceId: string, count: int): Live
    requires count >= 0
  {
    if count >= GetOrZero(live.counts, deviceId) then live.(counts := live.counts[deviceId := count]) else live
  }

  function Increment(live: Live, deviceId: string): Live {
    live.(counts := live.counts[deviceId := GetOrZero(live.counts, deviceId) + 1])
  }

  /** What `_load` rebuilds from the store. */
  function Loaded(disk: Disk): Live {
    Live(disk.counters, Max(0, LoadSequence(disk)))
  }

  class Counter {
    var counts: map<string, int>
    var sequence: int

    function State(): Live
      reads this
    {
      Live(counts, sequence)
    }

    constructor ()
      ensures State() == FRESH
    {
      counts, sequence := map[], 0;
    }

    /** Returns false where the source raises ValueError. */
    method RestoreCount(deviceId: string, count: int) returns (ok: bool)
      modifies this
      ensures ok == (count >= 0)
      ensures State() == if count >= 0 then Restore(old(State()), deviceId, count) else old(State())
    {
      if count < 0 {
        return false;
      }
      if count >= GetOrZero(counts, deviceId) {
        counts := counts[deviceId := count];
      }
      return true;
    }

    method RestoreSequence(value: int)
      modifies this
      ensures State() == old(State()).(sequence := Max(old(sequence), value))
    {
      if value > sequence {
        sequence := value;
      }
    }

    /** The live count strictly rises and no other device's count moves. */
    method IncrementBy(deviceId: string, n: int) returns (r: Option<int>)
      modifies this
      ensures n < 1 ==> r == None && State() == old(State())
      ensures n >= 1 ==>
        && r == Some(GetOrZero(old(counts), deviceId) + n)
        && State() == old(State()).(counts := old(counts)[deviceId := r.value])
    {
      if n < 1 {
        return None;
      }
      var value := GetOrZero(counts, deviceId) + n;
      counts := counts[deviceId := value];
      return Some(value);
    }

    method NextSequence() returns (value: int)
      modifies this
      ensures value == old(sequence) + 1
      ensures State() == old(State()).(sequence := value)
    {
      sequence := sequence + 1;
      return sequence;
    }
  }

  ghost predicate NonNegative(counts: map<string, int>) {
    forall d :: d in counts ==> counts[d] >= 0
  }

  /** `_load`: restoring every stored row into a new counter rebuilds the stored map. */
  method Load(store: Store) returns (counter: Counter)
    requires NonNegative(store.counters)
    ensures fresh(counter)
    ensures counter.State() == Loaded(store.State())
  {
    counter := new Counter();
    var rows := store.counters;
    var todo := rows.Keys;
    while todo != {}
      invariant todo <= rows.Keys
      invariant counter.counts == map d | d in rows && d !in todo :: rows[d]
      invariant counter.sequence == 0
      decreases |todo|
    {
      var d :| d in todo;
      var ok := counter.RestoreCount(d, rows[d]);
      todo := todo - {d};
    }
    counter.RestoreSequence(if store.sequence.None? then 0 else store.sequence.value);
  }

  // ---------------------------------------------------------------- pipeline

  /** What handling one write makes of the store and the live counter. */
  function Handled(rules: seq<Rule>, disk: Disk, live: Live, w: Write): (Disk, Live, Option<StoreError>) {
    var event := Classify(rules, w);
    match AppendEvent(disk, EventRowFor(w, event, live.sequence))
    case Err(e) => (disk, live, Some(e))
    case Ok(logged) =>
      if event == UNKNOWN then (logged, live, None)
      else
        var raised := Increment(live, w.peer);
        match SaveCounter(logged, w.peer, raised.counts[w.peer])
        case Ok(saved) => (saved, raised, None)
        case Err(e) => (logged, raised, Some(e))
  }

  /** What the log must say of a write: the name of the first matching rule, or "unknown" when there is
      none or its name is empty, and the first 16 bytes of a payload that has any. */
  predicate Describes(row: EventRow, rules: seq<Rule>, w: Write, sequence: int) {
    var i := FirstIndex(rules, w);
    && row.deviceId == w.peer && row.service == w.service && row.characteristic == w.characteristic
    && row.sequence == sequence
    && row.event == (if i < |rules| && rules[i].event != "" then rules[i].event else "unknown")
    && (row.payloadHead.None? <==> w.payload == [])
    && (row.payloadHead.Some? ==>
          row.payloadHead.value <= w.payload && |row.payloadHead.value| == Min(16, |w.payload|))
  }

  /** The first matching rule has a name that counts. */
  predicate Counts(rules: seq<Rule>, w: Write) {
    var i := FirstIndex(rules, w);
    i < |rules| && rules[i].event != "" && rules[i].event != "unknown"
  }

  /** What handling a write leaves: one more log row that describes it, and for a write that counts the
      device's live count raised by one and, unless the store refuses it, stored. */
  predicate HandlesAs(rules: seq<Rule>, w: Write, disk: Disk, live: Live,
                      after: Disk, raised: Live, error: Option<StoreError>) {
    var count := GetOrZero(live.counts, w.peer) + 1;
    && raised.sequence == live.sequence && after.sequence == disk.sequence
    && if !FitsSqlite(live.sequence) then error == Some(Overflow) && after == disk && raised == live
       else
         && |after.events| == |disk.events| + 1 && after.events[..|disk.events|] == disk.events
         && Describes(after.events[|disk.events|], rules, w, live.sequence)
         && if !Counts(rules, w) then error == None && raised == live && after.counters == disk.counters
            else
              && raised.counts == live.counts[w.peer := count]
              && after.counters == (if error.None? then disk.counters[w.peer := count] else disk.counters)
              && (error.None? <==>
                    FitsSqlite(count) && 0 <= count && (w.peer in disk.counters ==> disk.counters[w.peer] <= count))
  }

  lemma HandledMeans(rules: seq<Rule>, disk: Disk, live: Live, w: Write)
    ensures var (after, raised, error) := Handled(rules, disk, live, w);
      HandlesAs(rules, w, disk, live, after, raised, error)
  {
    FirstMatchAtIndex(rules, w);
    hide FirstMatch, FirstIndex;
  }

  class Pipeline {
    const matcher: Matcher
    const store: Store
    const counter: Counter

    constructor (matcher: Matcher, store: Store, counter: Counter)
      ensures this.matcher == matcher && this.store == store && this.counter == counter
    {
      this.matcher, this.store, this.counter := matcher, store, counter;
    }

    /** Log, then count, then save: the event row is durable before the count is, and a failed
        append leaves both alone. */
    method Handle(w: Write, ghost rules: seq<Rule>) returns (error: Option<StoreError>)
      requires matcher.Indexes(rules)
      modifies store, counter
      ensures (store.State(), counter.State(), error) ==
              Handled(rules, old(store.State()), old(counter.State()), w)
      ensures HandlesAs(rules, w, old(store.State()), old(counter.State()),
                        store.State(), counter.State(), error)
    {
      HandledMeans(rules, store.State(), counter.State(), w);
      hide HandlesAs;
      var found := matcher.Match(w, rules);
      var event := Label(found);
      error := store.Append(w, event, counter.sequence);
      if error.Some? {
        return;
      }
      if event == UNKNOWN {
        return None;
      }
      var count := counter.IncrementBy(w.peer, 1);
      error := store.Save(w.peer, count.value);
    }
  }

  // ---------------------------------------------------------------- report batches

  /** The tuple of one device in a report batch. */
  function BatchTuple(counts: map<string, int>, d: string, sequence: int, windowStart: int, now: int)
    : Canonical.ReportTuple
  {
    Canonical.ReportTuple(d, GetOrZero(counts, d), sequence, windowStart, now)
  }

  // ---------------------------------------------------------------- accounting

  /** Rows logged for device `d` under a recognised event. */
  function Recognised(events: seq<EventRow>, d: string): nat {
    if events == [] then 0
    else
      var last := events[|events| - 1];
      Recognised(events[..|events| - 1], d) + if last.deviceId == d && last.event != UNKNOWN then 1 else 0
  }

  lemma RecognisedSnoc(events: seq<EventRow>, row: EventRow, d: string)
    ensures Recognised(events + [row], d) ==
      Recognised(events, d) + if row.deviceId == d && row.event != UNKNOWN then 1 else 0
  {
    assert (events + [row])[..|events|] == events;
  }
}
