/** The event log ring in flash (firmware/esp32/storage_nvs.cpp) against an unbounded log. Each
    NVS set is one atomic durable step, and a reboot may fall between the two of an append. */
module RingLog {
  import opened Bytes
  import opened Common

  const CAPACITY := 512
  const U32 := 0x1_0000_0000

  datatype LogEntry = LogEntry(
    sequence: nat, tsUs: int, deviceId: string, event: string, payloadLen: nat, payloadHead: seq<byte>)

  /** The slot blobs and the persisted head, and the head and ready flag in memory. */
  datatype Ring = Ring(blobs: map<nat, LogEntry>, savedHead: Option<nat>, head: nat, ready: bool)

  const BLANK := Ring(map[], None, 0, false)

  function SlotOf(position: nat): nat {
    position % CAPACITY
  }

  function WriteSlot(r: Ring, e: LogEntry): Ring {
    r.(blobs := r.blobs[SlotOf(r.head) := e])
  }

  function WriteHead(r: Ring): Ring {
    var head := (r.head + 1) % U32;
    r.(head := head, savedHead := Some(head))
  }

  /** `init` after a reset: the head comes back from flash. */
  function Boot(r: Ring): Ring {
    r.(head := if r.savedHead.None? then 0 else r.savedHead.value, ready := true)
  }

  /** The entries found in the `n` slots before `head`, newest first. */
  function Recent(r: Ring, n: nat): seq<LogEntry>
    requires n <= r.head
  {
    if n == 0 then []
    else
      var slot := SlotOf(r.head - n);
      Recent(r, n - 1) + if slot in r.blobs then [r.blobs[slot]] else []
  }

  function ReadCount(r: Ring, maxEntries: nat): nat {
    Min(Min(r.head, maxEntries), CAPACITY)
  }

  class Storage {
    var blobs: map<nat, LogEntry>
    var savedHead: Option<nat>
    var head: nat
    var ready: bool
    var counters: map<string, nat>

    function State(): Ring
      reads this
    {
      Ring(blobs, savedHead, head, ready)
    }

    constructor ()
      ensures State() == BLANK && counters == map[]
    {
      blobs, savedHead, head, ready, counters := map[], None, 0, false, map[];
    }

    method Init()
      modifies this
      ensures State() == Boot(old(State())) && counters == old(counters)
    {
      var found := 0;
      if savedHead.Some? {
        found := savedHead.value;
      }
      head := found;
      ready := true;
    }

    /** Returns false where the source returns ESP_ERR_INVALID_STATE. */
    method AppendEvent(e: LogEntry) returns (ok: bool)
      modifies this
      ensures ok == old(ready)
      ensures State() == if ok then WriteHead(WriteSlot(old(State()), e)) else old(State())
      ensures counters == old(counters)
    {
      if !ready {
        return false;
      }
      blobs := blobs[SlotOf(head) := e];
      head := (head + 1) % U32;
      savedHead := Some(head);
      return true;
    }

    /** Refuses to lower a stored counter; a device's hashed key is taken to be its own. */
    method SaveCounter(deviceId: string, count: nat) returns (ok: bool)
      modifies this
      ensures ok == (old(ready) && (deviceId in old(counters) ==> count >= old(counters)[deviceId]))
      ensures counters == if ok then old(counters)[deviceId := count] else old(counters)
      ensures State() == old(State())
    {
      if !ready {
        return false;
      }
      if deviceId in counters && count < counters[deviceId] {
        return false;
      }
      counters := counters[deviceId := count];
      return true;
    }

    method ReadRecent(maxEntries: nat) returns (out: seq<LogEntry>)
      ensures out == Recent(State(), ReadCount(State(), maxEntries))
    {
      out := [];
      var n := if head < maxEntries then head else maxEntries;
      if n > CAPACITY {
        n := CAPACITY;
      }
      var i := 0;
      while i < n
        invariant 0 <= i <= n && out == Recent(State(), i)
      {
        var slot := SlotOf(head - 1 - i);
        if slot in blobs {
          out := out + [blobs[slot]];
        }
        i := i + 1;
      }
    }
  }

  // ---------------------------------------------------------------- runs

  /** A completed append, an append cut off by a reset after its slot was written, or a reset. */
  datatype Step = Append(entry: LogEntry) | TornAppend(entry: LogEntry) | Reset

  function Apply(r: Ring, s: Step): Ring {
    match s
    case Append(e) => WriteHead(WriteSlot(r, e))
    case TornAppend(e) => Boot(WriteSlot(r, e))
    case Reset => Boot(r)
  }

  function After(steps: seq<Step>): Ring {
    if steps == [] then Boot(BLANK) else Apply(After(steps[..|steps| - 1]), steps[|steps| - 1])
  }

  /** The unbounded log: every completed append. */
  function Committed(steps: seq<Step>): seq<LogEntry> {
    if steps == [] then []
    else
      var last := steps[|steps| - 1];
      Committed(steps[..|steps| - 1]) + if last.Append? then [last.entry] else []
  }

  /** The entry of the last torn append that no completed append has overwritten since. */
  function Torn(steps: seq<Step>): Option<LogEntry> {
    if steps == [] then None
    else
      match steps[|steps| - 1]
      case Append(_) => None
      case TornAppend(e) => Some(e)
      case Reset => Torn(steps[..|steps| - 1])
  }

  /** How many of the newest entries are surely intact. */
  function Intact(torn: Option<LogEntry>): nat {
    if torn.None? then CAPACITY else CAPACITY - 1
  }

  ghost predicate Refines(r: Ring, log: seq<LogEntry>, torn: Option<LogEntry>) {
    && r.ready && r.head == |log| % U32
    && r.head == (if r.savedHead.None? then 0 else r.savedHead.value)
    && (forall i :: 0 <= i < |log| && |log| - i <= Intact(torn) ==>
          SlotOf(i) in r.blobs && r.blobs[SlotOf(i)] == log[i])
    && (torn.Some? ==> SlotOf(|log|) in r.blobs && r.blobs[SlotOf(|log|)] == torn.value)
  }

  lemma {:induction false} AddMultiple(x: nat, k: nat)
    ensures SlotOf(x + CAPACITY * k) == SlotOf(x)
  {
    if k == 0 {
    } else {
      AddMultiple(x, k - 1);
      assert x + CAPACITY * k == (x + CAPACITY * (k - 1)) + CAPACITY;
    }
  }

  /** The head wraps at 2^32, a multiple of the capacity, so slots are those of the full length. */
  lemma SlotFromHead(length: nat, back: nat)
    requires back <= length % U32
    ensures SlotOf(length % U32 - back) == SlotOf(length - back)
  {
    var q := length / U32;
    assert length - back == (length % U32 - back) + CAPACITY * (0x80_0000 * q);
    AddMultiple(length % U32 - back, 0x80_0000 * q);
  }

  lemma DifferentSlots(i: nat, j: nat)
    requires i < j < i + CAPACITY
    ensures SlotOf(i) != SlotOf(j)
  {
  }

  lemma AppendRefines(r: Ring, log: seq<LogEntry>, torn: Option<LogEntry>, e: LogEntry)
    requires Refines(r, log, torn)
    ensures Refines(Apply(r, Append(e)), log + [e], None)
  {
    SlotFromHead(|log|, 0);
    forall i | 0 <= i < |log| && |log| + 1 - i <= CAPACITY
      ensures SlotOf(i) != SlotOf(|log|)
    {
      DifferentSlots(i, |log|);
    }
  }

  lemma TornRefines(r: Ring, log: seq<LogEntry>, torn: Option<LogEntry>, e: LogEntry)
    requires Refines(r, log, torn)
    ensures Refines(Apply(r, TornAppend(e)), log, Some(e))
  {
    SlotFromHead(|log|, 0);
    forall i | 0 <= i < |log| && |log| - i <= CAPACITY - 1
      ensures SlotOf(i) != SlotOf(|log|)
    {
      DifferentSlots(i, |log|);
    }
  }

  /** After any run with resets anywhere, the ring refines the unbounded log. */
  lemma {:induction false} EveryRunRefines(steps: seq<Step>)
    ensures Refines(After(steps), Committed(steps), Torn(steps))
  {
    if steps == [] {
    } else {
      var init := steps[..|steps| - 1];
      EveryRunRefines(init);
      match steps[|steps| - 1] {
        case Append(e) => AppendRefines(After(init), Committed(init), Torn(init), e);
        case TornAppend(e) => TornRefines(After(init), Committed(init), Torn(init), e);
        case Reset =>
      }
    }
  }

  lemma {:induction false} RecentIsNewest(r: Ring, log: seq<LogEntry>, torn: Option<LogEntry>, n: nat)
    requires Refines(r, log, torn) && n <= r.head && n <= Intact(torn)
    ensures |Recent(r, n)| == n
    ensures forall i :: 0 <= i < n ==> Recent(r, n)[i] == log[|log| - 1 - i]
  {
    hide SlotOf;
    if n == 0 {
    } else {
      RecentIsNewest(r, log, torn, n - 1);
      SlotFromHead(|log|, n);
    }
  }

  lemma RecentStep(r: Ring, n: nat)
    requires 0 < n <= r.head
    ensures var slot := SlotOf(r.head - n);
      Recent(r, n) == Recent(r, n - 1) + if slot in r.blobs then [r.blobs[slot]] else []
  {
  }

  /** The slot read last of a full read is the one a cut-off append has overwritten. */
  lemma OldestSlot(r: Ring, log: seq<LogEntry>, torn: Option<LogEntry>)
    requires Refines(r, log, torn) && torn.Some? && r.head >= CAPACITY
    ensures Recent(r, CAPACITY) == Recent(r, CAPACITY - 1) + [torn.value]
  {
    hide Recent;
    SlotFromHead(|log|, CAPACITY);
    AddMultiple(|log| - CAPACITY, 1);
    RecentStep(r, CAPACITY);
  }

  lemma FullReadExact(r: Ring, log: seq<LogEntry>, torn: Option<LogEntry>, n: nat)
    requires Refines(r, log, torn) && n <= r.head && n <= CAPACITY
    ensures var out := Recent(r, n);
      && |out| == n
      && (forall i :: 0 <= i < n && (i < CAPACITY - 1 || torn.None?) ==> out[i] == log[|log| - 1 - i])
      && (n == CAPACITY && torn.Some? ==> out[CAPACITY - 1] == torn.value)
  {
    if n <= Intact(torn) {
      RecentIsNewest(r, log, torn, n);
    } else {
      RecentIsNewest(r, log, torn, n - 1);
      OldestSlot(r, log, torn);
    }
  }

  /** What read_recent returns after any run: the newest min(k, appends mod 2^32, 512) committed
      entries in reverse order. Only when an append was cut off after writing its slot and all
      512 are asked for is the oldest one replaced by the entry that was cut off. */
  lemma ReadRecentExact(steps: seq<Step>, maxEntries: nat)
    ensures var log := Committed(steps);
      var n := Min(Min(maxEntries, |log| % 0x1_0000_0000), 512);
      var out := Recent(After(steps), ReadCount(After(steps), maxEntries));
      && |out| == n
      && (forall i :: 0 <= i < n && (i < 511 || Torn(steps).None?) ==> out[i] == log[|log| - 1 - i])
      && (n == 512 && Torn(steps).Some? ==> out[511] == Torn(steps).value)
  {
    hide After, Committed, Torn, Recent;
    EveryRunRefines(steps);
    FullReadExact(After(steps), Committed(steps), Torn(steps), ReadCount(After(steps), maxEntries));
  }

  lemma {:induction false} NeverTorn(steps: seq<Step>)
    requires forall i :: 0 <= i < |steps| ==> !steps[i].TornAppend?
    ensures Torn(steps).None?
  {
    if steps == [] {
    } else {
      NeverTorn(steps[..|steps| - 1]);
    }
  }

  /** Without a cut-off append every read is the newest entries of the log, exactly. */
  lemma ReadRecentWithoutCrash(steps: seq<Step>, maxEntries: nat)
    requires forall i :: 0 <= i < |steps| ==> !steps[i].TornAppend?
    ensures var log := Committed(steps);
      var out := Recent(After(steps), ReadCount(After(steps), maxEntries));
      && |out| == Min(Min(maxEntries, |log| % 0x1_0000_0000), 512)
      && forall i :: 0 <= i < |out| ==> out[i] == log[|log| - 1 - i]
  {
    hide After, Committed, Recent;
    ReadRecentExact(steps, maxEntries);
    NeverTorn(steps);
  }
}
