/** Reassembly of ATT fragments (firmware/esp32/ble_observer.cpp): a four-slot pool changed in
    place, the finite map of open runs it implements, and what it emits over whole traces. */
module Reassembly {
  import opened Bytes
  import opened Common

  const POOL_SIZE := 4
  const MAX_PAYLOAD := 512
  const TIMEOUT_US := 5_000_000

  /** A connection handle and an attribute handle. */
  datatype Key = Key(conn: nat, attr: nat)

  /** The peer address and the UUIDs, fixed by the first fragment of a run. */
  datatype Origin = Origin(peer: string, service: seq<byte>, characteristic: seq<byte>)

  datatype ObservedWrite = ObservedWrite(origin: Origin, payload: seq<byte>)

  /** A fragment carries the two clock readings its handling takes: one in claim_slot, one after
      the bytes are stored. A start says whether the Bluetooth host came up. */
  datatype Event =
    | Fragment(key: Key, origin: Origin, offset: nat, data: seq<byte>, isFinal: bool,
               claimUs: int, storeUs: int)
    | Disconnect(conn: nat)
    | Start(hostUp: bool)
    | Stop

  // ---------------------------------------------------------------- the pool

  datatype Slot = Slot(inUse: bool, key: Key, origin: Origin, buf: seq<byte>, lastUs: int)

  const NO_SLOT := Slot(false, Key(0, 0), Origin("", [], []), [], 0)

  type Slots = s: seq<Slot> | |s| == POOL_SIZE witness [NO_SLOT, NO_SLOT, NO_SLOT, NO_SLOT]

  /** `attached` is whether the observer that receives values is set, `running` whether its host is
      up. A start attaches even when the host fails; a stop does nothing unless it is running. */
  datatype Pool = Pool(slots: Slots, attached: bool, running: bool)

  predicate Holds(s: Slot, key: Key) {
    s.inUse && s.key == key
  }

  /** The first slot with property `p`, or 4. */
  function FirstSlot(slots: Slots, p: Slot -> bool): (i: nat)
    ensures i <= POOL_SIZE
    ensures i < POOL_SIZE ==> p(slots[i])
    ensures forall j :: 0 <= j < i ==> !p(slots[j])
  {
    if p(slots[0]) then 0 else if p(slots[1]) then 1
    else if p(slots[2]) then 2 else if p(slots[3]) then 3 else 4
  }

  function FindSlot(slots: Slots, key: Key): nat {
    FirstSlot(slots, (s: Slot) => Holds(s, key))
  }

  function FreeSlot(slots: Slots): nat {
    FirstSlot(slots, (s: Slot) => !s.inUse)
  }

  function Released(s: Slot): Slot {
    s.(inUse := false, buf := [])
  }

  predicate Stale(s: Slot, now: int) {
    s.inUse && now - s.lastUs > TIMEOUT_US
  }

  function ReleaseIf(slots: Slots, p: Slot -> bool): (r: Slots) {
    seq(POOL_SIZE, i requires 0 <= i < POOL_SIZE => if p(slots[i]) then Released(slots[i]) else slots[i])
  }

  function Sweep(slots: Slots, now: int): Slots {
    ReleaseIf(slots, (s: Slot) => Stale(s, now))
  }

  function Claimed(e: Event): Slot
    requires e.Fragment?
  {
    Slot(true, e.key, e.origin, [], e.claimUs)
  }

  /** From the offset check to delivery, on the run held in slot `i`. */
  function Continue(p: Pool, i: nat, e: Event): (Pool, Option<ObservedWrite>)
    requires i < POOL_SIZE && e.Fragment?
  {
    var s := p.slots[i];
    var dropped := p.(slots := p.slots[i := Released(s)]);
    if e.offset != |s.buf| || |s.buf| + |e.data| > MAX_PAYLOAD then (dropped, None)
    else
      var grown := s.(buf := s.buf + e.data, lastUs := e.storeUs);
      if !e.isFinal then (p.(slots := p.slots[i := grown]), None)
      else
        (p.(slots := p.slots[i := Released(grown)]),
         if p.attached && grown.buf != [] then Some(ObservedWrite(s.origin, grown.buf)) else None)
  }

  function OnFragment(p: Pool, e: Event): (Pool, Option<ObservedWrite>)
    requires e.Fragment?
  {
    var i := FindSlot(p.slots, e.key);
    if i < POOL_SIZE then Continue(p, i, e)
    else if e.offset != 0 then (p, None)
    else
      var swept := Sweep(p.slots, e.claimUs);
      var j := FreeSlot(swept);
      if j == POOL_SIZE then (p.(slots := swept), None)
      else Continue(p.(slots := swept[j := Claimed(e)]), j, e)
  }

  function PoolStep(p: Pool, e: Event): (Pool, Option<ObservedWrite>) {
    match e
    case Fragment(_, _, _, _, _, _, _) => OnFragment(p, e)
    case Disconnect(conn) => (p.(slots := ReleaseIf(p.slots, (s: Slot) => s.inUse && s.key.conn == conn)), None)
    case Start(hostUp) => (Pool(ReleaseIf(p.slots, (_: Slot) => true), true, p.running || hostUp), None)
    case Stop => (if p.running then p.(attached := false, running := false) else p, None)
  }

  class Observer {
    const pool: array<Slot>
    var attached: bool
    var running: bool
    var emitted: seq<ObservedWrite>

    ghost predicate Valid()
      reads this
    {
      pool.Length == POOL_SIZE
    }

    ghost function State(): Pool
      reads this, pool
      requires Valid()
    {
      Pool(pool[..], attached, running)
    }

    constructor ()
      ensures Valid() && fresh(pool) && emitted == []
      ensures State() == Pool([NO_SLOT, NO_SLOT, NO_SLOT, NO_SLOT], false, false)
    {
      pool := new Slot[4](_ => NO_SLOT);
      attached, running, emitted := false, false, [];
      new;
      assert pool[..] == [NO_SLOT, NO_SLOT, NO_SLOT, NO_SLOT];
    }

    method Find(key: Key) returns (i: nat)
      requires Valid()
      ensures i == FindSlot(pool[..], key)
    {
      i := 0;
      while i < 4
        invariant i <= 4 && forall j :: 0 <= j < i ==> !Holds(pool[j], key)
      {
        if pool[i].inUse && pool[i].key == key {
          return;
        }
        i := i + 1;
      }
    }

    /** Release every slot with property `p`, in place. */
    method ReleaseAll(p: Slot -> bool)
      requires Valid()
      modifies pool
      ensures pool[..] == ReleaseIf(old(pool[..]), p)
    {
      var i := 0;
      while i < 4
        invariant i <= 4
        invariant forall j :: 0 <= j < i ==> pool[j] == if p(old(pool[j])) then Released(old(pool[j])) else old(pool[j])
        invariant forall j :: i <= j < 4 ==> pool[j] == old(pool[j])
      {
        if p(pool[i]) {
          pool[i] := Released(pool[i]);
        }
        i := i + 1;
      }
    }

    method Claim(e: Event) returns (i: nat)
      requires Valid() && e.Fragment?
      modifies pool
      ensures var swept := Sweep(old(pool[..]), e.claimUs);
        && i == FreeSlot(swept)
        && pool[..] == if i == POOL_SIZE then swept else swept[i := Claimed(e)]
    {
      ReleaseAll((s: Slot) => Stale(s, e.claimUs));
      i := 0;
      while i < 4
        invariant i <= 4 && forall j :: 0 <= j < i ==> pool[j].inUse
      {
        if !pool[i].inUse {
          pool[i] := Slot(true, e.key, e.origin, [], e.claimUs);
          return;
        }
        i := i + 1;
      }
    }

    method Deliver(i: nat)
      requires Valid() && i < POOL_SIZE
      modifies this, pool
      ensures attached == old(attached) && running == old(running)
      ensures pool[..] == old(pool[..])[i := Released(old(pool[i]))]
      ensures emitted == old(emitted) +
        if attached && old(pool[i]).buf != [] then [ObservedWrite(old(pool[i]).origin, old(pool[i]).buf)] else []
    {
      if !attached || pool[i].buf == [] {
        pool[i] := Released(pool[i]);
        return;
      }
      emitted := emitted + [ObservedWrite(pool[i].origin, pool[i].buf)];
      pool[i] := Released(pool[i]);
    }

    method AttFragment(e: Event)
      requires Valid() && e.Fragment?
      modifies this, pool
      ensures var (after, value) := OnFragment(old(State()), e);
        && State() == after
        && emitted == old(emitted) + if value.Some? then [value.value] else []
    {
      var i := Find(e.key);
      if i == 4 {
        if e.offset != 0 {
          return;
        }
        i := Claim(e);
        if i == 4 {
          return;
        }
      }
      if e.offset != |pool[i].buf| {
        pool[i] := Released(pool[i]);
        return;
      }
      if |pool[i].buf| + |e.data| > MAX_PAYLOAD {
        pool[i] := Released(pool[i]);
        return;
      }
      pool[i] := pool[i].(buf := pool[i].buf + e.data);
      pool[i] := pool[i].(lastUs := e.storeUs);
      if e.isFinal {
        Deliver(i);
      }
    }

    /** Everything the observer reacts to. */
    method Handle(e: Event)
      requires Valid()
      modifies this, pool
      ensures var (after, value) := PoolStep(old(State()), e);
        && State() == after
        && emitted == old(emitted) + if value.Some? then [value.value] else []
    {
      match e {
        case Fragment(_, _, _, _, _, _, _) =>
          AttFragment(e);
        case Disconnect(conn) =>
          ReleaseAll((s: Slot) => s.inUse && s.key.conn == conn);
        case Start(hostUp) =>
          attached := true;
          ReleaseAll((_: Slot) => true);
          if hostUp {
            running := true;
          }
        case Stop =>
          if running {
            running := false;
            attached := false;
          }
      }
    }
  }
}
