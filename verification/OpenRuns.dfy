/** The finite map of open runs behind the reassembly pool: the pool simulates it, and what the
    pool emits over a whole trace is proved through it. */
module OpenRuns {
  import opened Bytes
  import opened Common
  import opened Reassembly

  /** An open run, with the trace positions of the fragments it was built from. */
  datatype Run = Run(origin: Origin, buf: seq<byte>, lastUs: int, frags: seq<nat>)

  datatype Book = Book(runs: map<Key, Run>, attached: bool, running: bool)

  datatype Emission = Emission(key: Key, origin: Origin, payload: seq<byte>, frags: seq<nat>)

  predicate RunStale(r: Run, now: int) {
    now - r.lastUs > TIMEOUT_US
  }

  function NotStale(runs: map<Key, Run>, now: int): map<Key, Run> {
    map k | k in runs && !RunStale(runs[k], now) :: runs[k]
  }

  /** Fragment `n` of the trace meets the open run of its key. */
  function Extend(b: Book, n: nat, e: Event): (Book, Option<Emission>)
    requires e.Fragment? && e.key in b.runs
  {
    var r := b.runs[e.key];
    var closed := b.(runs := b.runs - {e.key});
    if e.offset != |r.buf| || |r.buf| + |e.data| > MAX_PAYLOAD then (closed, None)
    else
      var grown := Run(r.origin, r.buf + e.data, e.storeUs, r.frags + [n]);
      if !e.isFinal then (b.(runs := b.runs[e.key := grown]), None)
      else
        (closed,
         if b.attached && grown.buf != [] then Some(Emission(e.key, r.origin, grown.buf, grown.frags)) else None)
  }

  function BookFragment(b: Book, n: nat, e: Event): (Book, Option<Emission>)
    requires e.Fragment?
  {
    if e.key in b.runs then Extend(b, n, e)
    else if e.offset != 0 then (b, None)
    else
      var kept := NotStale(b.runs, e.claimUs);
      if |kept| >= POOL_SIZE then (b.(runs := kept), None)
      else Extend(b.(runs := kept[e.key := Run(e.origin, [], e.claimUs, [])]), n, e)
  }

  function BookStep(b: Book, n: nat, e: Event): (Book, Option<Emission>) {
    match e
    case Fragment(_, _, _, _, _, _, _) => BookFragment(b, n, e)
    case Disconnect(conn) => (b.(runs := map k | k in b.runs && k.conn != conn :: b.runs[k]), None)
    case Start(hostUp) => (Book(map[], true, b.running || hostUp), None)
    case Stop => (if b.running then b.(attached := false, running := false) else b, None)
  }

  // ---------------------------------------------------------------- traces

  const IDLE := Pool([NO_SLOT, NO_SLOT, NO_SLOT, NO_SLOT], false, false)

  /** The pool after the first `n` events, and what event `n` makes it emit. */
  function PoolAt(trace: seq<Event>, n: nat): Pool
    requires n <= |trace|
  {
    if n == 0 then IDLE else PoolStep(PoolAt(trace, n - 1), trace[n - 1]).0
  }

  function PoolOut(trace: seq<Event>, n: nat): Option<ObservedWrite>
    requires n < |trace|
  {
    PoolStep(PoolAt(trace, n), trace[n]).1
  }

  function BookAt(trace: seq<Event>, n: nat): Book
    requires n <= |trace|
  {
    if n == 0 then Book(map[], false, false) else BookStep(BookAt(trace, n - 1), n - 1, trace[n - 1]).0
  }

  function BookOut(trace: seq<Event>, n: nat): Option<Emission>
    requires n < |trace|
  {
    BookStep(BookAt(trace, n), n, trace[n]).1
  }

  // ---------------------------------------------------------------- simulation

  predicate SlotIs(s: Slot, r: Run) {
    s.origin == r.origin && s.buf == r.buf && s.lastUs == r.lastUs
  }

  ghost predicate OnePerKey(slots: Slots) {
    forall i, j :: 0 <= i < j < POOL_SIZE && slots[i].inUse && slots[j].inUse ==> slots[i].key != slots[j].key
  }

  ghost predicate Holder(slots: Slots, k: Key) {
    exists i :: 0 <= i < POOL_SIZE && Holds(slots[i], k)
  }

  /** The in-use slots are, one for one, the open runs. */
  ghost predicate Represents(slots: Slots, runs: map<Key, Run>) {
    && OnePerKey(slots)
    && (forall i :: 0 <= i < POOL_SIZE && slots[i].inUse ==>
          slots[i].key in runs && SlotIs(slots[i], runs[slots[i].key]))
    && (forall k :: k in runs ==> Holder(slots, k))
  }

  lemma FindIsHolder(slots: Slots, runs: map<Key, Run>, k: Key)
    requires Represents(slots, runs)
    ensures FindSlot(slots, k) < POOL_SIZE <==> k in runs
  {
    if k in runs {
      assert Holder(slots, k);
    }
  }

  lemma HolderElsewhere(slots: Slots, after: Slots, i: nat, k: Key)
    requires i < POOL_SIZE && Holder(slots, k) && !Holds(slots[i], k)
    requires forall j :: 0 <= j < POOL_SIZE && j != i ==> after[j] == slots[j]
    ensures Holder(after, k)
  {
    var j :| 0 <= j < POOL_SIZE && Holds(slots[j], k);
    assert Holds(after[j], k);
  }

  lemma UpdateRepresents(slots: Slots, runs: map<Key, Run>, i: nat, s: Slot, r: Run)
    requires Represents(slots, runs) && i < POOL_SIZE
    requires s.inUse && SlotIs(s, r)
    requires if slots[i].inUse then slots[i].key == s.key else s.key !in runs
    ensures Represents(slots[i := s], runs[s.key := r])
  {
    var after := slots[i := s];
    forall k | k in runs[s.key := r]
      ensures Holder(after, k)
    {
      if k == s.key {
        assert Holds(after[i], k);
      } else {
        HolderElsewhere(slots, after, i, k);
      }
    }
    forall j | 0 <= j < POOL_SIZE && j != i && slots[j].inUse
      ensures slots[j].key != s.key
    {
      assert j < i || i < j;
    }
  }

  lemma ReleaseRepresents(slots: Slots, runs: map<Key, Run>, i: nat, s: Slot)
    requires Represents(slots, runs) && i < POOL_SIZE && slots[i].inUse
    requires !s.inUse
    ensures Represents(slots[i := s], runs - {slots[i].key})
  {
    var after := slots[i := s];
    forall k | k in runs - {slots[i].key}
      ensures Holder(after, k)
    {
      HolderElsewhere(slots, after, i, k);
    }
    forall j | 0 <= j < POOL_SIZE && j != i && slots[j].inUse
      ensures slots[j].key != slots[i].key
    {
      assert j < i || i < j;
    }
  }

  lemma ReleaseIfRepresents(slots: Slots, runs: map<Key, Run>, p: Slot -> bool, kept: map<Key, Run>)
    requires Represents(slots, runs)
    requires forall k :: k in kept ==> k in runs && kept[k] == runs[k]
    requires forall i :: 0 <= i < POOL_SIZE && slots[i].inUse ==> (p(slots[i]) <==> slots[i].key !in kept)
    ensures Represents(ReleaseIf(slots, p), kept)
  {
    var after := ReleaseIf(slots, p);
    forall k | k in kept
      ensures Holder(after, k)
    {
      assert Holder(slots, k);
      var i :| 0 <= i < POOL_SIZE && Holds(slots[i], k);
      assert Holds(after[i], k);
    }
  }

  /** The keys of the first `n` slots that are in use. */
  function UsedKeys(slots: Slots, n: nat): set<Key>
    requires n <= POOL_SIZE
  {
    set i | 0 <= i < n && slots[i].inUse :: slots[i].key
  }

  function UsedCount(slots: Slots, n: nat): nat
    requires n <= POOL_SIZE
  {
    if n == 0 then 0 else UsedCount(slots, n - 1) + if slots[n - 1].inUse then 1 else 0
  }

  lemma {:induction false} UsedSizes(slots: Slots, n: nat)
    requires n <= POOL_SIZE && OnePerKey(slots)
    ensures |UsedKeys(slots, n)| == UsedCount(slots, n)
  {
    if n == 0 {
    } else {
      UsedSizes(slots, n - 1);
      if slots[n - 1].inUse {
        assert UsedKeys(slots, n) == UsedKeys(slots, n - 1) + {slots[n - 1].key};
      } else {
        assert UsedKeys(slots, n) == UsedKeys(slots, n - 1);
      }
    }
  }

  lemma CountFour(slots: Slots)
    ensures UsedCount(slots, POOL_SIZE) <= POOL_SIZE
    ensures UsedCount(slots, POOL_SIZE) == POOL_SIZE <==> FreeSlot(slots) == POOL_SIZE
  {
    assert UsedCount(slots, 4) == UsedCount(slots, 3) + if slots[3].inUse then 1 else 0;
    assert UsedCount(slots, 2) == UsedCount(slots, 1) + if slots[1].inUse then 1 else 0;
  }

  /** All four slots are in use exactly when four runs are open. */
  lemma FullIffFourRuns(slots: Slots, runs: map<Key, Run>)
    requires Represents(slots, runs)
    ensures |runs| <= POOL_SIZE
    ensures FreeSlot(slots) == POOL_SIZE <==> |runs| == POOL_SIZE
  {
    forall k | k in runs
      ensures k in UsedKeys(slots, POOL_SIZE)
    {
      assert Holder(slots, k);
      var i :| 0 <= i < POOL_SIZE && Holds(slots[i], k);
    }
    assert runs.Keys == UsedKeys(slots, POOL_SIZE);
    UsedSizes(slots, POOL_SIZE);
    CountFour(slots);
    assert |runs| == |runs.Keys|;
  }

  function Erase(m: Option<Emission>): Option<ObservedWrite> {
    if m.None? then None else Some(ObservedWrite(m.value.origin, m.value.payload))
  }

  ghost predicate Simulates(p: Pool, b: Book) {
    p.attached == b.attached && p.running == b.running && Represents(p.slots, b.runs)
  }

  lemma ExtendSimulates(p: Pool, b: Book, i: nat, n: nat, e: Event)
    requires Simulates(p, b) && i < POOL_SIZE && e.Fragment? && Holds(p.slots[i], e.key)
    ensures Simulates(Continue(p, i, e).0, Extend(b, n, e).0)
    ensures Continue(p, i, e).1 == Erase(Extend(b, n, e).1)
  {
    var s := p.slots[i];
    var r := b.runs[e.key];
    ReleaseRepresents(p.slots, b.runs, i, Released(s));
    if e.offset == |s.buf| && |s.buf| + |e.data| <= MAX_PAYLOAD {
      var grown := s.(buf := s.buf + e.data, lastUs := e.storeUs);
      ReleaseRepresents(p.slots, b.runs, i, Released(grown));
      UpdateRepresents(p.slots, b.runs, i, grown, Run(r.origin, r.buf + e.data, e.storeUs, r.frags + [n]));
    }
  }

  lemma SweepRepresents(slots: Slots, runs: map<Key, Run>, now: int)
    requires Represents(slots, runs)
    ensures Represents(Sweep(slots, now), NotStale(runs, now))
  {
    ReleaseIfRepresents(slots, runs, (s: Slot) => Stale(s, now), NotStale(runs, now));
  }

  lemma KeptIsOpen(runs: map<Key, Run>, now: int, key: Key)
    ensures key in NotStale(runs, now) ==> key in runs
  {
  }

  lemma FragmentSimulates(p: Pool, b: Book, n: nat, e: Event)
    requires Simulates(p, b) && e.Fragment?
    ensures Simulates(OnFragment(p, e).0, BookFragment(b, n, e).0)
    ensures OnFragment(p, e).1 == Erase(BookFragment(b, n, e).1)
  {
    hide Represents, Continue, Extend, Sweep, NotStale;
    FindIsHolder(p.slots, b.runs, e.key);
    if e.key in b.runs {
      ExtendSimulates(p, b, FindSlot(p.slots, e.key), n, e);
    } else if e.offset == 0 {
      var swept, kept := Sweep(p.slots, e.claimUs), NotStale(b.runs, e.claimUs);
      SweepRepresents(p.slots, b.runs, e.claimUs);
      FullIffFourRuns(swept, kept);
      var j := FreeSlot(swept);
      if j < POOL_SIZE {
        var r := Run(e.origin, [], e.claimUs, []);
        KeptIsOpen(b.runs, e.claimUs, e.key);
        UpdateRepresents(swept, kept, j, Claimed(e), r);
        ExtendSimulates(p.(slots := swept[j := Claimed(e)]), b.(runs := kept[e.key := r]), j, n, e);
      }
    }
  }

  lemma StepSimulates(p: Pool, b: Book, n: nat, e: Event)
    requires Simulates(p, b)
    ensures Simulates(PoolStep(p, e).0, BookStep(b, n, e).0)
    ensures PoolStep(p, e).1 == Erase(BookStep(b, n, e).1)
  {
    hide OnFragment, BookFragment;
    match e {
      case Fragment(_, _, _, _, _, _, _) =>
        FragmentSimulates(p, b, n, e);
      case Disconnect(conn) =>
        ReleaseIfRepresents(p.slots, b.runs, (s: Slot) => s.inUse && s.key.conn == conn,
                            map k | k in b.runs && k.conn != conn :: b.runs[k]);
      case Start(_) =>
        ReleaseIfRepresents(p.slots, b.runs, (_: Slot) => true, map[]);
      case Stop =>
    }
  }

  lemma {:induction false} StatesSimulate(trace: seq<Event>, n: nat)
    requires n <= |trace|
    ensures Simulates(PoolAt(trace, n), BookAt(trace, n))
  {
    hide PoolStep, BookStep;
    if n > 0 {
      StatesSimulate(trace, n - 1);
      StepSimulates(PoolAt(trace, n - 1), BookAt(trace, n - 1), n - 1, trace[n - 1]);
    } else {
      assert Represents(IDLE.slots, map[]);
    }
  }

  /** Over every trace the pool is the map of open runs, and emits what the map emits. */
  lemma PoolSimulatesBook(trace: seq<Event>, n: nat)
    requires n <= |trace|
    ensures Simulates(PoolAt(trace, n), BookAt(trace, n))
    ensures n < |trace| ==> PoolOut(trace, n) == Erase(BookOut(trace, n))
  {
    StatesSimulate(trace, n);
    if n < |trace| {
      StepSimulates(PoolAt(trace, n), BookAt(trace, n), n, trace[n]);
    }
  }

  /** In every reachable state at most one slot in use serves a key. */
  lemma OneSlotPerKey(trace: seq<Event>, n: nat)
    requires n <= |trace|
    ensures OnePerKey(PoolAt(trace, n).slots)
  {
    PoolSimulatesBook(trace, n);
  }

  /** In every reachable state, a claim at time `now` is refused exactly when four open runs are
      not stale. */
  lemma ClaimRefusedIff(trace: seq<Event>, n: nat, now: int)
    requires n <= |trace|
    ensures FreeSlot(Sweep(PoolAt(trace, n).slots, now)) == POOL_SIZE <==>
            |set k | k in BookAt(trace, n).runs && !RunStale(BookAt(trace, n).runs[k], now)| == 4
  {
    PoolSimulatesBook(trace, n);
    var runs := BookAt(trace, n).runs;
    SweepRepresents(PoolAt(trace, n).slots, runs, now);
    FullIffFourRuns(Sweep(PoolAt(trace, n).slots, now), NotStale(runs, now));
    assert NotStale(runs, now).Keys == set k | k in runs && !RunStale(runs[k], now);
  }

  // ---------------------------------------------------------------- soundness

  predicate IsFragmentOf(e: Event, key: Key) {
    e.Fragment? && e.key == key
  }

  /** The bytes of the fragments at the given positions, joined. */
  function Joined(trace: seq<Event>, frags: seq<nat>): seq<byte> {
    if frags == [] then []
    else
      var n := frags[|frags| - 1];
      Joined(trace, frags[..|frags| - 1]) + if n < |trace| && trace[n].Fragment? then trace[n].data else []
  }

  predicate Interrupts(e: Event, key: Key) {
    e.Start? || (e.Disconnect? && e.conn == key.conn)
  }

  /** Increasing positions of fragments of one key, none final except possibly the last. */
  ghost predicate Ascending(trace: seq<Event>, key: Key, frags: seq<nat>, end: nat)
    requires end <= |trace|
  {
    && (forall a :: 0 <= a < |frags| ==> frags[a] < end && IsFragmentOf(trace[frags[a]], key))
    && (forall a, b :: 0 <= a < b < |frags| ==> frags[a] < frags[b])
    && (forall a :: 0 <= a < |frags| - 1 ==> !trace[frags[a]].isFinal)
  }

  /** Each offset is the total length of the fragments before it. */
  ghost predicate RunningOffsets(trace: seq<Event>, frags: seq<nat>) {
    forall a :: 0 <= a < |frags| ==>
      frags[a] < |trace| && trace[frags[a]].Fragment? && trace[frags[a]].offset == |Joined(trace, frags[..a])|
  }

  /** From the first fragment to `end` nothing interrupts, and no fragment of the key is left out. */
  ghost predicate Covers(trace: seq<Event>, key: Key, frags: seq<nat>, end: nat)
    requires end <= |trace| && frags != []
  {
    forall j :: frags[0] <= j < end ==>
      !Interrupts(trace[j], key) && (IsFragmentOf(trace[j], key) ==> j in frags)
  }

  /** `frags` are consecutive fragments of one key before position `end`. */
  ghost predicate Consecutive(trace: seq<Event>, key: Key, frags: seq<nat>, end: nat)
    requires end <= |trace|
  {
    && frags != []
    && Ascending(trace, key, frags, end)
    && RunningOffsets(trace, frags)
    && Covers(trace, key, frags, end)
  }

  ghost predicate RunFrom(trace: seq<Event>, key: Key, r: Run, end: nat)
    requires end <= |trace|
  {
    && Consecutive(trace, key, r.frags, end)
    && !trace[r.frags[|r.frags| - 1]].isFinal
    && r.buf == Joined(trace, r.frags) && |r.buf| <= MAX_PAYLOAD
    && r.origin == trace[r.frags[0]].origin
  }

  ghost predicate RunsFrom(trace: seq<Event>, runs: map<Key, Run>, end: nat)
    requires end <= |trace|
  {
    forall k :: k in runs ==> RunFrom(trace, k, runs[k], end)
  }

  lemma JoinedSnoc(trace: seq<Event>, frags: seq<nat>, n: nat)
    requires n < |trace| && trace[n].Fragment?
    ensures Joined(trace, frags + [n]) == Joined(trace, frags) + trace[n].data
  {
    assert (frags + [n])[..|frags|] == frags;
  }

  lemma RunOutlivesOthers(trace: seq<Event>, k: Key, r: Run, n: nat)
    requires n < |trace| && RunFrom(trace, k, r, n)
    requires !Interrupts(trace[n], k) && !IsFragmentOf(trace[n], k)
    ensures RunFrom(trace, k, r, n + 1)
  {
  }

  lemma AppendOffsets(trace: seq<Event>, frags: seq<nat>, n: nat)
    requires n < |trace| && trace[n].Fragment? && trace[n].offset == |Joined(trace, frags)|
    requires RunningOffsets(trace, frags)
    ensures RunningOffsets(trace, frags + [n])
  {
    var all := frags + [n];
    forall a | 0 <= a < |all|
      ensures all[a] < |trace| && trace[all[a]].Fragment? && trace[all[a]].offset == |Joined(trace, all[..a])|
    {
      assert all[..a] == frags[..a];
      if a == |frags| {
        assert frags[..a] == frags;
      }
    }
  }

  lemma AppendCovers(trace: seq<Event>, k: Key, frags: seq<nat>, n: nat)
    requires n < |trace| && IsFragmentOf(trace[n], k)
    requires frags != [] ==> Covers(trace, k, frags, n)
    ensures Covers(trace, k, frags + [n], n + 1)
  {
    var all := frags + [n];
    forall j | all[0] <= j < n + 1
      ensures !Interrupts(trace[j], k) && (IsFragmentOf(trace[j], k) ==> j in all)
    {
      if j < n {
        assert frags != [] && frags[0] == all[0];
      } else {
        assert all[|frags|] == n;
      }
    }
  }

  lemma AppendOrder(trace: seq<Event>, k: Key, frags: seq<nat>, n: nat)
    requires n < |trace| && IsFragmentOf(trace[n], k)
    requires Ascending(trace, k, frags, n)
    requires frags != [] ==> !trace[frags[|frags| - 1]].isFinal
    ensures Ascending(trace, k, frags + [n], n + 1)
  {
    var all := frags + [n];
    forall a | 0 <= a < |all|
      ensures all[a] < n + 1 && IsFragmentOf(trace[all[a]], k)
      ensures a < |all| - 1 ==> !trace[all[a]].isFinal
      ensures forall b :: a < b < |all| ==> all[a] < all[b]
    {
      if a < |frags| {
        assert all[a] == frags[a];
      }
    }
  }

  /** What event `n` appends to a run, whether it opens the run or continues it. */
  lemma AppendFragment(trace: seq<Event>, k: Key, frags: seq<nat>, n: nat)
    requires n < |trace| && IsFragmentOf(trace[n], k)
    requires frags != [] ==> Consecutive(trace, k, frags, n) && !trace[frags[|frags| - 1]].isFinal
    requires trace[n].offset == |Joined(trace, frags)|
    ensures Consecutive(trace, k, frags + [n], n + 1)
    ensures Joined(trace, frags + [n]) == Joined(trace, frags) + trace[n].data
  {
    JoinedSnoc(trace, frags, n);
    AppendOffsets(trace, frags, n);
    AppendCovers(trace, k, frags, n);
    AppendOrder(trace, k, frags, n);
  }

  ghost predicate Emits(trace: seq<Event>, n: nat, m: Emission)
    requires n < |trace|
  {
    && IsFragmentOf(trace[n], m.key) && trace[n].isFinal
    && Consecutive(trace, m.key, m.frags, n + 1) && m.frags[|m.frags| - 1] == n
    && m.payload == Joined(trace, m.frags) && 1 <= |m.payload| <= MAX_PAYLOAD
    && m.origin == trace[m.frags[0]].origin
  }

  /** A run that the fragment at `n` may extend: just claimed, or built from the trace. */
  ghost predicate Extendable(trace: seq<Event>, r: Run, n: nat)
    requires n < |trace| && trace[n].Fragment?
  {
    if r.frags == [] then r.buf == [] && r.origin == trace[n].origin
    else RunFrom(trace, trace[n].key, r, n)
  }

  lemma OthersOutlive(trace: seq<Event>, runs: map<Key, Run>, n: nat)
    requires n < |trace| && RunsFrom(trace, runs, n)
    requires forall k :: k in runs ==> !Interrupts(trace[n], k) && !IsFragmentOf(trace[n], k)
    ensures RunsFrom(trace, runs, n + 1)
  {
    forall k | k in runs
      ensures RunFrom(trace, k, runs[k], n + 1)
    {
      RunOutlivesOthers(trace, k, runs[k], n);
    }
  }

  lemma ExtendableFacts(trace: seq<Event>, r: Run, n: nat)
    requires n < |trace| && trace[n].Fragment? && Extendable(trace, r, n)
    ensures r.buf == Joined(trace, r.frags)
    ensures r.frags != [] ==>
      && Consecutive(trace, trace[n].key, r.frags, n) && r.frags[|r.frags| - 1] < n && r.frags[0] < n
      && !trace[r.frags[|r.frags| - 1]].isFinal && r.origin == trace[r.frags[0]].origin
    ensures r.frags == [] ==> r.origin == trace[n].origin
  {
  }

  /** The fragments of a run together with the one at `n`. */
  lemma GrownFragments(trace: seq<Event>, r: Run, n: nat)
    requires n < |trace| && trace[n].Fragment? && Extendable(trace, r, n)
    requires trace[n].offset == |r.buf|
    ensures var frags := r.frags + [n];
      && Consecutive(trace, trace[n].key, frags, n + 1)
      && frags[|frags| - 1] == n && frags[0] <= n && r.origin == trace[frags[0]].origin
      && r.buf + trace[n].data == Joined(trace, frags)
  {
    ExtendableFacts(trace, r, n);
    hide Consecutive, Joined, Extendable;
    AppendFragment(trace, trace[n].key, r.frags, n);
    assert (r.frags + [n])[0] == if r.frags == [] then n else r.frags[0];
  }

  lemma GrownRun(trace: seq<Event>, r: Run, n: nat)
    requires n < |trace| && trace[n].Fragment? && !trace[n].isFinal && Extendable(trace, r, n)
    requires trace[n].offset == |r.buf| && |r.buf| + |trace[n].data| <= MAX_PAYLOAD
    ensures RunFrom(trace, trace[n].key, Run(r.origin, r.buf + trace[n].data, trace[n].storeUs, r.frags + [n]), n + 1)
  {
    GrownFragments(trace, r, n);
    hide Consecutive, Joined, Extendable;
  }

  lemma GrownEmits(trace: seq<Event>, r: Run, n: nat)
    requires n < |trace| && trace[n].Fragment? && trace[n].isFinal && Extendable(trace, r, n)
    requires trace[n].offset == |r.buf| && 1 <= |r.buf + trace[n].data| <= MAX_PAYLOAD
    ensures Emits(trace, n, Emission(trace[n].key, r.origin, r.buf + trace[n].data, r.frags + [n]))
  {
    GrownFragments(trace, r, n);
    hide Consecutive, Joined, Extendable;
  }

  lemma PutRun(trace: seq<Event>, runs: map<Key, Run>, k: Key, r: Run, end: nat)
    requires end <= |trace| && RunsFrom(trace, runs - {k}, end) && RunFrom(trace, k, r, end)
    ensures RunsFrom(trace, runs[k := r], end)
  {
    hide RunFrom;
    var after := runs[k := r];
    forall j | j in after
      ensures RunFrom(trace, j, after[j], end)
    {
      if j != k {
        assert j in runs - {k};
      }
    }
  }

  lemma ExtendSound(trace: seq<Event>, b: Book, n: nat)
    requires n < |trace| && trace[n].Fragment? && trace[n].key in b.runs
    requires Extendable(trace, b.runs[trace[n].key], n)
    requires RunsFrom(trace, b.runs - {trace[n].key}, n)
    ensures var (after, m) := Extend(b, n, trace[n]);
      RunsFrom(trace, after.runs, n + 1) && (m.Some? ==> Emits(trace, n, m.value))
  {
    hide RunFrom, Emits, Extendable;
    var e := trace[n];
    var r := b.runs[e.key];
    OthersOutlive(trace, b.runs - {e.key}, n);
    if e.offset == |r.buf| && |r.buf| + |e.data| <= MAX_PAYLOAD {
      if e.isFinal {
        if r.buf + e.data != [] {
          GrownEmits(trace, r, n);
        }
      } else {
        GrownRun(trace, r, n);
        PutRun(trace, b.runs, e.key, Run(r.origin, r.buf + e.data, e.storeUs, r.frags + [n]), n + 1);
      }
    }
  }

  lemma OpenIsExtendable(trace: seq<Event>, r: Run, n: nat)
    requires n < |trace| && trace[n].Fragment? && RunFrom(trace, trace[n].key, r, n)
    ensures Extendable(trace, r, n)
  {
  }

  lemma FragmentSound(trace: seq<Event>, b: Book, n: nat)
    requires n < |trace| && trace[n].Fragment? && RunsFrom(trace, b.runs, n)
    ensures var (after, m) := BookFragment(b, n, trace[n]);
      RunsFrom(trace, after.runs, n + 1) && (m.Some? ==> Emits(trace, n, m.value))
  {
    hide RunFrom, Emits, Extend;
    var e := trace[n];
    var kept := NotStale(b.runs, e.claimUs);
    if e.key in b.runs {
      OpenIsExtendable(trace, b.runs[e.key], n);
      ExtendSound(trace, b, n);
    } else {
      OthersOutlive(trace, b.runs, n);
      OthersOutlive(trace, kept, n);
      if e.offset == 0 && |kept| < POOL_SIZE {
        var claimed := b.(runs := kept[e.key := Run(e.origin, [], e.claimUs, [])]);
        assert claimed.runs - {e.key} == kept;
        ExtendSound(trace, claimed, n);
      }
    }
  }

  /** Any other event only drops runs, and interrupts none that it keeps. */
  lemma KeptRuns(b: Book, n: nat, e: Event)
    requires !e.Fragment?
    ensures var (after, m) := BookStep(b, n, e);
      m.None? && forall k :: k in after.runs ==> k in b.runs && after.runs[k] == b.runs[k] && !Interrupts(e, k)
  {
  }

  lemma StepSound(trace: seq<Event>, b: Book, n: nat)
    requires n < |trace| && RunsFrom(trace, b.runs, n)
    ensures var (after, m) := BookStep(b, n, trace[n]);
      RunsFrom(trace, after.runs, n + 1) && (m.Some? ==> Emits(trace, n, m.value))
  {
    hide RunFrom, Emits, BookFragment, Interrupts;
    if trace[n].Fragment? {
      FragmentSound(trace, b, n);
    } else {
      var after := BookStep(b, n, trace[n]).0.runs;
      KeptRuns(b, n, trace[n]);
      assert RunsFrom(trace, after, n);
      OthersOutlive(trace, after, n);
    }
  }

  lemma {:induction false} RunsSound(trace: seq<Event>, n: nat)
    requires n <= |trace|
    ensures RunsFrom(trace, BookAt(trace, n).runs, n)
    ensures n < |trace| && BookOut(trace, n).Some? ==> Emits(trace, n, BookOut(trace, n).value)
  {
    hide BookStep, RunFrom, Emits;
    if n == 0 {
    } else {
      RunsSound(trace, n - 1);
      StepSound(trace, BookAt(trace, n - 1), n - 1);
    }
    if n < |trace| {
      StepSound(trace, BookAt(trace, n), n);
    }
  }

  /** The fragments behind the value emitted at `n`. */
  function FragmentsOf(trace: seq<Event>, n: nat): seq<nat>
    requires n < |trace| && BookOut(trace, n).Some?
  {
    BookOut(trace, n).value.frags
  }

  /** Soundness: over every trace, each value the pool emits has 1 to 512 bytes and is the
      concatenation of consecutive fragments of one key, with running offsets and no
      interruption, ending in a final one. */
  lemma EmittedIsConcatenation(trace: seq<Event>, n: nat)
    requires n < |trace| && PoolOut(trace, n).Some?
    ensures trace[n].Fragment? && trace[n].isFinal && BookOut(trace, n).Some?
    ensures var frags := FragmentsOf(trace, n); var w := PoolOut(trace, n).value;
      && Consecutive(trace, trace[n].key, frags, n + 1) && frags[|frags| - 1] == n
      && w.payload == Joined(trace, frags) && 1 <= |w.payload| <= 512
      && w.origin == trace[frags[0]].origin
  {
    PoolSimulatesBook(trace, n);
    RunsSound(trace, n);
  }

  /** Each fragment contributes to at most one emission. */
  lemma EmissionsShareNoFragment(trace: seq<Event>, m: nat, n: nat, f: nat)
    requires m < n < |trace| && PoolOut(trace, m).Some? && PoolOut(trace, n).Some?
    ensures BookOut(trace, m).Some? && BookOut(trace, n).Some?
    ensures !(f in FragmentsOf(trace, m) && f in FragmentsOf(trace, n))
  {
    EmittedIsConcatenation(trace, m);
    EmittedIsConcatenation(trace, n);
  }

  function Emissions(trace: seq<Event>, n: nat): nat
    requires n <= |trace|
  {
    if n == 0 then 0 else Emissions(trace, n - 1) + if PoolOut(trace, n - 1).Some? then 1 else 0
  }

  function Finals(trace: seq<Event>, n: nat): nat
    requires n <= |trace|
  {
    if n == 0 then 0
    else Finals(trace, n - 1) + if trace[n - 1].Fragment? && trace[n - 1].isFinal then 1 else 0
  }

  lemma {:induction false} NoMoreEmissionsThanFinals(trace: seq<Event>, n: nat)
    requires n <= |trace|
    ensures Emissions(trace, n) <= Finals(trace, n)
  {
    hide PoolOut, BookOut, FragmentsOf, Consecutive;
    if n == 0 {
    } else {
      NoMoreEmissionsThanFinals(trace, n - 1);
      if PoolOut(trace, n - 1).Some? {
        EmittedIsConcatenation(trace, n - 1);
      }
    }
  }

  // ---------------------------------------------------------------- starts and stops

  /** A start brought the host up before event `n`, and no stop has come since. */
  ghost predicate HostUp(trace: seq<Event>, n: nat)
    requires n <= |trace|
  {
    exists i :: 0 <= i < n && trace[i] == Start(true) && forall j :: i < j < n ==> !trace[j].Stop?
  }

  /** A start came before event `n`, and since then no stop has found the host up. */
  ghost predicate Listening(trace: seq<Event>, n: nat)
    requires n <= |trace|
  {
    exists i :: 0 <= i < n && trace[i].Start? && forall j :: i < j < n && trace[j].Stop? ==> !HostUp(trace, j)
  }

  lemma HostUpNext(trace: seq<Event>, n: nat)
    requires n < |trace|
    ensures HostUp(trace, n + 1) <==>
      trace[n] == Start(true) || (HostUp(trace, n) && !trace[n].Stop?)
  {
  }

  lemma ListeningNext(trace: seq<Event>, n: nat)
    requires n < |trace|
    ensures Listening(trace, n + 1) <==>
      trace[n].Start? || (Listening(trace, n) && !(trace[n].Stop? && HostUp(trace, n)))
  {
    hide HostUp;
  }

  lemma FlagsStep(p: Pool, e: Event)
    ensures var after := PoolStep(p, e).0;
      && after.running == (e == Start(true) || (p.running && !e.Stop?))
      && after.attached == (e.Start? || (p.attached && !(e.Stop? && p.running)))
  {
    hide Sweep, FindSlot, FreeSlot, ReleaseIf;
  }

  /** The two flags are what the starts and stops so far make them. */
  lemma {:induction false} FlagsFollowStarts(trace: seq<Event>, n: nat)
    requires n <= |trace|
    ensures PoolAt(trace, n).running <==> HostUp(trace, n)
    ensures PoolAt(trace, n).attached <==> Listening(trace, n)
  {
    if n == 0 {
    } else {
      assert PoolAt(trace, n) == PoolStep(PoolAt(trace, n - 1), trace[n - 1]).0;
      hide *;
      FlagsFollowStarts(trace, n - 1);
      HostUpNext(trace, n - 1);
      ListeningNext(trace, n - 1);
      FlagsStep(PoolAt(trace, n - 1), trace[n - 1]);
    }
  }

  /** Nothing is emitted unless an observer is listening. */
  lemma EmittedWhileListening(trace: seq<Event>, n: nat)
    requires n < |trace| && PoolOut(trace, n).Some?
    ensures Listening(trace, n)
  {
    FlagsFollowStarts(trace, n);
    hide HostUp, Listening, FindSlot, FreeSlot, Sweep;
  }

  // ---------------------------------------------------------------- non-interference

  /** The bytes of key `k`'s fragments in `trace[a..n]`, joined. */
  function Between(trace: seq<Event>, k: Key, a: nat, n: nat): seq<byte>
    requires n <= |trace|
    decreases n
  {
    if n <= a then []
    else Between(trace, k, a, n - 1) + if IsFragmentOf(trace[n - 1], k) then trace[n - 1].data else []
  }

  /** When the last fragment of key `k` in `trace[a..n]` was stored. */
  function LastStored(trace: seq<Event>, k: Key, a: nat, n: nat): int
    requires a < n <= |trace| && IsFragmentOf(trace[a], k)
    decreases n
  {
    if IsFragmentOf(trace[n - 1], k) then trace[n - 1].storeUs else LastStored(trace, k, a, n - 1)
  }

  /** The clock never goes back: not within the handling of a fragment, nor between fragments. */
  ghost predicate ClockForward(trace: seq<Event>) {
    && (forall i :: 0 <= i < |trace| && trace[i].Fragment? ==> trace[i].claimUs <= trace[i].storeUs)
    && (forall i, j :: 0 <= i < j < |trace| && trace[i].Fragment? && trace[j].Fragment? ==>
          trace[i].storeUs <= trace[j].claimUs)
  }

  /** Between positions `a` and `b` key `k` sends one value: contiguous fragments, only the last
      final, 1 to 512 bytes in all, the connection staying up and the observer attached, with any
      pauses. Fragments of other keys may stand anywhere in between. */
  ghost predicate WholeValue(trace: seq<Event>, k: Key, a: nat, b: nat)
    requires a <= b < |trace|
  {
    && IsFragmentOf(trace[a], k) && IsFragmentOf(trace[b], k)
    && (forall n :: a <= n <= b ==> !Interrupts(trace[n], k) && !trace[n].Stop?)
    && (forall n :: a <= n <= b && IsFragmentOf(trace[n], k) ==>
          && trace[n].offset == |Between(trace, k, a, n)|
          && (trace[n].isFinal <==> n == b))
    && 1 <= |Between(trace, k, a, b + 1)| <= 512
  }

  /** A whole value whose fragments are at most five seconds apart. */
  ghost predicate CleanValue(trace: seq<Event>, k: Key, a: nat, b: nat)
    requires a <= b < |trace|
  {
    && WholeValue(trace, k, a, b)
    && forall n :: a < n <= b && IsFragmentOf(trace[n], k) ==>
         trace[n].claimUs - LastStored(trace, k, a, n) <= 5_000_000
  }

  /** At `n` another key claims a slot and finds the run of `k` idle for more than five seconds. */
  predicate SweptAt(trace: seq<Event>, k: Key, a: nat, n: nat)
    requires a < n < |trace| && IsFragmentOf(trace[a], k)
  {
    var e := trace[n];
    && e.Fragment? && e.key != k && e.key !in BookAt(trace, n).runs && e.offset == 0
    && e.claimUs - LastStored(trace, k, a, n) > 5_000_000
  }

  predicate NeverSwept(trace: seq<Event>, k: Key, a: nat, n: nat)
    requires a < |trace| && n <= |trace|
  {
    IsFragmentOf(trace[a], k) && forall m :: a < m < n ==> !SweptAt(trace, k, a, m)
  }

  /** No run of `k` is open before `a`, and its first fragment finds fewer than four live runs. */
  ghost predicate GetsSlot(trace: seq<Event>, k: Key, a: nat)
    requires a < |trace| && IsFragmentOf(trace[a], k)
  {
    var before := BookAt(trace, a);
    before.attached && k !in before.runs && |NotStale(before.runs, trace[a].claimUs)| < 4
  }

  lemma {:induction false} BetweenGrows(trace: seq<Event>, k: Key, a: nat, m: nat, n: nat)
    requires m <= n <= |trace|
    ensures |Between(trace, k, a, m)| <= |Between(trace, k, a, n)|
    decreases n
  {
    if m < n {
      BetweenGrows(trace, k, a, m, n - 1);
    }
  }

  lemma {:induction false} NextOf(trace: seq<Event>, k: Key, a: nat, n: nat, b: nat) returns (m: nat)
    requires a < n <= b < |trace| && CleanValue(trace, k, a, b)
    ensures n <= m <= b && IsFragmentOf(trace[m], k)
    ensures LastStored(trace, k, a, m) == LastStored(trace, k, a, n)
    decreases b - n
  {
    hide Between;
    if IsFragmentOf(trace[n], k) {
      m := n;
    } else {
      assert n != b;
      m := NextOf(trace, k, a, n + 1, b);
    }
  }

  /** At every fragment inside the value, the gap since its last fragment is within the timeout. */
  lemma GapWithinTimeout(trace: seq<Event>, k: Key, a: nat, n: nat, b: nat)
    requires a < n <= b < |trace| && CleanValue(trace, k, a, b) && ClockForward(trace)
    requires trace[n].Fragment?
    ensures trace[n].claimUs - LastStored(trace, k, a, n) <= TIMEOUT_US
  {
    hide Between, LastStored;
    var m := NextOf(trace, k, a, n, b);
    assert trace[m].claimUs - LastStored(trace, k, a, m) <= TIMEOUT_US;
    assert n < m ==> trace[n].claimUs <= trace[n].storeUs <= trace[m].claimUs;
  }

  /** The open run of `k` just before event `n`. */
  ghost predicate Undisturbed(trace: seq<Event>, k: Key, a: nat, n: nat)
    requires a < n <= |trace| && IsFragmentOf(trace[a], k)
  {
    var book := BookAt(trace, n);
    && book.attached && k in book.runs
    && book.runs[k].origin == trace[a].origin
    && book.runs[k].buf == Between(trace, k, a, n)
    && book.runs[k].lastUs == LastStored(trace, k, a, n)
  }

  /** What a fragment that opens a run leaves of it. */
  lemma OpenedRun(b: Book, n: nat, e: Event)
    requires e.Fragment? && e.key !in b.runs && e.offset == 0
    requires |NotStale(b.runs, e.claimUs)| < POOL_SIZE && |e.data| <= MAX_PAYLOAD
    ensures var (after, m) := BookStep(b, n, e);
      && after.attached == b.attached
      && (!e.isFinal ==>
            m == None && e.key in after.runs && after.runs[e.key] == Run(e.origin, e.data, e.storeUs, [n]))
      && (e.isFinal && b.attached && e.data != [] ==> m == Some(Emission(e.key, e.origin, e.data, [n])))
  {
    assert [] + e.data == e.data;
    assert [] + [n] == [n];
  }

  lemma OnlyOwn(trace: seq<Event>, k: Key, a: nat)
    requires a < |trace| && IsFragmentOf(trace[a], k)
    ensures Between(trace, k, a, a) == [] && Between(trace, k, a, a + 1) == trace[a].data
  {
    assert Between(trace, k, a, a + 1) == Between(trace, k, a, a) + trace[a].data;
  }

  lemma FirstOfValue(trace: seq<Event>, k: Key, a: nat, b: nat)
    requires a <= b < |trace| && WholeValue(trace, k, a, b)
    ensures var e := trace[a];
      && IsFragmentOf(e, k) && e.offset == 0 && |e.data| <= MAX_PAYLOAD
      && (e.isFinal <==> a == b) && (a == b ==> e.data != [])
      && Between(trace, k, a, a + 1) == e.data
  {
    OnlyOwn(trace, k, a);
    BetweenGrows(trace, k, a, a + 1, b + 1);
  }

  lemma LastStoredAtFirst(trace: seq<Event>, k: Key, a: nat)
    requires a < |trace| && IsFragmentOf(trace[a], k)
    ensures LastStored(trace, k, a, a + 1) == trace[a].storeUs
  {
  }

  lemma FirstFragment(trace: seq<Event>, k: Key, a: nat, b: nat)
    requires a <= b < |trace| && WholeValue(trace, k, a, b) && GetsSlot(trace, k, a)
    ensures a < b ==> Undisturbed(trace, k, a, a + 1) && BookOut(trace, a).None?
    ensures a == b ==> BookOut(trace, a).Some? && BookOut(trace, a).value.payload == Between(trace, k, a, a + 1)
                       && BookOut(trace, a).value.origin == trace[a].origin
  {
    FirstOfValue(trace, k, a, b);
    LastStoredAtFirst(trace, k, a);
    hide WholeValue, BookStep, NotStale, LastStored, Between;
    OpenedRun(BookAt(trace, a), a, trace[a]);
    assert BookAt(trace, a + 1) == BookStep(BookAt(trace, a), a, trace[a]).0;
  }

  lemma OwnFragment(trace: seq<Event>, k: Key, a: nat, n: nat, b: nat)
    requires a < n <= b < |trace| && WholeValue(trace, k, a, b)
    requires Undisturbed(trace, k, a, n) && IsFragmentOf(trace[n], k)
    ensures n < b ==> Undisturbed(trace, k, a, n + 1) && BookOut(trace, n).None?
    ensures n == b ==> BookOut(trace, n).Some? && BookOut(trace, n).value.payload == Between(trace, k, a, n + 1)
                       && BookOut(trace, n).value.origin == trace[a].origin
  {
    BetweenGrows(trace, k, a, n + 1, b + 1);
  }

  lemma OtherEvent(trace: seq<Event>, k: Key, a: nat, n: nat, b: nat)
    requires a < n < b < |trace| && WholeValue(trace, k, a, b) && !SweptAt(trace, k, a, n)
    requires Undisturbed(trace, k, a, n) && !IsFragmentOf(trace[n], k)
    ensures Undisturbed(trace, k, a, n + 1)
  {
  }

  lemma {:induction false} StaysUndisturbed(trace: seq<Event>, k: Key, a: nat, n: nat, b: nat)
    requires a < n <= b < |trace| && WholeValue(trace, k, a, b) && GetsSlot(trace, k, a)
    requires NeverSwept(trace, k, a, n)
    ensures Undisturbed(trace, k, a, n)
    decreases n
  {
    hide BookStep, Between, LastStored, SweptAt;
    if n == a + 1 {
      FirstFragment(trace, k, a, b);
    } else {
      StaysUndisturbed(trace, k, a, n - 1, b);
      if IsFragmentOf(trace[n - 1], k) {
        OwnFragment(trace, k, a, n - 1, b);
      } else {
        OtherEvent(trace, k, a, n - 1, b);
      }
    }
  }

  lemma SweepDrops(trace: seq<Event>, k: Key, a: nat, n: nat)
    requires a < n < |trace| && IsFragmentOf(trace[a], k) && SweptAt(trace, k, a, n) && Undisturbed(trace, k, a, n)
    ensures k !in BookAt(trace, n + 1).runs
  {
    hide Between, LastStored;
    var b, e := BookAt(trace, n), trace[n];
    assert k !in NotStale(b.runs, e.claimUs);
  }

  lemma ClosedStaysClosed(b: Book, n: nat, e: Event, k: Key)
    requires k !in b.runs && (IsFragmentOf(e, k) ==> e.offset != 0)
    ensures k !in BookStep(b, n, e).0.runs
    ensures IsFragmentOf(e, k) ==> BookStep(b, n, e).1.None?
  {
  }

  lemma OffsetPastFirst(trace: seq<Event>, k: Key, a: nat, n: nat, b: nat)
    requires a < n <= b < |trace| && WholeValue(trace, k, a, b) && trace[a].data != []
    ensures IsFragmentOf(trace[n], k) ==> trace[n].offset != 0
  {
    OnlyOwn(trace, k, a);
    BetweenGrows(trace, k, a, a + 1, n);
    hide Between;
  }

  /** A value past its first bytes cannot be opened again. */
  lemma StaysGone(trace: seq<Event>, k: Key, a: nat, n: nat, b: nat)
    requires a < n <= b < |trace| && WholeValue(trace, k, a, b) && trace[a].data != []
    requires k !in BookAt(trace, n).runs
    ensures k !in BookAt(trace, n + 1).runs
    ensures IsFragmentOf(trace[n], k) ==> BookOut(trace, n).None?
  {
    OffsetPastFirst(trace, k, a, n, b);
    hide WholeValue, BookStep;
    ClosedStaysClosed(BookAt(trace, n), n, trace[n], k);
  }

  /** A whole value that gets a slot and has bytes in its first fragment. */
  ghost predicate OpenedValue(trace: seq<Event>, k: Key, a: nat, b: nat)
    requires a <= b < |trace|
  {
    WholeValue(trace, k, a, b) && GetsSlot(trace, k, a) && trace[a].data != []
  }

  /** Whether the run of `k` is still open before event `n`. */
  ghost predicate OpenUnlessSwept(trace: seq<Event>, k: Key, a: nat, n: nat)
    requires a < n <= |trace|
  {
    IsFragmentOf(trace[a], k) &&
    if NeverSwept(trace, k, a, n) then Undisturbed(trace, k, a, n) else k !in BookAt(trace, n).runs
  }

  lemma OpenAfterFirst(trace: seq<Event>, k: Key, a: nat, b: nat)
    requires a < b < |trace| && OpenedValue(trace, k, a, b)
    ensures OpenUnlessSwept(trace, k, a, a + 1)
  {
    hide Undisturbed, Between, SweptAt;
    FirstFragment(trace, k, a, b);
  }

  lemma NextOpenUnlessSwept(trace: seq<Event>, k: Key, a: nat, n: nat, b: nat)
    requires a < n < b < |trace| && OpenedValue(trace, k, a, b) && OpenUnlessSwept(trace, k, a, n)
    ensures OpenUnlessSwept(trace, k, a, n + 1)
  {
    hide Between, LastStored, BookStep, SweptAt, Undisturbed, BookAt;
    if !NeverSwept(trace, k, a, n) {
      StaysGone(trace, k, a, n, b);
    } else if SweptAt(trace, k, a, n) {
      SweepDrops(trace, k, a, n);
    } else {
      StaysUndisturbed(trace, k, a, n + 1, b);
    }
  }

  lemma {:induction false} ValueOpenUnlessSwept(trace: seq<Event>, k: Key, a: nat, n: nat, b: nat)
    requires a < n <= b < |trace| && OpenedValue(trace, k, a, b)
    ensures OpenUnlessSwept(trace, k, a, n)
    decreases n
  {
    hide *;
    if n == a + 1 {
      OpenAfterFirst(trace, k, a, b);
    } else {
      ValueOpenUnlessSwept(trace, k, a, n - 1, b);
      NextOpenUnlessSwept(trace, k, a, n - 1, b);
    }
  }

  lemma ValueOut(trace: seq<Event>, k: Key, a: nat, b: nat, n: nat)
    requires a <= n <= b < |trace| && WholeValue(trace, k, a, b) && GetsSlot(trace, k, a)
    requires IsFragmentOf(trace[n], k) && NeverSwept(trace, k, a, n)
    ensures PoolOut(trace, n) ==
      if n == b then Some(ObservedWrite(trace[a].origin, Between(trace, k, a, b + 1))) else None
  {
    PoolSimulatesBook(trace, n);
    if n == a {
      FirstFragment(trace, k, a, b);
    } else {
      StaysUndisturbed(trace, k, a, n, b);
      OwnFragment(trace, k, a, n, b);
    }
  }

  /** Pauses do not by themselves drop a value. One that gets a slot is emitted whole at its final
      fragment exactly when no claim by another key in between finds it idle for more than five
      seconds, and it is emitted nowhere else. */
  lemma ValueEmittedIffNeverSwept(trace: seq<Event>, k: Key, a: nat, b: nat, n: nat)
    requires a <= n <= b < |trace| && OpenedValue(trace, k, a, b) && IsFragmentOf(trace[n], k)
    ensures PoolOut(trace, n) ==
      if n == b && NeverSwept(trace, k, a, b)
      then Some(ObservedWrite(trace[a].origin, Between(trace, k, a, b + 1))) else None
  {
    if NeverSwept(trace, k, a, n) {
      ValueOut(trace, k, a, b, n);
    } else {
      PoolSimulatesBook(trace, n);
      ValueOpenUnlessSwept(trace, k, a, n, b);
      StaysGone(trace, k, a, n, b);
    }
  }

  lemma CleanIsNeverSwept(trace: seq<Event>, k: Key, a: nat, b: nat)
    requires a <= b < |trace| && CleanValue(trace, k, a, b) && ClockForward(trace)
    ensures NeverSwept(trace, k, a, b)
  {
    forall m | a < m < b
      ensures !SweptAt(trace, k, a, m)
    {
      if trace[m].Fragment? {
        GapWithinTimeout(trace, k, a, m, b);
      }
    }
  }

  /** Non-interference: a clean value that gets a slot is emitted once and whole, at its final
      fragment and at no other, whatever fragments of other keys are interleaved. */
  lemma CleanValueEmittedOnce(trace: seq<Event>, k: Key, a: nat, b: nat, n: nat)
    requires a <= n <= b < |trace| && CleanValue(trace, k, a, b) && ClockForward(trace) && GetsSlot(trace, k, a)
    requires IsFragmentOf(trace[n], k)
    ensures PoolOut(trace, n) ==
      if n == b then Some(ObservedWrite(trace[a].origin, Between(trace, k, a, b + 1))) else None
  {
    CleanIsNeverSwept(trace, k, a, b);
    hide SweptAt, WholeValue, GetsSlot, PoolOut, Between;
    ValueOut(trace, k, a, b, n);
  }

  lemma StartedBook(trace: seq<Event>)
    requires |trace| > 1 && trace[0].Start? && trace[1].Fragment?
    ensures BookAt(trace, 1) == Book(map[], true, trace[0].hostUp)
    ensures NotStale(map[], trace[1].claimUs) == map[]
  {
    assert BookAt(trace, 0) == Book(map[], false, false);
  }

  /** An instance: ten seconds pass inside a value, no other key claims a slot, and the stale
      first half is joined to the second. */
  lemma StalePrefixIsJoined(k: Key, origin: Origin)
    ensures var trace := [Start(true), Fragment(k, origin, 0, [1], false, 0, 0),
                          Fragment(k, origin, 1, [2], true, 10_000_000, 10_000_000)];
      PoolOut(trace, 2) == Some(ObservedWrite(origin, [1, 2]))
  {
    var trace := [Start(true), Fragment(k, origin, 0, [1], false, 0, 0),
                  Fragment(k, origin, 1, [2], true, 10_000_000, 10_000_000)];
    StartedBook(trace);
    OnlyOwn(trace, k, 1);
    assert Between(trace, k, 1, 3) == Between(trace, k, 1, 2) + [2];
    assert [1] + [2] == [1, 2];
    hide PoolOut, BookAt, Between, LastStored, NotStale;
    assert WholeValue(trace, k, 1, 2);
    ValueOut(trace, k, 1, 2, 2);
  }

  lemma WriteIntoEmpty(b: Book, n: nat, e: Event)
    requires e.Fragment? && e.offset == 0 && e.isFinal && b.runs == map[] && b.attached
    ensures BookStep(b, n, e).1 ==
      if 1 <= |e.data| <= 512 then Some(Emission(e.key, e.origin, e.data, [n])) else None
  {
    assert NotStale(b.runs, e.claimUs) == map[];
    assert [] + e.data == e.data && [] + [n] == [n];
  }

  /** The simplest instance: after a start, a single final fragment is emitted as it is exactly when it
      has 1 to 512 bytes. */
  lemma SingleWriteEmitted(k: Key, origin: Origin, data: seq<byte>, now: int, hostUp: bool)
    ensures PoolOut([Start(hostUp), Fragment(k, origin, 0, data, true, now, now)], 1)
            == if 1 <= |data| <= 512 then Some(ObservedWrite(origin, data)) else None
  {
    var trace := [Start(hostUp), Fragment(k, origin, 0, data, true, now, now)];
    StartedBook(trace);
    PoolSimulatesBook(trace, 1);
    hide PoolOut, BookAt, BookStep, NotStale;
    WriteIntoEmpty(BookAt(trace, 1), 1, trace[1]);
  }
}
