/** The metering protocol end to end, as a transition system: one observer process and report
    processes that run one after another over one store, a network that may lose, repeat,
    delay, reorder and alter messages but not forge signatures, and an atomic backend. A
    process can stop between any two durable writes. */
module Protocol {
  import opened Common
  import opened Canonical
  import opened Backend
  import opened Matching
  import opened Gateway
  import Policy

  /** `Counting` is between append_event and save_counter, the live count already raised. */
  datatype ObserverProcess = Down | Watching(live: Live) | Counting(live: Live, device: string)

  /** `Read` is after _load; `Posting` is after save_sequence, with `todo` still to be signed. */
  datatype ReportProcess =
    | Off
    | Read(live: Live)
    | Posting(sequence: int, counts: map<string, int>, todo: set<string>, windowStart: int, now: int)

  /** `signed` is what the gateway's key has signed so far. `lost` counts, per device, the logged
      events whose count never became durable. */
  datatype World = World(
    disk: Disk, observer: ObserverProcess, reporter: ReportProcess,
    signed: set<ReportTuple>, db: Db, lost: map<string, int>)

  const START := World(BLANK, Down, Off, {}, EMPTY, map[])

  datatype Action =
    | StartObserver | Observe(write: Write) | Save | StopObserver
    | StartReport | TakeSequence(now: int, interval: int) | Sign(device: string) | StopReport
    | Enroll(device: string, key: KeyText) | Arrive(report: UsageReport)

  /** Ideal signatures: a signature of the gateway's key can only be one it has made. */
  predicate Presentable(key: KeyId, signed: set<ReportTuple>, r: UsageReport) {
    r.signature.Signed? && r.signature.signer == key ==>
      exists t :: t in signed && GatewayBytes(t) == Ok(r.signature.message)
  }

  function AddOne(lost: map<string, int>, d: string): map<string, int> {
    lost[d := GetOrZero(lost, d) + 1]
  }

  function ObserverStep(rules: seq<Rule>, s: World, a: Action): World {
    match (a, s.observer)
    case (StartObserver, Down) => s.(observer := Watching(Loaded(s.disk)))
    case (Observe(w), Watching(live)) =>
      var event := Classify(rules, w);
      (match AppendEvent(s.disk, EventRowFor(w, event, live.sequence))
       case Err(_) => s
       case Ok(logged) =>
         if event == UNKNOWN then s.(disk := logged)
         else s.(disk := logged, observer := Counting(Increment(live, w.peer), w.peer)))
    case (Save, Counting(live, d)) =>
      (match SaveCounter(s.disk, d, GetOrZero(live.counts, d))
       case Ok(disk) => s.(disk := disk, observer := Watching(live))
       case Err(_) => s.(observer := Watching(live), lost := AddOne(s.lost, d)))
    case (StopObserver, Counting(_, d)) => s.(observer := Down, lost := AddOne(s.lost, d))
    case (StopObserver, _) => s.(observer := Down)
    case _ => s
  }

  function TupleIn(p: ReportProcess, d: string): ReportTuple
    requires p.Posting?
  {
    BatchTuple(p.counts, d, p.sequence, p.windowStart, p.now)
  }

  function ReporterStep(s: World, a: Action): World {
    match (a, s.reporter)
    case (StartReport, Off) => s.(reporter := Read(Loaded(s.disk)))
    case (TakeSequence(now, interval), Read(live)) =>
      var sequence := live.sequence + 1;
      (match SaveSequence(s.disk, sequence)
       case Ok(disk) =>
         s.(disk := disk, reporter := Posting(sequence, live.counts, live.counts.Keys, now - interval, now))
       case Err(_) => s.(reporter := Off))
    case (Sign(d), Posting(_, _, todo, _, _)) =>
      if d !in todo then s
      else if GatewayBytes(TupleIn(s.reporter, d)).Err? then s.(reporter := Off)
      else s.(signed := s.signed + {TupleIn(s.reporter, d)},
              reporter := s.reporter.(todo := todo - {d}))
    case (StopReport, _) => s.(reporter := Off)
    case _ => s
  }

  function BackendStep(key: KeyId, s: World, a: Action): World {
    match a
    case Enroll(d, k) => s.(db := Register(s.db, d, k).0)
    case Arrive(r) => if Presentable(key, s.signed, r) then s.(db := Post(s.db, r).0) else s
    case _ => s
  }

  function Step(rules: seq<Rule>, key: KeyId, s: World, a: Action): World {
    if a.Enroll? || a.Arrive? then BackendStep(key, s, a)
    else if a.StartReport? || a.TakeSequence? || a.Sign? || a.StopReport? then ReporterStep(s, a)
    else ObserverStep(rules, s, a)
  }

  function Run(rules: seq<Rule>, key: KeyId, s: World, actions: seq<Action>): World
    decreases |actions|
  {
    if actions == [] then s else Run(rules, key, Step(rules, key, s, actions[0]), actions[1..])
  }

  // ---------------------------------------------------------------- invariants

  function StoredCount(disk: Disk, d: string): int {
    GetOrZero(disk.counters, d)
  }

  ghost predicate DiskOk(disk: Disk) {
    && LoadSequence(disk) >= 0
    && forall d :: d in disk.counters ==> disk.counters[d] >= 0 && FitsSqlite(disk.counters[d])
  }

  /** A live count equals the stored one, or has outgrown what the store can hold. */
  predicate Tracks(live: int, stored: int) {
    live == stored || (stored < live && !FitsSqlite(live))
  }

  ghost predicate ObserverOk(disk: Disk, o: ObserverProcess) {
    match o
    case Down => true
    case Watching(live) => forall d :: Tracks(GetOrZero(live.counts, d), StoredCount(disk, d))
    case Counting(live, e) => forall d ::
      Tracks(GetOrZero(live.counts, d) - (if d == e then 1 else 0), StoredCount(disk, d))
  }

  function Pending(o: ObserverProcess, d: string): int {
    if o.Counting? && o.device == d then 1 else 0
  }

  /** Every recognised event in the log is counted on disk, lost, or about to be saved. */
  ghost predicate Accounted(disk: Disk, o: ObserverProcess, lost: map<string, int>) {
    forall d :: Recognised(disk.events, d) == StoredCount(disk, d) + GetOrZero(lost, d) + Pending(o, d)
  }

  ghost predicate LostOk(lost: map<string, int>) {
    forall d :: GetOrZero(lost, d) >= 0
  }

  /** Along one device's signed reports, sequence decides count, and later means no less. */
  ghost predicate Ordered(signed: set<ReportTuple>) {
    forall t, u :: t in signed && u in signed && t.deviceId == u.deviceId ==>
      && (t.sequence == u.sequence ==> t == u)
      && (t.sequence < u.sequence ==> t.count <= u.count)
  }

  ghost predicate SignedOk(signed: set<ReportTuple>, disk: Disk) {
    && Ordered(signed)
    && forall t :: t in signed ==>
         Encodable(t) && t.sequence <= LoadSequence(disk) && t.count <= StoredCount(disk, t.deviceId)
  }

  ghost predicate CountsWithin(counts: map<string, int>, disk: Disk) {
    forall d :: GetOrZero(counts, d) <= StoredCount(disk, d)
  }

  ghost predicate ReporterOk(p: ReportProcess, signed: set<ReportTuple>, disk: Disk) {
    match p
    case Off => true
    case Read(live) =>
      && live.sequence == LoadSequence(disk) && CountsWithin(live.counts, disk)
      && forall t :: t in signed ==> t.count <= GetOrZero(live.counts, t.deviceId)
    case Posting(sequence, counts, todo, _, _) =>
      && sequence == LoadSequence(disk) && CountsWithin(counts, disk)
      && forall t :: t in signed ==>
           if t.sequence == sequence then t == TupleIn(p, t.deviceId) && t.deviceId !in todo
           else t.count <= GetOrZero(counts, t.deviceId)
  }

  predicate RowFrom(row: Row, t: ReportTuple) {
    row.deviceId == t.deviceId && row.count == t.count && row.sequence == t.sequence
  }

  ghost predicate RowsSigned(db: Db, signed: set<ReportTuple>, key: KeyId) {
    forall row :: row in db.rows && row.deviceId in db.devices && db.devices[row.deviceId].key == Key(key) ==>
      exists t :: t in signed && RowFrom(row, t)
  }

  /** What the gateway's side keeps, whatever the backend does. */
  ghost predicate GatewaySafe(s: World) {
    && DiskOk(s.disk) && ObserverOk(s.disk, s.observer)
    && Accounted(s.disk, s.observer, s.lost) && LostOk(s.lost)
    && SignedOk(s.signed, s.disk) && ReporterOk(s.reporter, s.signed, s.disk)
  }

  ghost predicate Safe(key: KeyId, s: World) {
    GatewaySafe(s) && Consistent(s.db) && RowsSigned(s.db, s.signed, key)
  }

  // ---------------------------------------------------------------- observer steps

  lemma LogKeepsAccounts(disk: Disk, o: ObserverProcess, o': ObserverProcess, lost: map<string, int>, row: EventRow)
    requires Accounted(disk, o, lost) && o.Watching?
    requires if row.event == UNKNOWN then o' == o else o'.Counting? && o'.device == row.deviceId
    ensures Accounted(WithEvent(disk, row), o', lost)
  {
    forall d
      ensures Recognised(WithEvent(disk, row).events, d) ==
              StoredCount(disk, d) + GetOrZero(lost, d) + Pending(o', d)
    {
      RecognisedSnoc(disk.events, row, d);
    }
  }

  /** Saving the next count: the rollback trigger stays silent, and the store moves by one. */
  lemma SaveVerdict(disk: Disk, live: Live, d: string)
    requires DiskOk(disk) && ObserverOk(disk, Counting(live, d))
    ensures var count := GetOrZero(live.counts, d);
      SaveCounter(disk, d, count) ==
        if FitsSqlite(count) then Ok(disk.(counters := disk.counters[d := StoredCount(disk, d) + 1]))
        else Err(Overflow)
  {
    assert Tracks(GetOrZero(live.counts, d) - 1, StoredCount(disk, d));
  }

  lemma SaveKeepsTracking(disk: Disk, live: Live, d: string)
    requires DiskOk(disk) && ObserverOk(disk, Counting(live, d))
    ensures match SaveCounter(disk, d, GetOrZero(live.counts, d))
      case Ok(after) => ObserverOk(after, Watching(live))
      case Err(_) => ObserverOk(disk, Watching(live))
  {
    SaveVerdict(disk, live, d);
    assert Tracks(GetOrZero(live.counts, d) - 1, StoredCount(disk, d));
  }

  lemma LogKeepsTracking(disk: Disk, live: Live, row: EventRow, d: string)
    requires ObserverOk(disk, Watching(live))
    ensures ObserverOk(WithEvent(disk, row), Watching(live))
    ensures ObserverOk(WithEvent(disk, row), Counting(Increment(live, d), d))
  {
    assert forall e :: Tracks(GetOrZero(live.counts, e), StoredCount(disk, e));
  }

  /** Stored counts and the stored sequence only grow. */
  ghost predicate Grows(disk: Disk, after: Disk) {
    && LoadSequence(disk) == LoadSequence(after)
    && forall d :: StoredCount(disk, d) <= StoredCount(after, d)
  }

  lemma GrowthKeepsReports(disk: Disk, after: Disk, signed: set<ReportTuple>, p: ReportProcess)
    requires Grows(disk, after) && SignedOk(signed, disk) && ReporterOk(p, signed, disk)
    ensures SignedOk(signed, after) && ReporterOk(p, signed, after)
  {
    forall counts | CountsWithin(counts, disk)
      ensures CountsWithin(counts, after)
    {
      forall d
        ensures GetOrZero(counts, d) <= StoredCount(after, d)
      {
        assert StoredCount(disk, d) <= StoredCount(after, d);
      }
    }
  }

  lemma ObserveSafe(rules: seq<Rule>, s: World, w: Write)
    requires GatewaySafe(s) && s.observer.Watching?
    ensures GatewaySafe(ObserverStep(rules, s, Observe(w)))
  {
    var t := ObserverStep(rules, s, Observe(w));
    var row := EventRowFor(w, Classify(rules, w), s.observer.live.sequence);
    if FitsSqlite(row.sequence) {
      LogKeepsAccounts(s.disk, s.observer, t.observer, s.lost, row);
      LogKeepsTracking(s.disk, s.observer.live, row, w.peer);
      GrowthKeepsReports(s.disk, t.disk, s.signed, s.reporter);
    }
  }

  lemma SaveKeepsAccounts(disk: Disk, live: Live, d: string, lost: map<string, int>)
    requires DiskOk(disk) && ObserverOk(disk, Counting(live, d))
    requires Accounted(disk, Counting(live, d), lost) && LostOk(lost)
    ensures match SaveCounter(disk, d, GetOrZero(live.counts, d))
      case Ok(after) => DiskOk(after) && Grows(disk, after) && Accounted(after, Watching(live), lost)
      case Err(_) => Accounted(disk, Watching(live), AddOne(lost, d)) && LostOk(AddOne(lost, d))
  {
    SaveVerdict(disk, live, d);
    assert Tracks(GetOrZero(live.counts, d) - 1, StoredCount(disk, d));
    var after := disk.(counters := disk.counters[d := StoredCount(disk, d) + 1]);
    forall e
      ensures FitsSqlite(GetOrZero(live.counts, d)) ==>
        Recognised(after.events, e) == StoredCount(after, e) + GetOrZero(lost, e) + Pending(Watching(live), e)
      ensures Recognised(disk.events, e) ==
        StoredCount(disk, e) + GetOrZero(AddOne(lost, d), e) + Pending(Watching(live), e)
    {
      assert Pending(Counting(live, d), e) == if d == e then 1 else 0;
    }
  }

  lemma SaveSafe(rules: seq<Rule>, s: World)
    requires GatewaySafe(s) && s.observer.Counting?
    ensures GatewaySafe(ObserverStep(rules, s, Save))
  {
    var live, d := s.observer.live, s.observer.device;
    assert s.observer == Counting(live, d);
    var t := ObserverStep(rules, s, Save);
    SaveKeepsAccounts(s.disk, live, d, s.lost);
    SaveKeepsTracking(s.disk, live, d);
    hide DiskOk, ObserverOk, Accounted, LostOk, SignedOk, ReporterOk, SaveCounter;
    if t.disk != s.disk {
      GrowthKeepsReports(s.disk, t.disk, s.signed, s.reporter);
    }
  }

  lemma StopKeepsAccounts(disk: Disk, o: ObserverProcess, lost: map<string, int>)
    requires Accounted(disk, o, lost) && LostOk(lost) && o.Counting?
    ensures Accounted(disk, Down, AddOne(lost, o.device)) && LostOk(AddOne(lost, o.device))
  {
    forall e
      ensures Recognised(disk.events, e) ==
        StoredCount(disk, e) + GetOrZero(AddOne(lost, o.device), e) + Pending(Down, e)
    {
      assert Pending(o, e) == if o.device == e then 1 else 0;
    }
  }

  lemma StartOrStopSafe(rules: seq<Rule>, s: World, a: Action)
    requires GatewaySafe(s)
    requires !(a.Observe? && s.observer.Watching?) && !(a.Save? && s.observer.Counting?)
    ensures GatewaySafe(ObserverStep(rules, s, a))
  {
    if a.StopObserver? && s.observer.Counting? {
      StopKeepsAccounts(s.disk, s.observer, s.lost);
    }
  }

  lemma ObserverFrame(rules: seq<Rule>, s: World, a: Action)
    ensures ObserverStep(rules, s, a).db == s.db && ObserverStep(rules, s, a).signed == s.signed
  {
  }

  lemma ObserverStepSafe(rules: seq<Rule>, s: World, a: Action)
    requires GatewaySafe(s)
    ensures GatewaySafe(ObserverStep(rules, s, a))
    ensures ObserverStep(rules, s, a).db == s.db && ObserverStep(rules, s, a).signed == s.signed
  {
    ObserverFrame(rules, s, a);
    hide GatewaySafe, ObserverStep;
    if a.Observe? && s.observer.Watching? {
      ObserveSafe(rules, s, a.write);
    } else if a.Save? && s.observer.Counting? {
      SaveSafe(rules, s);
    } else {
      StartOrStopSafe(rules, s, a);
    }
  }

  // ---------------------------------------------------------------- reporter steps

  lemma SignSafe(s: World, d: string)
    requires SignedOk(s.signed, s.disk) && ReporterOk(s.reporter, s.signed, s.disk)
    requires s.reporter.Posting? && d in s.reporter.todo
    requires GatewayBytes(TupleIn(s.reporter, d)).Ok?
    ensures var t := ReporterStep(s, Sign(d));
      SignedOk(t.signed, t.disk) && ReporterOk(t.reporter, t.signed, t.disk)
  {
    PythonEncodersAgree(TupleIn(s.reporter, d));
  }

  lemma ReporterStepSafe(s: World, a: Action)
    requires GatewaySafe(s)
    ensures GatewaySafe(ReporterStep(s, a))
    ensures ReporterStep(s, a).db == s.db && s.signed <= ReporterStep(s, a).signed
  {
    if a.Sign? && s.reporter.Posting? && a.device in s.reporter.todo &&
       GatewayBytes(TupleIn(s.reporter, a.device)).Ok?
    {
      SignSafe(s, a.device);
    }
  }

  lemma RowsStaySigned(db: Db, signed: set<ReportTuple>, more: set<ReportTuple>, key: KeyId)
    requires RowsSigned(db, signed, key) && signed <= more
    ensures RowsSigned(db, more, key)
  {
  }

  // ---------------------------------------------------------------- backend steps

  /** Accepted means signed: under the gateway's key, the report is at whole-second resolution
      a tuple the gateway signed. */
  lemma AcceptedMeansSigned(key: KeyId, signed: set<ReportTuple>, devices: map<string, Device>, r: UsageReport)
    requires forall t :: t in signed ==> Encodable(t)
    requires Presentable(key, signed, r)
    requires r.deviceId in devices && devices[r.deviceId].key == Key(key)
    requires CheckSignature(r, devices[r.deviceId].key).Pass?
    ensures TupleFor(r) in signed
  {
    var t :| t in signed && GatewayBytes(t) == Ok(r.signature.message);
    PythonEncodersAgree(t);
    PythonEncodersAgree(TupleFor(r));
    EncodingInjective(t, TupleFor(r));
  }

  lemma AppendSigned(key: KeyId, signed: set<ReportTuple>, db: Db, row: Row, t: ReportTuple)
    requires RowsSigned(db, signed, key) && row.deviceId in db.devices
    requires db.devices[row.deviceId].key == Key(key) ==> t in signed && RowFrom(row, t)
    ensures RowsSigned(AppendRow(db, row), signed, key)
  {
    var after := AppendRow(db, row);
    forall r | r in after.rows && r.deviceId in after.devices && after.devices[r.deviceId].key == Key(key)
      ensures exists u :: u in signed && RowFrom(r, u)
    {
      if r in db.rows {
        assert db.devices[r.deviceId].key == Key(key);
      } else {
        assert r == row;
      }
    }
  }

  lemma AcceptedAppends(db: Db, r: UsageReport)
    requires Post(db, r).1.Accepted?
    ensures r.deviceId in db.devices && Post(db, r).0 == AppendRow(db, RowFor(r))
  {
    hide CheckSignature;
  }

  lemma ArriveSafe(key: KeyId, signed: set<ReportTuple>, db: Db, r: UsageReport)
    requires forall t :: t in signed ==> Encodable(t)
    requires Consistent(db) && RowsSigned(db, signed, key) && Presentable(key, signed, r)
    ensures Consistent(Post(db, r).0) && RowsSigned(Post(db, r).0, signed, key)
  {
    PostKeepsConsistent(db, r);
    AcceptedIff(db, r);
    if Post(db, r).1.Accepted? {
      AcceptedAppends(db, r);
      hide Post, Consistent, CheckSignature, Canonical.Encodable, Presentable, RowsSigned;
      if db.devices[r.deviceId].key == Key(key) {
        AcceptedMeansSigned(key, signed, db.devices, r);
      }
      AppendSigned(key, signed, db, RowFor(r), TupleFor(r));
    }
  }

  lemma EnrollSafe(key: KeyId, signed: set<ReportTuple>, db: Db, d: string, k: KeyText)
    requires Consistent(db) && RowsSigned(db, signed, key)
    ensures Consistent(Register(db, d, k).0) && RowsSigned(Register(db, d, k).0, signed, key)
  {
    RegisterKeepsConsistent(db, d, k);
  }

  lemma StepSafe(rules: seq<Rule>, key: KeyId, s: World, a: Action)
    requires Safe(key, s)
    ensures Safe(key, Step(rules, key, s, a))
  {
    hide DiskOk, ObserverOk, Accounted, LostOk, Ordered, ReporterOk, Consistent, RowsSigned;
    hide ObserverStep, ReporterStep, Post, Register, Presentable;
    match a {
      case Enroll(d, k) => EnrollSafe(key, s.signed, s.db, d, k);
      case Arrive(r) =>
        if Presentable(key, s.signed, r) {
          ArriveSafe(key, s.signed, s.db, r);
        }
      case _ =>
        if a.StartReport? || a.TakeSequence? || a.Sign? || a.StopReport? {
          ReporterStepSafe(s, a);
          RowsStaySigned(s.db, s.signed, ReporterStep(s, a).signed, key);
        } else {
          ObserverStepSafe(rules, s, a);
        }
    }
  }

  /** The invariant holds after every run from any safe state, hence from the blank start. */
  lemma {:induction false} EveryRunSafe(rules: seq<Rule>, key: KeyId, s: World, actions: seq<Action>)
    requires Safe(key, s)
    ensures Safe(key, Run(rules, key, s, actions))
    decreases |actions|
  {
    if actions == [] {
    } else {
      StepSafe(rules, key, s, actions[0]);
      EveryRunSafe(rules, key, Step(rules, key, s, actions[0]), actions[1..]);
    }
  }

  lemma EveryRunFromStartSafe(rules: seq<Rule>, key: KeyId, actions: seq<Action>)
    ensures Safe(key, Run(rules, key, START, actions))
  {
    EveryRunSafe(rules, key, START, actions);
  }

  // ---------------------------------------------------------------- consequences

  /** The pipeline's one call is the protocol's two steps, log and save, run without a stop. */
  lemma HandleIsObserveThenSave(rules: seq<Rule>, s: World, w: Write)
    requires s.observer.Watching?
    ensures var after := ObserverStep(rules, ObserverStep(rules, s, Observe(w)), Save);
      var (disk, live, _) := Handled(rules, s.disk, s.observer.live, w);
      after.disk == disk && after.observer == Watching(live)
  {
  }

  /** The marks of a device under the gateway's key are (-1, 0) or those of a signed report. */
  lemma MarksAreSigned(key: KeyId, signed: set<ReportTuple>, db: Db, d: string)
    requires d in db.devices && db.devices[d].key == Key(key)
    requires MarksMatch(db.devices[d], RowsOf(db.rows, d)) && RowsSigned(db, signed, key)
    ensures var device := db.devices[d];
      (device.lastSequence == -1 && device.lastCount == 0) ||
      exists t :: t in signed && t.deviceId == d && t.sequence == device.lastSequence && t.count == device.lastCount
  {
    var mine := RowsOf(db.rows, d);
    RowsOfMembers(db.rows, d);
    if mine != [] {
      var row := mine[|mine| - 1];
      assert row in mine;
      var t :| t in signed && RowFrom(row, t);
      assert t.deviceId == d && t.sequence == db.devices[d].lastSequence;
    }
  }

  /** The backend never holds more than the gateway's store: accepted count and sequence stay
      within the durable ones, and the durable count within the events logged. */
  lemma AcceptedWithinDurable(rules: seq<Rule>, key: KeyId, actions: seq<Action>, d: string)
    ensures var s := Run(rules, key, START, actions);
      d in s.db.devices && s.db.devices[d].key == Key(key) ==>
        && s.db.devices[d].lastSequence <= LoadSequence(s.disk)
        && s.db.devices[d].lastCount <= StoredCount(s.disk, d) <= Recognised(s.disk.events, d)
  {
    EveryRunFromStartSafe(rules, key, actions);
    var s := Run(rules, key, START, actions);
    if d in s.db.devices && s.db.devices[d].key == Key(key) {
      MarksAreSigned(key, s.signed, s.db, d);
    }
  }

  /** After any run, with stops anywhere, the store accepts the next batch's sequence, and it is
      strictly above every sequence signed so far. */
  lemma EveryBatchFresh(rules: seq<Rule>, key: KeyId, actions: seq<Action>, now: int, interval: int)
    requires Run(rules, key, START, actions).reporter.Read?
    ensures var s := Run(rules, key, START, actions);
      var t := ReporterStep(s, TakeSequence(now, interval));
      && t.reporter.Posting? && LoadSequence(t.disk) == t.reporter.sequence
      && forall u :: u in s.signed ==> u.sequence < t.reporter.sequence
  {
    EveryRunFromStartSafe(rules, key, actions);
  }

  /** What is signed for a device: the count and the sequence after the one the process loaded, and a
      window that ends at the batch's time and is one interval long. */
  lemma SignedForDevice(rules: seq<Rule>, key: KeyId, s: World, now: int, interval: int, d: string)
    requires GatewaySafe(s) && s.reporter.Read? && d in s.reporter.live.counts
    ensures var t := ReportTuple(d, s.reporter.live.counts[d], LoadSequence(s.disk) + 1, now - interval, now);
      var after := Run(rules, key, s, [TakeSequence(now, interval), Sign(d)]);
      && after.signed == (if Encodable(t) then s.signed + {t} else s.signed)
      && LoadSequence(after.disk) == t.sequence
  {
    var t := ReportTuple(d, s.reporter.live.counts[d], LoadSequence(s.disk) + 1, now - interval, now);
    PythonEncodersAgree(t);
    var taken := Step(rules, key, s, TakeSequence(now, interval));
    assert TupleIn(taken.reporter, d) == t;
    hide GatewayBytes, BackendBytes, Encodable;
    assert [TakeSequence(now, interval), Sign(d)][1..] == [Sign(d)];
    var after := Step(rules, key, taken, Sign(d));
    assert Run(rules, key, taken, [Sign(d)]) == after;
  }

  /** Over whole runs: among one device's signed reports the sequence determines the report, and
      a later sequence never carries a lower count. */
  lemma SignedHistoryOrdered(rules: seq<Rule>, key: KeyId, actions: seq<Action>)
    ensures Ordered(Run(rules, key, START, actions).signed)
  {
    EveryRunFromStartSafe(rules, key, actions);
  }

  /** What the backend can tell of a report: it is well formed, from a device under the gateway's
      key, and signed with that key. */
  predicate Authentic(key: KeyId, s: World, r: UsageReport) {
    && r.deviceId in s.db.devices && s.db.devices[r.deviceId].key == Key(key)
    && WellFormed(r) && Presentable(key, s.signed, r) && CheckSignature(r, Key(key)).Pass?
  }

  lemma CountIsStorable(s: World, t: ReportTuple)
    requires GatewaySafe(s) && t in s.signed
    ensures FitsSqlite(t.count)
  {
    assert t.count <= StoredCount(s.disk, t.deviceId);
  }

  lemma VerdictAt(key: KeyId, s: World, r: UsageReport)
    requires Safe(key, s) && Authentic(key, s, r)
    ensures TupleFor(r) in s.signed
    ensures Post(s.db, r).1 ==
      if r.sequence <= s.db.devices[r.deviceId].lastSequence then Rejected(Replay)
      else if FitsSqlite(r.sequence) then Accepted(r.deviceId, r.sequence, r.count)
      else ServerError
  {
    AcceptedMeansSigned(key, s.signed, s.db.devices, r);
    MarksAreSigned(key, s.signed, s.db, r.deviceId);
    CountIsStorable(s, TupleFor(r));
    AcceptedIff(s.db, r);
  }

  /** For an authentic report of the gateway, freshness of the sequence alone decides: it is
      accepted, or refused as a replay. It is never a count rollback. */
  lemma HonestVerdict(rules: seq<Rule>, key: KeyId, actions: seq<Action>, r: UsageReport)
    requires Authentic(key, Run(rules, key, START, actions), r)
    ensures var s := Run(rules, key, START, actions);
      Post(s.db, r).1 ==
        if r.sequence <= s.db.devices[r.deviceId].lastSequence then Rejected(Replay)
        else if FitsSqlite(r.sequence) then Accepted(r.deviceId, r.sequence, r.count)
        else ServerError
  {
    EveryRunFromStartSafe(rules, key, actions);
    hide *;
    VerdictAt(key, Run(rules, key, START, actions), r);
  }

  /** In a safe world that is posting a batch, a mark at the batch's sequence is the batch's own. */
  lemma TopMarkIsBatch(key: KeyId, s: World, d: string)
    requires Safe(key, s) && s.reporter.Posting?
    requires d in s.db.devices && s.db.devices[d].key == Key(key)
    ensures s.db.devices[d].lastSequence <= s.reporter.sequence
    ensures s.db.devices[d].lastSequence == s.reporter.sequence ==>
      s.db.devices[d].lastCount == GetOrZero(s.reporter.counts, d)
  {
    MarksAreSigned(key, s.signed, s.db, d);
  }

  lemma CatchesUpAt(key: KeyId, s: World, r: UsageReport)
    requires Safe(key, s) && Authentic(key, s, r)
    requires s.reporter.Posting? && r.sequence == s.reporter.sequence && FitsSqlite(r.sequence)
    ensures r.deviceId in Post(s.db, r).0.devices
    ensures Post(s.db, r).0.devices[r.deviceId] ==
      s.db.devices[r.deviceId].(lastSequence := r.sequence, lastCount := GetOrZero(s.reporter.counts, r.deviceId))
  {
    VerdictAt(key, s, r);
    TopMarkIsBatch(key, s, r.deviceId);
    AcceptedIff(s.db, r);
    if Post(s.db, r).1.Accepted? {
      AcceptedAppends(s.db, r);
    }
  }

  /** Catching up: after any run that is posting a batch, whatever arrived before, when an authentic
      storable report of that batch arrives the marks are exactly the batch's. */
  lemma BatchReportCatchesUp(rules: seq<Rule>, key: KeyId, actions: seq<Action>, r: UsageReport)
    requires var s := Run(rules, key, START, actions);
      && s.reporter.Posting? && Authentic(key, s, r)
      && r.sequence == s.reporter.sequence && FitsSqlite(r.sequence)
    ensures var s := Run(rules, key, START, actions);
      Post(s.db, r).0.devices[r.deviceId] ==
        s.db.devices[r.deviceId].(lastSequence := r.sequence, lastCount := GetOrZero(s.reporter.counts, r.deviceId))
  {
    EveryRunFromStartSafe(rules, key, actions);
    CatchesUpAt(key, Run(rules, key, START, actions), r);
  }

  /** No arriving report, honest or altered, is ever refused as a count rollback for a device
      enrolled with the gateway's key. */
  lemma CountRollbackUnreachable(rules: seq<Rule>, key: KeyId, actions: seq<Action>, r: UsageReport)
    requires var s := Run(rules, key, START, actions);
      && r.deviceId in s.db.devices && s.db.devices[r.deviceId].key == Key(key)
      && Presentable(key, s.signed, r)
    ensures Post(Run(rules, key, START, actions).db, r).1 != Rejected(CountRollback)
  {
    var s := Run(rules, key, START, actions);
    if WellFormed(r) && CheckSignature(r, Key(key)).Pass? {
      HonestVerdict(rules, key, actions, r);
    }
  }

  /** Whether an action taken in `s` loses a logged event of device `d`: the observer stops between
      logging and saving, or the store cannot hold the count. */
  predicate Loses(s: World, a: Action, d: string) {
    s.observer.Counting? && s.observer.device == d &&
    (a.StopObserver? || (a.Save? && SaveCounter(s.disk, d, GetOrZero(s.observer.live.counts, d)).Err?))
  }

  /** How many actions of a run lose an event of device `d`. */
  function LostAlong(rules: seq<Rule>, key: KeyId, s: World, actions: seq<Action>, d: string): nat
    decreases |actions|
  {
    if actions == [] then 0
    else
      (if Loses(s, actions[0], d) then 1 else 0) +
      LostAlong(rules, key, Step(rules, key, s, actions[0]), actions[1..], d)
  }

  lemma StepLoses(rules: seq<Rule>, key: KeyId, s: World, a: Action, d: string)
    ensures GetOrZero(Step(rules, key, s, a).lost, d) == GetOrZero(s.lost, d) + if Loses(s, a, d) then 1 else 0
  {
    hide Post, Register, Presentable, GatewayBytes;
  }

  lemma {:induction false} LostIsCounted(rules: seq<Rule>, key: KeyId, s: World, actions: seq<Action>, d: string)
    ensures GetOrZero(Run(rules, key, s, actions).lost, d) ==
            GetOrZero(s.lost, d) + LostAlong(rules, key, s, actions, d)
    decreases |actions|
  {
    hide Step, Loses;
    if actions == [] {
    } else {
      StepLoses(rules, key, s, actions[0], d);
      LostIsCounted(rules, key, Step(rules, key, s, actions[0]), actions[1..], d);
    }
  }

  /** Conservation: at any point of any run, the recognised events in the log are exactly those
      counted on disk, those lost to a stop between logging and saving or to a count the store
      cannot hold, and the one in progress; the live count is never below the stored one, so the
      store's rollback trigger never fires. */
  lemma EventsConserved(rules: seq<Rule>, key: KeyId, actions: seq<Action>, d: string)
    ensures var s := Run(rules, key, START, actions);
      && Recognised(s.disk.events, d) ==
           StoredCount(s.disk, d) + LostAlong(rules, key, START, actions, d) + Pending(s.observer, d)
      && (!s.observer.Down? ==> GetOrZero(s.observer.live.counts, d) >= StoredCount(s.disk, d))
      && (s.observer.Counting? ==>
            SaveCounter(s.disk, s.observer.device, GetOrZero(s.observer.live.counts, s.observer.device))
            != Err(CounterRollback))
  {
    EveryRunFromStartSafe(rules, key, actions);
    LostIsCounted(rules, key, START, actions, d);
    var s := Run(rules, key, START, actions);
    match s.observer {
      case Down =>
      case Watching(live) => assert Tracks(GetOrZero(live.counts, d), StoredCount(s.disk, d));
      case Counting(live, e) =>
        SaveVerdict(s.disk, live, e);
        assert Tracks(GetOrZero(live.counts, d) - (if d == e then 1 else 0), StoredCount(s.disk, d));
    }
  }

  // ---------------------------------------------------------------- the log

  /** A write that the observer logged, and its counter's sequence at that moment. */
  datatype Sighting = Sighting(write: Write, sequence: int)

  predicate Logs(s: World, a: Action) {
    a.Observe? && s.observer.Watching? && FitsSqlite(s.observer.live.sequence)
  }

  function Sightings(rules: seq<Rule>, key: KeyId, s: World, actions: seq<Action>): seq<Sighting>
    decreases |actions|
  {
    if actions == [] then []
    else
      (if Logs(s, actions[0]) then [Sighting(actions[0].write, s.observer.live.sequence)] else []) +
      Sightings(rules, key, Step(rules, key, s, actions[0]), actions[1..])
  }

  /** `rows` are, one for one, the log of the sightings. */
  ghost predicate Tells(rules: seq<Rule>, rows: seq<EventRow>, seen: seq<Sighting>) {
    |rows| == |seen| &&
    forall i :: 0 <= i < |rows| ==> Describes(rows[i], rules, seen[i].write, seen[i].sequence)
  }

  lemma LoggedRow(rules: seq<Rule>, disk: Disk, live: Live, w: Write)
    ensures Describes(EventRowFor(w, Classify(rules, w), live.sequence), rules, w, live.sequence)
  {
    FirstMatchAtIndex(rules, w);
    hide FirstMatch, FirstIndex;
  }

  lemma StepLogs(rules: seq<Rule>, key: KeyId, s: World, a: Action)
    ensures var t := Step(rules, key, s, a);
      if Logs(s, a)
      then exists row :: t.disk.events == s.disk.events + [row]
                         && Describes(row, rules, a.write, s.observer.live.sequence)
      else t.disk.events == s.disk.events
  {
    hide Post, Register, Presentable, GatewayBytes, Describes;
    if Logs(s, a) {
      LoggedRow(rules, s.disk, s.observer.live, a.write);
    }
  }

  lemma TellsConcat(rules: seq<Rule>, rows: seq<EventRow>, seen: seq<Sighting>,
                    more: seq<EventRow>, later: seq<Sighting>)
    requires Tells(rules, rows, seen) && Tells(rules, more, later)
    ensures Tells(rules, rows + more, seen + later)
  {
    hide Describes;
  }

  lemma LogsFacts(s: World, a: Action)
    requires Logs(s, a)
    ensures a.Observe? && s.observer.Watching?
  {
  }

  /** Over every run the log grows by exactly the writes the observer saw, row for row. */
  lemma {:induction false} LogIsSightings(rules: seq<Rule>, key: KeyId, s: World, actions: seq<Action>)
    ensures var events := Run(rules, key, s, actions).disk.events;
      && |s.disk.events| <= |events| && events[..|s.disk.events|] == s.disk.events
      && Tells(rules, events[|s.disk.events|..], Sightings(rules, key, s, actions))
    decreases |actions|
  {
    hide Step, Describes, Logs;
    if actions == [] {
    } else {
      var a := actions[0];
      var t := Step(rules, key, s, a);
      var events, base := Run(rules, key, s, actions).disk.events, |s.disk.events|;
      LogIsSightings(rules, key, t, actions[1..]);
      StepLogs(rules, key, s, a);
      if Logs(s, a) {
        assert a.Observe? && s.observer.Watching? by { LogsFacts(s, a); }
        var first := [Sighting(a.write, s.observer.live.sequence)];
        assert Tells(rules, [events[base]], first);
        TellsConcat(rules, [events[base]], first, events[base + 1..], Sightings(rules, key, t, actions[1..]));
        assert events[base..] == [events[base]] + events[base + 1..];
      }
    }
  }

  /** How many of the sightings are of device `d` and match a rule that counts. */
  function CountedFor(rules: seq<Rule>, seen: seq<Sighting>, d: string): nat {
    if seen == [] then 0
    else
      var last := seen[|seen| - 1].write;
      CountedFor(rules, seen[..|seen| - 1], d) + if last.peer == d && Counts(rules, last) then 1 else 0
  }

  lemma {:induction false} ToldAreRecognised(rules: seq<Rule>, rows: seq<EventRow>, seen: seq<Sighting>, d: string)
    requires Tells(rules, rows, seen)
    ensures Recognised(rows, d) == CountedFor(rules, seen, d)
  {
    if rows == [] {
    } else {
      ToldAreRecognised(rules, rows[..|rows| - 1], seen[..|seen| - 1], d);
    }
  }

  /** The recognised rows of a device are the writes seen from it whose first matching rule counts. */
  lemma RecognisedIsCounted(rules: seq<Rule>, key: KeyId, actions: seq<Action>, d: string)
    ensures Recognised(Run(rules, key, START, actions).disk.events, d) ==
            CountedFor(rules, Sightings(rules, key, START, actions), d)
  {
    hide Recognised, CountedFor, Tells;
    LogIsSightings(rules, key, START, actions);
    var events := Run(rules, key, START, actions).disk.events;
    assert events[0..] == events;
    ToldAreRecognised(rules, events, Sightings(rules, key, START, actions), d);
  }

  /** What a licence decision measures, over any period, never exceeds the recognised events in
      the gateway's own log. */
  lemma UsageNeverExceedsLog(rules: seq<Rule>, key: KeyId, actions: seq<Action>, d: string, cutoff: string)
    ensures var s := Run(rules, key, START, actions);
      d in s.db.devices && s.db.devices[d].key == Key(key) ==>
        0 <= Policy.UsageInPeriod(s.db.rows, d, cutoff) <= Recognised(s.disk.events, d)
  {
    EveryRunFromStartSafe(rules, key, actions);
    AcceptedWithinDurable(rules, key, actions, d);
    var s := Run(rules, key, START, actions);
    if d in s.db.devices {
      var mine := RowsOf(s.db.rows, d);
      var k := Policy.Cut(mine, cutoff);
      Policy.UsageIsIncreaseSinceCut(s.db, d, cutoff);
      Policy.HistoryCountsNonNegative(s.db, d);
      Policy.CountsAscend(mine, 0, k);
      Policy.CountsAscend(mine, k, |mine|);
      assert Policy.CountAt(mine, |mine|) == s.db.devices[d].lastCount;
    }
  }
}
