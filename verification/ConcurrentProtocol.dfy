/** The metering protocol over a backend that handles requests concurrently: every report is
    verified in one step and committed in a later one, as in Interleaving. */
module ConcurrentProtocol {
  import opened Common
  import opened Canonical
  import opened Backend
  import opened Matching
  import opened Gateway
  import opened Protocol
  import Interleaving
  import Policy

  /** The world of the protocol, and the reports between verification and commit. */
  datatype Node = Node(world: World, inFlight: multiset<UsageReport>)

  const BOOT := Node(START, multiset{})

  datatype Move = Gateway(step: Action) | Request(handling: Interleaving.Action)

  function Tables(n: Node): Interleaving.State {
    Interleaving.State(n.world.db, n.inFlight)
  }

  predicate OfGateway(a: Action) {
    !a.Enroll? && !a.Arrive?
  }

  function Advance(rules: seq<Rule>, key: KeyId, n: Node, m: Move): Node {
    match m
    case Gateway(a) => if OfGateway(a) then n.(world := Protocol.Step(rules, key, n.world, a)) else n
    case Request(q) =>
      if q.Verify? && !Presentable(key, n.world.signed, q.report) then n
      else
        var after := Interleaving.Step(Tables(n), q);
        Node(n.world.(db := after.db), after.inFlight)
  }

  function Play(rules: seq<Rule>, key: KeyId, n: Node, moves: seq<Move>): Node
    decreases |moves|
  {
    if moves == [] then n else Play(rules, key, Advance(rules, key, n, moves[0]), moves[1..])
  }

  // ---------------------------------------------------------------- the joint invariant

  predicate Enrolled(db: Db, key: KeyId, d: string) {
    d in db.devices && db.devices[d].key == Key(key)
  }

  /** What was verified under the gateway's key was signed by the gateway. */
  ghost predicate InFlightSigned(key: KeyId, signed: set<ReportTuple>, db: Db, inFlight: multiset<UsageReport>) {
    forall r :: r in inFlight && Enrolled(db, key, r.deviceId) ==> TupleFor(r) in signed
  }

  ghost predicate Secure(key: KeyId, n: Node) {
    && GatewaySafe(n.world) && Interleaving.Sound(Tables(n))
    && RowsSigned(n.world.db, n.world.signed, key)
    && InFlightSigned(key, n.world.signed, n.world.db, n.inFlight)
  }

  lemma GatewayMoveFrame(rules: seq<Rule>, key: KeyId, s: World, a: Action)
    requires GatewaySafe(s) && OfGateway(a)
    ensures var t := Protocol.Step(rules, key, s, a);
      GatewaySafe(t) && t.db == s.db && s.signed <= t.signed
  {
    hide GatewaySafe, ObserverStep, ReporterStep, BackendStep;
    if a.StartReport? || a.TakeSequence? || a.Sign? || a.StopReport? {
      ReporterStepSafe(s, a);
    } else {
      ObserverStepSafe(rules, s, a);
    }
  }

  lemma GatewayMoveSecure(rules: seq<Rule>, key: KeyId, n: Node, a: Action)
    requires Secure(key, n) && OfGateway(a)
    ensures Secure(key, Advance(rules, key, n, Gateway(a)))
  {
    GatewayMoveFrame(rules, key, n.world, a);
    hide Step, GatewaySafe, Interleaving.Sound, RowsSigned, OfGateway;
    RowsStaySigned(n.world.db, n.world.signed, Protocol.Step(rules, key, n.world, a).signed, key);
  }

  lemma BackendMoveKeepsGateway(s: World, db: Db)
    requires GatewaySafe(s)
    ensures GatewaySafe(s.(db := db))
  {
  }

  lemma EnrollKeepsSigned(key: KeyId, signed: set<ReportTuple>, s: Interleaving.State, d: string, k: KeyText)
    requires Interleaving.Sound(s) && RowsSigned(s.db, signed, key)
    requires InFlightSigned(key, signed, s.db, s.inFlight)
    ensures var after := Interleaving.Step(s, Interleaving.Enroll(d, k));
      RowsSigned(after.db, signed, key) && InFlightSigned(key, signed, after.db, after.inFlight)
  {
  }

  lemma VerifyKeepsSigned(key: KeyId, signed: set<ReportTuple>, s: Interleaving.State, r: UsageReport)
    requires forall t :: t in signed ==> Encodable(t)
    requires InFlightSigned(key, signed, s.db, s.inFlight) && Presentable(key, signed, r)
    ensures var after := Interleaving.Step(s, Interleaving.Verify(r));
      after.db == s.db && InFlightSigned(key, signed, after.db, after.inFlight)
  {
    if VerifyReport(s.db.devices, r).Pass? {
      PassMeansAhead(s.db.devices, r);
      hide VerifyReport, CheckSignature, Presentable, Encodable, WellFormed;
      if Enrolled(s.db, key, r.deviceId) {
        AcceptedMeansSigned(key, signed, s.db.devices, r);
      }
    }
  }

  lemma FinishKeepsSigned(key: KeyId, signed: set<ReportTuple>, s: Interleaving.State, r: UsageReport)
    requires Interleaving.Sound(s) && RowsSigned(s.db, signed, key)
    requires InFlightSigned(key, signed, s.db, s.inFlight)
    ensures var after := Interleaving.Step(s, Interleaving.Finish(r));
      RowsSigned(after.db, signed, key) && InFlightSigned(key, signed, after.db, after.inFlight)
  {
    hide RowsSigned, Stored, FitsSqlite;
    if r in s.inFlight {
      AppendSigned(key, signed, s.db, RowFor(r), TupleFor(r));
    }
  }

  lemma RequestKeepsSigned(key: KeyId, signed: set<ReportTuple>, s: Interleaving.State, q: Interleaving.Action)
    requires forall t :: t in signed ==> Encodable(t)
    requires q.Verify? ==> Presentable(key, signed, q.report)
    requires Interleaving.Sound(s) && RowsSigned(s.db, signed, key)
    requires InFlightSigned(key, signed, s.db, s.inFlight)
    ensures var after := Interleaving.Step(s, q);
      RowsSigned(after.db, signed, key) && InFlightSigned(key, signed, after.db, after.inFlight)
  {
    hide *;
    match q {
      case Enroll(d, k) => EnrollKeepsSigned(key, signed, s, d, k);
      case Verify(r) => VerifyKeepsSigned(key, signed, s, r);
      case Finish(r) => FinishKeepsSigned(key, signed, s, r);
    }
  }

  lemma SignedEncodable(s: World)
    requires GatewaySafe(s)
    ensures forall t :: t in s.signed ==> Encodable(t)
  {
  }

  lemma RequestMoveSecure(rules: seq<Rule>, key: KeyId, n: Node, q: Interleaving.Action)
    requires Secure(key, n)
    ensures Secure(key, Advance(rules, key, n, Request(q)))
  {
    hide GatewaySafe, Interleaving.Sound, Interleaving.Step, RowsSigned, InFlightSigned, Presentable;
    if q.Verify? && !Presentable(key, n.world.signed, q.report) {
    } else {
      var after := Interleaving.Step(Tables(n), q);
      SignedEncodable(n.world);
      Interleaving.StepKeepsSound(Tables(n), q);
      RequestKeepsSigned(key, n.world.signed, Tables(n), q);
      BackendMoveKeepsGateway(n.world, after.db);
    }
  }

  lemma ForeignMoveIdle(rules: seq<Rule>, key: KeyId, n: Node, a: Action)
    requires !OfGateway(a)
    ensures Advance(rules, key, n, Gateway(a)) == n
  {
  }

  /** The gateway's invariant, the soundness of the interleaved tables and the signature link
      between them hold after every run. */
  lemma {:induction false} EveryPlaySecure(rules: seq<Rule>, key: KeyId, n: Node, moves: seq<Move>)
    requires Secure(key, n)
    ensures Secure(key, Play(rules, key, n, moves))
    decreases |moves|
  {
    hide Secure, Advance;
    if moves == [] {
    } else {
      match moves[0] {
        case Gateway(a) =>
          if OfGateway(a) {
            GatewayMoveSecure(rules, key, n, a);
          } else {
            ForeignMoveIdle(rules, key, n, a);
          }
        case Request(q) => RequestMoveSecure(rules, key, n, q);
      }
      EveryPlaySecure(rules, key, Advance(rules, key, n, moves[0]), moves[1..]);
    }
  }

  lemma BootSecure(key: KeyId)
    ensures Secure(key, BOOT)
  {
  }

  lemma EveryPlayFromBootSecure(rules: seq<Rule>, key: KeyId, moves: seq<Move>)
    ensures Secure(key, Play(rules, key, BOOT, moves))
  {
    hide *;
    BootSecure(key);
    EveryPlaySecure(rules, key, BOOT, moves);
  }

  // ---------------------------------------------------------------- consequences

  lemma MarksAreSignedHere(key: KeyId, n: Node, d: string)
    requires Secure(key, n) && Enrolled(n.world.db, key, d)
    ensures var device := n.world.db.devices[d];
      (device.lastSequence == -1 && device.lastCount == 0) ||
      exists t :: t in n.world.signed && t.deviceId == d &&
                  t.sequence == device.lastSequence && t.count == device.lastCount
  {
    hide GatewaySafe, RowsSigned, InFlightSigned, MarksMatch, Interleaving.UniqueRows;
    MarksAreSigned(key, n.world.signed, n.world.db, d);
  }

  lemma SignedVerdict(signed: set<ReportTuple>, device: Device, r: UsageReport)
    requires Ordered(signed) && TupleFor(r) in signed && r.count >= 0
    requires (device.lastSequence == -1 && device.lastCount == 0) ||
      exists t :: t in signed && t.deviceId == r.deviceId &&
                  t.sequence == device.lastSequence && t.count == device.lastCount
    ensures r.sequence > device.lastSequence ==> r.count >= device.lastCount
  {
  }

  lemma AuthenticVerdict(key: KeyId, n: Node, r: UsageReport)
    requires Secure(key, n) && Authentic(key, n.world, r)
    ensures VerifyReport(n.world.db.devices, r) ==
      if r.sequence <= n.world.db.devices[r.deviceId].lastSequence then Fail(Replay) else Pass
  {
    SignedEncodable(n.world);
    MarksAreSignedHere(key, n, r.deviceId);
    AcceptedMeansSigned(key, n.world.signed, n.world.db.devices, r);
    SignedVerdict(n.world.signed, n.world.db.devices[r.deviceId], r);
  }

  /** Even when marks move back between other commits, the gate's verdict on an authentic report of
      the gateway depends on the sequence alone, and is never a count rollback. */
  lemma VerdictUnderConcurrency(rules: seq<Rule>, key: KeyId, moves: seq<Move>, r: UsageReport)
    requires Authentic(key, Play(rules, key, BOOT, moves).world, r)
    ensures var devices := Play(rules, key, BOOT, moves).world.db.devices;
      VerifyReport(devices, r) == if r.sequence <= devices[r.deviceId].lastSequence then Fail(Replay) else Pass
  {
    hide *;
    EveryPlayFromBootSecure(rules, key, moves);
    AuthenticVerdict(key, Play(rules, key, BOOT, moves), r);
  }

  /** No well-formed report, honest or altered, is ever refused as a count rollback. */
  lemma CountRollbackUnreachableUnderConcurrency(rules: seq<Rule>, key: KeyId, moves: seq<Move>, r: UsageReport)
    requires var s := Play(rules, key, BOOT, moves).world;
      Enrolled(s.db, key, r.deviceId) && WellFormed(r) && Presentable(key, s.signed, r)
    ensures VerifyReport(Play(rules, key, BOOT, moves).world.db.devices, r) != Fail(CountRollback)
  {
    hide Play, Presentable, WellFormed;
    if CheckSignature(r, Key(key)).Pass? {
      VerdictUnderConcurrency(rules, key, moves, r);
    }
  }

  /** What then comes of a commit: a report that passed is stored, unless its sequence already is
      or SQLite cannot hold the sequence. */
  lemma CommitUnderConcurrency(rules: seq<Rule>, key: KeyId, moves: seq<Move>, r: UsageReport)
    requires var n := Play(rules, key, BOOT, moves);
      r in n.inFlight && Enrolled(n.world.db, key, r.deviceId)
    ensures var db := Play(rules, key, BOOT, moves).world.db;
      && r.deviceId in db.devices
      && (Commit(db, r).1 == Accepted(r.deviceId, r.sequence, r.count) <==>
            FitsSqlite(r.sequence) && !Stored(db.rows, r.deviceId, r.sequence))
      && (!Commit(db, r).1.Accepted? ==> Commit(db, r).0 == db)
  {
    EveryPlayFromBootSecure(rules, key, moves);
    var n := Play(rules, key, BOOT, moves);
    assert TupleFor(r) in n.world.signed;
    CountIsStorable(n.world, TupleFor(r));
  }

  /** The accepted count and sequence never exceed the gateway's durable ones, whatever order
      verifications and commits take. */
  lemma AcceptedWithinDurableUnderConcurrency(rules: seq<Rule>, key: KeyId, moves: seq<Move>, d: string)
    ensures var s := Play(rules, key, BOOT, moves).world;
      Enrolled(s.db, key, d) ==>
        && s.db.devices[d].lastSequence <= LoadSequence(s.disk)
        && s.db.devices[d].lastCount <= StoredCount(s.disk, d) <= Recognised(s.disk.events, d)
  {
    EveryPlayFromBootSecure(rules, key, moves);
    var n := Play(rules, key, BOOT, moves);
    if Enrolled(n.world.db, key, d) {
      MarksAreSignedHere(key, n, d);
    }
  }

  lemma RowIsSigned(key: KeyId, s: World, row: Row) returns (t: ReportTuple)
    requires GatewaySafe(s) && RowsSigned(s.db, s.signed, key)
    requires row in s.db.rows && Enrolled(s.db, key, row.deviceId)
    ensures t in s.signed && RowFrom(row, t)
    ensures 0 <= row.count <= StoredCount(s.disk, row.deviceId)
  {
    t :| t in s.signed && RowFrom(row, t);
  }

  lemma UsageOf(key: KeyId, s: World, d: string, cutoff: string)
    requires GatewaySafe(s) && RowsSigned(s.db, s.signed, key) && Enrolled(s.db, key, d)
    ensures 0 <= Policy.UsageInPeriod(s.db.rows, d, cutoff) <= StoredCount(s.disk, d)
    ensures var latest := Policy.Newest(s.db.rows, d, None);
      var baseline := Policy.Newest(s.db.rows, d, Some(cutoff));
      Policy.UsageInPeriod(s.db.rows, d, cutoff) ==
        (if latest.Some? then latest.value.count else 0) - (if baseline.Some? then baseline.value.count else 0)
  {
    var latest, baseline := Policy.Newest(s.db.rows, d, None), Policy.Newest(s.db.rows, d, Some(cutoff));
    Policy.NewestIsHighest(s.db.rows, d, None);
    Policy.NewestIsHighest(s.db.rows, d, Some(cutoff));
    hide RowsSigned, Policy.Newest;
    if latest.Some? {
      var t := RowIsSigned(key, s, latest.value);
      if baseline.Some? {
        var u := RowIsSigned(key, s, baseline.value);
        assert Policy.Selected(baseline.value, d, None);
        assert u.sequence <= t.sequence;
      }
    }
  }

  /** Measured usage is read from the rows by sequence, not from the marks, so no interleaving
      distorts it: the clamp at zero never acts, and usage over any period stays within the
      recognised events of the gateway's log. */
  lemma UsageUnderConcurrency(rules: seq<Rule>, key: KeyId, moves: seq<Move>, d: string, cutoff: string)
    ensures var s := Play(rules, key, BOOT, moves).world;
      var latest := Policy.Newest(s.db.rows, d, None);
      var baseline := Policy.Newest(s.db.rows, d, Some(cutoff));
      Enrolled(s.db, key, d) ==>
        && 0 <= Policy.UsageInPeriod(s.db.rows, d, cutoff) <= Recognised(s.disk.events, d)
        && Policy.UsageInPeriod(s.db.rows, d, cutoff) ==
             (if latest.Some? then latest.value.count else 0) - (if baseline.Some? then baseline.value.count else 0)
  {
    EveryPlayFromBootSecure(rules, key, moves);
    var s := Play(rules, key, BOOT, moves).world;
    hide Play;
    if Enrolled(s.db, key, d) {
      UsageOf(key, s, d, cutoff);
      hide Policy.UsageInPeriod, Policy.Newest;
      assert StoredCount(s.disk, d) <= Recognised(s.disk.events, d);
    }
  }

  /** While a batch is being posted, a stored row of its sequence is the newest one of its device
      and carries the batch's count. */
  lemma StoredBatchIsNewest(key: KeyId, s: World, d: string)
    requires GatewaySafe(s) && RowsSigned(s.db, s.signed, key) && Enrolled(s.db, key, d)
    requires s.reporter.Posting? && Stored(s.db.rows, d, s.reporter.sequence)
    ensures var latest := Policy.Newest(s.db.rows, d, None);
      latest.Some? && latest.value.sequence == s.reporter.sequence
      && latest.value.count == GetOrZero(s.reporter.counts, d)
  {
    Policy.NewestIsHighest(s.db.rows, d, None);
    var i :| 0 <= i < |s.db.rows| && s.db.rows[i].deviceId == d && s.db.rows[i].sequence == s.reporter.sequence;
    assert Policy.Selected(s.db.rows[i], d, None) && s.db.rows[i] in s.db.rows;
    hide RowsSigned, Policy.Newest;
    var t := RowIsSigned(key, s, Policy.Newest(s.db.rows, d, None).value);
  }

  lemma FinishedIsStored(s: Interleaving.State, r: UsageReport)
    requires r in s.inFlight && r.deviceId in s.db.devices && FitsSqlite(r.count) && FitsSqlite(r.sequence)
    ensures var db := Interleaving.Step(s, Interleaving.Finish(r)).db;
      && Stored(db.rows, r.deviceId, r.sequence)
      && r.deviceId in db.devices && db.devices[r.deviceId].key == s.db.devices[r.deviceId].key
  {
    if !Stored(s.db.rows, r.deviceId, r.sequence) {
      assert (s.db.rows + [RowFor(r)])[|s.db.rows|] == RowFor(r);
    }
  }

  lemma CatchUpAt(rules: seq<Rule>, key: KeyId, n: Node, r: UsageReport)
    requires Secure(key, n) && r in n.inFlight && Enrolled(n.world.db, key, r.deviceId)
    requires n.world.reporter.Posting? && r.sequence == n.world.reporter.sequence && FitsSqlite(r.sequence)
    ensures var after := Advance(rules, key, n, Request(Interleaving.Finish(r)));
      var latest := Policy.Newest(after.world.db.rows, r.deviceId, None);
      && latest.Some? && latest.value.sequence == r.sequence
      && latest.value.count == GetOrZero(n.world.reporter.counts, r.deviceId)
  {
    assert TupleFor(r) in n.world.signed;
    CountIsStorable(n.world, TupleFor(r));
    hide Interleaving.Step;
    FinishedIsStored(Tables(n), r);
    RequestMoveSecure(rules, key, n, Interleaving.Finish(r));
    var after := Advance(rules, key, n, Request(Interleaving.Finish(r)));
    hide GatewaySafe, RowsSigned, Interleaving.Sound, Policy.Newest, Stored, InFlightSigned;
    StoredBatchIsNewest(key, after.world, r.deviceId);
  }

  /** Catching up under concurrency: once a verified report of the current batch has committed, the
      newest row of its device is the batch's, with the batch's count, whatever else is in flight
      and wherever the marks stand. */
  lemma CatchUpUnderConcurrency(rules: seq<Rule>, key: KeyId, moves: seq<Move>, r: UsageReport)
    requires var n := Play(rules, key, BOOT, moves);
      && r in n.inFlight && Enrolled(n.world.db, key, r.deviceId)
      && n.world.reporter.Posting? && r.sequence == n.world.reporter.sequence && FitsSqlite(r.sequence)
    ensures var n := Play(rules, key, BOOT, moves);
      var after := Advance(rules, key, n, Request(Interleaving.Finish(r)));
      var latest := Policy.Newest(after.world.db.rows, r.deviceId, None);
      && latest.Some? && latest.value.sequence == r.sequence
      && latest.value.count == GetOrZero(n.world.reporter.counts, r.deviceId)
  {
    EveryPlayFromBootSecure(rules, key, moves);
    var n := Play(rules, key, BOOT, moves);
    CatchUpAt(rules, key, n, r);
  }
}
