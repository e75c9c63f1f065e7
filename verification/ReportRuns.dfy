/** The report command as a run of the protocol: what one batch does to store and backend is what
    the protocol's steps StartReport, TakeSequence, Sign and Arrive do, one after another. */
module ReportRuns {
  import opened Common
  import opened Canonical
  import opened Backend
  import opened Matching
  import opened Gateway
  import opened Protocol
  import opened Reporter

  function ActionFor(q: Request): Action {
    match q
    case RegisterRequest(d, k) => Enroll(d, k)
    case ReportRequest(r) => Arrive(r)
  }

  function Served(qs: seq<Request>): seq<Action> {
    if qs == [] then [] else [ActionFor(qs[0])] + Served(qs[1..])
  }

  /** The requests of others obey the network's rule: no signature of the gateway's key that the
      gateway did not make. */
  ghost predicate AllPresentable(key: KeyId, signed: set<ReportTuple>, qs: seq<Request>) {
    forall i :: 0 <= i < |qs| && qs[i].ReportRequest? ==> Presentable(key, signed, qs[i].report)
  }

  ghost predicate LinkPresentable(key: KeyId, signed: set<ReportTuple>, link: seq<Attempt>) {
    forall i :: 0 <= i < |link| ==> AllPresentable(key, signed, link[i].before)
  }

  /** What arrives at the backend while one report is retried. */
  function Arrivals(db: Db, r: UsageReport, link: seq<Attempt>): seq<Action>
    decreases |link|
  {
    if link == [] then []
    else
      var ready := ServeAll(db, link[0].before);
      if !Reaches(link[0]) then Served(link[0].before) + Arrivals(ready, r, link[1..])
      else
        var (after, response) := Post(ready, r);
        Served(link[0].before) + [Arrive(r)] +
        if link[0].fate.ResponseLost? || Status(response) >= 500 then Arrivals(after, r, link[1..]) else []
  }

  lemma {:induction false} RunConcat(rules: seq<Rule>, key: KeyId, s: World, xs: seq<Action>, ys: seq<Action>)
    ensures Run(rules, key, s, xs + ys) == Run(rules, key, Run(rules, key, s, xs), ys)
    decreases |xs|
  {
    hide Step;
    if xs == [] {
      assert xs + ys == ys;
    } else {
      assert (xs + ys)[1..] == xs[1..] + ys;
      RunConcat(rules, key, Step(rules, key, s, xs[0]), xs[1..], ys);
    }
  }

  lemma ActionServes(rules: seq<Rule>, key: KeyId, s: World, q: Request)
    requires q.ReportRequest? ==> Presentable(key, s.signed, q.report)
    ensures Step(rules, key, s, ActionFor(q)) == s.(db := Serve(s.db, q))
  {
    hide Post, Register;
  }

  lemma {:induction false} ServedIsRun(rules: seq<Rule>, key: KeyId, s: World, qs: seq<Request>)
    requires AllPresentable(key, s.signed, qs)
    ensures Run(rules, key, s, Served(qs)) == s.(db := ServeAll(s.db, qs))
    decreases |qs|
  {
    hide Step, Serve, Presentable;
    if qs == [] {
    } else {
      ActionServes(rules, key, s, qs[0]);
      var t := s.(db := Serve(s.db, qs[0]));
      assert forall i :: 0 <= i < |qs| - 1 ==> qs[1..][i] == qs[i + 1];
      ServedIsRun(rules, key, t, qs[1..]);
      assert Served(qs)[1..] == Served(qs[1..]);
    }
  }

  lemma RunOne(rules: seq<Rule>, key: KeyId, s: World, a: Action)
    ensures Run(rules, key, s, [a]) == Step(rules, key, s, a)
  {
    hide Step;
    assert Run(rules, key, Step(rules, key, s, a), [a][1..]) == Step(rules, key, s, a);
  }

  /** Retrying one report is a run of arrivals: it changes the backend as Deliver says and nothing
      else in the world. */
  lemma {:induction false} DeliverIsRun(rules: seq<Rule>, key: KeyId, s: World, r: UsageReport,
                                        link: seq<Attempt>, made: nat)
    requires Presentable(key, s.signed, r) && LinkPresentable(key, s.signed, link)
    ensures Run(rules, key, s, Arrivals(s.db, r, link)) == s.(db := Deliver(s.db, r, link, made).0)
    decreases |link|
  {
    hide Step, Post, Presentable, Serve, Status;
    if link == [] {
    } else {
      var others := Served(link[0].before);
      var ready := s.(db := ServeAll(s.db, link[0].before));
      ServedIsRun(rules, key, s, link[0].before);
      assert forall i :: 0 <= i < |link| - 1 ==> link[1..][i] == link[i + 1];
      if !Reaches(link[0]) {
        RunConcat(rules, key, s, others, Arrivals(ready.db, r, link[1..]));
        DeliverIsRun(rules, key, ready, r, link[1..], made + 1);
      } else {
        ArrivalThenRest(rules, key, s, r, link, made);
      }
    }
  }

  lemma ServeIsPost(db: Db, r: UsageReport)
    ensures Serve(db, ReportRequest(r)) == Post(db, r).0
  {
  }

  lemma ArrivalThenRest(rules: seq<Rule>, key: KeyId, s: World, r: UsageReport, link: seq<Attempt>, made: nat)
    requires Presentable(key, s.signed, r) && LinkPresentable(key, s.signed, link)
    requires link != [] && Reaches(link[0])
    ensures Run(rules, key, s, Arrivals(s.db, r, link)) == s.(db := Deliver(s.db, r, link, made).0)
    decreases |link|, 0
  {
    hide Step, Post, Presentable, Serve, Status;
    var others := Served(link[0].before);
    var ready := s.(db := ServeAll(s.db, link[0].before));
    var (db, response) := Post(ready.db, r);
    var after := s.(db := db);
    ServedIsRun(rules, key, s, link[0].before);
    ActionServes(rules, key, ready, ReportRequest(r));
    ServeIsPost(ready.db, r);
    RunOne(rules, key, ready, Arrive(r));
    RunConcat(rules, key, s, others, [Arrive(r)]);
    assert Run(rules, key, s, others + [Arrive(r)]) == after;
    var tail := if link[0].fate.ResponseLost? || Status(response) >= 500 then Arrivals(db, r, link[1..]) else [];
    RunConcat(rules, key, s, others + [Arrive(r)], tail);
    assert forall i :: 0 <= i < |link| - 1 ==> link[1..][i] == link[i + 1];
    if link[0].fate.ResponseLost? || Status(response) >= 500 {
      DeliverIsRun(rules, key, after, r, link[1..], made + 1);
    }
  }

  // ---------------------------------------------------------------- the whole batch

  function BatchActions(db: Db, b: Batch, order: seq<string>): seq<Action>
    requires AllEncodable(b, order)
  {
    if order == [] then []
    else
      var init, d := order[..|order| - 1], order[|order| - 1];
      BatchActions(db, b, init) + [Sign(d)] +
      Arrivals(DeliverBatch(db, b, init).0, ReportFor(TupleFrom(b, d), b.key, b.iso), LinkOf(b, d))
  }

  /** The tuples of the devices in `order`. */
  function Tuples(b: Batch, order: seq<string>): set<ReportTuple> {
    set i | 0 <= i < |order| :: TupleFrom(b, order[i])
  }

  function Devices(order: seq<string>): set<string> {
    set i | 0 <= i < |order| :: order[i]
  }

  ghost predicate Reporting(s: World, b: Batch) {
    && s.reporter.Posting? && s.reporter.sequence == b.sequence && s.reporter.counts == b.counts
    && s.reporter.windowStart == b.windowStart && s.reporter.now == b.now
  }

  /** While a device's report is retried, others may present what the gateway had signed by then,
      the batch's own reports so far included. */
  ghost predicate BatchPresentable(b: Batch, signed: set<ReportTuple>, order: seq<string>) {
    forall i :: 0 <= i < |order| ==>
      LinkPresentable(b.key, signed + Tuples(b, order[..i + 1]), LinkOf(b, order[i]))
  }

  /** The world after the batch's steps. */
  function AfterBatch(s: World, b: Batch, order: seq<string>): World
    requires AllEncodable(b, order) && s.reporter.Posting?
  {
    s.(db := DeliverBatch(s.db, b, order).0, signed := s.signed + Tuples(b, order),
       reporter := s.reporter.(todo := s.reporter.todo - Devices(order)))
  }

  /** The tuples of a batch, one for each of its devices. */
  lemma BatchTuples(b: Batch, order: seq<string>, t: ReportTuple)
    ensures t in Tuples(b, order) <==>
      t.deviceId in order &&
      t == ReportTuple(t.deviceId, GetOrZero(b.counts, t.deviceId), b.sequence, b.windowStart, b.now)
  {
  }

  lemma TuplesSnoc(b: Batch, order: seq<string>, d: string)
    ensures Tuples(b, order + [d]) == Tuples(b, order) + {TupleFrom(b, d)}
  {
    hide TupleFrom;
    var all := order + [d];
    assert all[|order|] == d;
    assert forall i :: 0 <= i < |order| ==> all[i] == order[i];
  }

  lemma SignedIsPresentable(key: KeyId, signed: set<ReportTuple>, t: ReportTuple, iso: int -> string)
    requires Encodable(t) && t in signed
    ensures Presentable(key, signed, ReportFor(t, key, iso))
  {
    PythonEncodersAgree(t);
    assert GatewayBytes(t) == Ok(Encoding(t));
  }

  lemma PresentableInTurn(b: Batch, signed: set<ReportTuple>, order: seq<string>, d: string)
    requires BatchPresentable(b, signed, order + [d])
    ensures BatchPresentable(b, signed, order)
    ensures LinkPresentable(b.key, signed + Tuples(b, order) + {TupleFrom(b, d)}, LinkOf(b, d))
  {
    hide LinkPresentable, LinkOf, TupleFrom, Tuples;
    var all := order + [d];
    forall i | 0 <= i < |order|
      ensures LinkPresentable(b.key, signed + Tuples(b, order[..i + 1]), LinkOf(b, order[i]))
    {
      assert all[i] == order[i] && all[..i + 1] == order[..i + 1];
    }
    assert all[|order|] == d && all[..|order| + 1] == all;
    TuplesSnoc(b, order, d);
    assert signed + Tuples(b, all) == signed + Tuples(b, order) + {TupleFrom(b, d)};
  }

  lemma TurnIsRun(rules: seq<Rule>, s: World, b: Batch, d: string)
    requires Reporting(s, b) && d in s.reporter.todo && Encodable(TupleFrom(b, d))
    requires LinkPresentable(b.key, s.signed + {TupleFrom(b, d)}, LinkOf(b, d))
    ensures var r := ReportFor(TupleFrom(b, d), b.key, b.iso);
      Run(rules, b.key, s, [Sign(d)] + Arrivals(s.db, r, LinkOf(b, d))) ==
      s.(db := Deliver(s.db, r, LinkOf(b, d), 0).0, signed := s.signed + {TupleFrom(b, d)},
         reporter := s.reporter.(todo := s.reporter.todo - {d}))
  {
    var t := TupleFrom(b, d);
    var r := ReportFor(t, b.key, b.iso);
    PythonEncodersAgree(t);
    hide Deliver, Arrivals, GatewayBytes, BackendBytes, Presentable, LinkPresentable;
    var signed := Step(rules, b.key, s, Sign(d));
    assert signed == s.(signed := s.signed + {t}, reporter := s.reporter.(todo := s.reporter.todo - {d}));
    RunOne(rules, b.key, s, Sign(d));
    RunConcat(rules, b.key, s, [Sign(d)], Arrivals(s.db, r, LinkOf(b, d)));
    SignedIsPresentable(b.key, signed.signed, t, b.iso);
    DeliverIsRun(rules, b.key, signed, r, LinkOf(b, d), 0);
  }

  lemma AfterBatchSnoc(s: World, b: Batch, order: seq<string>, d: string)
    requires AllEncodable(b, order) && Encodable(TupleFrom(b, d)) && s.reporter.Posting?
    ensures AllEncodable(b, order + [d])
    ensures var before := AfterBatch(s, b, order);
      var r := ReportFor(TupleFrom(b, d), b.key, b.iso);
      AfterBatch(s, b, order + [d]) ==
        before.(db := Deliver(before.db, r, LinkOf(b, d), 0).0, signed := before.signed + {TupleFrom(b, d)},
                reporter := before.reporter.(todo := before.reporter.todo - {d}))
  {
    hide Deliver, Encodable, TupleFrom, ReportFor;
    DeliverBatchSnoc(s.db, b, order, d);
    var all := order + [d];
    TuplesSnoc(b, order, d);
    assert Devices(all) == Devices(order) + {d} by {
      assert all[|order|] == d;
      assert forall i :: 0 <= i < |order| ==> all[i] == order[i];
    }
    assert s.signed + Tuples(b, all) == s.signed + Tuples(b, order) + {TupleFrom(b, d)};
    assert s.reporter.todo - Devices(all) == s.reporter.todo - Devices(order) - {d};
  }

  lemma NothingInBatch(s: World, b: Batch)
    requires s.reporter.Posting?
    ensures AllEncodable(b, []) && AfterBatch(s, b, []) == s && BatchActions(s.db, b, []) == []
  {
    assert Tuples(b, []) == {} && Devices([]) == {};
    assert s.signed + {} == s.signed && s.reporter.todo - {} == s.reporter.todo;
  }

  lemma BatchActionsSnoc(db: Db, b: Batch, order: seq<string>, d: string)
    requires AllEncodable(b, order) && Encodable(TupleFrom(b, d))
    ensures AllEncodable(b, order + [d])
    ensures BatchActions(db, b, order + [d]) == BatchActions(db, b, order) + ([Sign(d)] +
      Arrivals(DeliverBatch(db, b, order).0, ReportFor(TupleFrom(b, d), b.key, b.iso), LinkOf(b, d)))
  {
    hide Arrivals, ReportFor, TupleFrom, Encodable, DeliverBatch;
    assert (order + [d])[..|order|] == order;
  }

  lemma NextInTurn(s: World, b: Batch, order: seq<string>, d: string)
    requires Reporting(s, b) && AllEncodable(b, order)
    requires Distinct(order + [d]) && d in s.reporter.todo
    ensures Reporting(AfterBatch(s, b, order), b) && d in AfterBatch(s, b, order).reporter.todo
    ensures AfterBatch(s, b, order).signed == s.signed + Tuples(b, order)
    ensures AfterBatch(s, b, order).db == DeliverBatch(s.db, b, order).0
  {
    hide DeliverBatch, TupleFrom;
    var all := order + [d];
    assert all[|order|] == d && forall i :: 0 <= i < |order| ==> all[i] == order[i];
    assert d !in Devices(order);
  }

  /** Posting a batch is a run of sign and arrive steps, device by device. */
  lemma {:induction false} BatchIsRun(rules: seq<Rule>, s: World, b: Batch, order: seq<string>)
    requires Reporting(s, b) && AllEncodable(b, order) && BatchPresentable(b, s.signed, order)
    requires Distinct(order) && forall d :: d in order ==> d in s.reporter.todo
    ensures Run(rules, b.key, s, BatchActions(s.db, b, order)) == AfterBatch(s, b, order)
  {
    hide Step, Deliver, Arrivals, ReportFor, Encodable, LinkPresentable, BatchPresentable, AfterBatch;
    if order == [] {
      NothingInBatch(s, b);
    } else {
      var init, d := order[..|order| - 1], order[|order| - 1];
      assert order == init + [d];
      assert Encodable(TupleFrom(b, d));
      PresentableInTurn(b, s.signed, init, d);
      BatchIsRun(rules, s, b, init);
      NextInTurn(s, b, init, d);
      AfterBatchSnoc(s, b, init, d);
      BatchActionsSnoc(s.db, b, init, d);
      var before := AfterBatch(s, b, init);
      TurnIsRun(rules, before, b, d);
      RunConcat(rules, b.key, s, BatchActions(s.db, b, init),
                [Sign(d)] + Arrivals(before.db, ReportFor(TupleFrom(b, d), b.key, b.iso), LinkOf(b, d)));
    }
  }

  /** The store's state when a report command starts. */
  ghost predicate AtStart(s: World, b: Batch) {
    && s.reporter.Off? && b.counts == s.disk.counters && b.sequence == LoadSequence(s.disk) + 1
  }

  /** The world after StartReport and TakeSequence. */
  function Taken(s: World, b: Batch): World {
    s.(disk := s.disk.(sequence := Some(b.sequence)),
       reporter := Posting(b.sequence, b.counts, b.counts.Keys, b.windowStart, b.now))
  }

  function TakeActions(b: Batch): seq<Action> {
    [StartReport, TakeSequence(b.now, b.now - b.windowStart)]
  }

  lemma TakenIsRun(rules: seq<Rule>, s: World, b: Batch)
    requires DiskOk(s.disk) && AtStart(s, b)
    ensures Run(rules, b.key, s, TakeActions(b)) == Taken(s, b)
  {
    var interval := b.now - b.windowStart;
    var started := Step(rules, b.key, s, StartReport);
    assert Taken(s, b) == Step(rules, b.key, started, TakeSequence(b.now, interval));
    hide Step;
    RunOne(rules, b.key, s, StartReport);
    RunOne(rules, b.key, started, TakeSequence(b.now, interval));
    RunConcat(rules, b.key, s, [StartReport], [TakeSequence(b.now, interval)]);
    assert TakeActions(b) == [StartReport] + [TakeSequence(b.now, interval)];
  }

  /** The report command refines the protocol: from a world with no report process, the steps
      StartReport, TakeSequence and then Sign and Arrive for each device leave store and backend
      as the command does. */
  lemma ReportIsRun(rules: seq<Rule>, s: World, b: Batch, order: seq<string>)
    requires DiskOk(s.disk) && AtStart(s, b)
    requires AllEncodable(b, order) && BatchPresentable(b, s.signed, order)
    requires Distinct(order) && forall d :: d in order ==> d in s.disk.counters
    ensures Run(rules, b.key, s, TakeActions(b) + BatchActions(s.db, b, order)) == AfterBatch(Taken(s, b), b, order)
  {
    hide Run, DeliverBatch, BatchActions, BatchPresentable, AllEncodable;
    TakenIsRun(rules, s, b);
    RunConcat(rules, b.key, s, TakeActions(b), BatchActions(s.db, b, order));
    BatchIsRun(rules, Taken(s, b), b, order);
  }

  // ---------------------------------------------------------------- the backend catches up

  predicate IdsFit(db: Db) {
    forall d :: d in db.devices ==> 1 <= |d| <= 128
  }

  lemma StepKeepsIds(rules: seq<Rule>, key: KeyId, s: World, a: Action)
    requires IdsFit(s.db)
    ensures IdsFit(Step(rules, key, s, a).db)
  {
    hide VerifyReport, Stored, Presentable, GatewayBytes, Classify;
  }

  lemma {:induction false} RunKeepsIds(rules: seq<Rule>, key: KeyId, s: World, actions: seq<Action>)
    requires IdsFit(s.db)
    ensures IdsFit(Run(rules, key, s, actions).db)
    decreases |actions|
  {
    hide Step, IdsFit;
    if actions == [] {
    } else {
      StepKeepsIds(rules, key, s, actions[0]);
      RunKeepsIds(rules, key, Step(rules, key, s, actions[0]), actions[1..]);
    }
  }

  lemma ReportIsAuthentic(key: KeyId, s: World, t: ReportTuple, iso: int -> string)
    requires t in s.signed && Encodable(t) && t.windowStart <= t.windowEnd
    requires t.deviceId in s.db.devices && s.db.devices[t.deviceId].key == Key(key) && IdsFit(s.db)
    ensures Authentic(key, s, ReportFor(t, key, iso))
  {
    SignedIsPresentable(key, s.signed, t, iso);
    PythonEncodersAgree(t);
    hide Encoding, GatewayBytes, BackendBytes, Presentable;
    assert TupleFor(ReportFor(t, key, iso)) == t;
  }

  lemma AuthenticStays(key: KeyId, s: World, db: Db, r: UsageReport)
    requires Authentic(key, s, r) && Extends(s.db, db)
    ensures Authentic(key, s.(db := db), r)
  {
  }

  /** Whether the table has caught up with device `d`'s report of this sequence. */
  predicate Reached(db: Db, d: string, sequence: int) {
    d in db.devices && db.devices[d].lastSequence >= sequence
  }

  lemma StillReached(db: Db, after: Db, d: string, sequence: int)
    requires Reached(db, d, sequence) && Extends(db, after)
    ensures Reached(after, d, sequence)
  {
  }

  lemma PostReaches(key: KeyId, s: World, r: UsageReport)
    requires Safe(key, s) && Authentic(key, s, r) && FitsSqlite(r.sequence)
    ensures Consistent(Post(s.db, r).0) && Reached(Post(s.db, r).0, r.deviceId, r.sequence)
  {
    PostKeepsConsistent(s.db, r);
    VerdictAt(key, s, r);
    AcceptedIff(s.db, r);
    hide Consistent, CheckSignature, Presentable;
    if Post(s.db, r).1.Accepted? {
      AcceptedAppends(s.db, r);
    }
  }

  lemma ServedSafe(rules: seq<Rule>, key: KeyId, s: World, r: UsageReport, qs: seq<Request>)
    requires Safe(key, s) && Authentic(key, s, r) && AllPresentable(key, s.signed, qs)
    ensures Safe(key, s.(db := ServeAll(s.db, qs))) && Authentic(key, s.(db := ServeAll(s.db, qs)), r)
  {
    assert Consistent(s.db);
    hide *;
    ServedIsRun(rules, key, s, qs);
    EveryRunSafe(rules, key, s, Served(qs));
    EveryRunConsistent(s.db, qs);
    AuthenticStays(key, s, ServeAll(s.db, qs), r);
  }

  /** If some attempt reaches the backend, its mark ends no lower than the report's sequence,
      whatever others post in between. */
  lemma {:induction false} DeliverReaches(rules: seq<Rule>, key: KeyId, s: World, r: UsageReport,
                                          link: seq<Attempt>, made: nat)
    requires Safe(key, s) && Authentic(key, s, r) && FitsSqlite(r.sequence)
    requires LinkPresentable(key, s.signed, link) && SomeReaches(link)
    ensures Reached(Deliver(s.db, r, link, made).0, r.deviceId, r.sequence)
    decreases |link|
  {
    hide Safe, Authentic, Post, Status, AllPresentable, Consistent, Extends, Reached;
    var ready := s.(db := ServeAll(s.db, link[0].before));
    ServedSafe(rules, key, s, r, link[0].before);
    if Reaches(link[0]) {
      PostReaches(key, ready, r);
      var after := Post(ready.db, r).0;
      DeliveredIsStoredOnce(after, r, link[1..], made + 1);
      StillReached(after, Deliver(after, r, link[1..], made + 1).0, r.deviceId, r.sequence);
    } else {
      var i :| 0 <= i < |link| && Reaches(link[i]);
      assert Reaches(link[1..][i - 1]);
      assert forall j :: 0 <= j < |link| - 1 ==> link[1..][j] == link[j + 1];
      DeliverReaches(rules, key, ready, r, link[1..], made + 1);
    }
  }

  /** What the batch needs of device `d`: enrolled under the gateway's key, and some attempt at its
      report reaches the backend. */
  predicate Reachable(s: World, b: Batch, d: string) {
    && d in s.db.devices && s.db.devices[d].key == Key(b.key) && SomeReaches(LinkOf(b, d))
    && b.windowStart <= b.now && FitsSqlite(b.sequence)
  }

  lemma TurnReaches(rules: seq<Rule>, s: World, b: Batch, d: string)
    requires Safe(b.key, s) && Reporting(s, b) && d in s.reporter.todo && Encodable(TupleFrom(b, d))
    requires LinkPresentable(b.key, s.signed + {TupleFrom(b, d)}, LinkOf(b, d))
    requires Reachable(s, b, d) && IdsFit(s.db)
    ensures Reached(Deliver(s.db, ReportFor(TupleFrom(b, d), b.key, b.iso), LinkOf(b, d), 0).0, d, b.sequence)
  {
    var t := TupleFrom(b, d);
    PythonEncodersAgree(t);
    var signed := s.(signed := s.signed + {t}, reporter := s.reporter.(todo := s.reporter.todo - {d}));
    hide Encodable, GatewayBytes, BackendBytes, LinkPresentable, Safe, Deliver, IdsFit, SomeReaches;
    assert signed == Step(rules, b.key, s, Sign(d));
    StepSafe(rules, b.key, s, Sign(d));
    ReportIsAuthentic(b.key, signed, t, b.iso);
    DeliverReaches(rules, b.key, signed, ReportFor(t, b.key, b.iso), LinkOf(b, d), 0);
  }

  /** A safe world whose report process is about to post the devices in `order`. */
  ghost predicate BatchReady(s: World, b: Batch, order: seq<string>) {
    && Safe(b.key, s) && IdsFit(s.db) && Reporting(s, b)
    && AllEncodable(b, order) && BatchPresentable(b, s.signed, order)
    && Distinct(order) && forall d :: d in order ==> d in s.reporter.todo
  }

  lemma ReadyInit(s: World, b: Batch, order: seq<string>, d: string)
    requires BatchReady(s, b, order + [d])
    ensures BatchReady(s, b, order) && AllEncodable(b, order) && Consistent(s.db)
    ensures Reporting(s, b) && Distinct(order + [d]) && d in s.reporter.todo && Encodable(TupleFrom(b, d))
    ensures LinkPresentable(b.key, s.signed + Tuples(b, order) + {TupleFrom(b, d)}, LinkOf(b, d))
  {
    var all := order + [d];
    PresentableInTurn(b, s.signed, order, d);
    hide BatchPresentable, LinkPresentable, IdsFit, Encodable, TupleFrom, Tuples, LinkOf, GatewaySafe, Consistent,
         RowsSigned;
    assert all[|order|] == d && forall i :: 0 <= i < |order| ==> all[i] == order[i];
  }

  lemma ReadyFacts(s: World, b: Batch, order: seq<string>)
    requires BatchReady(s, b, order)
    ensures Safe(b.key, s) && IdsFit(s.db) && Reporting(s, b) && s.reporter.Posting? && Consistent(s.db)
    ensures AllEncodable(b, order) && BatchPresentable(b, s.signed, order)
    ensures Distinct(order) && forall d :: d in order ==> d in s.reporter.todo
  {
  }

  lemma AfterBatchSafe(rules: seq<Rule>, s: World, b: Batch, order: seq<string>)
    requires BatchReady(s, b, order)
    ensures s.reporter.Posting? && AllEncodable(b, order)
    ensures Safe(b.key, AfterBatch(s, b, order)) && IdsFit(AfterBatch(s, b, order).db)
    ensures Reporting(AfterBatch(s, b, order), b)
  {
    assert Reporting(AfterBatch(s, b, order), b) by { hide DeliverBatch, Tuples; }
    hide *;
    assert BatchReady(s, b, order);
    ReadyFacts(s, b, order);
    BatchIsRun(rules, s, b, order);
    EveryRunSafe(rules, b.key, s, BatchActions(s.db, b, order));
    RunKeepsIds(rules, b.key, s, BatchActions(s.db, b, order));
  }

  lemma {:induction false} BatchExtends(db: Db, b: Batch, order: seq<string>)
    requires Consistent(db) && AllEncodable(b, order)
    ensures Consistent(DeliverBatch(db, b, order).0) && Extends(db, DeliverBatch(db, b, order).0)
  {
    hide Consistent, Extends, Deliver, TupleFrom, ReportFor, Encodable;
    if order == [] {
      ExtendsSelf(db);
    } else {
      var init, d := order[..|order| - 1], order[|order| - 1];
      assert Encodable(TupleFrom(b, d));
      BatchExtends(db, b, init);
      var before := DeliverBatch(db, b, init).0;
      var r := ReportFor(TupleFrom(b, d), b.key, b.iso);
      DeliveredIsStoredOnce(before, r, LinkOf(b, d), 0);
      ExtendsTransitive(db, before, Deliver(before, r, LinkOf(b, d), 0).0);
    }
  }

  lemma StillReachable(s: World, t: World, b: Batch, d: string)
    requires Reachable(s, b, d) && Extends(s.db, t.db)
    ensures Reachable(t, b, d)
  {
  }

  lemma TurnInBatchReaches(rules: seq<Rule>, s: World, b: Batch, init: seq<string>, d: string)
    requires BatchReady(s, b, init + [d]) && Reachable(s, b, d)
    ensures AllEncodable(b, init + [d]) && Reached(DeliverBatch(s.db, b, init + [d]).0, d, b.sequence)
  {
    ReadyInit(s, b, init, d);
    hide *;
    AfterBatchSafe(rules, s, b, init);
    NextInTurn(s, b, init, d);
    BatchExtends(s.db, b, init);
    StillReachable(s, AfterBatch(s, b, init), b, d);
    TurnReaches(rules, AfterBatch(s, b, init), b, d);
    DeliverBatchSnoc(s.db, b, init, d);
  }

  lemma TurnKeepsReached(s: World, b: Batch, init: seq<string>, last: string, d: string)
    requires BatchReady(s, b, init + [last])
    requires AllEncodable(b, init) && Reached(DeliverBatch(s.db, b, init).0, d, b.sequence)
    ensures AllEncodable(b, init + [last]) && Reached(DeliverBatch(s.db, b, init + [last]).0, d, b.sequence)
  {
    ReadyInit(s, b, init, last);
    var r := ReportFor(TupleFrom(b, last), b.key, b.iso);
    hide *;
    BatchExtends(s.db, b, init);
    var before := DeliverBatch(s.db, b, init).0;
    DeliveredIsStoredOnce(before, r, LinkOf(b, last), 0);
    StillReached(before, Deliver(before, r, LinkOf(b, last), 0).0, d, b.sequence);
    DeliverBatchSnoc(s.db, b, init, last);
  }

  lemma {:induction false} BatchReaches(rules: seq<Rule>, s: World, b: Batch, order: seq<string>, d: string)
    requires BatchReady(s, b, order) && d in order && Reachable(s, b, d)
    ensures AllEncodable(b, order) && Reached(DeliverBatch(s.db, b, order).0, d, b.sequence)
  {
    hide *;
    var init, last := order[..|order| - 1], order[|order| - 1];
    assert order == init + [last];
    if d == last {
      TurnInBatchReaches(rules, s, b, init, d);
    } else {
      assert d in init;
      ReadyInit(s, b, init, last);
      BatchReaches(rules, s, b, init, d);
      TurnKeepsReached(s, b, init, last, d);
    }
  }

  lemma BatchCatchesUp(rules: seq<Rule>, s: World, b: Batch, order: seq<string>, d: string)
    requires BatchReady(s, b, order) && d in order && Reachable(s, b, d)
    ensures AllEncodable(b, order)
    ensures var db := DeliverBatch(s.db, b, order).0;
      && d in db.devices && db.devices[d].lastSequence == b.sequence
      && db.devices[d].lastCount == GetOrZero(b.counts, d)
  {
    ReadyFacts(s, b, order);
    BatchReaches(rules, s, b, order, d);
    AfterBatchSafe(rules, s, b, order);
    BatchExtends(s.db, b, order);
    hide Safe, AllEncodable, BatchPresentable, Distinct, IdsFit, Consistent, DeliverBatch, BatchReady, SomeReaches;
    TopMarkIsBatch(b.key, AfterBatch(s, b, order), d);
  }

  lemma TakenFacts(s: World, b: Batch)
    requires AtStart(s, b)
    ensures Taken(s, b).db == s.db && Taken(s, b).signed == s.signed && Reporting(Taken(s, b), b)
    ensures forall e :: e in s.disk.counters ==> e in Taken(s, b).reporter.todo
    ensures forall e :: GetOrZero(b.counts, e) == StoredCount(s.disk, e)
  {
  }

  lemma TakenReachable(s: World, b: Batch, d: string)
    requires Reachable(s, b, d)
    ensures Reachable(Taken(s, b), b, d)
  {
  }

  /** What a report command is for: after any run of the protocol, when the command's batch visits a
      device enrolled under the gateway's key and some attempt at its report reaches the backend,
      the accepted count becomes exactly the recognised events logged when the command loaded the
      store, less those lost and the one in progress, whatever was lost, repeated or posted by
      others before and in between. */
  lemma ReportCatchesUp(rules: seq<Rule>, actions: seq<Action>, b: Batch, order: seq<string>, d: string)
    requires var s := Run(rules, b.key, START, actions);
      && AtStart(s, b) && AllEncodable(b, order) && BatchPresentable(b, s.signed, order)
      && Distinct(order) && (forall e :: e in order ==> e in s.disk.counters)
      && d in order && Reachable(s, b, d)
    ensures var s := Run(rules, b.key, START, actions);
      var db := DeliverBatch(s.db, b, order).0;
      && d in db.devices && db.devices[d].lastSequence == b.sequence
      && db.devices[d].lastCount ==
           Recognised(s.disk.events, d) - LostAlong(rules, b.key, START, actions, d) - Pending(s.observer, d)
  {
    var s := Run(rules, b.key, START, actions);
    EveryRunFromStartSafe(rules, b.key, actions);
    EventsConserved(rules, b.key, actions, d);
    RunKeepsIds(rules, b.key, START, actions);
    assert DiskOk(s.disk);
    hide *;
    TakenIsRun(rules, s, b);
    EveryRunSafe(rules, b.key, s, TakeActions(b));
    TakenFacts(s, b);
    TakenReachable(s, b, d);
    BatchCatchesUp(rules, Taken(s, b), b, order, d);
  }
}
