/** Delivery of one report batch over a lossy link (gateway/reporter.py and cmd_report of
    gateway/cli.py), against the backend's server. */
module Reporter {
  import opened Common
  import opened Canonical
  import opened Backend
  import Gateway

  /** What becomes of one attempt: lost on the way out, handled with the response lost, turned
      away with a 5xx status before it is handled, or answered. */
  datatype Fate = RequestLost | ResponseLost | Unavailable | Answered

  /** One attempt, and the requests of others that the backend serves before it. */
  datatype Attempt = Attempt(before: seq<Request>, fate: Fate)

  datatype PostResult = PostResult(delivered: bool, status: Option<int>, attempts: int)

  predicate Reaches(a: Attempt) {
    a.fate.ResponseLost? || a.fate.Answered?
  }

  function Status(response: Response): int {
    match response
    case Accepted(_, _, _) => 200
    case Rejected(UnknownDevice) => 404
    case Rejected(BadSignature) => 401
    case Rejected(BadSignatureEncoding) => 400
    case Rejected(BadRegisteredKey) => 400
    case Rejected(Replay) => 409
    case Rejected(CountRollback) => 409
    case Unprocessable => 422
    case ServerError => 500
  }

  /** The report a tuple is posted as; `iso` renders a unix time as the backend stores it. */
  function ReportFor(t: ReportTuple, key: KeyId, iso: int -> string): UsageReport
    requires Encodable(t)
  {
    UsageReport(t.deviceId, t.count, t.sequence,
                Timestamp(t.windowStart * 1_000_000, iso(t.windowStart)),
                Timestamp(t.windowEnd * 1_000_000, iso(t.windowEnd)),
                Signed(key, Encoding(t)))
  }

  /** Every status stands for one kind of answer, so what the gateway makes of a status it can make of
      the answer: success, a refusal it does not retry, or a server error it does. */
  lemma StatusIff(response: Response)
    ensures var status := Status(response);
      && (status == 200 <==> response.Accepted?)
      && (status == 404 <==> response == Rejected(UnknownDevice))
      && (status == 401 <==> response == Rejected(BadSignature))
      && (status == 400 <==> response in {Rejected(BadSignatureEncoding), Rejected(BadRegisteredKey)})
      && (status == 409 <==> response in {Rejected(Replay), Rejected(CountRollback)})
      && (status == 422 <==> response == Unprocessable)
      && (status == 500 <==> response == ServerError)
      && status in {200, 400, 401, 404, 409, 422, 500}
  {
  }

  /** The retry loop from attempt number `made + 1` on. */
  function Deliver(db: Db, r: UsageReport, link: seq<Attempt>, made: nat): (Db, PostResult)
    decreases |link|
  {
    if link == [] then (db, PostResult(false, None, made))
    else
      var ready := ServeAll(db, link[0].before);
      if !Reaches(link[0]) then Deliver(ready, r, link[1..], made + 1)
      else
        var (after, response) := Post(ready, r);
        var status := Status(response);
        if link[0].fate.ResponseLost? || status >= 500 then Deliver(after, r, link[1..], made + 1)
        else (after, PostResult(status < 300, Some(status), made + 1))
  }

  /** What the first answered attempt decides: acceptance is delivery, only a server error is retried,
      and every other refusal ends the loop with its own status. */
  lemma AnswerDecides(db: Db, r: UsageReport, link: seq<Attempt>, made: nat)
    requires link != [] && link[0].fate.Answered?
    ensures var (after, answer) := Post(ServeAll(db, link[0].before), r);
      var (end, result) := Deliver(db, r, link, made);
      if answer == ServerError then (end, result) == Deliver(after, r, link[1..], made + 1)
      else
        && end == after && result.attempts == made + 1 && result.status.Some?
        && (result.delivered <==> answer.Accepted?) && (result.status == Some(200) <==> answer.Accepted?)
        && (result.status == Some(401) <==> answer == Rejected(BadSignature))
        && (result.status == Some(404) <==> answer == Rejected(UnknownDevice))
        && (result.status == Some(409) <==> answer == Rejected(Replay) || answer == Rejected(CountRollback))
  {
    hide Post, ServeAll;
    StatusIff(Post(ServeAll(db, link[0].before), r).1);
  }

  method ServeOthers(server: Server, qs: seq<Request>)
    modifies server
    ensures server.State() == ServeAll(old(server.State()), qs)
  {
    var i := 0;
    while i < |qs|
      invariant 0 <= i <= |qs|
      invariant ServeAll(server.State(), qs[i..]) == ServeAll(old(server.State()), qs)
    {
      assert qs[i..][1..] == qs[i + 1..];
      match qs[i] {
        case RegisterRequest(d, k) => var _ := server.RegisterDevice(d, k);
        case ReportRequest(q) => var _ := server.PostReport(q);
      }
      i := i + 1;
    }
  }

  /** `Reporter.post`; `link` says what happens to each of the allowed attempts. */
  method PostWithRetry(server: Server, r: UsageReport, link: seq<Attempt>) returns (result: PostResult)
    modifies server
    ensures (server.State(), result) == Deliver(old(server.State()), r, link, 0)
  {
    var attempt := 0;
    while attempt < |link|
      invariant 0 <= attempt <= |link|
      invariant Deliver(server.State(), r, link[attempt..], attempt) == Deliver(old(server.State()), r, link, 0)
    {
      var now := link[attempt];
      assert link[attempt..][1..] == link[attempt + 1..];
      attempt := attempt + 1;
      ServeOthers(server, now.before);
      if Reaches(now) {
        var response := server.PostReport(r);
        if now.fate.Answered? {
          var status := Status(response);
          if 200 <= status < 300 {
            return PostResult(true, Some(status), attempt);
          }
          if 400 <= status < 500 {
            return PostResult(false, Some(status), attempt);
          }
        }
      }
    }
    return PostResult(false, None, |link|);
  }

  // ---------------------------------------------------------------- what delivery means

  /** How many rows a table holds for one (device, sequence) pair. */
  function Copies(rows: seq<Row>, d: string, sequence: int): nat {
    if rows == [] then 0
    else
      Copies(rows[..|rows| - 1], d, sequence) +
      if rows[|rows| - 1].deviceId == d && rows[|rows| - 1].sequence == sequence then 1 else 0
  }

  lemma {:induction false} CopiesInHistory(rows: seq<Row>, d: string, sequence: int)
    requires Advancing(RowsOf(rows, d))
    ensures Copies(rows, d, sequence) <= 1
    ensures Copies(rows, d, sequence) == 1 <==> exists row :: row in RowsOf(rows, d) && row.sequence == sequence
  {
    if rows == [] {
    } else {
      var init, last := rows[..|rows| - 1], rows[|rows| - 1];
      var mine, before := RowsOf(rows, d), RowsOf(init, d);
      if last.deviceId == d {
        assert mine == before + [last] && mine[|before|] == last;
        forall i, j | 0 <= i < j < |before|
          ensures before[i].sequence < before[j].sequence && before[i].count <= before[j].count
        {
          assert mine[i] == before[i] && mine[j] == before[j];
        }
        forall row | row in before
          ensures row.sequence < last.sequence && row in mine
        {
          var i :| 0 <= i < |before| && before[i] == row;
          assert mine[i] == row;
        }
        assert forall row :: row in mine ==> row in before || row == last;
      }
      CopiesInHistory(init, d, sequence);
    }
  }

  lemma StoredOnce(db: Db, row: Row)
    requires Consistent(db) && row in db.rows
    ensures Copies(db.rows, row.deviceId, row.sequence) == 1
  {
    RowsOfMembers(db.rows, row.deviceId);
    CopiesInHistory(db.rows, row.deviceId, row.sequence);
  }

  lemma AtMostOneCopy(db: Db, d: string, sequence: int)
    requires Consistent(db)
    ensures Copies(db.rows, d, sequence) <= 1
  {
    if d in db.devices {
      CopiesInHistory(db.rows, d, sequence);
    } else {
      NoRowsOf(db.rows, d);
      CopiesInHistory(db.rows, d, sequence);
    }
  }

  lemma AcceptedIsLastRow(db: Db, r: UsageReport)
    requires Post(db, r).1.Accepted?
    ensures Post(db, r).0.rows == db.rows + [RowFor(r)]
    ensures RowFor(r) in Post(db, r).0.rows
  {
    hide CheckSignature;
    assert (db.rows + [RowFor(r)])[|db.rows|] == RowFor(r);
  }

  lemma SuccessIsAccepted(response: Response)
    ensures Status(response) < 300 ==> response.Accepted?
  {
  }

  lemma PostOnce(db: Db, r: UsageReport)
    requires Consistent(db)
    ensures var (after, response) := Post(db, r);
      && Consistent(after) && Extends(db, after)
      && (response.Accepted? ==> RowFor(r) in after.rows && Copies(after.rows, r.deviceId, r.sequence) == 1)
      && (Status(response) < 300 ==> response.Accepted?)
  {
    PostKeepsConsistent(db, r);
    SuccessIsAccepted(Post(db, r).1);
    hide Consistent, Extends, Post, Copies, Status;
    if Post(db, r).1.Accepted? {
      AcceptedIsLastRow(db, r);
      StoredOnce(Post(db, r).0, RowFor(r));
    }
  }

  lemma ExtendsTransitive(a: Db, b: Db, c: Db)
    requires Extends(a, b) && Extends(b, c)
    ensures Extends(a, c)
  {
  }

  /** Whatever the link loses and whatever others post, retrying stores the report at most once,
      and a delivered report is stored exactly once, with its count. */
  lemma {:induction false} DeliveredIsStoredOnce(db: Db, r: UsageReport, link: seq<Attempt>, made: nat)
    requires Consistent(db)
    ensures var (after, result) := Deliver(db, r, link, made);
      && Consistent(after) && Extends(db, after)
      && Copies(after.rows, r.deviceId, r.sequence) <= 1
      && (result.delivered ==> RowFor(r) in after.rows && Copies(after.rows, r.deviceId, r.sequence) == 1)
    decreases |link|
  {
    AtMostOneCopy(Deliver(db, r, [], made).0, r.deviceId, r.sequence);
    if link == [] {
    } else {
      var ready := ServeAll(db, link[0].before);
      EveryRunConsistent(db, link[0].before);
      PostOnce(ready, r);
      var next := if Reaches(link[0]) then Post(ready, r).0 else ready;
      ExtendsTransitive(db, ready, next);
      AtMostOneCopy(next, r.deviceId, r.sequence);
      DeliveredIsStoredOnce(next, r, link[1..], made + 1);
      ExtendsTransitive(db, next, Deliver(next, r, link[1..], made + 1).0);
    }
  }

  // ---------------------------------------------------------------- what non-delivery means

  predicate Quiet(link: seq<Attempt>) {
    forall i :: 0 <= i < |link| ==> link[i].before == []
  }

  predicate SomeReaches(link: seq<Attempt>) {
    exists i :: 0 <= i < |link| && Reaches(link[i])
  }

  function FirstReaching(link: seq<Attempt>): Option<Attempt> {
    if link == [] then None else if Reaches(link[0]) then Some(link[0]) else FirstReaching(link[1..])
  }

  lemma {:induction false} AfterAcceptance(db: Db, r: UsageReport, link: seq<Attempt>, made: nat)
    requires WellFormed(r) && r.deviceId in db.devices
    requires CheckSignature(r, db.devices[r.deviceId].key).Pass?
    requires r.sequence <= db.devices[r.deviceId].lastSequence
    requires Quiet(link)
    ensures Deliver(db, r, link, made).0 == db && !Deliver(db, r, link, made).1.delivered
    decreases |link|
  {
    if link == [] {
    } else {
      StaleIsReplay(db, r);
      AfterAcceptance(db, r, link[1..], made + 1);
    }
  }

  /** Without interference, a report the backend would accept ends up stored exactly when some
      attempt reaches it, but is called delivered exactly when the first one to reach it is also
      answered: after a lost response the retry is refused as a replay. */
  lemma {:induction false} QuietDelivery(db: Db, r: UsageReport, link: seq<Attempt>, made: nat)
    requires Consistent(db) && Post(db, r).1.Accepted? && Quiet(link)
    ensures var (after, result) := Deliver(db, r, link, made);
      && (after == Post(db, r).0 <==> SomeReaches(link))
      && (after == db <==> !SomeReaches(link))
      && (result.delivered <==> FirstReaching(link).Some? && FirstReaching(link).value.fate.Answered?)
    decreases |link|
  {
    AcceptedIsLastRow(db, r);
    AcceptedIff(db, r);
    if link == [] {
    } else {
      if Reaches(link[0]) {
        var after := Post(db, r).0;
        AfterAcceptance(after, r, link[1..], made + 1);
      } else {
        QuietDelivery(db, r, link[1..], made + 1);
        if SomeReaches(link) {
          var i :| 0 <= i < |link| && Reaches(link[i]);
          assert Reaches(link[1..][i - 1]);
        }
        if SomeReaches(link[1..]) {
          var i :| 0 <= i < |link[1..]| && Reaches(link[1..][i]);
          assert Reaches(link[i + 1]);
        }
      }
    }
  }

  /** The fate of the attempt that the backend accepts, if one is made and accepted. */
  function StoredBy(db: Db, r: UsageReport, link: seq<Attempt>): Option<Fate>
    decreases |link|
  {
    if link == [] then None
    else
      var ready := ServeAll(db, link[0].before);
      if !Reaches(link[0]) then StoredBy(ready, r, link[1..])
      else
        var (after, response) := Post(ready, r);
        if response.Accepted? then Some(link[0].fate)
        else if link[0].fate.ResponseLost? || Status(response) >= 500 then StoredBy(after, r, link[1..])
        else None
  }

  /** The requests of others that are served before the first `n` attempts. */
  function Others(link: seq<Attempt>, n: nat): seq<Request>
    requires n <= |link|
  {
    if n == 0 then [] else link[0].before + Others(link[1..], n - 1)
  }

  lemma {:induction false} ServeConcat(db: Db, qs: seq<Request>, rs: seq<Request>)
    ensures ServeAll(db, qs + rs) == ServeAll(ServeAll(db, qs), rs)
    decreases |qs|
  {
    hide Serve;
    if qs == [] {
      assert qs + rs == rs;
    } else {
      assert (qs + rs)[1..] == qs[1..] + rs;
      ServeConcat(Serve(db, qs[0]), qs[1..], rs);
    }
  }

  ghost predicate StaleFor(db: Db, r: UsageReport) {
    && Consistent(db) && WellFormed(r) && r.deviceId in db.devices
    && CheckSignature(r, db.devices[r.deviceId].key).Pass?
    && r.sequence <= db.devices[r.deviceId].lastSequence
  }

  lemma StaleForEver(db: Db, r: UsageReport, qs: seq<Request>)
    requires StaleFor(db, r)
    ensures StaleFor(ServeAll(db, qs), r) && Post(ServeAll(db, qs), r) == (ServeAll(db, qs), Rejected(Replay))
  {
    EveryRunConsistent(db, qs);
    StaleIsReplay(ServeAll(db, qs), r);
  }

  lemma {:induction false} StaleNeverDelivered(db: Db, r: UsageReport, link: seq<Attempt>, made: nat)
    requires StaleFor(db, r)
    ensures !Deliver(db, r, link, made).1.delivered
    ensures Deliver(db, r, link, made).1.status in {None, Some(409)}
    decreases |link|
  {
    hide StaleFor, Post;
    if link == [] {
    } else {
      var ready := ServeAll(db, link[0].before);
      StaleForEver(db, r, link[0].before);
      StaleNeverDelivered(ready, r, link[1..], made + 1);
    }
  }

  lemma AcceptedIsStale(db: Db, r: UsageReport)
    requires Consistent(db) && Post(db, r).1.Accepted?
    ensures StaleFor(Post(db, r).0, r)
  {
    AcceptedIff(db, r);
    PostKeepsConsistent(db, r);
  }

  lemma AnsweredReplay(db: Db, r: UsageReport, made: nat)
    requires StaleFor(db, r)
    ensures Deliver(db, r, [Attempt([], Answered)], made) == (db, PostResult(false, Some(409), made + 1))
  {
    StaleForEver(db, r, []);
    hide Post, StaleFor;
  }

  lemma LostThenRest(db: Db, r: UsageReport, link: seq<Attempt>)
    requires link != [] && link[0] == Attempt([], ResponseLost)
    ensures Deliver(db, r, link, 0) == Deliver(Post(db, r).0, r, link[1..], 1)
  {
    hide Post;
  }

  /** An instance: the first response is lost and the retry answered. The report is stored, and
      called undelivered with status 409. */
  lemma LostResponseLooksUndelivered(db: Db, r: UsageReport)
    requires Consistent(db) && Post(db, r).1.Accepted?
    ensures Deliver(db, r, [Attempt([], ResponseLost), Attempt([], Answered)], 0) ==
            (Post(db, r).0, PostResult(false, Some(409), 2))
  {
    var link := [Attempt([], ResponseLost), Attempt([], Answered)];
    hide *;
    AcceptedIsStale(db, r);
    AnsweredReplay(Post(db, r).0, r, 1);
    LostThenRest(db, r, link);
    assert link[1..] == [Attempt([], Answered)];
  }

  lemma RefusedChangesNothing(db: Db, r: UsageReport)
    requires Consistent(db) && !Post(db, r).1.Accepted?
    ensures Post(db, r).0 == db
    ensures Status(Post(db, r).1) >= 400
  {
    AcceptedIff(db, r);
  }

  lemma AcceptedStatus(response: Response)
    requires response.Accepted?
    ensures Status(response) == 200
  {
  }

  lemma RowStays(db: Db, after: Db, row: Row)
    requires Extends(db, after) && row in db.rows
    ensures row in after.rows
  {
  }

  lemma {:induction false} AttemptsBounded(db: Db, r: UsageReport, link: seq<Attempt>, made: nat)
    ensures made <= Deliver(db, r, link, made).1.attempts <= made + |link|
    decreases |link|
  {
    hide Post, Serve;
    if link == [] {
    } else {
      var ready := ServeAll(db, link[0].before);
      AttemptsBounded(ready, r, link[1..], made + 1);
      AttemptsBounded(Post(ready, r).0, r, link[1..], made + 1);
    }
  }

  lemma AfterStale(db: Db, r: UsageReport, link: seq<Attempt>, made: nat)
    requires StaleFor(db, r) && RowFor(r) in db.rows
    ensures var (after, result) := Deliver(db, r, link, made);
      && RowFor(r) in after.rows && !result.delivered && result.status in {None, Some(409)}
      && made <= result.attempts <= made + |link|
  {
    assert Consistent(db);
    hide *;
    StaleNeverDelivered(db, r, link, made);
    DeliveredIsStoredOnce(db, r, link, made);
    AttemptsBounded(db, r, link, made);
    RowStays(db, Deliver(db, r, link, made).0, RowFor(r));
  }

  /** The attempt that the backend accepts, and what follows it. */
  lemma AcceptedAttempt(ready: Db, r: UsageReport, link: seq<Attempt>, made: nat)
    requires Consistent(ready) && link != [] && Reaches(link[0]) && Post(ready, r).1.Accepted?
    ensures var after := Post(ready, r).0;
      && RowFor(r) in after.rows && Status(Post(ready, r).1) == 200
      && RowFor(r) in Deliver(after, r, link[1..], made + 1).0.rows
      && !Deliver(after, r, link[1..], made + 1).1.delivered
      && Deliver(after, r, link[1..], made + 1).1.status in {None, Some(409)}
      && made + 1 <= Deliver(after, r, link[1..], made + 1).1.attempts <= made + |link|
  {
    hide *;
    AcceptedIsLastRow(ready, r);
    AcceptedIsStale(ready, r);
    AcceptedStatus(Post(ready, r).1);
    AfterStale(Post(ready, r).0, r, link[1..], made + 1);
  }

  /** What delivery means whatever others post in between. If an attempt is accepted the report is
      stored, and it is called delivered exactly when that attempt is answered; a lost response is
      followed by silence or 409. If none is, the table is as if only the others had posted. */
  lemma {:induction false} DeliveryMeaning(db: Db, r: UsageReport, link: seq<Attempt>, made: nat)
    requires Consistent(db)
    ensures var (after, result) := Deliver(db, r, link, made);
      && (result.delivered <==> StoredBy(db, r, link) == Some(Answered))
      && (StoredBy(db, r, link).Some? ==> RowFor(r) in after.rows)
      && (StoredBy(db, r, link) == Some(ResponseLost) ==> result.status in {None, Some(409)})
      && made <= result.attempts <= made + |link|
      && (StoredBy(db, r, link).None? ==> after == ServeAll(db, Others(link, result.attempts - made)))
    decreases |link|
  {
    hide Consistent, Post, RowFor, Extends, Status;
    if link == [] {
    } else {
      var ready := ServeAll(db, link[0].before);
      EveryRunConsistent(db, link[0].before);
      var rest := link[1..];
      if !Reaches(link[0]) {
        DeliveryMeaning(ready, r, rest, made + 1);
        var n := Deliver(ready, r, rest, made + 1).1.attempts - (made + 1);
        ServeConcat(db, link[0].before, Others(rest, n));
      } else if Post(ready, r).1.Accepted? {
        AcceptedAttempt(ready, r, link, made);
      } else {
        RefusedChangesNothing(ready, r);
        DeliveryMeaning(ready, r, rest, made + 1);
        var n := Deliver(ready, r, rest, made + 1).1.attempts - (made + 1);
        ServeConcat(db, link[0].before, Others(rest, n));
        ServeConcat(db, link[0].before, Others(rest, 0));
      }
    }
  }

  // ---------------------------------------------------------------- cmd_report

  /** What the devices of one batch share. */
  datatype Batch = Batch(
    counts: map<string, int>, sequence: int, windowStart: int, now: int,
    key: KeyId, iso: int -> string, links: map<string, seq<Attempt>>)

  /** A row that carries device `d`'s count and the batch's window, under a signature of the batch's
      key over a message that reads back as exactly those. */
  predicate Carries(row: Row, b: Batch, d: string) {
    && row.deviceId == d && row.sequence == b.sequence && row.count == GetOrZero(b.counts, d)
    && row.windowStart == b.iso(b.windowStart) && row.windowEnd == b.iso(b.now)
    && row.signature.Signed? && row.signature.signer == b.key
    && Read(row.signature.message) ==
         Some((ReportTuple(d, GetOrZero(b.counts, d), b.sequence, b.windowStart, b.now), []))
  }

  /** The table holds this (device, sequence) pair once, in a row that carries what the batch says. */
  ghost predicate Holds(db: Db, b: Batch, d: string) {
    && Copies(db.rows, d, b.sequence) == 1
    && exists row :: row in db.rows && Carries(row, b, d)
  }

  lemma HoldsForEver(db: Db, after: Db, b: Batch, d: string)
    requires Consistent(after) && Extends(db, after) && Holds(db, b, d)
    ensures Holds(after, b, d)
  {
    hide Read;
    var row :| row in db.rows && Carries(row, b, d);
    assert row in after.rows;
    StoredOnce(after, row);
  }

  ghost predicate AllHeld(db: Db, b: Batch, delivered: set<string>) {
    forall d :: d in delivered ==> Holds(db, b, d)
  }

  lemma AllHeldForEver(db: Db, after: Db, b: Batch, delivered: set<string>)
    requires Consistent(after) && Extends(db, after) && AllHeld(db, b, delivered)
    ensures AllHeld(after, b, delivered)
  {
    forall d | d in delivered
      ensures Holds(after, b, d)
    {
      HoldsForEver(db, after, b, d);
    }
  }

  lemma AllHeldAdd(db: Db, b: Batch, delivered: set<string>, d: string)
    requires AllHeld(db, b, delivered) && Holds(db, b, d)
    ensures AllHeld(db, b, delivered + {d})
  {
  }

  lemma ExtendsSelf(db: Db)
    ensures Extends(db, db)
  {
  }

  function LinkOf(b: Batch, d: string): seq<Attempt> {
    if d in b.links then b.links[d] else []
  }

  function TupleFrom(b: Batch, d: string): ReportTuple {
    Gateway.BatchTuple(b.counts, d, b.sequence, b.windowStart, b.now)
  }

  lemma RowCarries(b: Batch, d: string)
    requires Encodable(TupleFrom(b, d))
    ensures Carries(RowFor(ReportFor(TupleFrom(b, d), b.key, b.iso)), b, d)
  {
    var t := TupleFrom(b, d);
    ReadInvertsEncoding(t, []);
    hide Read, Encoding, Encodable;
    assert Encoding(t) + [] == Encoding(t);
  }

  /** One device's turn in the batch: build, sign and post its report. */
  method PostOne(server: Server, b: Batch, d: string) returns (result: PostResult)
    requires Encodable(TupleFrom(b, d)) && Consistent(server.State())
    modifies server
    ensures (server.State(), result) ==
            Deliver(old(server.State()), ReportFor(TupleFrom(b, d), b.key, b.iso), LinkOf(b, d), 0)
    ensures Consistent(server.State()) && Extends(old(server.State()), server.State())
    ensures result.delivered ==> Holds(server.State(), b, d)
  {
    var r := ReportFor(TupleFrom(b, d), b.key, b.iso);
    DeliveredIsStoredOnce(server.State(), r, LinkOf(b, d), 0);
    RowCarries(b, d);
    hide Deliver, Carries, Encoding, Consistent, Extends, Encodable;
    result := PostWithRetry(server, r, LinkOf(b, d));
    assert result.delivered ==> RowFor(r) in server.rows;
  }

  predicate AllEncodable(b: Batch, order: seq<string>) {
    forall i :: 0 <= i < |order| ==> Encodable(TupleFrom(b, order[i]))
  }

  /** Posting the devices of a batch in the given order: the tables, and the devices delivered. */
  function DeliverBatch(db: Db, b: Batch, order: seq<string>): (Db, set<string>)
    requires AllEncodable(b, order)
  {
    if order == [] then (db, {})
    else
      var (before, done) := DeliverBatch(db, b, order[..|order| - 1]);
      var d := order[|order| - 1];
      var (after, result) := Deliver(before, ReportFor(TupleFrom(b, d), b.key, b.iso), LinkOf(b, d), 0);
      (after, if result.delivered then done + {d} else done)
  }

  lemma DeliverBatchSnoc(db: Db, b: Batch, order: seq<string>, d: string)
    requires AllEncodable(b, order) && Encodable(TupleFrom(b, d))
    ensures AllEncodable(b, order + [d])
    ensures DeliverBatch(db, b, order + [d]) ==
      var (before, done) := DeliverBatch(db, b, order);
      var (after, result) := Deliver(before, ReportFor(TupleFrom(b, d), b.key, b.iso), LinkOf(b, d), 0);
      (after, if result.delivered then done + {d} else done)
  {
    hide Deliver, ReportFor, TupleFrom, Encodable;
    assert (order + [d])[..|order|] == order;
  }

  /** Where a batch stands after the devices in `order`. */
  ghost predicate PostedSoFar(before: Db, now: Db, b: Batch, order: seq<string>, delivered: set<string>) {
    && AllEncodable(b, order) && (now, delivered) == DeliverBatch(before, b, order)
    && Consistent(now) && Extends(before, now) && AllHeld(now, b, delivered)
  }

  lemma NothingPosted(db: Db, b: Batch)
    requires Consistent(db)
    ensures PostedSoFar(db, db, b, [], {})
  {
    ExtendsSelf(db);
  }

  lemma PostedIsConsistent(before: Db, now: Db, b: Batch, order: seq<string>, delivered: set<string>)
    requires PostedSoFar(before, now, b, order, delivered)
    ensures AllEncodable(b, order) && (now, delivered) == DeliverBatch(before, b, order)
    ensures Consistent(now) && Extends(before, now) && AllHeld(now, b, delivered)
  {
  }

  lemma PostedNext(before: Db, earlier: Db, now: Db, b: Batch, order: seq<string>, delivered: set<string>,
                   d: string, result: PostResult)
    requires PostedSoFar(before, earlier, b, order, delivered) && Encodable(TupleFrom(b, d))
    requires (now, result) == Deliver(earlier, ReportFor(TupleFrom(b, d), b.key, b.iso), LinkOf(b, d), 0)
    requires Consistent(now) && Extends(earlier, now)
    requires result.delivered ==> Holds(now, b, d)
    ensures PostedSoFar(before, now, b, order + [d], if result.delivered then delivered + {d} else delivered)
  {
    PostedIsConsistent(before, earlier, b, order, delivered);
    hide AllHeld, Holds, Consistent, Extends, Deliver, DeliverBatch, ReportFor, TupleFrom, Encodable;
    AllHeldForEver(earlier, now, b, delivered);
    ExtendsTransitive(before, earlier, now);
    DeliverBatchSnoc(before, b, order, d);
    if result.delivered {
      AllHeldAdd(now, b, delivered, d);
    }
  }

  predicate Distinct(order: seq<string>) {
    forall i, j :: 0 <= i < j < |order| ==> order[i] != order[j]
  }

  /** `order` lists, once each, the devices no longer to do. */
  ghost predicate Visited(order: seq<string>, devices: set<string>, todo: set<string>) {
    Distinct(order) && forall d :: d in order <==> d in devices && d !in todo
  }

  lemma VisitedNone(devices: set<string>)
    ensures Visited([], devices, devices)
  {
  }

  lemma VisitNext(order: seq<string>, devices: set<string>, todo: set<string>, d: string)
    requires Visited(order, devices, todo) && d in todo && todo <= devices
    ensures Visited(order + [d], devices, todo - {d})
  {
    assert forall e :: e in order + [d] <==> e in order || e == d;
  }

  lemma VisitedFacts(order: seq<string>, devices: set<string>, todo: set<string>)
    requires Visited(order, devices, todo)
    ensures Distinct(order) && forall d :: d in order <==> d in devices && d !in todo
  {
  }

  /** One device's turn: build, sign and post its report, unless encoding raises. */
  method Turn(server: Server, b: Batch, d: string,
              ghost before: Db, ghost order: seq<string>, ghost done: set<string>)
    returns (posted: bool, delivered: bool)
    requires PostedSoFar(before, server.State(), b, order, done)
    modifies server
    ensures posted == Encodable(TupleFrom(b, d))
    ensures posted ==>
      PostedSoFar(before, server.State(), b, order + [d], if delivered then done + {d} else done)
    ensures !posted ==> server.State() == old(server.State())
  {
    var t := TupleFrom(b, d);
    PythonEncodersAgree(t);
    hide Deliver, DeliverBatch, ReportFor, GatewayBytes, BackendBytes, Encodable, AllHeld, Extends, Consistent;
    if GatewayBytes(t).Err? {
      return false, false;
    }
    ghost var earlier := server.State();
    PostedIsConsistent(before, earlier, b, order, done);
    var result := PostOne(server, b, d);
    PostedNext(before, earlier, server.State(), b, order, done, d, result);
    return true, result.delivered;
  }

  /** The loop over the devices, in the order returned; an exception while encoding ends it. */
  method PostAll(server: Server, b: Batch)
    returns (delivered: set<string>, failures: nat, aborted: bool, ghost order: seq<string>)
    requires Consistent(server.State())
    modifies server
    ensures PostedSoFar(old(server.State()), server.State(), b, order, delivered)
    ensures Distinct(order) && forall d :: d in order ==> d in b.counts
    ensures if aborted then exists d :: d in b.counts && d !in order && !Encodable(TupleFrom(b, d))
            else (forall d :: d in b.counts ==> d in order) && failures == |b.counts.Keys| - |delivered|
  {
    order := [];
    delivered, failures, aborted := {}, 0, false;
    var todo := b.counts.Keys;
    ghost var before := server.State();
    NothingPosted(before, b);
    hide PostedSoFar, Visited, Encodable, TupleFrom, Distinct, Consistent;
    VisitedNone(todo);
    while todo != {}
      invariant todo <= b.counts.Keys && delivered <= b.counts.Keys && delivered !! todo
      invariant failures + |delivered| + |todo| == |b.counts.Keys|
      invariant Visited(order, b.counts.Keys, todo)
      invariant PostedSoFar(before, server.State(), b, order, delivered)
      decreases |todo|
    {
      var d :| d in todo;
      var posted, ok := Turn(server, b, d, before, order, delivered);
      if !posted {
        VisitedFacts(order, b.counts.Keys, todo);
        aborted := true;
        return;
      }
      VisitNext(order, b.counts.Keys, todo, d);
      todo := todo - {d};
      order := order + [d];
      if ok {
        delivered := delivered + {d};
      } else {
        failures := failures + 1;
      }
    }
    VisitedFacts(order, b.counts.Keys, todo);
  }

  /** One run of the report command: a new durable sequence, then one report per stored device, in
      the order returned. Delivery never feeds back into the counters. `links` gives the fate of
      each device's attempts; `aborted` stands for an exception while encoding. */
  method Report(store: Gateway.Store, server: Server, key: KeyId, iso: int -> string,
                now: int, interval: int, links: map<string, seq<Attempt>>)
    returns (delivered: set<string>, failures: nat, aborted: bool, b: Batch, ghost order: seq<string>)
    requires Gateway.NonNegative(store.counters) && Gateway.LoadSequence(store.State()) >= 0
    requires Consistent(server.State())
    modifies store, server
    ensures b == Batch(store.counters, Gateway.LoadSequence(old(store.State())) + 1,
                       now - interval, now, key, iso, links)
    ensures store.State() == old(store.State()).(sequence := Some(b.sequence))
    ensures Distinct(order) && AllEncodable(b, order) && (forall d :: d in order ==> d in store.counters)
    ensures (server.State(), delivered) == DeliverBatch(old(server.State()), b, order)
    ensures Consistent(server.State()) && Extends(old(server.State()), server.State())
    ensures AllHeld(server.State(), b, delivered)
    ensures if aborted then exists d :: d in store.counters && d !in order && !Encodable(TupleFrom(b, d))
            else (forall d :: d in store.counters ==> d in order) && failures == |store.counters.Keys| - |delivered|
  {
    var counter := Gateway.Load(store);
    var sequence := counter.NextSequence();
    var error := store.SaveSequenceNumber(sequence);
    b := Batch(counter.counts, sequence, now - interval, now, key, iso, links);
    ghost var before := server.State();
    hide PostedSoFar, Encodable, Distinct, AllHeld, Extends, Consistent, DeliverBatch;
    delivered, failures, aborted, order := PostAll(server, b);
    PostedIsConsistent(before, server.State(), b, order, delivered);
  }
}
