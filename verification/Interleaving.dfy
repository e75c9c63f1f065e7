/** Concurrent handling of reports: backend/app.py verifies a report before it opens its
    transaction, so other requests may commit in between. */
module Interleaving {
  import opened Common
  import opened Backend

  /** The tables, and the reports that passed verification but have not committed yet. */
  datatype State = State(db: Db, inFlight: multiset<UsageReport>)

  datatype Action =
    | Enroll(deviceId: string, key: KeyText)
    | Verify(report: UsageReport)
    | Finish(report: UsageReport)

  function Step(s: State, a: Action): State {
    match a
    case Enroll(d, k) => s.(db := Register(s.db, d, k).0)
    case Verify(r) =>
      if WellFormed(r) && VerifyReport(s.db.devices, r).Pass?
      then s.(inFlight := s.inFlight + multiset{r}) else s
    case Finish(r) =>
      if r in s.inFlight && r.deviceId in s.db.devices
      then State(Commit(s.db, r).0, s.inFlight - multiset{r}) else s
  }

  function Run(s: State, actions: seq<Action>): State
    decreases |actions|
  {
    if actions == [] then s else Run(Step(s, actions[0]), actions[1..])
  }

  ghost predicate UniqueRows(rows: seq<Row>) {
    forall i, j :: 0 <= i < j < |rows| && rows[i].deviceId == rows[j].deviceId ==>
      rows[i].sequence != rows[j].sequence
  }

  /** What survives any interleaving. */
  ghost predicate Sound(s: State) {
    && UniqueRows(s.db.rows)
    && (forall d :: d in s.db.devices ==> MarksMatch(s.db.devices[d], RowsOf(s.db.rows, d)))
    && (forall row :: row in s.db.rows ==> row.deviceId in s.db.devices)
    && (forall r :: r in s.inFlight ==> r.deviceId in s.db.devices)
  }

  lemma UniqueSnoc(rows: seq<Row>, row: Row)
    requires UniqueRows(rows) && !Stored(rows, row.deviceId, row.sequence)
    ensures UniqueRows(rows + [row])
  {
    var all := rows + [row];
    forall i, j | 0 <= i < j < |all| && all[i].deviceId == all[j].deviceId
      ensures all[i].sequence != all[j].sequence
    {
      assert all[i] == rows[i];
    }
  }

  lemma MarksAfterAppend(db: Db, row: Row, d: string)
    requires row.deviceId in db.devices && d in db.devices
    requires MarksMatch(db.devices[d], RowsOf(db.rows, d))
    ensures MarksMatch(AppendRow(db, row).devices[d], RowsOf(AppendRow(db, row).rows, d))
  {
    RowsOfSnoc(db.rows, row, d);
  }

  lemma CommitKeepsSound(s: State, r: UsageReport)
    requires Sound(s) && r in s.inFlight
    ensures Sound(Step(s, Finish(r)))
  {
    hide UniqueRows, MarksMatch, RowsOf, Stored;
    if Commit(s.db, r).1.Accepted? {
      UniqueSnoc(s.db.rows, RowFor(r));
      forall d | d in s.db.devices
        ensures MarksMatch(AppendRow(s.db, RowFor(r)).devices[d], RowsOf(AppendRow(s.db, RowFor(r)).rows, d))
      {
        MarksAfterAppend(s.db, RowFor(r), d);
      }
    }
  }

  lemma EnrollKeepsSound(s: State, d: string, k: KeyText)
    requires Sound(s)
    ensures Sound(Step(s, Enroll(d, k)))
  {
    if Register(s.db, d, k).1.Registered? {
      NoRowsOf(s.db.rows, d);
    }
  }

  lemma StepKeepsSound(s: State, a: Action)
    requires Sound(s)
    ensures Sound(Step(s, a))
  {
    match a {
      case Enroll(d, k) => EnrollKeepsSound(s, d, k);
      case Verify(_) =>
      case Finish(r) => if r in s.inFlight { CommitKeepsSound(s, r); }
    }
  }

  /** However verifications and commits interleave, a device never has two rows with one
      sequence, and its marks are those of the last row committed for it. */
  lemma {:induction false} AnyInterleavingSound(s: State, actions: seq<Action>)
    requires Sound(s)
    ensures Sound(Run(s, actions))
    decreases |actions|
  {
    hide Sound, Step;
    if actions == [] {
    } else {
      StepKeepsSound(s, actions[0]);
      AnyInterleavingSound(Step(s, actions[0]), actions[1..]);
    }
  }

  /** With nothing in between, verifying and then committing is handling the request at once. */
  lemma VerifyThenFinishIsPost(s: State, r: UsageReport)
    requires r !in s.inFlight
    ensures Step(Step(s, Verify(r)), Finish(r)) == s.(db := Post(s.db, r).0)
  {
    var t := Step(s, Verify(r));
    hide CheckSignature, Stored, WellFormed;
    if t != s {
      PassMeansAhead(s.db.devices, r);
      assert t.inFlight - multiset{r} == s.inFlight;
    }
  }

  // ---------------------------------------------------------------- regression of the marks

  /** An in-flight report whose commit would append a row. */
  predicate Live(s: State, r: UsageReport) {
    && r in s.inFlight && FitsSqlite(r.count) && FitsSqlite(r.sequence)
    && !Stored(s.db.rows, r.deviceId, r.sequence)
  }

  /** All live reports of a device carry one common sequence. */
  ghost predicate OneSequence(s: State) {
    forall q, r :: Live(s, q) && Live(s, r) && q.deviceId == r.deviceId ==> q.sequence == r.sequence
  }

  /** Every live report is still ahead of its device's marks. */
  ghost predicate Ahead(s: State) {
    forall r :: Live(s, r) ==>
      && r.deviceId in s.db.devices
      && r.sequence > s.db.devices[r.deviceId].lastSequence
      && r.count >= s.db.devices[r.deviceId].lastCount
  }

  ghost predicate MarksAdvance(before: Db, after: Db) {
    forall d :: d in before.devices ==>
      && d in after.devices
      && before.devices[d].lastSequence <= after.devices[d].lastSequence
      && before.devices[d].lastCount <= after.devices[d].lastCount
  }

  ghost predicate NeverRegresses(s: State, actions: seq<Action>)
    decreases |actions|
  {
    actions != [] ==>
      MarksAdvance(s.db, Step(s, actions[0]).db) && NeverRegresses(Step(s, actions[0]), actions[1..])
  }

  ghost predicate AlwaysOneSequence(s: State, actions: seq<Action>)
    decreases |actions|
  {
    OneSequence(s) && (actions != [] ==> AlwaysOneSequence(Step(s, actions[0]), actions[1..]))
  }

  lemma StillUnstored(rows: seq<Row>, row: Row, d: string, sequence: int)
    requires !Stored(rows + [row], d, sequence)
    ensures !Stored(rows, d, sequence)
    ensures row.deviceId != d || row.sequence != sequence
  {
    assert (rows + [row])[|rows|] == row;
    forall i | 0 <= i < |rows|
      ensures !(rows[i].deviceId == d && rows[i].sequence == sequence)
    {
      assert (rows + [row])[i] == rows[i];
    }
  }

  /** After a live report commits, the other live reports of its device were either of its own
      sequence, and so are stored now, or none. */
  lemma FinishKeepsAhead(s: State, r: UsageReport)
    requires Ahead(s) && OneSequence(s) && r in s.inFlight && r.deviceId in s.db.devices
    ensures Ahead(Step(s, Finish(r))) && MarksAdvance(s.db, Step(s, Finish(r)).db)
  {
    var t := Step(s, Finish(r));
    if Live(s, r) {
      assert t.db.rows == s.db.rows + [RowFor(r)];
      forall q | Live(t, q)
        ensures Live(s, q) && q.deviceId != r.deviceId
      {
        StillUnstored(s.db.rows, RowFor(r), q.deviceId, q.sequence);
        assert q in s.inFlight;
        assert t.db.rows[|s.db.rows|] == RowFor(r);
      }
    } else {
      assert t.db == s.db;
      forall q | Live(t, q)
        ensures Live(s, q)
      {
        assert q in s.inFlight;
      }
    }
  }

  lemma EnrollKeepsAhead(s: State, d: string, k: KeyText)
    requires Sound(s) && Ahead(s)
    ensures Ahead(Step(s, Enroll(d, k))) && MarksAdvance(s.db, Step(s, Enroll(d, k)).db)
  {
    forall r | Live(Step(s, Enroll(d, k)), r)
      ensures Live(s, r)
    {
    }
  }

  lemma VerifyKeepsAhead(s: State, r: UsageReport)
    requires Sound(s) && Ahead(s)
    ensures Ahead(Step(s, Verify(r)))
  {
    if VerifyReport(s.db.devices, r).Pass? {
      PassMeansAhead(s.db.devices, r);
    }
    forall q | Live(Step(s, Verify(r)), q)
      ensures Live(s, q) || q == r
    {
    }
  }

  lemma StepKeepsAhead(s: State, a: Action)
    requires Sound(s) && Ahead(s) && OneSequence(s)
    ensures Ahead(Step(s, a)) && MarksAdvance(s.db, Step(s, a).db)
  {
    match a {
      case Enroll(d, k) => EnrollKeepsAhead(s, d, k);
      case Verify(r) => VerifyKeepsAhead(s, r);
      case Finish(r) =>
        if r in s.inFlight {
          FinishKeepsAhead(s, r);
        }
    }
  }

  /** While the live reports of each device share one sequence, no mark ever moves back. */
  lemma {:induction false} OneSequenceNeverRegresses(s: State, actions: seq<Action>)
    requires Sound(s) && Ahead(s) && AlwaysOneSequence(s, actions)
    ensures NeverRegresses(s, actions)
    decreases |actions|
  {
    if actions == [] {
    } else {
      StepKeepsAhead(s, actions[0]);
      StepKeepsSound(s, actions[0]);
      OneSequenceNeverRegresses(Step(s, actions[0]), actions[1..]);
    }
  }

  predicate OnlyCommits(actions: seq<Action>) {
    forall i :: 0 <= i < |actions| ==> actions[i].Finish?
  }

  lemma {:induction false} CommitsKeepOneSequence(s: State, actions: seq<Action>)
    requires OneSequence(s) && OnlyCommits(actions)
    ensures AlwaysOneSequence(s, actions)
    decreases |actions|
  {
    if actions == [] {
    } else {
      var r := actions[0].report;
      var t := Step(s, actions[0]);
      forall q | Live(t, q)
        ensures Live(s, q)
      {
        if r in s.inFlight && r.deviceId in s.db.devices && t.db.rows != s.db.rows {
          StillUnstored(s.db.rows, RowFor(r), q.deviceId, q.sequence);
        }
      }
      CommitsKeepOneSequence(t, actions[1..]);
    }
  }

  /** Committing the higher of two live sequences first and the lower second sets the mark back. */
  lemma TwoSequencesRegress(s: State, low: UsageReport, high: UsageReport)
    requires Sound(s) && Ahead(s) && Live(s, low) && Live(s, high)
    requires low.deviceId == high.deviceId && low.sequence < high.sequence
    ensures !NeverRegresses(s, [Finish(high), Finish(low)])
  {
    var actions := [Finish(high), Finish(low)];
    var t := Step(s, Finish(high));
    assert t.db.devices[high.deviceId].lastSequence == high.sequence;
    assert low in t.inFlight;
    assert !Stored(t.db.rows, low.deviceId, low.sequence);
    var u := Step(t, Finish(low));
    assert u.db.devices[high.deviceId].lastSequence == low.sequence;
    assert actions[1..] == [Finish(low)];
  }

  /** The reports in flight may be committed in any order without moving a mark back exactly
      when the live ones of each device share one sequence. */
  lemma CommitOrderIrrelevantIff(s: State)
    requires Sound(s) && Ahead(s)
    ensures (forall actions :: OnlyCommits(actions) ==> NeverRegresses(s, actions)) <==> OneSequence(s)
  {
    if OneSequence(s) {
      forall actions | OnlyCommits(actions)
        ensures NeverRegresses(s, actions)
      {
        CommitsKeepOneSequence(s, actions);
        OneSequenceNeverRegresses(s, actions);
      }
    } else {
      var q, r :| Live(s, q) && Live(s, r) && q.deviceId == r.deviceId && q.sequence != r.sequence;
      var low, high := if q.sequence < r.sequence then q else r, if q.sequence < r.sequence then r else q;
      TwoSequencesRegress(s, low, high);
      assert OnlyCommits([Finish(high), Finish(low)]);
    }
  }

  predicate Postable(r: UsageReport, key: KeyId) {
    && WellFormed(r) && CheckSignature(r, Key(key)).Pass?
    && FitsSqlite(r.count) && FitsSqlite(r.sequence)
  }

  lemma VerifyOnEmpty(s: State, r: UsageReport, key: KeyId)
    requires Postable(r, key)
    requires r.deviceId in s.db.devices && s.db.devices[r.deviceId] == Device(Key(key), -1, 0)
    ensures Step(s, Verify(r)) == State(s.db, s.inFlight + multiset{r})
  {
  }

  lemma RunFive(s: State, actions: seq<Action>)
    requires |actions| == 5
    ensures Run(s, actions) ==
      Step(Step(Step(Step(Step(s, actions[0]), actions[1]), actions[2]), actions[3]), actions[4])
  {
    var a1 := actions[1..];
    var a2 := a1[1..];
    var a3 := a2[1..];
    var a4 := a3[1..];
    assert Run(s, actions) == Run(Step(s, actions[0]), a1);
    assert a4[1..] == [];
    var s1 := Step(s, actions[0]);
    assert Run(s1, a1) == Run(Step(s1, a1[0]), a2);
    var s2 := Step(s1, a1[0]);
    assert Run(s2, a2) == Run(Step(s2, a2[0]), a3);
    var s3 := Step(s2, a2[0]);
    assert Run(s3, a3) == Run(Step(s3, a3[0]), a4);
  }

  /** Such a state is reachable: any two correctly signed reports of one device, verified side
      by side and committed newest first, leave both marks at the older report. */
  lemma RegressionReachable(low: UsageReport, high: UsageReport, key: KeyId)
    requires Postable(low, key) && Postable(high, key)
    requires low.deviceId == high.deviceId && low.sequence < high.sequence
    ensures
      var d := low.deviceId;
      var before := [Enroll(d, KeyOf(key)), Verify(low), Verify(high)];
      var end := Run(State(EMPTY, multiset{}), before + [Finish(high), Finish(low)]);
      && d in end.db.devices
      && end.db.devices[d] == Device(Key(key), low.sequence, low.count)
      && end.db.rows == [RowFor(high), RowFor(low)]
  {
    var d := low.deviceId;
    var s0 := State(EMPTY, multiset{});
    var actions := [Enroll(d, KeyOf(key)), Verify(low), Verify(high)] + [Finish(high), Finish(low)];
    var s1 := Step(s0, actions[0]);
    var s2 := Step(s1, actions[1]);
    var s3 := Step(s2, actions[2]);
    VerifyOnEmpty(s1, low, key);
    VerifyOnEmpty(s2, high, key);
    var s4 := Step(s3, actions[3]);
    assert s4.db.rows == [RowFor(high)];
    assert low in s4.inFlight;
    var s5 := Step(s4, actions[4]);
    assert !Stored(s4.db.rows, d, low.sequence);
    assert s5.db.rows == [RowFor(high), RowFor(low)];
    RunFive(s0, actions);
  }
}
