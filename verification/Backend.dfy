/** The backend: the acceptance gate of backend/verify.py and the table updates of
    backend/app.py, with one request handled at a time. Signatures are ideal: a signature
    value is the pair of the key that made it and the bytes it was made over. */
module Backend {
  import opened Bytes
  import opened Common
  import opened Canonical
  import Utf8

  type KeyId = nat

  /** A stored key that `load_public_key` rejects, or a usable one. */
  datatype PublicKey = Unusable | Key(id: KeyId)

  /** A signature field that is not base64, or the signature `signer` made over `message`. A
      decodable value that verifies under no key is one of a signer nobody registered. */
  datatype Signature = NotBase64 | Signed(signer: KeyId, message: seq<byte>)

  /** A parsed datetime: its instant, and the text `isoformat()` renders for storage. */
  datatype Timestamp = Timestamp(micros: int, text: string)

  datatype UsageReport = UsageReport(
    deviceId: string, count: int, sequence: int,
    windowStart: Timestamp, windowEnd: Timestamp, signature: Signature)

  datatype Device = Device(key: PublicKey, lastSequence: int, lastCount: int)

  datatype Row = Row(
    deviceId: string, count: int, sequence: int,
    windowStart: string, windowEnd: string, signature: Signature)

  datatype Db = Db(devices: map<string, Device>, rows: seq<Row>)

  const EMPTY := Db(map[], [])

  datatype Code =
    | UnknownDevice | BadRegisteredKey | BadSignatureEncoding | BadSignature
    | Replay | CountRollback

  /** `ServerError` stands for an uncaught exception, `Unprocessable` for a request that the
      model's field constraints refuse. */
  datatype Response =
    | Accepted(deviceId: string, sequence: int, count: int)
    | Rejected(code: Code)
    | Unprocessable
    | ServerError

  function TupleFor(r: UsageReport): ReportTuple {
    TupleOf(r.deviceId, r.count, r.sequence, r.windowStart.micros, r.windowEnd.micros)
  }

  /** The field constraints of `UsageReport`. */
  predicate WellFormed(r: UsageReport) {
    1 <= |r.deviceId| <= 128 && r.count >= 0 && r.sequence >= 0 &&
    r.windowStart.micros <= r.windowEnd.micros
  }

  // ---------------------------------------------------------------- verify.py

  datatype Verdict = Pass | Fail(code: Code) | Raise

  function CheckSignature(r: UsageReport, key: PublicKey): Verdict {
    if key.Unusable? then Fail(BadRegisteredKey)
    else if r.signature.NotBase64? then Fail(BadSignatureEncoding)
    else
      match BackendBytes(TupleFor(r))
      case Err(_) => Raise
      case Ok(message) =>
        if r.signature == Signed(key.id, message) then Pass else Fail(BadSignature)
  }

  function CheckSequence(r: UsageReport, lastSequence: int): Verdict {
    if r.sequence <= lastSequence then Fail(Replay) else Pass
  }

  function CheckCountMonotonic(r: UsageReport, lastCount: int): Verdict {
    if r.count < lastCount then Fail(CountRollback) else Pass
  }

  function VerifyReport(devices: map<string, Device>, r: UsageReport): Verdict {
    if r.deviceId !in devices then Fail(UnknownDevice)
    else
      var device := devices[r.deviceId];
      var sig := CheckSignature(r, device.key);
      if sig != Pass then sig
      else
        var freshness := CheckSequence(r, device.lastSequence);
        if freshness != Pass then freshness
        else CheckCountMonotonic(r, device.lastCount)
  }

  // ---------------------------------------------------------------- app.py

  function RowFor(r: UsageReport): Row {
    Row(r.deviceId, r.count, r.sequence, r.windowStart.text, r.windowEnd.text, r.signature)
  }

  predicate Stored(rows: seq<Row>, deviceId: string, sequence: int) {
    exists i :: 0 <= i < |rows| && rows[i].deviceId == deviceId && rows[i].sequence == sequence
  }

  /** Append a row and set its device's marks to it, whatever they were. */
  function AppendRow(db: Db, row: Row): Db
    requires row.deviceId in db.devices
  {
    var device := db.devices[row.deviceId].(lastSequence := row.sequence, lastCount := row.count);
    Db(db.devices[row.deviceId := device], db.rows + [row])
  }

  /** The transaction: append the row and move the marks, or neither. */
  function Commit(db: Db, r: UsageReport): (Db, Response)
    requires r.deviceId in db.devices
  {
    if !FitsSqlite(r.count) || !FitsSqlite(r.sequence) then (db, ServerError)
    else if Stored(db.rows, r.deviceId, r.sequence) then (db, Rejected(Replay))
    else
      (AppendRow(db, RowFor(r)), Accepted(r.deviceId, r.sequence, r.count))
  }

  function Post(db: Db, r: UsageReport): (Db, Response) {
    if !WellFormed(r) then (db, Unprocessable)
    else
      match VerifyReport(db.devices, r)
      case Raise => (db, ServerError)
      case Fail(code) => (db, Rejected(code))
      case Pass => Commit(db, r)
  }

  datatype KeyText = KeyNotBase64 | KeyWrongLength | KeyOf(id: KeyId)

  datatype Registration = Registered | BadPublicKey | DeviceExists | BadRequest

  function Register(db: Db, deviceId: string, key: KeyText): (Db, Registration) {
    if !(1 <= |deviceId| <= 128) then (db, BadRequest)
    else if !key.KeyOf? then (db, BadPublicKey)
    else if deviceId in db.devices then (db, DeviceExists)
    else (db.(devices := db.devices[deviceId := Device(Key(key.id), -1, 0)]), Registered)
  }

  /** The tables behind one connection. */
  class Server {
    var devices: map<string, Device>
    var rows: seq<Row>

    function State(): Db
      reads this
    {
      Db(devices, rows)
    }

    constructor ()
      ensures State() == EMPTY
    {
      devices, rows := map[], [];
    }

    method RegisterDevice(deviceId: string, key: KeyText) returns (response: Registration)
      modifies this
      ensures (State(), response) == Register(old(State()), deviceId, key)
    {
      if !(1 <= |deviceId| <= 128) {
        return BadRequest;
      }
      if !key.KeyOf? {
        return BadPublicKey;
      }
      if deviceId in devices {
        return DeviceExists;
      }
      devices := devices[deviceId := Device(Key(key.id), -1, 0)];
      return Registered;
    }

    method PostReport(r: UsageReport) returns (response: Response)
      modifies this
      ensures (State(), response) == Post(old(State()), r)
    {
      if !WellFormed(r) {
        return Unprocessable;
      }
      var result := VerifyReport(devices, r);
      match result {
        case Raise => return ServerError;
        case Fail(code) => return Rejected(code);
        case Pass =>
          if !FitsSqlite(r.count) || !FitsSqlite(r.sequence) {
            return ServerError;
          }
          if exists i :: 0 <= i < |rows| && rows[i].deviceId == r.deviceId && rows[i].sequence == r.sequence {
            return Rejected(Replay);
          }
          rows := rows + [RowFor(r)];
          var device := devices[r.deviceId];
          devices := devices[r.deviceId := device.(lastSequence := r.sequence, lastCount := r.count)];
          return Accepted(r.deviceId, r.sequence, r.count);
      }
    }
  }

  // ---------------------------------------------------------------- histories

  /** The rows of one device, in append order. */
  function RowsOf(rows: seq<Row>, deviceId: string): seq<Row> {
    if rows == [] then []
    else
      var rest := RowsOf(rows[..|rows| - 1], deviceId);
      if rows[|rows| - 1].deviceId == deviceId then rest + [rows[|rows| - 1]] else rest
  }

  lemma RowsOfSnoc(rows: seq<Row>, row: Row, deviceId: string)
    ensures RowsOf(rows + [row], deviceId) ==
      if row.deviceId == deviceId then RowsOf(rows, deviceId) + [row] else RowsOf(rows, deviceId)
  {
    assert (rows + [row])[..|rows|] == rows;
  }

  lemma {:induction false} RowsOfMembers(rows: seq<Row>, deviceId: string)
    ensures forall row :: row in RowsOf(rows, deviceId) <==> row in rows && row.deviceId == deviceId
  {
    if rows == [] {
    } else {
      RowsOfMembers(rows[..|rows| - 1], deviceId);
      assert rows == rows[..|rows| - 1] + [rows[|rows| - 1]];
    }
  }

  /** Sequences strictly increase and counts never decrease along the rows. */
  ghost predicate Advancing(rows: seq<Row>) {
    forall i, j :: 0 <= i < j < |rows| ==>
      rows[i].sequence < rows[j].sequence && rows[i].count <= rows[j].count
  }

  /** The marks of a device are those of its last row, and start at (-1, 0). */
  ghost predicate MarksMatch(device: Device, rows: seq<Row>) {
    if rows == [] then device.lastSequence == -1 && device.lastCount == 0
    else device.lastSequence == rows[|rows| - 1].sequence && device.lastCount == rows[|rows| - 1].count
  }

  ghost predicate Consistent(db: Db) {
    && (forall d :: d in db.devices ==>
          && Advancing(RowsOf(db.rows, d))
          && MarksMatch(db.devices[d], RowsOf(db.rows, d)))
    && (forall row :: row in db.rows ==> row.deviceId in db.devices && row.count >= 0 && row.sequence >= 0)
  }

  /** In a consistent table the marks are the maxima of the stored sequences and counts. */
  lemma MarksAreMaxima(db: Db, row: Row)
    requires Consistent(db) && row in db.rows
    ensures row.sequence <= db.devices[row.deviceId].lastSequence
    ensures row.count <= db.devices[row.deviceId].lastCount
  {
    RowsOfMembers(db.rows, row.deviceId);
    var mine := RowsOf(db.rows, row.deviceId);
    var i :| 0 <= i < |mine| && mine[i] == row;
    assert i < |mine| - 1 ==> mine[i].sequence < mine[|mine| - 1].sequence && mine[i].count <= mine[|mine| - 1].count;
  }

  lemma AdvancingSnoc(rows: seq<Row>, row: Row)
    requires Advancing(rows)
    requires rows != [] ==> rows[|rows| - 1].sequence < row.sequence && rows[|rows| - 1].count <= row.count
    ensures Advancing(rows + [row])
  {
    forall i, j | 0 <= i < j < |rows + [row]|
      ensures (rows + [row])[i].sequence < (rows + [row])[j].sequence
      ensures (rows + [row])[i].count <= (rows + [row])[j].count
    {
      if j == |rows| && i < |rows| - 1 {
        assert rows[i].sequence < rows[|rows| - 1].sequence;
      }
    }
  }

  lemma PassMeansAhead(devices: map<string, Device>, r: UsageReport)
    requires VerifyReport(devices, r).Pass?
    ensures r.deviceId in devices
    ensures CheckSignature(r, devices[r.deviceId].key).Pass?
    ensures r.sequence > devices[r.deviceId].lastSequence && r.count >= devices[r.deviceId].lastCount
  {
  }

  /** With atomic handling the UNIQUE constraint never fires: acceptance is decided by the
      gate and the integer range alone, and every other answer leaves the tables as they were. */
  lemma AcceptedIff(db: Db, r: UsageReport)
    requires Consistent(db)
    ensures Post(db, r).1.Accepted? <==>
      && WellFormed(r) && r.deviceId in db.devices
      && CheckSignature(r, db.devices[r.deviceId].key).Pass?
      && r.sequence > db.devices[r.deviceId].lastSequence
      && r.count >= db.devices[r.deviceId].lastCount
      && FitsSqlite(r.count) && FitsSqlite(r.sequence)
    ensures !Post(db, r).1.Accepted? ==> Post(db, r).0 == db
  {
    if r.deviceId in db.devices && Stored(db.rows, r.deviceId, r.sequence) {
      var i :| 0 <= i < |db.rows| && db.rows[i].deviceId == r.deviceId && db.rows[i].sequence == r.sequence;
      MarksAreMaxima(db, db.rows[i]);
    }
  }

  /** The tuple a report stands for: its own fields, its times in whole seconds. */
  predicate StandsFor(t: ReportTuple, r: UsageReport) {
    && t.deviceId == r.deviceId && t.count == r.count && t.sequence == r.sequence
    && InSecond(r.windowStart.micros, t.windowStart) && InSecond(r.windowEnd.micros, t.windowEnd)
  }

  lemma StandsForOne(t: ReportTuple, r: UsageReport)
    ensures StandsFor(t, r) <==> t == TupleFor(r)
  {
    SecondsIff(r.windowStart.micros, t.windowStart);
    SecondsIff(r.windowEnd.micros, t.windowEnd);
  }

  /** Signed with the key the device is enrolled under, over the canonical message of its tuple. */
  predicate SignedBy(r: UsageReport, t: ReportTuple, key: KeyId) {
    Canonical.Encodable(t) && r.signature == Signed(key, Encoding(t))
  }

  lemma StoredIffRow(rows: seq<Row>, d: string, sequence: int)
    ensures Stored(rows, d, sequence) <==>
            exists row :: row in rows && row.deviceId == d && row.sequence == sequence
  {
  }

  /** One answer for each condition of the request and the tables, checked in the source's order:
      fields, device, stored key, signature encoding, signature, sequence, count, and the range and
      uniqueness of what is stored. */
  lemma PostAnswers(db: Db, r: UsageReport, t: ReportTuple)
    requires StandsFor(t, r)
    ensures var answer := Post(db, r).1;
      var fields := 1 <= |r.deviceId| <= 128 && r.count >= 0 && r.sequence >= 0 &&
                    r.windowStart.micros <= r.windowEnd.micros;
      var known := fields && r.deviceId in db.devices;
      var usable := known && db.devices[r.deviceId].key.Key?;
      var authentic := usable && SignedBy(r, t, db.devices[r.deviceId].key.id);
      var newer := authentic && r.sequence > db.devices[r.deviceId].lastSequence;
      var ascending := newer && r.count >= db.devices[r.deviceId].lastCount;
      var storable := r.count < 0x8000_0000_0000_0000 && r.sequence < 0x8000_0000_0000_0000;
      var repeated := exists row :: row in db.rows && row.deviceId == r.deviceId && row.sequence == r.sequence;
      && (answer == Unprocessable <==> !fields)
      && (answer == Rejected(UnknownDevice) <==> fields && !known)
      && (answer == Rejected(BadRegisteredKey) <==> known && !usable)
      && (answer == Rejected(BadSignatureEncoding) <==> usable && r.signature.NotBase64?)
      && (answer == Rejected(BadSignature) <==>
            usable && r.signature.Signed? && Canonical.Encodable(t) && !authentic)
      && (answer == Rejected(Replay) <==> (authentic && !newer) || (ascending && storable && repeated))
      && (answer == Rejected(CountRollback) <==> newer && !ascending)
      && (answer == ServerError <==>
            (usable && r.signature.Signed? && !Canonical.Encodable(t)) || (ascending && !storable))
      && (answer == Accepted(r.deviceId, r.sequence, r.count) <==> ascending && storable && !repeated)
  {
    StandsForOne(t, r);
    PythonEncodersAgree(t);
    StoredIffRow(db.rows, r.deviceId, r.sequence);
    hide Canonical.Encodable, Encoding, GatewayBytes, Stored;
  }

  /** What an accepted report leaves: one new row that carries its fields, the device's marks, and
      nothing else changed. */
  lemma AcceptedStores(db: Db, r: UsageReport)
    requires Post(db, r).1.Accepted?
    ensures var after := Post(db, r).0;
      && r.deviceId in db.devices
      && after.devices == db.devices[r.deviceId := Device(db.devices[r.deviceId].key, r.sequence, r.count)]
      && |after.rows| == |db.rows| + 1 && after.rows[..|db.rows|] == db.rows
      && after.rows[|db.rows|] ==
           Row(r.deviceId, r.count, r.sequence, r.windowStart.text, r.windowEnd.text, r.signature)
  {
    hide CheckSignature;
  }

  /** One answer for each condition of an enrolment, and what it leaves. */
  lemma RegisterAnswers(db: Db, d: string, key: KeyText)
    ensures var (after, answer) := Register(db, d, key);
      && (answer == BadRequest <==> d == "" || |d| > 128)
      && (answer == BadPublicKey <==> 1 <= |d| <= 128 && !key.KeyOf?)
      && (answer == DeviceExists <==> 1 <= |d| <= 128 && key.KeyOf? && d in db.devices)
      && (answer != Registered ==> after == db)
      && (answer == Registered ==>
            && d in after.devices && after.devices[d] == Device(Key(key.id), -1, 0) && after.rows == db.rows
            && forall e :: e != d ==> (e in after.devices <==> e in db.devices)
                                      && (e in db.devices ==> after.devices[e] == db.devices[e]))
  {
  }

  /** The field constraints bound an identifier to 512 bytes, so the backend's encoder never raises
      for its length: a well-formed report raises exactly when a number does not fit 64 bits. */
  lemma WellFormedRaisesIff(r: UsageReport)
    requires WellFormed(r)
    ensures BackendBytes(TupleFor(r)) != Err(DeviceIdTooLong)
    ensures BackendBytes(TupleFor(r)).Err? <==> !NumbersFit(TupleFor(r))
  {
    Utf8.EncodeLength(r.deviceId);
  }

  /** In a consistent state an authentic report is a replay exactly when its sequence is not above
      the mark, and a count rollback exactly when it is fresh but its count is below the mark. */
  lemma RejectedIff(db: Db, r: UsageReport)
    requires Consistent(db) && WellFormed(r) && r.deviceId in db.devices
    requires CheckSignature(r, db.devices[r.deviceId].key).Pass?
    ensures var device := db.devices[r.deviceId];
      && (Post(db, r).1 == Rejected(Replay) <==> r.sequence <= device.lastSequence)
      && (Post(db, r).1 == Rejected(CountRollback) <==>
            r.sequence > device.lastSequence && r.count < device.lastCount)
  {
    AcceptedIff(db, r);
    if Stored(db.rows, r.deviceId, r.sequence) {
      var i :| 0 <= i < |db.rows| && db.rows[i].deviceId == r.deviceId && db.rows[i].sequence == r.sequence;
      MarksAreMaxima(db, db.rows[i]);
    }
  }

  /** An unauthenticated request learns nothing of the device's position: under the same key its
      answer is the same whatever the marks and the stored rows are. */
  lemma UnauthenticatedLearnsNothing(db: Db, other: Db, r: UsageReport)
    requires r.deviceId in db.devices && r.deviceId in other.devices
    requires db.devices[r.deviceId].key == other.devices[r.deviceId].key
    requires !CheckSignature(r, db.devices[r.deviceId].key).Pass?
    ensures Post(db, r).1 == Post(other, r).1 && Post(db, r).0 == db
  {
  }

  lemma AppendAtDevice(db: Db, row: Row, d: string)
    requires row.deviceId in db.devices && d in db.devices
    requires Advancing(RowsOf(db.rows, d)) && MarksMatch(db.devices[d], RowsOf(db.rows, d))
    requires row.sequence > db.devices[row.deviceId].lastSequence
    requires row.count >= db.devices[row.deviceId].lastCount
    ensures Advancing(RowsOf(AppendRow(db, row).rows, d))
    ensures MarksMatch(AppendRow(db, row).devices[d], RowsOf(AppendRow(db, row).rows, d))
  {
    RowsOfSnoc(db.rows, row, d);
    if d == row.deviceId {
      AdvancingSnoc(RowsOf(db.rows, d), row);
    }
  }

  lemma AppendKeepsConsistent(db: Db, row: Row)
    requires Consistent(db) && row.deviceId in db.devices && row.count >= 0 && row.sequence >= 0
    requires row.sequence > db.devices[row.deviceId].lastSequence
    requires row.count >= db.devices[row.deviceId].lastCount
    ensures Consistent(AppendRow(db, row))
  {
    forall d | d in db.devices
      ensures Advancing(RowsOf(AppendRow(db, row).rows, d))
      ensures MarksMatch(AppendRow(db, row).devices[d], RowsOf(AppendRow(db, row).rows, d))
    {
      AppendAtDevice(db, row, d);
    }
  }

  /** After any requests, a device keeps its key and neither of its marks has moved back. */
  ghost predicate Extends(before: Db, after: Db) {
    && before.rows <= after.rows
    && forall d :: d in before.devices ==>
         && d in after.devices && after.devices[d].key == before.devices[d].key
         && before.devices[d].lastSequence <= after.devices[d].lastSequence
         && before.devices[d].lastCount <= after.devices[d].lastCount
  }

  lemma PostKeepsConsistent(db: Db, r: UsageReport)
    requires Consistent(db)
    ensures Consistent(Post(db, r).0) && Extends(db, Post(db, r).0)
  {
    AcceptedIff(db, r);
    if Post(db, r).1.Accepted? {
      AppendKeepsConsistent(db, RowFor(r));
    }
  }

  lemma {:induction false} NoRowsOf(rows: seq<Row>, deviceId: string)
    requires forall row :: row in rows ==> row.deviceId != deviceId
    ensures RowsOf(rows, deviceId) == []
  {
    if rows == [] {
    } else {
      NoRowsOf(rows[..|rows| - 1], deviceId);
    }
  }

  lemma RegisterKeepsConsistent(db: Db, deviceId: string, key: KeyText)
    requires Consistent(db)
    ensures Consistent(Register(db, deviceId, key).0) && Extends(db, Register(db, deviceId, key).0)
  {
    if Register(db, deviceId, key).1.Registered? {
      NoRowsOf(db.rows, deviceId);
    }
  }

  datatype Request = RegisterRequest(deviceId: string, key: KeyText) | ReportRequest(report: UsageReport)

  function Serve(db: Db, q: Request): Db {
    match q
    case RegisterRequest(d, k) => Register(db, d, k).0
    case ReportRequest(r) => Post(db, r).0
  }

  function ServeAll(db: Db, qs: seq<Request>): Db
    decreases |qs|
  {
    if qs == [] then db else ServeAll(Serve(db, qs[0]), qs[1..])
  }

  lemma {:induction false} EveryRunConsistent(db: Db, qs: seq<Request>)
    requires Consistent(db)
    ensures Consistent(ServeAll(db, qs)) && Extends(db, ServeAll(db, qs))
    decreases |qs|
  {
    hide Consistent, Post, Register;
    if qs == [] {
    } else {
      match qs[0] {
        case RegisterRequest(d, k) => RegisterKeepsConsistent(db, d, k);
        case ReportRequest(r) => PostKeepsConsistent(db, r);
      }
      EveryRunConsistent(Serve(db, qs[0]), qs[1..]);
    }
  }

  /** From empty tables, every device's history is strictly increasing in sequence and
      non-decreasing in count, and its marks are (-1, 0) or those of the last row. */
  lemma HistoriesFromEmpty(qs: seq<Request>)
    ensures Consistent(ServeAll(EMPTY, qs))
  {
    EveryRunConsistent(EMPTY, qs);
  }

  lemma StaleIsReplay(db: Db, r: UsageReport)
    requires WellFormed(r) && r.deviceId in db.devices
    requires CheckSignature(r, db.devices[r.deviceId].key).Pass?
    requires r.sequence <= db.devices[r.deviceId].lastSequence
    ensures Post(db, r) == (db, Rejected(Replay))
  {
  }

  /** A report accepted once is a replay for ever after, whatever was served in between. */
  lemma AcceptedOnceIsReplayForEver(db: Db, r: UsageReport, qs: seq<Request>)
    requires Consistent(db)
    requires Post(db, r).1.Accepted?
    ensures Post(ServeAll(Post(db, r).0, qs), r) ==
            (ServeAll(Post(db, r).0, qs), Rejected(Replay))
  {
    AcceptedIff(db, r);
    PostKeepsConsistent(db, r);
    var after := Post(db, r).0;
    EveryRunConsistent(after, qs);
    var later := ServeAll(after, qs);
    StaleIsReplay(later, r);
  }
}
