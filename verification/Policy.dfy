/** Rolling usage and licence decisions (backend/policy.py), over the rows of Backend. */
module Policy {
  import opened Common
  import opened Backend

  // ---------------------------------------------------------------- text keys

  /** SQLite's `<` on text: lexicographic by code point. */
  predicate Before(s: string, t: string)
    decreases |t|
  {
    t != [] && (s == [] || s[0] < t[0] || (s[0] == t[0] && Before(s[1..], t[1..])))
  }

  lemma {:induction false} BeforeTransitive(s: string, t: string, u: string)
    requires Before(s, t) && !Before(u, t)
    ensures Before(s, u)
    decreases |u|
  {
    if u == [] {
    } else if s != [] && s[0] == t[0] && t[0] == u[0] {
      BeforeTransitive(s[1..], t[1..], u[1..]);
    }
  }

  /** The texts agree on their first `i` characters, and there `s` ends or has the smaller one. */
  predicate LowerFrom(s: string, t: string, i: nat) {
    i <= |s| && i < |t| && s[..i] == t[..i] && (i == |s| || s[i] < t[i])
  }

  lemma LowerFromTail(s: string, t: string, i: nat)
    requires s != [] && t != [] && s[0] == t[0]
    ensures LowerFrom(s, t, i + 1) <==> LowerFrom(s[1..], t[1..], i)
  {
    if i < |s| && i + 1 < |t| {
      assert s[..i + 1] == [s[0]] + s[1..][..i] && t[..i + 1] == [t[0]] + t[1..][..i];
    }
  }

  /** One text is before another exactly when at some first difference it ends or is smaller. */
  lemma {:induction false} BeforeIff(s: string, t: string)
    ensures Before(s, t) <==> exists i: nat :: LowerFrom(s, t, i)
    decreases |t|
  {
    if t == [] {
    } else if s == [] {
      assert LowerFrom(s, t, 0);
    } else if s[0] != t[0] {
      assert LowerFrom(s, t, 0) <==> s[0] < t[0];
      forall i: nat | 0 < i
        ensures !LowerFrom(s, t, i)
      {
        if i <= |s| && i < |t| {
          assert s[..i][0] != t[..i][0];
        }
      }
    } else {
      BeforeIff(s[1..], t[1..]);
      if i: nat :| LowerFrom(s[1..], t[1..], i) {
        LowerFromTail(s, t, i);
        assert LowerFrom(s, t, i + 1);
      }
      if i: nat :| LowerFrom(s, t, i) {
        assert i > 0;
        LowerFromTail(s, t, i - 1);
      }
    }
  }

  lemma {:induction false} SuffixNeverDecides(stamp: string, suffix: string, cutoffStamp: string)
    requires |stamp| == |cutoffStamp|
    requires suffix == [] || suffix[0] < 'Z'
    ensures Before(stamp + suffix, cutoffStamp + "Z") <==> !Before(cutoffStamp, stamp)
    decreases |stamp|
  {
    var s, t := stamp + suffix, cutoffStamp + "Z";
    if stamp == [] {
      assert s == suffix && t == "Z";
    } else {
      assert s[0] == stamp[0] && s[1..] == stamp[1..] + suffix;
      assert t[0] == cutoffStamp[0] && t[1..] == cutoffStamp[1..] + "Z";
      SuffixNeverDecides(stamp[1..], suffix, cutoffStamp[1..]);
    }
  }

  /** A stored time is a 19-character stamp followed by an offset such as "+00:00" or "-05:00", by a
      fraction, or by nothing when the report's datetime was naive; the cutoff is a stamp followed
      by "Z". The stored time is before the cutoff exactly when the cutoff's stamp is not lower at a
      first difference, so a report ending in the cutoff's own second counts as before the window. */
  lemma StoredUtcBeforeCutoffIff(stamp: string, suffix: string, cutoffStamp: string)
    requires |stamp| == |cutoffStamp|
    requires suffix == [] || suffix[0] < 'Z'
    ensures Before(stamp + suffix, cutoffStamp + "Z") <==> forall i: nat :: !LowerFrom(cutoffStamp, stamp, i)
  {
    SuffixNeverDecides(stamp, suffix, cutoffStamp);
    BeforeIff(cutoffStamp, stamp);
  }

  // ---------------------------------------------------------------- stamps as numbers

  predicate IsDigit(c: char) {
    '0' <= c <= '9'
  }

  /** The decimal number that the digits of a text spell, whatever stands between them: for a stamp,
      year, month, day, hour, minute and second in a row. */
  function Spelled(s: string): nat {
    if s == [] then 0
    else
      var c := s[|s| - 1];
      var before := Spelled(s[..|s| - 1]);
      if IsDigit(c) then 10 * before + (c as int - '0' as int) else before
  }

  /** "YYYY-MM-DDTHH:MM:SS". */
  predicate IsStamp(s: string) {
    |s| == 19 && forall i :: 0 <= i < 19 ==>
      if i == 4 || i == 7 then s[i] == '-' else if i == 10 then s[i] == 'T'
      else if i == 13 || i == 16 then s[i] == ':' else IsDigit(s[i])
  }

  predicate SameShape(s: string, t: string) {
    |s| == |t| && forall i :: 0 <= i < |s| ==> s[i] == t[i] || (IsDigit(s[i]) && IsDigit(t[i]))
  }

  lemma {:induction false} BeforeSnoc(s: string, a: char, t: string, b: char)
    requires |s| == |t|
    ensures Before(s + [a], t + [b]) <==> Before(s, t) || (s == t && a < b)
    decreases |s|
  {
    if s == [] {
    } else {
      assert (s + [a])[1..] == s[1..] + [a] && (t + [b])[1..] == t[1..] + [b];
      BeforeSnoc(s[1..], a, t[1..], b);
      assert s == t <==> s[0] == t[0] && s[1..] == t[1..];
    }
  }

  lemma {:induction false} OrderIsNumeric(s: string, t: string)
    requires SameShape(s, t)
    ensures s == t <==> Spelled(s) == Spelled(t)
    ensures Before(s, t) <==> Spelled(s) < Spelled(t)
  {
    if s == [] {
    } else {
      var k := |s| - 1;
      OrderIsNumeric(s[..k], t[..k]);
      BeforeSnoc(s[..k], s[k], t[..k], t[k]);
      assert s == s[..k] + [s[k]] && t == t[..k] + [t[k]];
    }
  }

  function StampOf(windowEnd: string): string {
    windowEnd[..Min(19, |windowEnd|)]
  }

  /** A stored end of window: a stamp with an offset, a fraction, or neither. */
  predicate Stamped(windowEnd: string) {
    IsStamp(StampOf(windowEnd)) && (|windowEnd| > 19 ==> windowEnd[19] < 'Z')
  }

  /** Times compare as numbers: a stored time is before the cutoff exactly when its stamp, read as
      one number, is at most the cutoff's. */
  lemma StampBeforeCutoffIff(windowEnd: string, cutoffStamp: string)
    requires Stamped(windowEnd) && IsStamp(cutoffStamp)
    ensures Before(windowEnd, cutoffStamp + "Z") <==> Spelled(StampOf(windowEnd)) <= Spelled(cutoffStamp)
  {
    var stamp, suffix := StampOf(windowEnd), windowEnd[19..];
    assert windowEnd == stamp + suffix;
    SuffixNeverDecides(stamp, suffix, cutoffStamp);
    OrderIsNumeric(cutoffStamp, stamp);
  }

  lemma {:induction false} NotBeforeItself(s: string)
    ensures !Before(s, s)
  {
    if s == [] {
    } else {
      NotBeforeItself(s[1..]);
    }
  }

  /** An instance: the same instant, written as it is stored and as the cutoff is. */
  lemma SameInstantIsBefore()
    ensures Before("2024-01-01T00:00:00+00:00", "2024-01-01T00:00:00Z")
  {
    hide Before;
    var stamp := "2024-01-01T00:00:00";
    NotBeforeItself(stamp);
    SuffixNeverDecides(stamp, "+00:00", stamp);
    assert stamp + "+00:00" == "2024-01-01T00:00:00+00:00" && stamp + "Z" == "2024-01-01T00:00:00Z";
  }

  // ---------------------------------------------------------------- usage_in_period

  predicate Selected(row: Row, deviceId: string, cutoff: Option<string>) {
    row.deviceId == deviceId && (cutoff.Some? ==> Before(row.windowEnd, cutoff.value))
  }

  /** `SELECT ... WHERE ... ORDER BY sequence DESC LIMIT 1`. */
  function Newest(rows: seq<Row>, deviceId: string, cutoff: Option<string>): Option<Row> {
    if rows == [] then None
    else
      var best := Newest(rows[..|rows| - 1], deviceId, cutoff);
      var row := rows[|rows| - 1];
      if Selected(row, deviceId, cutoff) && (best.None? || best.value.sequence < row.sequence)
      then Some(row) else best
  }

  function UsageInPeriod(rows: seq<Row>, deviceId: string, cutoff: string): int {
    match Newest(rows, deviceId, None)
    case None => 0
    case Some(latest) =>
      var start := match Newest(rows, deviceId, Some(cutoff))
        case None => 0
        case Some(baseline) => baseline.count;
      Max(0, latest.count - start)
  }

  // ---------------------------------------------------------------- what it measures

  /** The number of rows up to and including the last one keyed before the cutoff. */
  function Cut(mine: seq<Row>, cutoff: string): (k: nat)
    ensures k <= |mine|
  {
    if mine == [] then 0
    else if Before(mine[|mine| - 1].windowEnd, cutoff) then |mine|
    else Cut(mine[..|mine| - 1], cutoff)
  }

  function CountAt(mine: seq<Row>, k: nat): int
    requires k <= |mine|
  {
    if k == 0 then 0 else mine[k - 1].count
  }

  /** What row `i` added to the cumulative count. */
  function Increase(mine: seq<Row>, i: nat): int
    requires i < |mine|
  {
    mine[i].count - CountAt(mine, i)
  }

  /** The sum of the increases of the rows `lo..hi` that end in the window, or of all of
      them when `cutoff` is absent. */
  function SumIncreases(mine: seq<Row>, lo: nat, hi: nat, cutoff: Option<string>): int
    requires lo <= hi <= |mine|
    decreases hi
  {
    if lo == hi then 0
    else
      SumIncreases(mine, lo, hi - 1, cutoff) +
      if cutoff.Some? && Before(mine[hi - 1].windowEnd, cutoff.value) then 0 else Increase(mine, hi - 1)
  }

  lemma NewestSnoc(rows: seq<Row>, row: Row, d: string, cutoff: Option<string>)
    ensures Newest(rows + [row], d, cutoff) ==
      var best := Newest(rows, d, cutoff);
      if Selected(row, d, cutoff) && (best.None? || best.value.sequence < row.sequence) then Some(row) else best
  {
    assert (rows + [row])[..|rows|] == rows;
  }

  /** The newest selected row is a selected row of the highest sequence. */
  lemma {:induction false} NewestIsHighest(rows: seq<Row>, d: string, cutoff: Option<string>)
    ensures var best := Newest(rows, d, cutoff);
      && (best.Some? ==> best.value in rows && Selected(best.value, d, cutoff))
      && forall row :: row in rows && Selected(row, d, cutoff) ==>
           best.Some? && row.sequence <= best.value.sequence
  {
    hide Selected;
    if rows == [] {
    } else {
      var init, last := rows[..|rows| - 1], rows[|rows| - 1];
      assert rows == init + [last];
      NewestIsHighest(init, d, cutoff);
    }
  }

  lemma AdvancingInit(mine: seq<Row>, row: Row, added: bool)
    requires Advancing(if added then mine + [row] else mine)
    ensures Advancing(mine)
    ensures added && mine != [] ==> mine[|mine| - 1].sequence < row.sequence
    ensures added ==> forall i :: 0 <= i < |mine| ==> mine[i].sequence < row.sequence
  {
    if added {
      var all := mine + [row];
      assert forall i :: 0 <= i < |mine| ==> all[i] == mine[i];
      assert all[|mine|] == row;
    }
  }

  lemma {:induction false} LatestInHistory(rows: seq<Row>, d: string)
    requires Advancing(RowsOf(rows, d))
    ensures var mine := RowsOf(rows, d);
      Newest(rows, d, None) == if mine == [] then None else Some(mine[|mine| - 1])
  {
    if rows == [] {
    } else {
      var init, row := rows[..|rows| - 1], rows[|rows| - 1];
      assert rows == init + [row];
      NewestSnoc(init, row, d, None);
      RowsOfSnoc(init, row, d);
      AdvancingInit(RowsOf(init, d), row, row.deviceId == d);
      LatestInHistory(init, d);
    }
  }

  /** The row before the cut, when there is one. */
  function Baseline(mine: seq<Row>, cutoff: string): Option<Row> {
    if Cut(mine, cutoff) == 0 then None else Some(mine[Cut(mine, cutoff) - 1])
  }

  lemma CutSnoc(mine: seq<Row>, row: Row, cutoff: string)
    ensures Cut(mine + [row], cutoff) ==
      if Before(row.windowEnd, cutoff) then |mine| + 1 else Cut(mine, cutoff)
  {
    assert (mine + [row])[..|mine|] == mine;
  }

  lemma BaselineSnoc(mine: seq<Row>, row: Row, cutoff: string)
    ensures Baseline(mine + [row], cutoff) ==
      if Before(row.windowEnd, cutoff) then Some(row) else Baseline(mine, cutoff)
  {
    CutSnoc(mine, row, cutoff);
    var k := Cut(mine, cutoff);
    assert k > 0 ==> (mine + [row])[k - 1] == mine[k - 1];
  }

  lemma {:induction false} BaselineInHistory(rows: seq<Row>, d: string, cutoff: string)
    requires Advancing(RowsOf(rows, d))
    ensures Newest(rows, d, Some(cutoff)) == Baseline(RowsOf(rows, d), cutoff)
  {
    if rows == [] {
    } else {
      var init, row := rows[..|rows| - 1], rows[|rows| - 1];
      assert rows == init + [row];
      NewestSnoc(init, row, d, Some(cutoff));
      RowsOfSnoc(init, row, d);
      AdvancingInit(RowsOf(init, d), row, row.deviceId == d);
      BaselineInHistory(init, d, cutoff);
      BaselineSnoc(RowsOf(init, d), row, cutoff);
    }
  }

  lemma {:induction false} Telescope(mine: seq<Row>, lo: nat, hi: nat)
    requires lo <= hi <= |mine|
    ensures SumIncreases(mine, lo, hi, None) == CountAt(mine, hi) - CountAt(mine, lo)
    decreases hi
  {
    if lo < hi {
      Telescope(mine, lo, hi - 1);
    }
  }

  lemma CountsAscend(mine: seq<Row>, j: nat, k: nat)
    requires Advancing(mine) && j <= k <= |mine|
    requires forall i :: 0 <= i < |mine| ==> mine[i].count >= 0
    ensures CountAt(mine, j) <= CountAt(mine, k)
  {
    if 0 < j < k {
      assert mine[j - 1].count <= mine[k - 1].count;
    }
  }

  lemma HistoryCountsNonNegative(db: Db, d: string)
    requires Consistent(db)
    ensures var mine := RowsOf(db.rows, d); forall i :: 0 <= i < |mine| ==> mine[i].count >= 0
  {
    var mine := RowsOf(db.rows, d);
    RowsOfMembers(db.rows, d);
    forall i | 0 <= i < |mine|
      ensures mine[i].count >= 0
    {
      assert mine[i] in mine;
    }
  }

  /** On every history built by atomic handling, usage is the sum of the count increases after
      the last row keyed before the cutoff; the clamp at zero never acts. */
  lemma UsageIsIncreaseSinceCut(db: Db, d: string, cutoff: string)
    requires Consistent(db) && d in db.devices
    ensures var mine := RowsOf(db.rows, d); var k := Cut(mine, cutoff);
      && UsageInPeriod(db.rows, d, cutoff) == SumIncreases(mine, k, |mine|, None)
      && UsageInPeriod(db.rows, d, cutoff) == CountAt(mine, |mine|) - CountAt(mine, k)
  {
    var mine := RowsOf(db.rows, d);
    LatestInHistory(db.rows, d);
    BaselineInHistory(db.rows, d, cutoff);
    Telescope(mine, Cut(mine, cutoff), |mine|);
    HistoryCountsNonNegative(db, d);
    CountsAscend(mine, Cut(mine, cutoff), |mine|);
  }

  lemma {:induction false} CutAt(mine: seq<Row>, cutoff: string, k: nat)
    requires k <= |mine| && (k > 0 ==> Before(mine[k - 1].windowEnd, cutoff))
    requires forall i :: k <= i < |mine| ==> !Before(mine[i].windowEnd, cutoff)
    ensures Cut(mine, cutoff) == k
  {
    if k < |mine| {
      CutAt(mine[..|mine| - 1], cutoff, k);
    }
  }

  /** The rows are stamped, and the last one whose stamp is not later than the cutoff's is the one
      before position `k`. */
  ghost predicate SplitsAt(mine: seq<Row>, cutoffStamp: string, k: nat) {
    && k <= |mine| && (forall i :: 0 <= i < |mine| ==> Stamped(mine[i].windowEnd))
    && (k > 0 ==> Spelled(StampOf(mine[k - 1].windowEnd)) <= Spelled(cutoffStamp))
    && (forall i :: k <= i < |mine| ==> Spelled(cutoffStamp) < Spelled(StampOf(mine[i].windowEnd)))
  }

  lemma KeysAreStamps(mine: seq<Row>, cutoffStamp: string)
    requires IsStamp(cutoffStamp) && forall i :: 0 <= i < |mine| ==> Stamped(mine[i].windowEnd)
    ensures forall i :: 0 <= i < |mine| ==>
      (Before(mine[i].windowEnd, cutoffStamp + "Z") <==> Spelled(StampOf(mine[i].windowEnd)) <= Spelled(cutoffStamp))
  {
    forall i | 0 <= i < |mine|
      ensures Before(mine[i].windowEnd, cutoffStamp + "Z") <==>
              Spelled(StampOf(mine[i].windowEnd)) <= Spelled(cutoffStamp)
    {
      StampBeforeCutoffIff(mine[i].windowEnd, cutoffStamp);
    }
  }

  lemma SplitIsCut(mine: seq<Row>, cutoffStamp: string, k: nat)
    requires IsStamp(cutoffStamp) && SplitsAt(mine, cutoffStamp, k)
    ensures k <= |mine| && Cut(mine, cutoffStamp + "Z") == k
  {
    hide Spelled, Before, IsStamp, Stamped;
    KeysAreStamps(mine, cutoffStamp);
    CutAt(mine, cutoffStamp + "Z", k);
  }

  /** Usage by the clock: on every history built by atomic handling, with stamped rows, it is the
      newest count less the count of the last row whose stamp is not later than the cutoff's. Rows
      with a later stamp are in the window. */
  lemma UsageByStamps(db: Db, d: string, cutoffStamp: string, k: nat)
    requires Consistent(db) && d in db.devices && IsStamp(cutoffStamp)
    requires SplitsAt(RowsOf(db.rows, d), cutoffStamp, k)
    ensures var mine := RowsOf(db.rows, d);
      UsageInPeriod(db.rows, d, cutoffStamp + "Z") ==
        (if mine == [] then 0 else mine[|mine| - 1].count) - (if k == 0 then 0 else mine[k - 1].count)
  {
    var mine := RowsOf(db.rows, d);
    hide UsageInPeriod, RowsOf, Consistent, SumIncreases, SplitsAt, IsStamp;
    UsageIsIncreaseSinceCut(db, d, cutoffStamp + "Z");
    SplitIsCut(mine, cutoffStamp, k);
  }

  lemma NewestOfNone(d: string, cutoff: Option<string>)
    ensures Newest([], d, cutoff) == None
  {
  }

  lemma UsageOfOneRow(row: Row, cutoff: string)
    requires row.count >= 0
    ensures UsageInPeriod([row], row.deviceId, cutoff) == if Before(row.windowEnd, cutoff) then 0 else row.count
  {
    hide Before, Newest;
    assert [row] == [] + [row];
    NewestSnoc([], row, row.deviceId, None);
    NewestSnoc([], row, row.deviceId, Some(cutoff));
    NewestOfNone(row.deviceId, None);
    NewestOfNone(row.deviceId, Some(cutoff));
  }

  /** The simplest cases: the only row counts in full when its stamp is later than the cutoff's, and
      not at all otherwise. */
  lemma OneRowCountsIff(row: Row, cutoffStamp: string)
    requires Stamped(row.windowEnd) && IsStamp(cutoffStamp) && row.count >= 0
    ensures UsageInPeriod([row], row.deviceId, cutoffStamp + "Z") ==
      if Spelled(cutoffStamp) < Spelled(StampOf(row.windowEnd)) then row.count else 0
  {
    hide *;
    StampBeforeCutoffIff(row.windowEnd, cutoffStamp);
    UsageOfOneRow(row, cutoffStamp + "Z");
  }

  lemma {:induction false} AfterCutAllInWindow(mine: seq<Row>, cutoff: string)
    ensures forall i :: Cut(mine, cutoff) <= i < |mine| ==> !Before(mine[i].windowEnd, cutoff)
    ensures Cut(mine, cutoff) > 0 ==> Before(mine[Cut(mine, cutoff) - 1].windowEnd, cutoff)
  {
    if mine != [] && !Before(mine[|mine| - 1].windowEnd, cutoff) {
      var init := mine[..|mine| - 1];
      AfterCutAllInWindow(init, cutoff);
      assert forall i :: 0 <= i < |init| ==> mine[i] == init[i];
    }
  }

  lemma {:induction false} InWindowSplit(mine: seq<Row>, k: nat, hi: nat, cutoff: string)
    requires k <= hi <= |mine|
    requires forall i :: k <= i < hi ==> !Before(mine[i].windowEnd, cutoff)
    ensures SumIncreases(mine, 0, hi, Some(cutoff)) ==
            SumIncreases(mine, 0, k, Some(cutoff)) + SumIncreases(mine, k, hi, None)
    decreases hi
  {
    if k < hi {
      InWindowSplit(mine, k, hi - 1, cutoff);
    }
  }

  /** Usage differs from the increases of exactly the in-window rows by those of the in-window
      rows that come before a row keyed before the cutoff. */
  lemma UsageMissesEarlyInWindowRows(db: Db, d: string, cutoff: string)
    requires Consistent(db) && d in db.devices
    ensures var mine := RowsOf(db.rows, d);
      SumIncreases(mine, 0, |mine|, Some(cutoff)) ==
      UsageInPeriod(db.rows, d, cutoff) + SumIncreases(mine, 0, Cut(mine, cutoff), Some(cutoff))
  {
    var mine := RowsOf(db.rows, d);
    UsageIsIncreaseSinceCut(db, d, cutoff);
    AfterCutAllInWindow(mine, cutoff);
    InWindowSplit(mine, Cut(mine, cutoff), |mine|, cutoff);
  }

  ghost predicate KeysAscend(mine: seq<Row>) {
    forall i, j :: 0 <= i < j < |mine| ==> !Before(mine[j].windowEnd, mine[i].windowEnd)
  }

  lemma {:induction false} NothingInWindow(mine: seq<Row>, hi: nat, cutoff: string)
    requires hi <= |mine|
    requires forall i :: 0 <= i < hi ==> Before(mine[i].windowEnd, cutoff)
    ensures SumIncreases(mine, 0, hi, Some(cutoff)) == 0
  {
    if hi == 0 {
    } else {
      NothingInWindow(mine, hi - 1, cutoff);
    }
  }

  lemma {:induction false} NotAfterThenBefore(s: string, t: string, u: string)
    requires !Before(t, s) && Before(t, u)
    ensures Before(s, u)
    decreases |u|
  {
    if s != [] && t != [] && s[0] == t[0] && t[0] == u[0] {
      NotAfterThenBefore(s[1..], t[1..], u[1..]);
    }
  }

  /** When window ends never go back along the sequence, usage is the increase of exactly the
      rows that end in the window. */
  lemma UsageIsInWindowIncrease(db: Db, d: string, cutoff: string)
    requires Consistent(db) && d in db.devices
    requires KeysAscend(RowsOf(db.rows, d))
    ensures UsageInPeriod(db.rows, d, cutoff) ==
            SumIncreases(RowsOf(db.rows, d), 0, |RowsOf(db.rows, d)|, Some(cutoff))
  {
    var mine := RowsOf(db.rows, d);
    var k := Cut(mine, cutoff);
    UsageMissesEarlyInWindowRows(db, d, cutoff);
    AfterCutAllInWindow(mine, cutoff);
    forall i | 0 <= i < k
      ensures Before(mine[i].windowEnd, cutoff)
    {
      if i < k - 1 {
        NotAfterThenBefore(mine[i].windowEnd, mine[k - 1].windowEnd, cutoff);
      }
    }
    NothingInWindow(mine, k, cutoff);
  }

  lemma {:induction false} CutMonotone(mine: seq<Row>, earlier: string, later: string)
    requires !Before(later, earlier)
    ensures Cut(mine, earlier) <= Cut(mine, later)
  {
    if mine == [] {
    } else {
      CutMonotone(mine[..|mine| - 1], earlier, later);
      if Before(mine[|mine| - 1].windowEnd, earlier) {
        BeforeTransitive(mine[|mine| - 1].windowEnd, earlier, later);
      }
    }
  }

  /** Moving the cutoff earlier never lowers the usage. */
  lemma UsageGrowsWithPeriod(db: Db, d: string, earlier: string, later: string)
    requires Consistent(db) && d in db.devices && !Before(later, earlier)
    ensures UsageInPeriod(db.rows, d, earlier) >= UsageInPeriod(db.rows, d, later)
  {
    var mine := RowsOf(db.rows, d);
    UsageIsIncreaseSinceCut(db, d, earlier);
    UsageIsIncreaseSinceCut(db, d, later);
    CutMonotone(mine, earlier, later);
    HistoryCountsNonNegative(db, d);
    CountsAscend(mine, Cut(mine, earlier), Cut(mine, later));
  }

  // ---------------------------------------------------------------- decisions

  datatype PolicyRecord = PolicyRecord(
    active: bool, quotaUnits: Option<int>, periodDays: Option<int>, expiresOn: Option<int>)

  /** What `load_policy` finds: no row, a row it cannot turn into a policy, or a policy. */
  datatype PolicyRow = NoRow | Corrupt | Usable(policy: PolicyRecord)

  datatype Reason = WithinPolicy | NoPolicy | Inactive | Expired | OverQuota | Unevaluable

  datatype Decision = Decision(allowed: bool, reason: Reason)

  function Evaluate(policy: Option<PolicyRecord>, used: Option<int>, today: int): Decision {
    if policy.None? then Decision(false, NoPolicy)
    else
      var p := policy.value;
      if !p.active then Decision(false, Inactive)
      else if p.expiresOn.Some? && today > p.expiresOn.value then Decision(false, Expired)
      else if p.quotaUnits.Some? then
        if p.periodDays.None? || p.periodDays.value <= 0 then Decision(false, Unevaluable)
        else if used.None? then Decision(false, Unevaluable)
        else if used.value >= p.quotaUnits.value then Decision(false, OverQuota)
        else Decision(true, WithinPolicy)
      else Decision(true, WithinPolicy)
  }

  /** `decide`; `readable` is false when the usage query raises. */
  function Decide(row: PolicyRow, rows: seq<Row>, deviceId: string, cutoff: string,
                  readable: bool, today: int): Decision {
    match row
    case Corrupt => Decision(false, Unevaluable)
    case NoRow => Evaluate(None, None, today)
    case Usable(p) =>
      var used :=
        if p.quotaUnits.Some? && p.periodDays.Some? && p.periodDays.value != 0 && readable
        then Some(UsageInPeriod(rows, deviceId, cutoff)) else None;
      Evaluate(Some(p), used, today)
  }

  /** Fail closed: a device is allowed exactly when an active, unexpired policy is on record and
      either has no quota or has a positive period over which less than the quota was measured. */
  lemma AllowedIff(row: PolicyRow, rows: seq<Row>, d: string, cutoff: string, readable: bool, today: int)
    ensures Decide(row, rows, d, cutoff, readable, today).allowed <==>
      && row.Usable? && row.policy.active
      && (row.policy.expiresOn.Some? ==> today <= row.policy.expiresOn.value)
      && (row.policy.quotaUnits.Some? ==>
            && readable && row.policy.periodDays.Some? && row.policy.periodDays.value > 0
            && UsageInPeriod(rows, d, cutoff) < row.policy.quotaUnits.value)
  {
  }

  /** An allowed device with a quota has reported fewer units than the quota since the last row
      keyed before the cutoff. */
  lemma AllowedStaysUnderQuota(db: Db, row: PolicyRow, d: string, cutoff: string, readable: bool, today: int)
    requires Consistent(db) && d in db.devices
    requires Decide(row, db.rows, d, cutoff, readable, today).allowed
    ensures row.Usable?
    ensures row.policy.quotaUnits.Some? ==>
      SumIncreases(RowsOf(db.rows, d), Cut(RowsOf(db.rows, d), cutoff), |RowsOf(db.rows, d)|, None)
      < row.policy.quotaUnits.value
  {
    AllowedIff(row, db.rows, d, cutoff, readable, today);
    UsageIsIncreaseSinceCut(db, d, cutoff);
  }

  /** No request in `qs` reports, for device `d`, a window ending before the cutoff. */
  predicate NoneBefore(qs: seq<Request>, d: string, cutoff: string) {
    forall i :: 0 <= i < |qs| && qs[i].ReportRequest? && qs[i].report.deviceId == d ==>
      !Before(qs[i].report.windowEnd.text, cutoff)
  }

  lemma PrefixCounts(mine: seq<Row>, row: Row, k: nat)
    requires k <= |mine|
    ensures CountAt(mine + [row], k) == CountAt(mine, k)
  {
  }

  lemma AppendKeepsUsage(db: Db, after: Db, row: Row, d: string, cutoff: string)
    requires Consistent(db) && Consistent(after) && d in db.devices && d in after.devices
    requires after.rows == db.rows + [row]
    requires row.deviceId == d ==> !Before(row.windowEnd, cutoff)
    ensures UsageInPeriod(after.rows, d, cutoff) >= UsageInPeriod(db.rows, d, cutoff)
  {
    hide UsageInPeriod, SumIncreases;
    var mine, now := RowsOf(db.rows, d), RowsOf(after.rows, d);
    RowsOfSnoc(db.rows, row, d);
    UsageIsIncreaseSinceCut(db, d, cutoff);
    UsageIsIncreaseSinceCut(after, d, cutoff);
    if row.deviceId == d {
      assert now == mine + [row];
      CutSnoc(mine, row, cutoff);
      HistoryCountsNonNegative(after, d);
      CountsAscend(now, |mine|, |now|);
      PrefixCounts(mine, row, Cut(mine, cutoff));
      PrefixCounts(mine, row, |mine|);
    }
  }

  lemma PostKeepsUsage(db: Db, r: UsageReport, d: string, cutoff: string)
    requires Consistent(db) && d in db.devices
    requires r.deviceId == d ==> !Before(r.windowEnd.text, cutoff)
    ensures Consistent(Post(db, r).0) && d in Post(db, r).0.devices
    ensures UsageInPeriod(Post(db, r).0.rows, d, cutoff) >= UsageInPeriod(db.rows, d, cutoff)
  {
    PostKeepsConsistent(db, r);
    AcceptedIff(db, r);
    hide UsageInPeriod, Consistent, CheckSignature;
    if Post(db, r).1.Accepted? {
      AppendKeepsUsage(db, Post(db, r).0, RowFor(r), d, cutoff);
    }
  }

  lemma ServeKeepsUsage(db: Db, q: Request, d: string, cutoff: string)
    requires Consistent(db) && d in db.devices
    requires q.ReportRequest? && q.report.deviceId == d ==> !Before(q.report.windowEnd.text, cutoff)
    ensures Consistent(Serve(db, q)) && d in Serve(db, q).devices
    ensures UsageInPeriod(Serve(db, q).rows, d, cutoff) >= UsageInPeriod(db.rows, d, cutoff)
  {
    hide UsageInPeriod, Consistent, Post;
    match q {
      case RegisterRequest(e, k) => RegisterKeepsConsistent(db, e, k);
      case ReportRequest(r) => PostKeepsUsage(db, r, d, cutoff);
    }
  }

  /** One answer for each condition of the policy on record: what each denial means. */
  lemma ReasonIff(row: PolicyRow, rows: seq<Row>, d: string, cutoff: string, readable: bool, today: int)
    ensures var reason := Decide(row, rows, d, cutoff, readable, today).reason;
      var current := row.Usable? && row.policy.active &&
                     (row.policy.expiresOn.Some? ==> today <= row.policy.expiresOn.value);
      var metered := current && row.policy.quotaUnits.Some?;
      var measured := metered && row.policy.periodDays.Some? && row.policy.periodDays.value > 0 && readable;
      && (reason == NoPolicy <==> row.NoRow?)
      && (reason == Inactive <==> row.Usable? && !row.policy.active)
      && (reason == Expired <==> row.Usable? && row.policy.active && !current)
      && (reason == Unevaluable <==> row.Corrupt? || (metered && !measured))
      && (reason == OverQuota <==> measured && row.policy.quotaUnits.value <= UsageInPeriod(rows, d, cutoff))
      && (reason == WithinPolicy <==> Decide(row, rows, d, cutoff, readable, today).allowed)
  {
    hide UsageInPeriod;
    AllowedIff(row, rows, d, cutoff, readable, today);
  }

  lemma OverQuotaIff(row: PolicyRow, rows: seq<Row>, d: string, cutoff: string, today: int)
    ensures var decision := Decide(row, rows, d, cutoff, true, today);
      && (decision.reason == OverQuota <==> decision == Decision(false, OverQuota))
      && (decision.reason == OverQuota <==>
            && row.Usable? && row.policy.active
            && (row.policy.expiresOn.Some? ==> today <= row.policy.expiresOn.value)
            && row.policy.quotaUnits.Some? && row.policy.periodDays.Some? && row.policy.periodDays.value > 0
            && UsageInPeriod(rows, d, cutoff) >= row.policy.quotaUnits.value)
  {
    hide UsageInPeriod;
  }

  /** For a fixed policy, day and cutoff, an over-quota denial stays one after any further
      requests whose reports for the device end at or after the cutoff. */
  lemma {:induction false} OverQuotaPersists(db: Db, qs: seq<Request>, row: PolicyRow, d: string,
                                             cutoff: string, today: int)
    requires Consistent(db) && d in db.devices && NoneBefore(qs, d, cutoff)
    requires Decide(row, db.rows, d, cutoff, true, today).reason == OverQuota
    ensures Decide(row, ServeAll(db, qs).rows, d, cutoff, true, today) == Decision(false, OverQuota)
    decreases |qs|
  {
    OverQuotaIff(row, db.rows, d, cutoff, today);
    OverQuotaIff(row, ServeAll(db, qs).rows, d, cutoff, today);
    hide Decide, UsageInPeriod, Consistent, Serve;
    if qs == [] {
    } else {
      ServeKeepsUsage(db, qs[0], d, cutoff);
      OverQuotaIff(row, Serve(db, qs[0]).rows, d, cutoff, today);
      OverQuotaPersists(Serve(db, qs[0]), qs[1..], row, d, cutoff, today);
    }
  }
}
