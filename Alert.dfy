/** The alert cell of freecusd/alert.c: a four-state request/acknowledge
    handshake between a monitor thread, which asks for an alert to be set or
    cleared, and the main thread, which acknowledges requests and drives the
    LEDs.

    A cell carries two bits of meaning: what the monitor last asked for
    (Wanted) and what the main thread has last acknowledged (Acked).  The
    four states are exactly the four combinations of those bits, so the
    contracts below characterise every transition completely. */
module Alert {
  import opened Common

  datatype AlertMsg = ClrAck | SetAck | ClrReq | SetReq

  /** The monitor's current request: alert on. */
  predicate Wanted(s: AlertMsg) { s == SetReq || s == SetAck }

  /** The main thread's current view: alert on (and counted). */
  predicate Acked(s: AlertMsg) { s == SetAck || s == ClrReq }

  /** Result of a request: the new cell value and whether it changed
      (the _Bool returned by fcd_alert_set / fcd_alert_clear). */
  datatype Step = Step(next: AlertMsg, changed: bool)

  lemma StateIsItsTwoBits(a: AlertMsg, b: AlertMsg)
    requires Wanted(a) == Wanted(b) && Acked(a) == Acked(b)
    ensures a == b
  {
  }

  /** fcd_alert_set: ask for the alert to be on. */
  function Set(s: AlertMsg): (r: Step)
    ensures Wanted(r.next)
    ensures Acked(r.next) == Acked(s)
    ensures r.changed <==> r.next != s
  {
    match s
    case SetReq => Step(SetReq, false)
    case ClrReq => Step(SetAck, true)
    case SetAck => Step(SetAck, false)
    case ClrAck => Step(SetReq, true)
  }

  /** fcd_alert_clear: ask for the alert to be off. */
  function Clear(s: AlertMsg): (r: Step)
    ensures !Wanted(r.next)
    ensures Acked(r.next) == Acked(s)
    ensures r.changed <==> r.next != s
  {
    match s
    case SetReq => Step(ClrAck, true)
    case ClrReq => Step(ClrReq, false)
    case SetAck => Step(ClrReq, true)
    case ClrAck => Step(ClrAck, false)
  }

  /** fcd_alert_update: only SetReq and ClrReq are valid requests; anything
      else aborts the process (None). */
  function Update(req: AlertMsg, s: AlertMsg): (r: Option<Step>)
    ensures r.None? <==> req != SetReq && req != ClrReq
    ensures r.Some? ==> Wanted(r.value.next) == (req == SetReq)
    ensures r.Some? ==> Acked(r.value.next) == Acked(s)
    ensures r.Some? ==> (r.value.changed <==> r.value.next != s)
  {
    if req == SetReq then Some(Set(s))
    else if req == ClrReq then Some(Clear(s))
    else None
  }

  /** The cell value after a set request (b) or a clear request (!b):
      what `fcd_alert_update(b ? SET_REQ : CLR_REQ, &cell)` leaves behind. */
  function Request(b: bool, s: AlertMsg): (r: AlertMsg)
    ensures Wanted(r) == b
    ensures Acked(r) == Acked(s)
  {
    if b then Set(s).next else Clear(s).next
  }

  /** Repeating a request changes nothing and reports no change. */
  lemma RequestsIdempotent(s: AlertMsg)
    ensures Set(Set(s).next) == Step(Set(s).next, false)
    ensures Clear(Clear(s).next) == Step(Clear(s).next, false)
  {
  }

  /** A request withdrawn before the main thread saw it leaves no trace. */
  lemma WithdrawnRequestRestoresAck()
    ensures Clear(Set(ClrAck).next).next == ClrAck
    ensures Set(Clear(SetAck).next).next == SetAck
  {
  }

  /** The main thread's acknowledgement: SetReq becomes SetAck, ClrReq
      becomes ClrAck, acknowledged cells stay as they are. */
  function Acknowledge(s: AlertMsg): (r: AlertMsg)
    ensures Acked(r) == Wanted(s)
    ensures Wanted(r) == Wanted(s)
  {
    match s
    case SetReq => SetAck
    case ClrReq => ClrAck
    case _ => s
  }

  // ---------------------------------------------------------------------
  // Counting acknowledged cells (what an LED's counter must equal)

  function AckedCount(cells: seq<AlertMsg>): nat
  {
    if cells == [] then 0
    else AckedCount(cells[..|cells| - 1]) + (if Acked(cells[|cells| - 1]) then 1 else 0)
  }

  /** Replacing one cell moves the count by exactly the change in that cell. */
  lemma {:induction false} AckedCountUpdate(cells: seq<AlertMsg>, k: nat, v: AlertMsg)
    requires k < |cells|
    ensures AckedCount(cells[k := v]) + (if Acked(cells[k]) then 1 else 0)
         == AckedCount(cells) + (if Acked(v) then 1 else 0)
  {
    var n := |cells|;
    var t := cells[k := v];
    if k == n - 1 {
      assert t[..n - 1] == cells[..n - 1];
    } else {
      assert t[..n - 1] == cells[..n - 1][k := v];
      AckedCountUpdate(cells[..n - 1], k, v);
    }
  }

  /** A positive count is never needed to be decremented below zero: a cell
      that is acknowledged is counted. */
  lemma {:induction false} AckedCellIsCounted(cells: seq<AlertMsg>, k: nat)
    requires k < |cells| && Acked(cells[k])
    ensures AckedCount(cells) >= 1
  {
    var n := |cells|;
    if k < n - 1 {
      AckedCellIsCounted(cells[..n - 1], k);
    }
  }

  /** Monitor-thread requests never change what any LED counter should be. */
  lemma RequestKeepsCount(cells: seq<AlertMsg>, k: nat, b: bool)
    requires k < |cells|
    ensures AckedCount(cells[k := Request(b, cells[k])]) == AckedCount(cells)
  {
    AckedCountUpdate(cells, k, Request(b, cells[k]));
  }
}

/** The main thread's side of freecusd/alert.c: one reference counter per
    LED (system warning, system failure, five disk LEDs), updated as the
    main thread acknowledges each monitor's requests.  LED writes are
    recorded as ghost events. */
module AlertLeds {
  import opened Alert
  import opened Lib

  datatype LedWrite = LedOn(led: nat) | LedOff(led: nat)

  /** How acknowledging a cell moves its LED's counter. */
  function Delta(s: AlertMsg): (d: int)
    ensures d == (if Acked(Acknowledge(s)) then 1 else 0) - (if Acked(s) then 1 else 0)
  {
    match s
    case SetReq => 1
    case ClrReq => -1
    case _ => 0
  }

  /** The LED write (if any) acknowledging cell `s` makes, given its counter. */
  function LedEvent(i: nat, s: AlertMsg, count: int): seq<LedWrite>
  {
    if s == SetReq && count + 1 == 1 then [LedOn(i)]
    else if s == ClrReq && count - 1 == 0 then [LedOff(i)]
    else []
  }

  /** The LED writes of acknowledging cells 0 .. n-1 in order. */
  function LedEvents(cells: seq<AlertMsg>, counts: seq<int>, n: nat): seq<LedWrite>
    requires n <= |cells| && n <= |counts|
  {
    if n == 0 then []
    else LedEvents(cells, counts, n - 1) + LedEvent(n - 1, cells[n - 1], counts[n - 1])
  }

  /** The LED table: the counters (fcd_alerts[].counter) and, as ghost state,
      whether each LED is lit and the writes made to the LEDs so far. */
  class AlertLeds {
    const counters: array<int>
    ghost var lit: seq<bool>
    ghost var ledLog: seq<LedWrite>

    ghost predicate Valid()
      reads this
    {
      counters.Length == AlertCount && |lit| == AlertCount
    }

    /** An LED is lit exactly when its counter is positive. */
    ghost predicate LitMatchesCounters()
      requires Valid()
      reads this, counters
    {
      forall i :: 0 <= i < AlertCount ==> lit[i] == (counters[i] > 0)
    }

    constructor ()
      ensures Valid() && LitMatchesCounters() && ledLog == []
      ensures forall i :: 0 <= i < AlertCount ==> counters[i] == 0
    {
      counters := new int[AlertCount](_ => 0);
      lit := seq(AlertCount, _ => false);
      ledLog := [];
    }

    /** One step of fcd_alert_read_monitor: acknowledge cell i. */
    method AcknowledgeCell(cells: array<AlertMsg>, i: nat) returns (aborted: bool)
      requires Valid() && cells.Length == AlertCount && i < AlertCount
      modifies counters, cells, this`lit, this`ledLog
      ensures Valid()
      ensures aborted <==> old(cells[i]) == ClrReq && old(counters[i]) < 1
      ensures !aborted ==> cells[..] == old(cells[..])[i := Acknowledge(old(cells[i]))]
      ensures !aborted ==> counters[..] == old(counters[..])[i := old(counters[i]) + Delta(old(cells[i]))]
      ensures !aborted ==> ledLog == old(ledLog) + LedEvent(i, old(cells[i]), old(counters[i]))
      ensures !aborted && old(LitMatchesCounters()) ==> LitMatchesCounters()
    {
      var msg := cells[i];
      if msg == SetReq {
        counters[i] := counters[i] + 1;
        cells[i] := SetAck;
        if counters[i] == 1 {
          ledLog := ledLog + [LedOn(i)];
          lit := lit[i := true];
        }
      } else if msg == ClrReq {
        counters[i] := counters[i] - 1;
        if counters[i] < 0 {
          return true;
        }
        cells[i] := ClrAck;
        if counters[i] == 0 {
          ledLog := ledLog + [LedOff(i)];
          lit := lit[i := false];
        }
      }
      return false;
    }

    /** fcd_alert_read_monitor: acknowledge every pending request of `mon`,
        moving the counters and switching an LED on at the first alert and
        off at the last.  `aborted` is the negative-counter abort. */
    method ReadMonitor(mon: Monitor) returns (aborted: bool)
      requires Valid() && mon.Valid()
      modifies counters, mon.cells, this`lit, this`ledLog
      ensures Valid()
      ensures aborted <==> exists i :: 0 <= i < AlertCount && old(mon.cells[..])[i] == ClrReq
                                       && old(counters[..])[i] < 1
      ensures !aborted ==> forall i :: 0 <= i < AlertCount ==>
                mon.cells[i] == Acknowledge(old(mon.cells[i]))
      ensures !aborted ==> forall i :: 0 <= i < AlertCount ==>
                counters[i] == old(counters[i]) + Delta(old(mon.cells[i]))
      ensures !aborted ==> ledLog == old(ledLog) + LedEvents(old(mon.cells[..]), old(counters[..]), AlertCount)
      ensures !aborted && old(LitMatchesCounters()) ==> LitMatchesCounters()
    {
      ghost var cells0 := mon.cells[..];
      ghost var counts0 := counters[..];
      ghost var log0 := ledLog;
      ghost var matched := LitMatchesCounters();
      var i := 0;
      while i < AlertCount
        invariant 0 <= i <= AlertCount
        invariant Valid()
        invariant forall j :: 0 <= j < i ==> mon.cells[j] == Acknowledge(cells0[j])
        invariant forall j :: i <= j < AlertCount ==> mon.cells[j] == cells0[j]
        invariant forall j :: 0 <= j < i ==> counters[j] == counts0[j] + Delta(cells0[j])
        invariant forall j :: i <= j < AlertCount ==> counters[j] == counts0[j]
        invariant forall j :: 0 <= j < i ==> !(cells0[j] == ClrReq && counts0[j] < 1)
        invariant ledLog == log0 + LedEvents(cells0, counts0, i)
        invariant matched ==> LitMatchesCounters()
      {
        aborted := AcknowledgeCell(mon.cells, i);
        if aborted {
          assert cells0[i] == ClrReq && counts0[i] < 1;
          return;
        }
        i := i + 1;
      }
      assert !exists j :: 0 <= j < AlertCount && cells0[j] == ClrReq && counts0[j] < 1;
      return false;
    }
  }

  // ---------------------------------------------------------------------
  // The counting invariant over all monitors, stated on values: cols[m] is
  // monitor m's row of cells, counts the LED counters.

  /** Cell i of every monitor, in monitor order. */
  function Column(cols: seq<seq<AlertMsg>>, i: nat): (c: seq<AlertMsg>)
    requires forall m :: 0 <= m < |cols| ==> i < |cols[m]|
    ensures |c| == |cols|
    ensures forall m :: 0 <= m < |cols| ==> c[m] == cols[m][i]
  {
    if cols == [] then [] else Column(cols[..|cols| - 1], i) + [cols[|cols| - 1][i]]
  }

  /** Every LED counter equals the number of monitors whose cell for that
      LED is acknowledged as on (SET_ACK or CLR_REQ). */
  predicate Counted(cols: seq<seq<AlertMsg>>, counts: seq<int>)
  {
    && |counts| == AlertCount
    && (forall m :: 0 <= m < |cols| ==> |cols[m]| == AlertCount)
    && (forall i :: 0 <= i < AlertCount ==> counts[i] == AckedCount(Column(cols, i)))
  }

  /** A monitor's row after the main thread has read it. */
  function AcknowledgeAll(row: seq<AlertMsg>): (r: seq<AlertMsg>)
    ensures |r| == |row|
    ensures forall i :: 0 <= i < |row| ==> r[i] == Acknowledge(row[i])
  {
    seq(|row|, i requires 0 <= i < |row| => Acknowledge(row[i]))
  }

  /** At start-up every cell is CLR_ACK and every counter 0. */
  lemma {:induction false} InitiallyCounted(cols: seq<seq<AlertMsg>>)
    requires forall m :: 0 <= m < |cols| ==> cols[m] == seq(AlertCount, _ => ClrAck)
    ensures Counted(cols, seq(AlertCount, _ => 0))
  {
    forall i | 0 <= i < AlertCount
      ensures AckedCount(Column(cols, i)) == 0
    {
      NoAckedNoCount(Column(cols, i));
    }
  }

  lemma {:induction false} NoAckedNoCount(c: seq<AlertMsg>)
    requires forall m :: 0 <= m < |c| ==> !Acked(c[m])
    ensures AckedCount(c) == 0
  {
    if c != [] {
      NoAckedNoCount(c[..|c| - 1]);
    }
  }

  /** Reading a monitor keeps every counter equal to its count, and the
      negative-counter abort cannot happen while the counts are right. */
  lemma ReadMonitorKeepsCounts(cols: seq<seq<AlertMsg>>, counts: seq<int>, k: nat)
    requires Counted(cols, counts) && k < |cols|
    ensures forall i :: 0 <= i < AlertCount ==> !(cols[k][i] == ClrReq && counts[i] < 1)
    ensures Counted(cols[k := AcknowledgeAll(cols[k])],
                    seq(AlertCount, i requires 0 <= i < AlertCount => counts[i] + Delta(cols[k][i])))
  {
    var cols' := cols[k := AcknowledgeAll(cols[k])];
    forall i | 0 <= i < AlertCount
      ensures !(cols[k][i] == ClrReq && counts[i] < 1)
      ensures counts[i] + Delta(cols[k][i]) == AckedCount(Column(cols', i))
    {
      var c := Column(cols, i);
      if cols[k][i] == ClrReq {
        AckedCellIsCounted(c, k);
      }
      assert Column(cols', i) == c[k := Acknowledge(cols[k][i])];
      AckedCountUpdate(c, k, Acknowledge(cols[k][i]));
    }
  }

  /** A monitor's set or clear request keeps every counter equal to its count. */
  lemma RequestKeepsCounts(cols: seq<seq<AlertMsg>>, counts: seq<int>, k: nat, j: nat, b: bool)
    requires Counted(cols, counts) && k < |cols| && j < AlertCount
    ensures Counted(cols[k := cols[k][j := Request(b, cols[k][j])]], counts)
  {
    var cols' := cols[k := cols[k][j := Request(b, cols[k][j])]];
    assert forall m :: 0 <= m < |cols'| ==> |cols'[m]| == AlertCount;
    forall i | 0 <= i < AlertCount
      ensures counts[i] == AckedCount(Column(cols', i))
    {
      var c := Column(cols, i);
      var v := cols'[k][i];
      assert Acked(v) == Acked(c[k]);
      var c' := Column(cols', i);
      assert forall m :: 0 <= m < |cols| ==> c'[m] == c[k := v][m];
      assert c' == c[k := v];
      AckedCountUpdate(c, k, v);
    }
  }

  /** The lit-iff-positive rule and the counting invariant together: an LED
      is lit exactly when some monitor's alert for it is acknowledged on. */
  lemma {:induction false} LitIffSomeAcked(cols: seq<seq<AlertMsg>>, counts: seq<int>, i: nat)
    requires Counted(cols, counts) && i < AlertCount
    ensures counts[i] > 0 <==> exists m :: 0 <= m < |cols| && Acked(cols[m][i])
  {
    var c := Column(cols, i);
    if exists m :: 0 <= m < |cols| && Acked(cols[m][i]) {
      var m :| 0 <= m < |cols| && Acked(cols[m][i]);
      AckedCellIsCounted(c, m);
    } else {
      NoAckedNoCount(c);
    }
  }
}
