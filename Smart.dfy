/** The SMART health monitor of freecusd/smart.c: each pass runs smartctl
    once per disk that is not ignored, shows a two-character verdict per
    disk, raises that disk's alert on any non-zero verdict and sets the
    monitor's warning flag only when some disk warns and none fails. */
module Smart {
  import opened Common

  /** smartctl exit status bits: the low nibble means failure, the high
      nibble a warning (smartctl(8), RETURN VALUES). */
  const FailMask: bv8 := 0x0f
  const WarnMask: bv8 := 0xf0

  /** What fcd_lib_cmd_status reports for one smartctl run: the exit status
      (0 to 255), -1 (error), -2 (timeout) or -3 (thread exit signal). */
  datatype CmdStatus = Exit(code: bv8) | CmdError | TimedOut | ThreadExit

  /** How a pass ends: its results are published, or the thread stops --
      on the exit signal, or by disabling the monitor after an error or a
      timeout. */
  datatype PassEnd = Published | Exited | Disabled

  predicate Failing(code: bv8) { code & FailMask != 0 }

  predicate Warning(code: bv8) { !Failing(code) && code & WarnMask != 0 }

  /** The two characters shown for a checked disk. */
  function Verdict(code: bv8): (r: seq<char>)
    ensures |r| == 2
  {
    if Failing(code) then "**" else if Warning(code) then "??" else "OK"
  }

  /** The three verdicts partition the exit statuses: "OK" is shown exactly
      for status 0, since the two masks together cover all eight bits. */
  lemma VerdictMeaning(code: bv8)
    ensures Verdict(code) == "**" <==> Failing(code)
    ensures Verdict(code) == "??" <==> Warning(code)
    ensures Verdict(code) == "OK" <==> code == 0
  {
    if code & FailMask == 0 && code & WarnMask == 0 {
      assert code == (code & FailMask) | (code & WarnMask);
    }
  }

  /** The mark of a disk excluded with smart_monitor_ignore. */
  const IgnoredMark: seq<char> := ".."

  /** Every checked disk before position n ran smartctl to completion. */
  predicate AllExited(table: seq<DiskConf>, st: seq<CmdStatus>, n: nat)
    requires n <= |table| <= |st|
  {
    forall k :: 0 <= k < n && !table[k].smartIgnore ==> st[k].Exit?
  }

  /** The text a disk's step writes and where.  A checked disk's cell is at
      4 * i (i is its table position); the ignored mark goes to
      `stride` * i. */
  function CellText(d: DiskConf, s: CmdStatus): (r: seq<char>)
    requires !d.smartIgnore ==> s.Exit?
    ensures |r| == 2
  {
    if d.smartIgnore then IgnoredMark else Verdict(s.code)
  }

  function CellAt(d: DiskConf, i: nat, stride: nat): nat
  {
    if d.smartIgnore then stride * i else 4 * i
  }

  /** The field after the first n disks of a pass, with the ignored mark
      written at `stride` times the disk's position. */
  function DisplayUpTo(table: seq<DiskConf>, st: seq<CmdStatus>, n: nat, stride: nat): (r: seq<char>)
    requires n <= |table| <= MaxDiskCount && |table| <= |st| && stride <= 4
    requires AllExited(table, st, n)
    ensures |r| == DisplaySize
  {
    if n == 0 then seq(DisplaySize, _ => ' ')
    else Overlay(DisplayUpTo(table, st, n - 1, stride), CellAt(table[n - 1], n - 1, stride),
                 CellText(table[n - 1], st[n - 1]))
  }

  /** The field as fcd_smart_fn writes it: ".." lands at i * 3. */
  function DisplayAsWritten(table: seq<DiskConf>, st: seq<CmdStatus>): seq<char>
    requires |table| <= MaxDiskCount && |table| <= |st| && AllExited(table, st, |table|)
  {
    DisplayUpTo(table, st, |table|, 3)
  }

  /** The field with every disk's text in its own cell at i * 4. */
  function Display(table: seq<DiskConf>, st: seq<CmdStatus>): seq<char>
    requires |table| <= MaxDiskCount && |table| <= |st| && AllExited(table, st, |table|)
  {
    DisplayUpTo(table, st, |table|, 4)
  }

  lemma {:induction false} DisplayUpToAt(table: seq<DiskConf>, st: seq<CmdStatus>, n: nat, p: nat)
    requires n <= |table| <= MaxDiskCount && |table| <= |st| && AllExited(table, st, n) && p < DisplaySize
    ensures forall k :: 0 <= k < n && 4 * k <= p < 4 * k + 2 ==>
              DisplayUpTo(table, st, n, 4)[p] == CellText(table[k], st[k])[p - 4 * k]
  {
    if n > 0 {
      DisplayUpToAt(table, st, n - 1, p);
      assert CellAt(table[n - 1], n - 1, 4) == 4 * (n - 1);
    }
  }

  /** A position within a 4-byte cell keeps its offset modulo 4. */
  lemma CellOffset(q: nat, r: nat)
    requires r < 4
    ensures (4 * q + r) % 4 == r
  {
  }

  lemma {:induction false} DisplayUpToBlank(table: seq<DiskConf>, st: seq<CmdStatus>, n: nat, p: nat)
    requires n <= |table| <= MaxDiskCount && |table| <= |st| && AllExited(table, st, n) && p < DisplaySize
    requires p % 4 >= 2 || p >= 4 * n
    ensures DisplayUpTo(table, st, n, 4)[p] == ' '
  {
    if n > 0 {
      DisplayUpToBlank(table, st, n - 1, p);
      var base := 4 * (n - 1);
      var text := CellText(table[n - 1], st[n - 1]);
      assert CellAt(table[n - 1], n - 1, 4) == base;
      assert |text| == 2;
      if base <= p < base + 2 {
        CellOffset(n - 1, p - base);
      }
      assert DisplayUpTo(table, st, n, 4) == Overlay(DisplayUpTo(table, st, n - 1, 4), base, text);
    }
  }

  /** In the intended field every disk's two characters sit in its own cell
      -- its verdict, or ".." when ignored -- and the gaps stay blank. */
  lemma DisplayCells(table: seq<DiskConf>, st: seq<CmdStatus>)
    requires |table| <= MaxDiskCount && |table| <= |st| && AllExited(table, st, |table|)
    ensures forall i :: 0 <= i < |table| ==>
              Display(table, st)[4 * i..4 * i + 2] == CellText(table[i], st[i])
    ensures forall p :: 0 <= p < DisplaySize && p % 4 >= 2 ==> Display(table, st)[p] == ' '
  {
    forall p | 0 <= p < DisplaySize {
      DisplayUpToAt(table, st, |table|, p);
    }
    forall p | 0 <= p < DisplaySize && p % 4 >= 2 {
      DisplayUpToBlank(table, st, |table|, p);
    }
  }

  /** A checked disk for the counterexample below. */
  function Bay(letter: char, ignore: bool): DiskConf
  {
    DiskConf("/dev/sd" + [letter], 2, false, ignore, 45, 50)
  }

  /** With four disks, the fourth ignored and the rest healthy, the field as
      written shows "O.." from position 8 (the ".." written at 9 covers the
      third disk's second character and the gap after it) and leaves the
      fourth disk's own cell at 12 blank;
      the intended field shows "OK" and "..". */
  lemma DisplayAsWrittenOverlaps()
    ensures var table := [Bay('b', false), Bay('c', false), Bay('d', false), Bay('e', true)];
            var st := [Exit(0), Exit(0), Exit(0), Exit(0)];
            && DisplayAsWritten(table, st)[8..11] == "O.."
            && DisplayAsWritten(table, st)[12..14] == "  "
            && Display(table, st)[8..10] == "OK"
            && Display(table, st)[12..14] == ".."
  {
    var table := [Bay('b', false), Bay('c', false), Bay('d', false), Bay('e', true)];
    var st := [Exit(0), Exit(0), Exit(0), Exit(0)];
    assert AllExited(table, st, 4);
    var d3 := DisplayUpTo(table, st, 3, 3);
    assert d3[8] == 'O' && d3[9] == 'K' && d3[12] == ' ' && d3[13] == ' ';
    var w := DisplayAsWritten(table, st);
    assert CellText(table[3], st[3]) == IgnoredMark && CellAt(table[3], 3, 3) == 9;
    assert w == Overlay(d3, 9, IgnoredMark);
    assert w[8..11] == [w[8], w[9], w[10]] == "O..";
    assert w[12..14] == [w[12], w[13]] == "  ";
    DisplayCells(table, st);
    assert Display(table, st)[4 * 2..4 * 2 + 2] == CellText(table[2], st[2]) == "OK";
    assert Display(table, st)[4 * 3..4 * 3 + 2] == CellText(table[3], st[3]);
  }

  // ---------------------------------------------------------------------
  // One pass of fcd_smart_fn

  /** The first checked disk whose smartctl did not exit stops the pass. */
  predicate StopsAt(table: seq<DiskConf>, st: seq<CmdStatus>, i: int)
    requires |table| <= |st|
  {
    0 <= i < |table| && !table[i].smartIgnore && !st[i].Exit? && AllExited(table, st, i)
  }

  function EndFor(s: CmdStatus): PassEnd
  {
    if s.ThreadExit? then Exited else if s.Exit? then Published else Disabled
  }

  /** A checked disk that fails or warns. */
  predicate Alerting(d: DiskConf, s: CmdStatus)
  {
    !d.smartIgnore && s.Exit? && s.code != 0
  }

  /** Some checked disk among the first n failed. */
  ghost predicate FailAmong(table: seq<DiskConf>, st: seq<CmdStatus>, n: nat)
    requires n <= |table| <= |st| && AllExited(table, st, n)
  {
    exists k :: 0 <= k < n && !table[k].smartIgnore && Failing(st[k].code)
  }

  /** Some checked disk among the first n warned. */
  ghost predicate WarnAmong(table: seq<DiskConf>, st: seq<CmdStatus>, n: nat)
    requires n <= |table| <= |st| && AllExited(table, st, n)
  {
    exists k :: 0 <= k < n && !table[k].smartIgnore && Warning(st[k].code)
  }

  lemma AmongStep(table: seq<DiskConf>, st: seq<CmdStatus>, n: nat)
    requires n < |table| <= |st| && AllExited(table, st, n + 1)
    ensures FailAmong(table, st, n + 1) <==> FailAmong(table, st, n) || (!table[n].smartIgnore && Failing(st[n].code))
    ensures WarnAmong(table, st, n + 1) <==> WarnAmong(table, st, n) || (!table[n].smartIgnore && Warning(st[n].code))
  {
  }

  /** One step of the per-disk loop, for an ignored disk or a checked disk
      whose smartctl exited: its two characters (at 3 * i for an ignored
      disk, as written), its alert, and the warning and failure flags. */
  method CheckDisk(buf: array<char>, alerts: array<int>, i: nat, d: DiskConf, s: CmdStatus, warn: bool, fail: bool)
    returns (warn': bool, fail': bool)
    requires buf.Length == DisplaySize && i < MaxDiskCount && alerts.Length == MaxDiskCount && alerts[i] == 0
    requires !d.smartIgnore ==> s.Exit?
    modifies buf, alerts
    ensures buf[..] == Overlay(old(buf[..]), CellAt(d, i, 3), CellText(d, s))
    ensures alerts[..] == old(alerts[..])[i := if Alerting(d, s) then 1 else 0]
    ensures fail' == (fail || (!d.smartIgnore && Failing(s.code)))
    ensures warn' == (if !d.smartIgnore && Failing(s.code) then false
                      else if !d.smartIgnore && Warning(s.code) then !fail else warn)
  {
    VerdictMeaning(if s.Exit? then s.code else 0);
    warn', fail' := warn, fail;
    var text := CellText(d, s);
    var off := CellAt(d, i, 3);
    forall k | 0 <= k < 2 {
      buf[off + k] := text[k];
    }
    if d.smartIgnore {
      return;
    }
    if s.code & FailMask != 0 {
      alerts[i] := 1;
      fail' := true;
      warn' := false;
    } else if s.code & WarnMask != 0 {
      alerts[i] := 1;
      warn' := !fail;
    }
  }

  /** The inner loop of fcd_smart_fn over the configured disks, on a blank
      field and cleared alerts: `stop` is the first checked disk whose
      smartctl did not exit, or the disk count when every one did. */
  method CheckDisks(table: seq<DiskConf>, st: seq<CmdStatus>, buf: array<char>, alerts: array<int>)
    returns (stop: nat, warn: bool)
    requires |table| <= MaxDiskCount && |st| == |table|
    requires buf.Length == DisplaySize && buf[..] == seq(DisplaySize, _ => ' ')
    requires alerts.Length == MaxDiskCount && forall k :: 0 <= k < MaxDiskCount ==> alerts[k] == 0
    modifies buf, alerts
    ensures stop <= |table|
    ensures stop < |table| ==> StopsAt(table, st, stop)
    ensures stop == |table| ==>
              && AllExited(table, st, |table|)
              && buf[..] == DisplayAsWritten(table, st)
              && (forall i :: 0 <= i < |table| ==> alerts[i] == if Alerting(table[i], st[i]) then 1 else 0)
              && (forall i :: |table| <= i < MaxDiskCount ==> alerts[i] == 0)
              && (warn <==> && (forall i :: 0 <= i < |table| && !table[i].smartIgnore ==> !Failing(st[i].code))
                            && exists i :: 0 <= i < |table| && !table[i].smartIgnore && Warning(st[i].code))
  {
    warn := false;
    var failSeen := false;
    var i := 0;
    while i < |table|
      invariant 0 <= i <= |table|
      invariant AllExited(table, st, i)
      invariant buf[..] == DisplayUpTo(table, st, i, 3)
      invariant forall k :: 0 <= k < i ==> alerts[k] == if Alerting(table[k], st[k]) then 1 else 0
      invariant forall k :: i <= k < MaxDiskCount ==> alerts[k] == 0
      invariant failSeen <==> FailAmong(table, st, i)
      invariant warn <==> !failSeen && WarnAmong(table, st, i)
    {
      if !table[i].smartIgnore && !st[i].Exit? {
        return i, warn;
      }
      warn, failSeen := CheckDisk(buf, alerts, i, table[i], st[i], warn, failSeen);
      AmongStep(table, st, i);
      i := i + 1;
    }
    stop := i;
  }

  /** One pass of fcd_smart_fn as written: a verdict goes to the disk's cell
      at 4 * i, the ignored mark ".." to 3 * i.  `st` holds what smartctl
      reports for each disk (unused for ignored ones).  The pass stops at the
      first checked disk whose command did not exit; otherwise it publishes
      the field, the disk alerts, the warning flag and, in place of the
      failure flag it kept, 0 (`fail`). */
  method Pass(table: seq<DiskConf>, st: seq<CmdStatus>)
    returns (end: PassEnd, buf: array<char>, alerts: array<int>, warn: bool, fail: bool)
    requires |table| <= MaxDiskCount && |st| == |table|
    ensures end == Published <==> AllExited(table, st, |table|)
    ensures end != Published ==> exists i :: StopsAt(table, st, i) && end == EndFor(st[i])
    ensures end == Published ==>
              && !fail
              && buf.Length == DisplaySize && buf[..] == DisplayAsWritten(table, st)
              && alerts.Length == MaxDiskCount
              && (forall i :: 0 <= i < |table| ==> alerts[i] == if Alerting(table[i], st[i]) then 1 else 0)
              && (forall i :: |table| <= i < MaxDiskCount ==> alerts[i] == 0)
              && (warn <==> && (forall i :: 0 <= i < |table| && !table[i].smartIgnore ==> !Failing(st[i].code))
                            && exists i :: 0 <= i < |table| && !table[i].smartIgnore && Warning(st[i].code))
  {
    buf := new char[DisplaySize](_ => ' ');
    alerts := new int[MaxDiskCount](_ => 0);
    var stop;
    stop, warn := CheckDisks(table, st, buf, alerts);
    if stop < |table| {
      return EndFor(st[stop]), buf, alerts, warn, false;
    }
    end, fail := Published, false;
  }

}
