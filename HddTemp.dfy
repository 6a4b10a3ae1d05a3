/** The disk temperature monitor of freecusd/hddtemp.c: threshold
    validation, the hddtemp command line, storing the parsed readings and the
    per-pass rendering and alerting. */
module HddTemp {
  import opened Common
  import opened Lib

  /** INT_MIN: "no reading for this disk". */
  const NoReading: int := -0x8000_0000

  /** Built-in thresholds, in degrees Celsius. */
  const WarnDefault: int := 45
  const CritDefault: int := 50

  // ---------------------------------------------------------------------
  // Threshold validation

  datatype TempCheck = Rejected | Accepted(doubtful: bool)

  /** fcd_hddtemp_check_temp: below absolute zero is an error; a value that
      is not above 0 or is 1000 or more is only reported as doubtful. */
  function CheckTemp(temp: int): TempCheck
  {
    if temp < -273 then Rejected
    else Accepted(temp <= 0 || temp >= 1000)
  }

  lemma DefaultsAccepted()
    ensures CheckTemp(WarnDefault) == Accepted(false) && CheckTemp(CritDefault) == Accepted(false)
    ensures WarnDefault < CritDefault
  {
  }

  /** fcd_hddtemp_freecusd_cb: a global threshold, once validated, is copied
      into the same field of every disk slot (`slots` is that field across
      the five slots). */
  method FreecusdCb(slots: array<int>, temp: int) returns (r: int)
    requires slots.Length == MaxDiskCount
    modifies slots
    ensures r == 0 <==> CheckTemp(temp).Accepted?
    ensures r == 0 || r == -1
    ensures r == 0 ==> forall i :: 0 <= i < MaxDiskCount ==> slots[i] == temp
    ensures r == -1 ==> slots[..] == old(slots[..])
  {
    if CheckTemp(temp).Rejected? {
      return -1;
    }
    var i := 0;
    while i < MaxDiskCount
      invariant 0 <= i <= MaxDiskCount
      invariant forall k :: 0 <= k < i ==> slots[k] == temp
    {
      slots[i] := temp;
      i := i + 1;
    }
    r := 0;
  }

  // ---------------------------------------------------------------------
  // Command line

  /** The names of the disks hddtemp is asked about, in table order. */
  function MonitoredNames(table: seq<DiskConf>): (r: seq<seq<char>>)
    ensures |r| <= |table|
  {
    if table == [] then []
    else if table[|table| - 1].tempIgnore then MonitoredNames(table[..|table| - 1])
    else MonitoredNames(table[..|table| - 1]) + [table[|table| - 1].name]
  }

  /** Every monitored name is a configured, non-ignored disk, and every
      non-ignored disk is monitored. */
  lemma {:induction false} MonitoredNamesExact(table: seq<DiskConf>, name: seq<char>)
    ensures name in MonitoredNames(table) <==>
              exists i :: 0 <= i < |table| && !table[i].tempIgnore && table[i].name == name
  {
    if table != [] {
      var n := |table| - 1;
      MonitoredNamesExact(table[..n], name);
      if exists i :: 0 <= i < n && !table[..n][i].tempIgnore && table[..n][i].name == name {
        var i :| 0 <= i < n && !table[..n][i].tempIgnore && table[..n][i].name == name;
        assert !table[i].tempIgnore && table[i].name == name;
      }
      if exists i :: 0 <= i < |table| && !table[i].tempIgnore && table[i].name == name {
        var i :| 0 <= i < |table| && !table[i].tempIgnore && table[i].name == name;
        if i < n {
          assert !table[..n][i].tempIgnore && table[..n][i].name == name;
        }
      }
    }
  }

  /** The initial fcd_hddtemp_cmd: program path, argv[0], then NULLs. */
  predicate InitialCommand(cmd: seq<Option<seq<char>>>)
  {
    && |cmd| == MaxDiskCount + 3
    && cmd[0] == Some("/usr/sbin/hddtemp") && cmd[1] == Some("hddtemp")
    && forall i :: 2 <= i < |cmd| ==> cmd[i].None?
  }

  /** fcd_hddtemp_mkcmd: the monitored disk names become arguments 2, 3, ...
      of the command. */
  method MkCmd(cmd: array<Option<seq<char>>>, table: seq<DiskConf>)
    requires cmd.Length == MaxDiskCount + 3 && |table| <= MaxDiskCount
    modifies cmd
    ensures var names := MonitoredNames(table);
            && (forall k :: 0 <= k < |names| ==> cmd[2 + k] == Some(names[k]))
            && (forall k :: 0 <= k < cmd.Length && !(2 <= k < 2 + |names|) ==> cmd[k] == old(cmd[k]))
  {
    var i := 0;
    var j := 0;
    while i < |table|
      invariant 0 <= i <= |table|
      invariant j == |MonitoredNames(table[..i])|
      invariant forall k :: 0 <= k < j ==> cmd[2 + k] == Some(MonitoredNames(table[..i])[k])
      invariant forall k :: 0 <= k < cmd.Length && !(2 <= k < 2 + j) ==> cmd[k] == old(cmd[k])
    {
      assert table[..i + 1][..i] == table[..i];
      if !table[i].tempIgnore {
        cmd[j + 2] := Some(table[i].name);
        j := j + 1;
      }
      i := i + 1;
    }
    assert table[..i] == table;
  }

  /** Starting from the initial command, the argument list stays
      NULL-terminated, as exec requires. */
  lemma MkCmdTerminated(before: seq<Option<seq<char>>>, after: seq<Option<seq<char>>>, table: seq<DiskConf>)
    requires InitialCommand(before) && |after| == |before| && |table| <= MaxDiskCount
    requires forall k :: 0 <= k < |after| && !(2 <= k < 2 + |MonitoredNames(table)|) ==> after[k] == before[k]
    ensures after[2 + |MonitoredNames(table)|].None?
    ensures after[0] == Some("/usr/sbin/hddtemp") && after[1] == Some("hddtemp")
  {
  }

  // ---------------------------------------------------------------------
  // Readings

  /** A parsed line of hddtemp output: the drive letter and the temperature. */
  datatype Reading = Reading(letter: char, temp: int)

  /** The index step of fcd_hddtemp_parse over all lines: each temperature
      is stored at its disk's index; a letter that is no configured disk is a
      parse error (None), which disables the monitor. */
  function ApplyReadings(temps: seq<int>, readings: seq<Reading>, table: seq<DiskConf>): (r: Option<seq<int>>)
    requires forall i :: 0 <= i < |table| ==> |table[i].name| == DiskNameSize - 1
    requires |temps| >= |table|
    ensures r.Some? ==> |r.value| == |temps|
    decreases |readings|
  {
    if readings == [] then Some(temps)
    else
      var i := LetterIndex(table, readings[0].letter);
      if i == -1 then None
      else ApplyReadings(temps[i := readings[0].temp], readings[1..], table)
  }

  /** A disk hddtemp reported nothing for keeps its previous value (the
      pass starts from NoReading). */
  lemma {:induction false} UnreportedDiskKeepsValue(temps: seq<int>, readings: seq<Reading>, table: seq<DiskConf>, i: nat)
    requires forall k :: 0 <= k < |table| ==> |table[k].name| == DiskNameSize - 1
    requires |temps| >= |table| && i < |temps|
    requires forall k :: 0 <= k < |readings| ==> LetterIndex(table, readings[k].letter) != i
    requires ApplyReadings(temps, readings, table).Some?
    ensures ApplyReadings(temps, readings, table).value[i] == temps[i]
    decreases |readings|
  {
    if readings != [] {
      var j := LetterIndex(table, readings[0].letter);
      UnreportedDiskKeepsValue(temps[j := readings[0].temp], readings[1..], table, i);
    }
  }

  /** The last reading for a disk is the one that is kept. */
  lemma {:induction false} LastReadingKept(temps: seq<int>, readings: seq<Reading>, table: seq<DiskConf>, k: nat)
    requires forall j :: 0 <= j < |table| ==> |table[j].name| == DiskNameSize - 1
    requires |temps| >= |table| && k < |readings|
    requires LetterIndex(table, readings[k].letter) != -1
    requires forall j :: k < j < |readings| ==>
               LetterIndex(table, readings[j].letter) != LetterIndex(table, readings[k].letter)
    requires ApplyReadings(temps, readings, table).Some?
    ensures ApplyReadings(temps, readings, table).value[LetterIndex(table, readings[k].letter)] == readings[k].temp
    decreases |readings|
  {
    var j := LetterIndex(table, readings[0].letter);
    var next := temps[j := readings[0].temp];
    if k == 0 {
      UnreportedDiskKeepsValue(next, readings[1..], table, j);
    } else {
      LastReadingKept(next, readings[1..], table, k - 1);
    }
  }

  /** fcd_hddtemp_parse, from the parsed lines on: store each reading at
      the index fcd_lib_disk_index gives. */
  method Parse(temps: array<int>, readings: seq<Reading>, table: seq<DiskConf>) returns (ok: bool)
    requires forall i :: 0 <= i < |table| ==> |table[i].name| == DiskNameSize - 1
    requires temps.Length >= |table|
    modifies temps
    ensures ok <==> ApplyReadings(old(temps[..]), readings, table).Some?
    ensures ok ==> temps[..] == ApplyReadings(old(temps[..]), readings, table).value
  {
    var k := 0;
    while k < |readings|
      invariant 0 <= k <= |readings|
      invariant ApplyReadings(temps[..], readings[k..], table) == ApplyReadings(old(temps[..]), readings, table)
    {
      assert readings[k..][1..] == readings[k + 1..];
      var i := DiskIndex(table, readings[k].letter);
      if i == -1 {
        return false;
      }
      temps[i] := readings[k].temp;
      k := k + 1;
    }
    return true;
  }

  // ---------------------------------------------------------------------
  // Rendering and alerts

  /** The three characters shown for a disk.  sprintf's terminator is
      replaced by a space and the rest of the cell is still blank, so a
      number shows as its digits padded with spaces. */
  function CellText(d: DiskConf, temp: int): (r: seq<char>)
    ensures |r| == 3
  {
    if d.tempIgnore then "..."
    else if temp == NoReading then "???"
    else if temp < -99 then "-**"
    else if temp > 999 then "***"
    else
      DecimalFitsCell(temp);
      var s := Decimal(temp);
      s + seq(3 - |s|, _ => ' ')
  }

  /** A number in range is shown exactly: the cell reads back as the
      temperature. */
  lemma CellShowsValue(d: DiskConf, temp: int)
    requires !d.tempIgnore && temp != NoReading && -99 <= temp <= 999
    ensures var s := Decimal(temp);
            |s| <= 3 && CellText(d, temp)[..|s|] == s && ParseDecimal(s) == temp
            && forall k :: |s| <= k < 3 ==> CellText(d, temp)[k] == ' '
  {
    DecimalFitsCell(temp);
    DecimalRoundTrip(temp);
  }

  /** The first display position of a disk's cell. */
  function CellOffset(d: DiskConf): int { 4 * Led(d) }

  predicate Covers(d: DiskConf, p: int) { CellOffset(d) <= p < CellOffset(d) + 3 }

  /** The display after the first n disks have been drawn. */
  function DisplayUpTo(table: seq<DiskConf>, temps: seq<int>, n: nat): (r: seq<char>)
    requires DiskTableOk(table) && |temps| >= |table| && n <= |table|
    ensures |r| == DisplaySize
  {
    if n == 0 then seq(DisplaySize, _ => ' ')
    else Overlay(DisplayUpTo(table, temps, n - 1), CellOffset(table[n - 1]) as nat,
                 CellText(table[n - 1], temps[n - 1]))
  }

  /** What a pass shows: a blank field with each disk's cell drawn. */
  function Display(table: seq<DiskConf>, temps: seq<int>): seq<char>
    requires DiskTableOk(table) && |temps| >= |table|
  {
    DisplayUpTo(table, temps, |table|)
  }

  lemma {:induction false} DisplayUpToAt(table: seq<DiskConf>, temps: seq<int>, n: nat, p: nat)
    requires DiskTableOk(table) && |temps| >= |table| && n <= |table| && p < DisplaySize
    ensures forall k :: 0 <= k < n && Covers(table[k], p) ==>
              DisplayUpTo(table, temps, n)[p] == CellText(table[k], temps[k])[p - CellOffset(table[k])]
    ensures (forall k :: 0 <= k < n ==> !Covers(table[k], p)) ==> DisplayUpTo(table, temps, n)[p] == ' '
  {
    if n > 0 {
      DisplayUpToAt(table, temps, n - 1, p);
    }
  }

  /** Every disk's cell holds its text, and everything else is blank:
      cells of different bays never overlap. */
  lemma DisplayCells(table: seq<DiskConf>, temps: seq<int>)
    requires DiskTableOk(table) && |temps| >= |table|
    ensures forall i :: 0 <= i < |table| ==>
              Display(table, temps)[CellOffset(table[i])..CellOffset(table[i]) + 3] == CellText(table[i], temps[i])
    ensures forall p :: 0 <= p < DisplaySize && (forall k :: 0 <= k < |table| ==> !Covers(table[k], p)) ==>
              Display(table, temps)[p] == ' '
  {
    forall p | 0 <= p < DisplaySize {
      DisplayUpToAt(table, temps, |table|, p);
    }
  }

  /** A disk at or above its critical threshold, or not above 0 (which
      includes having no reading). */
  predicate Critical(d: DiskConf, temp: int)
  {
    !d.tempIgnore && (temp >= d.tempCrit || temp <= 0)
  }

  /** A disk at or above its warning threshold but not critical. */
  predicate Warm(d: DiskConf, temp: int)
  {
    !d.tempIgnore && !Critical(d, temp) && temp >= d.tempWarn
  }

  /** A missing reading counts as a failure; an ignored disk never alerts. */
  lemma AlertRules(d: DiskConf, temp: int)
    ensures !d.tempIgnore && temp == NoReading ==> Critical(d, temp)
    ensures d.tempIgnore ==> !Critical(d, temp) && !Warm(d, temp)
    ensures !(Critical(d, temp) && Warm(d, temp))
  {
  }

  /** Draw one disk's cell into the display. */
  method DrawCell(buf: array<char>, d: DiskConf, temp: int)
    requires buf.Length == DisplaySize && 0 <= Led(d) < MaxDiskCount
    modifies buf
    ensures buf[..] == Overlay(old(buf[..]), CellOffset(d) as nat, CellText(d, temp))
  {
    var off := CellOffset(d);
    var text := CellText(d, temp);
    forall k | 0 <= k < 3 {
      buf[off + k] := text[k];
    }
  }

  /** The alert half of one step of the per-disk loop: a critical disk
      sets fail and clears warn, a warm one sets warn unless fail is set. */
  method JudgeDisk(alerts: array<int>, i: nat, d: DiskConf, temp: int, warn: bool, fail: bool)
    returns (warn': bool, fail': bool)
    requires i < alerts.Length && alerts[i] == 0
    modifies alerts
    ensures alerts[..] == old(alerts[..])[i := if Critical(d, temp) || Warm(d, temp) then 1 else 0]
    ensures fail' == (fail || Critical(d, temp))
    ensures warn' == (if Critical(d, temp) then false else if Warm(d, temp) then !fail else warn)
  {
    warn', fail' := warn, fail;
    if d.tempIgnore {
      return;
    }
    if temp >= d.tempCrit || temp <= 0 {
      alerts[i] := 1;
      fail' := true;
      warn' := false;
    } else if temp >= d.tempWarn {
      alerts[i] := 1;
      warn' := !fail;
    }
  }

  /** The per-disk loop of fcd_hddtemp_fn: the display field, the disk
      alerts and the warn/fail flags the pass publishes. */
  method Render(table: seq<DiskConf>, temps: seq<int>)
    returns (buf: array<char>, alerts: array<int>, warn: bool, fail: bool)
    requires DiskTableOk(table) && |temps| >= |table|
    ensures buf.Length == DisplaySize && buf[..] == Display(table, temps)
    ensures alerts.Length == MaxDiskCount
    ensures forall i :: 0 <= i < |table| ==>
              alerts[i] == (if Critical(table[i], temps[i]) || Warm(table[i], temps[i]) then 1 else 0)
    ensures forall i :: |table| <= i < MaxDiskCount ==> alerts[i] == 0
    ensures fail <==> exists i :: 0 <= i < |table| && Critical(table[i], temps[i])
    ensures warn <==> !fail && exists i :: 0 <= i < |table| && Warm(table[i], temps[i])
  {
    buf := new char[DisplaySize](_ => ' ');
    alerts := new int[MaxDiskCount](_ => 0);
    warn, fail := false, false;
    var i := 0;
    while i < |table|
      invariant 0 <= i <= |table|
      invariant buf[..] == DisplayUpTo(table, temps, i)
      invariant forall k :: 0 <= k < i ==>
                  alerts[k] == (if Critical(table[k], temps[k]) || Warm(table[k], temps[k]) then 1 else 0)
      invariant forall k :: i <= k < MaxDiskCount ==> alerts[k] == 0
      invariant fail <==> exists k :: 0 <= k < i && Critical(table[k], temps[k])
      invariant warn <==> !fail && exists k :: 0 <= k < i && Warm(table[k], temps[k])
    {
      DrawCell(buf, table[i], temps[i]);
      warn, fail := JudgeDisk(alerts, i, table[i], temps[i], warn, fail);
      i := i + 1;
    }
  }
}
