/** The raidcheck program of raidcheck/raidcheck.c: it reads a list of RAID
    devices with a check frequency, a first check date and a time of day,
    makes sure no array is degraded or busy, and starts a check on every
    device that is due.  Dates are day numbers (days since 1 January 1970);
    turning a date or the clock into one is not part of this model. */
module RaidCheck {
  import opened Common

  /** One configured device (struct cfg_dev). */
  datatype CfgDev = CfgDev(name: seq<char>, checkFreq: nat, cycleDate: nat, checkTime: nat)

  /** Minutes in a day. */
  const DayMinutes: nat := 1440

  /** The half-width of the time window, in minutes. */
  const Slack: nat := 15

  // ---------------------------------------------------------------------
  // The decision of handle_dev

  function Abs(x: int): nat { if x < 0 then -x else x }

  /** A device is due on a day from its cycle date on that is a whole number
      of periods after it, within 15 minutes (inclusive) of its check time
      on the same day. */
  predicate Due(dev: CfgDev, days: nat, mins: nat)
    requires dev.checkFreq > 0
  {
    && days >= dev.cycleDate
    && (days - dev.cycleDate) % dev.checkFreq == 0
    && Abs(mins - dev.checkTime) <= Slack
  }

  /** The due days are the cycle date and every checkFreq days after it. */
  lemma {:induction false} DueDays(dev: CfgDev, days: nat, mins: nat)
    requires dev.checkFreq > 0 && Abs(mins - dev.checkTime) <= Slack
    ensures Due(dev, days, mins) <==> exists n: nat :: days == dev.cycleDate + n * dev.checkFreq
  {
    if Due(dev, days, mins) {
      var n := (days - dev.cycleDate) / dev.checkFreq;
      assert days == dev.cycleDate + n * dev.checkFreq;
    }
    if exists n: nat :: days == dev.cycleDate + n * dev.checkFreq {
      var n: nat :| days == dev.cycleDate + n * dev.checkFreq;
      MultipleMod(n, dev.checkFreq);
    }
  }

  lemma {:induction false} MultipleMod(n: nat, f: nat)
    requires f > 0
    ensures (n * f) % f == 0
  {
    var x := n * f;
    var q, r := x / f, x % f;
    assert x == q * f + r && 0 <= r < f;
    assert (n - q) * f == r;
    if n - q >= 1 {
      MulAtLeast(n - q, f);
    } else if n - q <= -1 {
      MulAtLeast(q - n, f);
    }
  }

  lemma {:induction false} MulAtLeast(k: int, f: nat)
    requires k >= 1
    ensures k * f >= f
    decreases k
  {
    if k > 1 {
      MulAtLeast(k - 1, f);
      assert k * f == (k - 1) * f + f;
    }
  }

  /** The window does not wrap around midnight: a device set for 00:05 is not
      checked at 23:55. */
  lemma NoWrapAtMidnight()
    ensures !Due(CfgDev("md0", 1, 0, 5), 10, 1435)
    ensures Due(CfgDev("md0", 1, 0, 5), 10, 20) && !Due(CfgDev("md0", 1, 0, 5), 10, 21)
  {
  }

  /** "check\n" with its terminator: what handle_dev writes. */
  const CheckCommand: seq<char> := "check\n\0"

  datatype HandleOutcome = Skipped | Started | Failed

  /** handle_dev: `openOk` is whether sync_action could be opened, `wrote`
      what the write returned.  A check starts only with the full 7 bytes
      written; an open error, a write error or a short write is fatal.
      `sent` is what was written, if anything. */
  method HandleDev(dev: CfgDev, days: nat, mins: nat, openOk: bool, wrote: int)
    returns (r: HandleOutcome, sent: seq<char>)
    requires dev.checkFreq > 0
    ensures r == Skipped <==> !Due(dev, days, mins)
    ensures r == Started <==> Due(dev, days, mins) && openOk && wrote == |CheckCommand|
    ensures sent == if Due(dev, days, mins) && openOk then CheckCommand else []
  {
    if days < dev.cycleDate {
      return Skipped, [];
    }
    if (days - dev.cycleDate) % dev.checkFreq != 0 {
      return Skipped, [];
    }
    if Abs(mins as int - dev.checkTime as int) > Slack {
      return Skipped, [];
    }
    if !openOk {
      return Failed, [];
    }
    sent := CheckCommand;
    if wrote < 0 || wrote != |CheckCommand| {
      return Failed, sent;
    }
    r := Started;
  }

  // ---------------------------------------------------------------------
  // parse_cfg_line

  /** The fields sscanf and strptime recover from a line: the name (at most
      7 characters), the frequency, the date as tm_year (years since 1900)
      with its day number, and the time.  None for a part that fails to
      parse. */
  datatype LineFields = LineFields(name: seq<char>, freq: nat, date: Option<(int, nat)>, time: Option<(nat, nat)>)

  datatype LineError = Unparsable | BadDate | YearOutOfRange | BadTime

  /** strptime guarantees an hour below 24 and a minute below 60. */
  predicate FieldsOk(f: LineFields)
  {
    |f.name| <= 7 && (f.time.Some? ==> f.time.value.0 < 24 && f.time.value.1 < 60)
  }

  /** check_time: minutes after midnight. */
  function CheckTime(hour: nat, min: nat): nat { hour * 60 + min }

  /** The time of day is kept whole: it is below a day, and its hour and
      minute come back out of it. */
  lemma CheckTimeRoundTrip(hour: nat, min: nat)
    requires hour < 24 && min < 60
    ensures CheckTime(hour, min) < DayMinutes
    ensures CheckTime(hour, min) / 60 == hour && CheckTime(hour, min) % 60 == min
  {
  }

  /** parse_cfg_line as written: any frequency sscanf reads, 0 included. */
  function ParseLineAsWritten(f: Option<LineFields>): Result<CfgDev, LineError>
    requires f.Some? ==> FieldsOk(f.value)
  {
    if f.None? then Failure(Unparsable)
    else
      var l := f.value;
      if l.date.None? then Failure(BadDate)
      else if l.date.value.0 < 70 || l.date.value.0 > 1100 then Failure(YearOutOfRange)
      else if l.time.None? then Failure(BadTime)
      else Success(CfgDev(l.name, l.freq, l.date.value.1, CheckTime(l.time.value.0, l.time.value.1)))
  }

  /** A line with frequency 0 is accepted, and the device it yields fails
      the division handle_dev performs (x % 0). */
  lemma ZeroFrequencyAccepted()
    ensures var r := ParseLineAsWritten(Some(LineFields("md0", 0, Some((120, 18262)), Some((3, 0)))));
            r.Success? && r.value.checkFreq == 0
  {
  }

  /** parse_cfg_line with the frequency 0 rejected as unparsable. */
  function ParseLine(f: Option<LineFields>): (r: Result<CfgDev, LineError>)
    requires f.Some? ==> FieldsOk(f.value)
    ensures r.Success? ==> r == ParseLineAsWritten(f) && r.value.checkFreq > 0
    ensures r.Failure? && f.Some? && f.value.freq > 0 ==> r == ParseLineAsWritten(f)
  {
    if f.Some? && f.value.freq == 0 then Failure(Unparsable) else ParseLineAsWritten(f)
  }

  /** What a parsed line yields: the year check (1970 to 3000) and a time of
      day below 24 hours; any frequency is taken as read.  The corrected
      parser accepts the same lines less those with frequency 0. */
  lemma ParseLineMeaning(f: Option<LineFields>)
    requires f.Some? ==> FieldsOk(f.value)
    ensures ParseLineAsWritten(f).Success? <==>
              && f.Some? && f.value.date.Some? && f.value.time.Some?
              && 70 <= f.value.date.value.0 <= 1100
    ensures ParseLineAsWritten(f).Success? ==>
              var d := ParseLineAsWritten(f).value;
              && d.name == f.value.name && d.checkFreq == f.value.freq
              && d.cycleDate == f.value.date.value.1
              && d.checkTime < DayMinutes
              && d.checkTime / 60 == f.value.time.value.0 && d.checkTime % 60 == f.value.time.value.1
    ensures ParseLine(f).Success? <==> ParseLineAsWritten(f).Success? && f.value.freq > 0
  {
    if ParseLineAsWritten(f).Success? {
      CheckTimeRoundTrip(f.value.time.value.0, f.value.time.value.1);
    }
  }

  // ---------------------------------------------------------------------
  // parse_cfg

  /** A line as getline returns it, less one trailing newline. */
  function StripNewline(line: seq<char>): seq<char>
  {
    if |line| > 0 && line[|line| - 1] == '\n' then line[..|line| - 1] else line
  }

  /** A line that holds a device: neither empty nor a comment. */
  predicate Significant(line: seq<char>)
  {
    line != [] && line[0] != '#'
  }

  /** The significant lines from position i on, each with its line number
      (counting from 1), in file order. */
  function Kept(lines: seq<seq<char>>, i: nat): seq<(nat, seq<char>)>
    decreases |lines| - i
  {
    if i >= |lines| then []
    else if Significant(StripNewline(lines[i])) then [(i + 1, StripNewline(lines[i]))] + Kept(lines, i + 1)
    else Kept(lines, i + 1)
  }

  /** Every kept entry is a significant line of the file, under its own
      line number. */
  lemma {:induction false} KeptSound(lines: seq<seq<char>>, i: nat)
    ensures forall k :: 0 <= k < |Kept(lines, i)| ==>
              && i < Kept(lines, i)[k].0 <= |lines|
              && Kept(lines, i)[k].1 == StripNewline(lines[Kept(lines, i)[k].0 - 1])
              && Significant(Kept(lines, i)[k].1)
    decreases |lines| - i
  {
    if i < |lines| {
      KeptSound(lines, i + 1);
    }
  }

  /** The kept lines are in file order. */
  lemma {:induction false} KeptInOrder(lines: seq<seq<char>>, i: nat)
    ensures forall k, l :: 0 <= k < l < |Kept(lines, i)| ==> Kept(lines, i)[k].0 < Kept(lines, i)[l].0
    decreases |lines| - i
  {
    if i < |lines| {
      KeptInOrder(lines, i + 1);
      KeptSound(lines, i + 1);
    }
  }

  /** Every significant line is kept. */
  lemma {:induction false} KeptComplete(lines: seq<seq<char>>, i: nat)
    ensures forall j :: i <= j < |lines| && Significant(StripNewline(lines[j])) ==>
              exists k :: 0 <= k < |Kept(lines, i)| && Kept(lines, i)[k].0 == j + 1
    decreases |lines| - i
  {
    if i < |lines| {
      KeptComplete(lines, i + 1);
      var rest := Kept(lines, i + 1);
      if Significant(StripNewline(lines[i])) {
        assert Kept(lines, i) == [(i + 1, StripNewline(lines[i]))] + rest;
        forall j | i <= j < |lines| && Significant(StripNewline(lines[j]))
          ensures exists k :: 0 <= k < |Kept(lines, i)| && Kept(lines, i)[k].0 == j + 1
        {
          if j == i {
            assert Kept(lines, i)[0].0 == j + 1;
          } else {
            var k :| 0 <= k < |rest| && rest[k].0 == j + 1;
            assert Kept(lines, i)[k + 1].0 == j + 1;
          }
        }
      }
    }
  }

  /** The outcome of parse_cfg: the device list in file order, or the number
      of the first line that failed (the program then exits). */
  datatype CfgResult = Devices(devs: seq<CfgDev>) | LineFailed(lineNo: nat, err: LineError)

  /** The configuration as the sequence of kept lines reads. */
  function ParseKept(kept: seq<(nat, seq<char>)>, scan: seq<char> -> Option<LineFields>): CfgResult
    requires forall k :: 0 <= k < |kept| && scan(kept[k].1).Some? ==> FieldsOk(scan(kept[k].1).value)
  {
    if kept == [] then Devices([])
    else
      match ParseLineAsWritten(scan(kept[0].1))
      case Failure(e) => LineFailed(kept[0].0, e)
      case Success(d) =>
        match ParseKept(kept[1..], scan)
        case Devices(ds) => Devices([d] + ds)
        case LineFailed(n, e) => LineFailed(n, e)
  }

  /** The list the program builds: one device per kept line, in file order. */
  lemma {:induction false} ParseKeptOrder(kept: seq<(nat, seq<char>)>, scan: seq<char> -> Option<LineFields>)
    requires forall k :: 0 <= k < |kept| && scan(kept[k].1).Some? ==> FieldsOk(scan(kept[k].1).value)
    ensures ParseKept(kept, scan).Devices? <==>
              forall k :: 0 <= k < |kept| ==> ParseLineAsWritten(scan(kept[k].1)).Success?
    ensures ParseKept(kept, scan).Devices? ==>
              && |ParseKept(kept, scan).devs| == |kept|
              && forall k :: 0 <= k < |kept| ==> ParseKept(kept, scan).devs[k] == ParseLineAsWritten(scan(kept[k].1)).value
  {
    if kept != [] {
      ParseKeptOrder(kept[1..], scan);
      if ParseLineAsWritten(scan(kept[0].1)).Success? && ParseKept(kept[1..], scan).Devices? {
        var ds := ParseKept(kept[1..], scan).devs;
        forall k | 0 <= k < |kept|
          ensures ParseKept(kept, scan).devs[k] == ParseLineAsWritten(scan(kept[k].1)).value
        {
          if k > 0 {
            assert kept[1..][k - 1] == kept[k];
          }
        }
      }
      if forall k :: 0 <= k < |kept| ==> ParseLineAsWritten(scan(kept[k].1)).Success? {
        assert forall k :: 0 <= k < |kept[1..]| ==> kept[1..][k] == kept[k + 1];
      }
    }
  }

  /** The devices parsed ahead of a result. */
  function Prepend(ds: seq<CfgDev>, r: CfgResult): CfgResult
  {
    match r
    case Devices(rest) => Devices(ds + rest)
    case LineFailed(_, _) => r
  }

  /** The kept lines parse the same whether taken one by one from the file
      or as a list. */
  lemma {:induction false} KeptParse(lines: seq<seq<char>>, i: nat, scan: seq<char> -> Option<LineFields>)
    requires forall line :: scan(line).Some? ==> FieldsOk(scan(line).value)
    ensures i < |lines| && Significant(StripNewline(lines[i])) ==>
              ParseKept(Kept(lines, i), scan) ==
                match ParseLineAsWritten(scan(StripNewline(lines[i])))
                case Failure(e) => LineFailed(i + 1, e)
                case Success(d) => Prepend([d], ParseKept(Kept(lines, i + 1), scan))
  {
    if i < |lines| && Significant(StripNewline(lines[i])) {
      var k := Kept(lines, i);
      assert k == [(i + 1, StripNewline(lines[i]))] + Kept(lines, i + 1);
      assert k[1..] == Kept(lines, i + 1);
    }
  }

  /** parse_cfg: `lines` are the lines getline returns, newlines included;
      `scan` stands for sscanf and strptime on one line.  The list is built in
      file order, one tail append per significant line.  Each line is parsed
      as parse_cfg_line is written, so a check frequency of 0 gets into the
      list (HandleDev then needs a positive frequency). */
  method ParseCfg(lines: seq<seq<char>>, scan: seq<char> -> Option<LineFields>) returns (r: CfgResult)
    requires forall line :: scan(line).Some? ==> FieldsOk(scan(line).value)
    ensures r == ParseKept(Kept(lines, 0), scan)
  {
    var devs: seq<CfgDev> := [];
    var i := 0;
    while i < |lines|
      invariant 0 <= i <= |lines|
      invariant ParseKept(Kept(lines, 0), scan) == Prepend(devs, ParseKept(Kept(lines, i), scan))
    {
      var line := lines[i];
      if |line| > 0 && line[|line| - 1] == '\n' {
        line := line[..|line| - 1];
      }
      assert line == StripNewline(lines[i]);
      if line == [] || line[0] == '#' {
        i := i + 1;
        continue;
      }
      KeptParse(lines, i, scan);
      var parsed := ParseLineAsWritten(scan(line));
      if parsed.Failure? {
        return LineFailed(i + 1, parsed.error);
      }
      PrependTwice(devs, [parsed.value], ParseKept(Kept(lines, i + 1), scan));
      devs := devs + [parsed.value];
      i := i + 1;
    }
    r := Devices(devs);
  }

  lemma PrependTwice(a: seq<CfgDev>, b: seq<CfgDev>, r: CfgResult)
    ensures Prepend(a, Prepend(b, r)) == Prepend(a + b, r)
  {
    if r.Devices? {
      assert a + (b + r.devs) == a + b + r.devs;
    }
  }

  // ---------------------------------------------------------------------
  // check_sys_status

  /** The C string in a buffer: everything before the first NUL. */
  function CString(s: seq<char>): (r: seq<char>)
    ensures |r| <= |s| && r == s[..|r|]
    ensures forall k :: 0 <= k < |r| ==> r[k] != '\0'
    ensures |r| < |s| ==> s[|r|] == '\0'
  {
    if s == [] || s[0] == '\0' then [] else [s[0]] + CString(s[1..])
  }

  /** One sysfs value as read (at most 31 bytes), less a trailing newline. */
  function Trimmed(bytes: seq<char>): seq<char>
  {
    CString(StripNewline(bytes))
  }

  /** For a value without NUL bytes, exactly the expected word, with or
      without a newline, is accepted. */
  lemma TrimmedAccepts(bytes: seq<char>, word: seq<char>)
    requires forall k :: 0 <= k < |bytes| ==> bytes[k] != '\0'
    requires forall k :: 0 <= k < |word| ==> word[k] != '\n'
    ensures Trimmed(bytes) == word <==> bytes == word || bytes == word + "\n"
  {
    var s := StripNewline(bytes);
    assert CString(s) == s;
    if bytes == word + "\n" {
      assert s == word;
    }
    if bytes == word && |word| > 0 {
      assert word[|word| - 1] != '\n';
    }
  }

  /** The in-place trimming of check_sys_status on its 32-byte buffer after
      a read of s bytes, and the comparison with the expected word. */
  method CheckValue(buf: array<char>, s: nat, word: seq<char>) returns (ok: bool)
    requires buf.Length == 32 && s <= 31
    modifies buf
    ensures ok <==> Trimmed(old(buf[..s])) == word
    ensures buf[..s] == old(buf[..s])[..|StripNewline(old(buf[..s]))|] + buf[|StripNewline(old(buf[..s]))|..s]
    ensures buf[|StripNewline(old(buf[..s]))|] == '\0'
  {
    ghost var bytes := buf[..s];
    if s > 0 && buf[s - 1] == '\n' {
      buf[s - 1] := '\0';
    } else {
      buf[s] := '\0';
    }
    var n := 0;
    while buf[n] != '\0'
      invariant 0 <= n <= |StripNewline(bytes)|
      invariant buf[..|StripNewline(bytes)|] == StripNewline(bytes)
      invariant buf[|StripNewline(bytes)|] == '\0'
      invariant forall k :: 0 <= k < n ==> buf[k] != '\0'
      decreases |StripNewline(bytes)| - n
    {
      n := n + 1;
    }
    CStringPrefix(StripNewline(bytes), n);
    ok := buf[..n] == word;
  }

  /** Where the first NUL lies, the C string ends. */
  lemma {:induction false} CStringPrefix(s: seq<char>, n: nat)
    requires n <= |s| && (n == |s| || s[n] == '\0')
    requires forall k :: 0 <= k < n ==> s[k] != '\0'
    ensures CString(s) == s[..n]
  {
    if n > 0 {
      CStringPrefix(s[1..], n - 1);
      assert s[..n] == [s[0]] + s[1..][..n - 1];
    }
  }

  /** The two values of one array: degraded and sync_action, as read. */
  datatype ArrayState = ArrayState(degraded: seq<char>, syncAction: seq<char>)

  predicate DegradedZero(a: ArrayState) { Trimmed(a.degraded) == "0" }

  predicate SyncIdle(a: ArrayState) { Trimmed(a.syncAction) == "idle" }

  datatype SysStatus = AllIdle | NoArrays | Busy(index: nat, degradedBad: bool)

  /** check_sys_status: every array must read degraded "0" and sync_action
      "idle"; the first one that does not ends the run. */
  function SysVerdict(arrays: seq<ArrayState>): (r: SysStatus)
    ensures r.Busy? ==> r.index < |arrays|
  {
    if arrays == [] then NoArrays else FirstBusy(arrays, 0)
  }

  function FirstBusy(arrays: seq<ArrayState>, i: nat): (r: SysStatus)
    ensures r.Busy? ==> i <= r.index < |arrays|
    ensures r.AllIdle? || r.Busy?
    decreases |arrays| - i
  {
    if i >= |arrays| then AllIdle
    else if !DegradedZero(arrays[i]) then Busy(i, true)
    else if !SyncIdle(arrays[i]) then Busy(i, false)
    else FirstBusy(arrays, i + 1)
  }

  /** A run goes ahead exactly when there are arrays and each is clean and
      idle. */
  lemma {:induction false} FirstBusyMeaning(arrays: seq<ArrayState>, i: nat)
    ensures FirstBusy(arrays, i) == AllIdle <==>
              forall k :: i <= k < |arrays| ==> DegradedZero(arrays[k]) && SyncIdle(arrays[k])
    decreases |arrays| - i
  {
    if i < |arrays| {
      FirstBusyMeaning(arrays, i + 1);
      var here := arrays[i];
      if DegradedZero(here) && SyncIdle(here) {
        assert FirstBusy(arrays, i) == FirstBusy(arrays, i + 1);
        if forall k :: i + 1 <= k < |arrays| ==> DegradedZero(arrays[k]) && SyncIdle(arrays[k]) {
          forall k | i <= k < |arrays|
            ensures DegradedZero(arrays[k]) && SyncIdle(arrays[k])
          {
            if k == i {
              assert arrays[k] == here;
            }
          }
        }
      } else {
        assert FirstBusy(arrays, i).Busy?;
        assert !(DegradedZero(arrays[i]) && SyncIdle(arrays[i]));
      }
    }
  }

  /** The loop of check_sys_status, each value read into `buf` (s bytes, at
      most 31) and trimmed there. */
  method CheckSysStatus(arrays: seq<ArrayState>) returns (r: SysStatus)
    requires forall k :: 0 <= k < |arrays| ==> |arrays[k].degraded| <= 31 && |arrays[k].syncAction| <= 31
    ensures r == SysVerdict(arrays)
  {
    if arrays == [] {
      return NoArrays;
    }
    var buf := new char[32](_ => '\0');
    var i := 0;
    while i < |arrays|
      invariant 0 <= i <= |arrays|
      invariant FirstBusy(arrays, i) == FirstBusy(arrays, 0)
    {
      var ok := ReadInto(buf, arrays[i].degraded, "0");
      if !ok {
        return Busy(i, true);
      }
      ok := ReadInto(buf, arrays[i].syncAction, "idle");
      if !ok {
        return Busy(i, false);
      }
      i := i + 1;
    }
    r := AllIdle;
  }

  /** read() of a value into the buffer, then CheckValue. */
  method ReadInto(buf: array<char>, value: seq<char>, word: seq<char>) returns (ok: bool)
    requires buf.Length == 32 && |value| <= 31
    modifies buf
    ensures ok <==> Trimmed(value) == word
  {
    var k := 0;
    while k < |value|
      invariant 0 <= k <= |value|
      invariant buf[..k] == value[..k]
    {
      buf[k] := value[k];
      k := k + 1;
    }
    assert buf[..|value|] == value;
    ok := CheckValue(buf, |value|, word);
  }

  // ---------------------------------------------------------------------
  // main

  /** The devices checked by main's loop from position i on, in list order,
      given each device's open and write results, and whether a failure
      ended the run. */
  function RunFrom(devs: seq<CfgDev>, i: nat, days: nat, mins: nat, openOk: seq<bool>, wrote: seq<int>): (r: (seq<seq<char>>, bool))
    requires |openOk| == |devs| == |wrote|
    requires forall k :: 0 <= k < |devs| ==> devs[k].checkFreq > 0
    decreases |devs| - i
  {
    if i >= |devs| then ([], false)
    else if !Due(devs[i], days, mins) then RunFrom(devs, i + 1, days, mins, openOk, wrote)
    else if !openOk[i] || wrote[i] != |CheckCommand| then ([], true)
    else
      var rest := RunFrom(devs, i + 1, days, mins, openOk, wrote);
      ([devs[i].name] + rest.0, rest.1)
  }

  /** Every device a check is started on is due; with no failure, every due
      device gets its check. */
  lemma {:induction false} RunChecksDue(devs: seq<CfgDev>, i: nat, days: nat, mins: nat, openOk: seq<bool>, wrote: seq<int>)
    requires |openOk| == |devs| == |wrote|
    requires forall k :: 0 <= k < |devs| ==> devs[k].checkFreq > 0
    ensures forall name :: name in RunFrom(devs, i, days, mins, openOk, wrote).0 ==>
              exists k :: i <= k < |devs| && devs[k].name == name && Due(devs[k], days, mins)
    ensures !RunFrom(devs, i, days, mins, openOk, wrote).1 ==>
              forall k :: i <= k < |devs| && Due(devs[k], days, mins) ==> devs[k].name in RunFrom(devs, i, days, mins, openOk, wrote).0
    decreases |devs| - i
  {
    if i < |devs| {
      RunChecksDue(devs, i + 1, days, mins, openOk, wrote);
    }
  }

  /** main's loop over the device list. */
  method HandleAll(devs: seq<CfgDev>, days: nat, mins: nat, openOk: seq<bool>, wrote: seq<int>)
    returns (started: seq<seq<char>>, failed: bool)
    requires |openOk| == |devs| == |wrote|
    requires forall k :: 0 <= k < |devs| ==> devs[k].checkFreq > 0
    ensures (started, failed) == RunFrom(devs, 0, days, mins, openOk, wrote)
  {
    started, failed := [], false;
    var i := 0;
    while i < |devs|
      invariant 0 <= i <= |devs|
      invariant RunFrom(devs, 0, days, mins, openOk, wrote).0 == started + RunFrom(devs, i, days, mins, openOk, wrote).0
      invariant RunFrom(devs, 0, days, mins, openOk, wrote).1 == RunFrom(devs, i, days, mins, openOk, wrote).1
    {
      var r, _ := HandleDev(devs[i], days, mins, openOk[i], wrote[i]);
      if r == Failed {
        assert RunFrom(devs, i, days, mins, openOk, wrote) == ([], true);
        assert started + [] == started;
        return started, true;
      }
      if r == Started {
        assert started + RunFrom(devs, i, days, mins, openOk, wrote).0
            == (started + [devs[i].name]) + RunFrom(devs, i + 1, days, mins, openOk, wrote).0;
        started := started + [devs[i].name];
      }
      i := i + 1;
    }
    assert started + [] == started;
  }
}
