/** The CPU core temperature monitor of freecusd/cputemp.c: threshold
    configuration, the warning and failure decision on the hotter of the two
    cores, and the text shown for both cores.  Temperatures are in
    millidegrees Celsius, as the kernel reports them. */
module CpuTemp {
  import opened Common
  import opened Alert
  import opened Lib

  /** INT_MIN / 1000 and INT_MAX / 1000 in C (division truncates). */
  const ConfMin: int := -2147483
  const ConfMax: int := 2147483

  // ---------------------------------------------------------------------
  // Thresholds

  /** The six configurable thresholds. */
  datatype Threshold = Warn | Fail | MaxOn | MaxHyst | HighOn | HighHyst

  /** C's (int) cast of a non-huge value: truncation toward zero. */
  function Truncate(x: real): (r: int)
    ensures x >= 0.0 ==> r as real <= x < r as real + 1.0
    ensures x < 0.0 ==> r as real - 1.0 < x <= r as real
  {
    if x >= 0.0 then x.Floor else -((-x).Floor)
  }

  /** What fcd_cputemp_cb makes of a configured value in degrees: rejected
      outside the range whose millidegrees fit an int, accepted (perhaps with
      a doubt for values not above 0 or not below 1000) otherwise. */
  datatype Checked = Rejected | Accepted(milli: int, doubtful: bool)

  function CheckThreshold(temp: real): Checked
  {
    if temp < ConfMin as real || temp > ConfMax as real then Rejected
    else Accepted(Truncate(temp * 1000.0), temp <= 0.0 || temp >= 1000.0)
  }

  /** An accepted value is stored as millidegrees that fit a 32-bit int and
      lie within one millidegree of the configured value, toward zero. */
  lemma CheckThresholdFits(temp: real)
    ensures CheckThreshold(temp).Accepted? <==> ConfMin as real <= temp <= ConfMax as real
    ensures CheckThreshold(temp).Accepted? ==>
              var m := CheckThreshold(temp).milli;
              && ConfMin * 1000 <= m <= ConfMax * 1000
              && -0x8000_0000 <= m < 0x8000_0000
              && (temp >= 0.0 ==> 0 <= m && m as real <= temp * 1000.0 < m as real + 1.0)
              && (temp < 0.0 ==> m <= 0 && m as real - 1.0 < temp * 1000.0 <= m as real)
  {
    if ConfMin as real <= temp <= ConfMax as real {
      var m := Truncate(temp * 1000.0);
      if temp >= 0.0 {
        assert m as real <= temp * 1000.0 <= ConfMax as real * 1000.0;
      } else {
        assert ConfMin as real * 1000.0 <= temp * 1000.0 <= m as real;
      }
    }
  }

  /** The static thresholds of cputemp.c. */
  class Thresholds {
    var warn: int
    var fail: int
    var maxOn: int
    var maxHyst: int
    var highOn: int
    var highHyst: int

    function Get(t: Threshold): int
      reads this
    {
      match t
      case Warn => warn
      case Fail => fail
      case MaxOn => maxOn
      case MaxHyst => maxHyst
      case HighOn => highOn
      case HighHyst => highHyst
    }

    /** The built-in values. */
    constructor ()
      ensures warn == 47000 && fail == 52000
      ensures maxOn == 42000 && maxHyst == 39000 && highOn == 40000 && highHyst == 37000
    {
      warn, fail := 47000, 52000;
      maxOn, maxHyst, highOn, highHyst := 42000, 39000, 40000, 37000;
    }

    /** fcd_cputemp_cb for threshold t. */
    method Configure(t: Threshold, temp: real) returns (r: int)
      modifies this
      ensures r == -1 <==> CheckThreshold(temp).Rejected?
      ensures r == 0 <==> CheckThreshold(temp).Accepted?
      ensures r == 0 ==> Get(t) == CheckThreshold(temp).milli
      ensures forall u :: (r == -1 || u != t) ==> Get(u) == old(Get(u))
    {
      if temp < ConfMin as real || temp > ConfMax as real {
        return -1;
      }
      var m := Truncate(temp * 1000.0);
      match t {
        case Warn => warn := m;
        case Fail => fail := m;
        case MaxOn => maxOn := m;
        case MaxHyst => maxHyst := m;
        case HighOn => highOn := m;
        case HighHyst => highHyst := m;
      }
      r := 0;
    }
  }

  // ---------------------------------------------------------------------
  // The decision

  function Max(a: int, b: int): int { if a > b then a else b }

  /** The pass's failure and warning flags for the two core readings. */
  datatype Verdict = Verdict(warn: bool, fail: bool)

  function Judge(t0: int, t1: int, warnT: int, failT: int): Verdict
  {
    var max := Max(t0, t1);
    var fail := max >= failT;
    Verdict(if fail then false else max >= warnT, fail)
  }

  /** The decision in terms of the cores: failure when either core reaches
      the failure threshold, a warning when neither does and one reaches the
      warning threshold; never both. */
  lemma JudgeMeaning(t0: int, t1: int, warnT: int, failT: int)
    ensures Judge(t0, t1, warnT, failT).fail <==> t0 >= failT || t1 >= failT
    ensures Judge(t0, t1, warnT, failT).warn <==>
              t0 < failT && t1 < failT && (t0 >= warnT || t1 >= warnT)
    ensures !(Judge(t0, t1, warnT, failT).warn && Judge(t0, t1, warnT, failT).fail)
  {
  }

  /** Hotter cores never make the verdict milder. */
  lemma JudgeMonotone(t0: int, t1: int, u0: int, u1: int, warnT: int, failT: int)
    requires t0 <= u0 && t1 <= u1 && warnT <= failT
    ensures Judge(t0, t1, warnT, failT).fail ==> Judge(u0, u1, warnT, failT).fail
    ensures Judge(t0, t1, warnT, failT).warn ==>
              Judge(u0, u1, warnT, failT).warn || Judge(u0, u1, warnT, failT).fail
  {
  }

  // ---------------------------------------------------------------------
  // The text

  /** "%.0f" of t / 1000.0: the nearest whole degree, halves to even.  (For
      a 32-bit t the double t / 1000.0 never lies on the other side of a
      half from t / 1000.) */
  function WholeDegrees(t: int): int
  {
    var q, r := t / 1000, t % 1000;
    if r < 500 then q else if r > 500 then q + 1 else if q % 2 == 0 then q else q + 1
  }

  lemma WholeDegreesNearest(t: int)
    ensures -500 <= t - 1000 * WholeDegrees(t) <= 500
    ensures t % 1000 == 0 ==> WholeDegrees(t) * 1000 == t
  {
  }

  /** The printed number; printf writes "-0" for a negative value that
      rounds to zero. */
  function DegreesText(t: int): seq<char>
  {
    var w := WholeDegrees(t);
    if w == 0 && t < 0 then "-0" else Decimal(w)
  }

  /** The printed number reads back as the rounded value. */
  lemma DegreesTextRoundTrip(t: int)
    ensures ParseDecimal(DegreesText(t)) == WholeDegrees(t)
  {
    DecimalRoundTrip(WholeDegrees(t));
    if WholeDegrees(t) == 0 && t < 0 {
      assert DegreesText(t) == "-" + "0";
      assert ParseDigits("0") == 0;
    }
  }

  /** "CORE0: %.0f  CORE1: %.0f". */
  function CoreText(t0: int, t1: int): seq<char>
  {
    "CORE0: " + DegreesText(t0) + "  CORE1: " + DegreesText(t1)
  }

  /** The 20 characters the monitor publishes: the text, cut at 20 or
      padded with spaces. */
  function Field(text: seq<char>): (r: seq<char>)
    ensures |r| == FieldSize
  {
    (text + seq(FieldSize, _ => ' '))[..FieldSize]
  }

  /** Two-digit readings fit the field whole. */
  lemma TwoDigitCoresFit(t0: int, t1: int)
    requires 0 <= t0 < 99500 && 0 <= t1 < 99500
    ensures |CoreText(t0, t1)| <= FieldSize
    ensures Field(CoreText(t0, t1))[..|CoreText(t0, t1)|] == CoreText(t0, t1)
  {
    DigitsWidth(WholeDegrees(t0));
    DigitsWidth(WholeDegrees(t1));
  }

  /** The formatting step of fcd_cputemp_fn: snprintf into a 21-byte buffer
      of spaces, then the terminator replaced by a space when the text fit. */
  method Format(text: seq<char>) returns (buf: array<char>)
    ensures buf.Length == FieldSize + 1
    ensures buf[..FieldSize] == Field(text)
    ensures |text| > FieldSize ==> buf[FieldSize] == '\0'
    ensures |text| <= FieldSize ==> buf[FieldSize] == ' '
  {
    buf := new char[FieldSize + 1](_ => ' ');
    var n := if |text| < FieldSize then |text| else FieldSize;
    var i := 0;
    while i < n
      invariant 0 <= i <= n
      invariant forall k :: 0 <= k < i ==> buf[k] == text[k]
      invariant forall k :: i <= k < buf.Length ==> buf[k] == ' '
    {
      buf[i] := text[i];
      i := i + 1;
    }
    buf[n] := '\0';
    if |text| < FieldSize + 1 {
      buf[|text|] := ' ';
    }
  }

  /** A reading of a core's temp*_input file, or its failure. */
  datatype Reading = Reading(milli: int) | Unreadable

  datatype PassEnd = Published | Disabled

  /** One pass of fcd_cputemp_fn on monitor `mon`: both cores are read (a
      failed read disables the monitor); the hotter core decides the flags,
      the field shows both rounded to whole degrees, and all of it is
      published with the fan flags `pwmFlags` the pass computed. */
  method Pass(mon: Monitor, th: Thresholds, r0: Reading, r1: Reading, pwmFlags: bv8)
    returns (end: PassEnd, warn: bool, fail: bool)
    requires mon.Valid()
    modifies mon.buf, mon.cells, mon`newPwmFlags
    ensures end == Disabled <==> r0.Unreadable? || r1.Unreadable?
    ensures end == Disabled ==>
              && mon.buf[LowerOffset..LowerOffset + FieldSize] == DisabledMsg
              && mon.cells[SysFail] == Set(old(mon.cells[SysFail])).next
              && mon.cells[SysWarn] == old(mon.cells[SysWarn])
              && mon.newPwmFlags == old(mon.newPwmFlags)
    ensures end == Published ==>
              && Verdict(warn, fail) == Judge(r0.milli, r1.milli, th.warn, th.fail)
              && mon.buf[LowerOffset..LowerOffset + FieldSize] == Field(CoreText(r0.milli, r1.milli))
              && mon.cells[SysWarn] == Request(warn, old(mon.cells[SysWarn]))
              && mon.cells[SysFail] == Request(fail, old(mon.cells[SysFail]))
              && mon.newPwmFlags == pwmFlags
    ensures OutsideUnchanged(mon.buf[..], old(mon.buf[..]), LowerOffset, FieldSize)
    ensures forall led :: 0 <= led < MaxDiskCount ==> mon.cells[DiskCell(led)] == old(mon.cells[DiskCell(led)])
  {
    if r0.Unreadable? || r1.Unreadable? {
      mon.Fail();
      return Disabled, false, false;
    }
    var t0, t1 := r0.milli, r1.milli;
    var max := if t0 > t1 then t0 else t1;
    fail := max >= th.fail;
    warn := if fail then false else max >= th.warn;
    var buf := Format(CoreText(t0, t1));
    mon.SetMonStatus(buf[..FieldSize], warn, fail, None, pwmFlags, []);
    end := Published;
  }
}
