/** System fan arbitration of freecusd/pwm.c: every monitor publishes a byte
    of fan flags; the main thread ORs them together and picks one of three
    fan speeds, with hysteresis bands that keep a raised speed until the
    matching hysteresis flag is gone too. */
module Pwm {
  import opened Common
  import opened Lib

  /** fcd_pwm_state, in increasing order of speed. */
  datatype PwmState = Normal | High | Max

  function Rank(s: PwmState): nat
  {
    match s
    case Normal => 0
    case High => 1
    case Max => 2
  }

  /** The FCD_FAN_* flags, one bit each (their values are not part of this
      model; any four distinct bits behave the same). */
  const FanMaxOn: bv8 := 1
  const FanMaxHyst: bv8 := 2
  const FanHighOn: bv8 := 4
  const FanHighHyst: bv8 := 8

  predicate Has(flags: bv8, flag: bv8) { flags & flag != 0 }

  /** A configured fan setting: its PWM value, the decimal text written to
      sysfs, and the text's length. */
  datatype PwmValue = PwmValue(value: int, s: seq<char>, len: nat)

  /** The built-in settings 170, 215 and 255. */
  const DefaultValues: seq<PwmValue> :=
    [PwmValue(170, "170", 3), PwmValue(215, "215", 3), PwmValue(255, "255", 3)]

  /** The speed fcd_pwm_update settles on for the combined flags, given the
      current speed. */
  function Target(flags: bv8, current: PwmState): PwmState
  {
    if Has(flags, FanMaxOn) then Max
    else if Has(flags, FanMaxHyst) && current == Max then Max
    else if Has(flags, FanHighOn) then High
    else if Has(flags, FanHighHyst) && Rank(current) >= Rank(High) then High
    else Normal
  }

  /** The hysteresis bands: maximum speed is reached only through MAX_ON and
      kept only through MAX_HYST; high speed is reached only through HIGH_ON
      and kept (or stepped down to from maximum) only through HIGH_HYST. */
  lemma TargetBands(flags: bv8, current: PwmState)
    ensures Target(flags, current) == Max <==>
              Has(flags, FanMaxOn) || (Has(flags, FanMaxHyst) && current == Max)
    ensures Target(flags, current) == High <==>
              !Target(flags, current).Max? &&
              (Has(flags, FanHighOn) || (Has(flags, FanHighHyst) && current != Normal))
    ensures Target(flags, current) == Normal <==>
              !Has(flags, FanMaxOn) && !(Has(flags, FanMaxHyst) && current == Max) &&
              !Has(flags, FanHighOn) && !(Has(flags, FanHighHyst) && current != Normal)
  {
  }

  /** Without any ON flag the fan never speeds up. */
  lemma NoSpeedUpWithoutOnFlag(flags: bv8, current: PwmState)
    requires !Has(flags, FanMaxOn) && !Has(flags, FanHighOn)
    ensures Rank(Target(flags, current)) <= Rank(current)
  {
  }

  /** Settling again on the same flags changes nothing. */
  lemma TargetStable(flags: bv8, current: PwmState)
    ensures Target(flags, Target(flags, current)) == Target(flags, current)
  {
  }

  /** The flags of all monitors combined. */
  function OrAll(fs: seq<bv8>): bv8
  {
    if fs == [] then 0 else OrAll(fs[..|fs| - 1]) | fs[|fs| - 1]
  }

  /** A flag is in the combination exactly when some monitor raised it. */
  lemma {:induction false} OrAllHas(fs: seq<bv8>, flag: bv8)
    ensures Has(OrAll(fs), flag) <==> exists i :: 0 <= i < |fs| && Has(fs[i], flag)
  {
    if fs != [] {
      var n := |fs| - 1;
      OrAllHas(fs[..n], flag);
      assert Has(OrAll(fs), flag) <==> Has(OrAll(fs[..n]), flag) || Has(fs[n], flag) by {
        var a, b := OrAll(fs[..n]), fs[n];
        assert (a | b) & flag == (a & flag) | (b & flag);
      }
      if Has(fs[n], flag) {
        assert 0 <= n < |fs| && Has(fs[n], flag);
      }
      if exists i :: 0 <= i < |fs| && Has(fs[i], flag) {
        var i :| 0 <= i < |fs| && Has(fs[i], flag);
        if i < n {
          assert Has(fs[..n][i], flag);
        }
      }
    }
  }

  /** The old_pwm_flags of every monitor, in list order. */
  ghost function FlagsOf(monitors: seq<Monitor>): (fs: seq<bv8>)
    reads monitors
    ensures |fs| == |monitors|
    ensures forall i :: 0 <= i < |monitors| ==> fs[i] == monitors[i].oldPwmFlags
  {
    if monitors == [] then []
    else FlagsOf(monitors[..|monitors| - 1]) + [monitors[|monitors| - 1].oldPwmFlags]
  }

  /** The fan: its current speed, its three configured settings, and the
      texts written to the PWM file so far (ghost). */
  class Fan {
    var current: PwmState
    var values: seq<PwmValue>
    ghost var written: seq<seq<char>>

    ghost predicate Valid()
      reads this
    {
      |values| == 3 && forall i :: 0 <= i < 3 ==> values[i].len <= |values[i].s|
    }

    /** The daemon's start-up state: normal speed, built-in settings. */
    constructor ()
      ensures Valid() && current == Normal && values == DefaultValues && written == []
    {
      current := Normal;
      values := DefaultValues;
      written := [];
    }

    /** fcd_pwm_cb: store a configured PWM value for speed `which`.  The value
        is stored even when it is then rejected; its text only when accepted. */
    method Configure(which: PwmState, v: int) returns (r: int)
      requires Valid()
      modifies this`values
      ensures Valid()
      ensures r == -1 <==> v < 0 || v > 255
      ensures r == 0 <==> 0 <= v <= 255
      ensures values[Rank(which)].value == v
      ensures r == -1 ==> (values[Rank(which)].s == old(values[Rank(which)].s)
                           && values[Rank(which)].len == old(values[Rank(which)].len))
      ensures r == 0 ==> && values[Rank(which)].len == |values[Rank(which)].s| <= 3
                         && (forall k :: 0 <= k < |values[Rank(which)].s| ==> IsDigit(values[Rank(which)].s[k]))
                         && ParseDigits(values[Rank(which)].s) == v
      ensures forall i :: 0 <= i < 3 && i != Rank(which) ==> values[i] == old(values[i])
    {
      var k := Rank(which);
      var pv := values[k].(value := v);
      if v < 0 || v > 255 {
        values := values[k := pv];
        return -1;
      }
      var text := Decimal(v);
      DecimalFitsCell(v);
      DigitsRoundTrip(v);
      values := values[k := pv.(s := text, len := |text|)];
      r := 0;
    }

    /** fcd_pwm_set: switch to speed `next`.  `written` is the byte count the
        write to the PWM file returns (negative on error); anything but the
        full text aborts the daemon. */
    method SetSpeed(next: PwmState, wrote: int) returns (aborted: bool)
      requires Valid()
      modifies this`current, this`written
      ensures old(current) == next ==> !aborted && current == next && written == old(written)
      ensures old(current) != next ==>
                && written == old(written) + [values[Rank(next)].s[..values[Rank(next)].len]]
                && (aborted <==> wrote != values[Rank(next)].len)
                && current == (if aborted then old(current) else next)
    {
      if current == next {
        return false;
      }
      var v := values[Rank(next)];
      written := written + [v.s[..v.len]];
      if wrote < 0 || wrote != v.len {
        return true;
      }
      current := next;
      aborted := false;
    }

    /** The decision half of fcd_pwm_update: move to the speed the combined
        flags call for (a no-op while the maximum-speed hysteresis holds). */
    method SettleOn(flags: bv8, wrote: int) returns (aborted: bool)
      requires Valid()
      modifies this`current, this`written
      ensures var goal := Target(flags, old(current));
              && (goal == old(current) ==> !aborted && current == goal && written == old(written))
              && (goal != old(current) ==>
                    && written == old(written) + [values[Rank(goal)].s[..values[Rank(goal)].len]]
                    && (aborted <==> wrote != values[Rank(goal)].len)
                    && current == (if aborted then old(current) else goal))
    {
      if Has(flags, FanMaxOn) {
        aborted := SetSpeed(Max, wrote);
        return;
      }
      if Has(flags, FanMaxHyst) && current == Max {
        return false;
      }
      if Has(flags, FanHighOn) {
        aborted := SetSpeed(High, wrote);
        return;
      }
      if Has(flags, FanHighHyst) && Rank(current) >= Rank(High) {
        aborted := SetSpeed(High, wrote);
        return;
      }
      aborted := SetSpeed(Normal, wrote);
    }

    /** fcd_pwm_update: act on a change of `mon`'s fan flags.  `monitors` is
        the daemon's monitor list; the combined flags are the OR of every
        monitor's old_pwm_flags once `mon`'s new flags have been taken over. */
    method Update(mon: Monitor, monitors: seq<Monitor>, wrote: int) returns (aborted: bool)
      requires Valid()
      modifies mon`oldPwmFlags, this`current, this`written
      ensures old(mon.oldPwmFlags) == old(mon.newPwmFlags) ==>
                !aborted && current == old(current) && written == old(written)
                && mon.oldPwmFlags == old(mon.oldPwmFlags)
      ensures old(mon.oldPwmFlags) != old(mon.newPwmFlags) ==>
                && mon.oldPwmFlags == old(mon.newPwmFlags)
                && var goal := Target(OrAll(FlagsOf(monitors)), old(current));
                   && (goal == old(current) ==> !aborted && current == goal && written == old(written))
                   && (goal != old(current) ==>
                         && written == old(written) + [values[Rank(goal)].s[..values[Rank(goal)].len]]
                         && (aborted <==> wrote != values[Rank(goal)].len)
                         && current == (if aborted then old(current) else goal))
    {
      if mon.oldPwmFlags == mon.newPwmFlags {
        return false;
      }
      mon.oldPwmFlags := mon.newPwmFlags;
      ghost var fs := FlagsOf(monitors);
      var flags: bv8 := 0;
      var i := 0;
      while i < |monitors|
        modifies {}
        invariant 0 <= i <= |monitors|
        invariant flags == OrAll(fs[..i])
      {
        assert fs[..i + 1][..i] == fs[..i];
        flags := flags | monitors[i].oldPwmFlags;
        i := i + 1;
      }
      assert fs[..i] == fs;
      aborted := SettleOn(flags, wrote);
      assert fs == FlagsOf(monitors);
      assert flags == OrAll(fs);
    }
  }
}
