/** RAID health evaluation of freecusd/raid.c.  The regular-expression
    matching of /proc/mdstat lines is taken as given: the operations here
    receive the matched groups and model what the daemon does with them. */
module Raid {
  import opened Common
  import opened Lib

  /** uint32_t arithmetic wraps modulo 2^32. */
  const U32: nat := 0x1_0000_0000

  function U32Sub(a: nat, b: nat): (r: nat)
    requires a < U32 && b < U32
    ensures r < U32
    ensures b <= a ==> r == a - b
    ensures a < b ==> r == a - b + U32
  {
    (a - b) % U32
  }

  datatype RaidType = Faulty | Linear | Multipath | Raid0 | Raid1 | Raid4 | Raid5 | Raid6 | Raid10

  /** fcd_raid_arr_stat */
  datatype ArrayStatus = Stopped | Inactive | ActiveArray | ReadOnly | Degraded | FailedArray

  /** fcd_raid_dev_stat; Expected is only a transient mark inside parse_devs. */
  datatype DevStatus = Expected | UnknownDev | Missing | ActiveDev | FailedDev | Spare | WriteMostly | Replacement

  // ---------------------------------------------------------------------
  // Personality

  /** fcd_raid_type_matches, in table order. */
  const Personalities: seq<(RaidType, seq<char>)> := [
    (Faulty, "faulty "), (Linear, "linear "), (Multipath, "multipath "),
    (Raid0, "raid0 "), (Raid1, "raid1 "), (Raid4, "raid4 "),
    (Raid5, "raid5 "), (Raid6, "raid6 "), (Raid10, "raid10 ")]

  /** strncmp(name, m, |m|) == 0 for a match m without NUL characters. */
  predicate IsPrefix(m: seq<char>, name: seq<char>)
  {
    |m| <= |name| && name[..|m|] == m
  }

  function FirstPersonality(m: seq<char>, i: nat): (r: Option<RaidType>)
    requires i <= |Personalities|
    decreases |Personalities| - i
    ensures r.None? <==> forall j :: i <= j < |Personalities| ==> !IsPrefix(m, Personalities[j].1)
    ensures r.Some? ==> exists j :: i <= j < |Personalities| && IsPrefix(m, Personalities[j].1)
                                    && Personalities[j].0 == r.value
                                    && forall l :: i <= l < j ==> !IsPrefix(m, Personalities[l].1)
  {
    if i == |Personalities| then None
    else if IsPrefix(m, Personalities[i].1) then Some(Personalities[i].0)
    else FirstPersonality(m, i + 1)
  }

  /** fcd_raid_parse_type: the first table entry that the matched personality
      text is a prefix of.  An absent group has length 0, which every entry
      matches, so it yields FAULTY.  None is the "unknown personality" abort. */
  function ParseType(group: Option<seq<char>>): Option<RaidType>
  {
    match group
    case None => Some(Faulty)
    case Some(m) => FirstPersonality(m, 0)
  }

  /** A text that differs from a name at some position is no prefix of it. */
  lemma NotPrefix(m: seq<char>, name: seq<char>, i: nat)
    requires i < |m| && (i >= |name| || m[i] != name[i])
    ensures !IsPrefix(m, name)
  {
    if |m| <= |name| {
      assert name[..|m|][i] != m[i];
    }
  }

  /** "raid10 " is recognised as RAID-10 although "raid1 " comes first in
      the table: the shorter name is not a prefix match for the longer text. */
  lemma ParseTypeRaid10()
    ensures ParseType(Some("raid10 ")) == Some(Raid10)
  {
    var m := "raid10 ";
    NotPrefix(m, "faulty ", 0);
    NotPrefix(m, "linear ", 0);
    NotPrefix(m, "multipath ", 0);
    NotPrefix(m, "raid0 ", 4);
    NotPrefix(m, "raid1 ", 5);
    NotPrefix(m, "raid4 ", 4);
    NotPrefix(m, "raid5 ", 4);
    NotPrefix(m, "raid6 ", 4);
    assert IsPrefix(m, "raid10 ");
  }

  // ---------------------------------------------------------------------
  // RAID-10: rotating chunk windows

  /** The near/far copy counts and the [U_] summary of an mdstat line. */
  datatype R10Layout = R10Layout(near: Option<nat>, far: Option<nat>, summary: seq<char>)

  function CopiesOr1(n: Option<nat>): nat
  {
    match n case None => 1 case Some(v) => v
  }

  /** The disks the summary shows up ('U'); the uint16 mask keeps 16 of them. */
  function ActiveDisks(summary: seq<char>): set<nat>
  {
    set j: nat | j < |summary| && j < 16 && summary[j] == 'U'
  }

  /** v modulo disks, for v < 2 * disks: the bits shifted past the last disk
      come back in at disk 0. */
  function Wrap(v: nat, disks: nat): (r: nat)
    requires v < 2 * disks
    ensures r < disks
  {
    if v < disks then v else v - disks
  }

  /** Start of the k-th chunk window: k * near, modulo the disk count. */
  function Start(k: nat, near: nat, disks: nat): (r: nat)
    requires near < disks
    ensures r < disks
  {
    if k == 0 then 0 else Wrap(Start(k - 1, near, disks) + near, disks)
  }

  /** The j-th disk of the window that starts at s. */
  function Cell(s: nat, j: nat, disks: nat): nat
    requires s < disks && j < disks
  {
    Wrap(s + j, disks)
  }

  /** The `copies` cyclically consecutive disks from s: the disks holding
      one chunk. */
  function Window(s: nat, copies: nat, disks: nat): set<nat>
    requires s < disks && copies <= disks
  {
    set j: nat | j < copies :: Cell(s, j, disks)
  }

  /** One step of the mask rotation: every disk of the window moves `near`
      places on. */
  function Rotate(chunk: set<nat>, near: nat, disks: nat): set<nat>
    requires near < disks && forall b :: b in chunk ==> b < disks
  {
    set b | b in chunk :: Wrap(b + near, disks)
  }

  /** The general RAID-10 rule: some window at a multiple of `near` holds no
      active disk. */
  predicate SomeWindowLost(active: set<nat>, near: nat, copies: nat, disks: nat)
    requires near < disks && copies <= disks
  {
    exists k: nat :: k < disks && Window(Start(k, near, disks), copies, disks) * active == {}
  }

  /** What fcd_raid_r10_failed decides (None is the bitmask-too-small abort). */
  function R10Verdict(layout: R10Layout, ideal: nat, current: nat): Option<bool>
    requires CopiesOr1(layout.near) * CopiesOr1(layout.far) <= ideal
  {
    var near := CopiesOr1(layout.near);
    var far := CopiesOr1(layout.far);
    var copies := near * far;
    if ideal + near > 16 then None
    else if copies == ideal then Some(current < 1)
    else if copies == 1 then Some(true)
    else if copies == 0 then Some(true)
    else
      assert near <= copies by { MulAtLeast(near, far); }
      Some(SomeWindowLost(ActiveDisks(layout.summary), near, copies, ideal))
  }

  lemma {:induction false} MulNonNeg(d: int, x: nat)
    requires d > 0
    ensures d * x >= 0
  {
    if x > 0 {
      MulNonNeg(d, x - 1);
      assert d * x == d * (x - 1) + d;
    }
  }

  lemma MulAtLeast(a: nat, b: nat)
    requires a * b != 0
    ensures a <= a * b
  {
    if a > 0 {
      assert b >= 1;
      MulNonNeg(a, b - 1);
      assert a * b == a * (b - 1) + a;
    }
  }

  /** The only multiple of d in [0, d) is 0. */
  lemma ZeroMultiple(d: int, x: int)
    requires d > 0 && 0 <= d * x < d
    ensures x == 0
  {
    if x >= 1 {
      assert d * x == d * (x - 1) + d;
      MulNonNeg(d, x - 1);
    }
  }

  /** Start(k) is k * near less a whole number of wraps. */
  lemma {:induction false} StartCongruent(k: nat, near: nat, disks: nat) returns (m: int)
    requires near < disks
    ensures Start(k, near, disks) + m * disks == k * near
  {
    if k == 0 {
      m := 0;
    } else {
      var m' := StartCongruent(k - 1, near, disks);
      assert k * near == (k - 1) * near + near;
      if Start(k - 1, near, disks) + near < disks {
        m := m';
      } else {
        m := m' + 1;
        assert (m' + 1) * disks == m' * disks + disks;
      }
    }
  }

  /** After `disks` steps the window start is back at disk 0. */
  lemma StartAtDisks(near: nat, disks: nat)
    requires near < disks
    ensures Start(disks, near, disks) == 0
  {
    var m := StartCongruent(disks, near, disks);
    assert Start(disks, near, disks) == disks * (near - m);
    ZeroMultiple(disks, near - m);
  }

  /** Once the start is back at 0 after p steps, it repeats with period p. */
  lemma {:induction false} StartShift(j: nat, p: nat, near: nat, disks: nat)
    requires near < disks && Start(p, near, disks) == 0
    ensures Start(p + j, near, disks) == Start(j, near, disks)
  {
    if j > 0 {
      StartShift(j - 1, p, near, disks);
    }
  }

  /** Every window start is one of the first p. */
  lemma {:induction false} StartReduce(k: nat, p: nat, near: nat, disks: nat) returns (j: nat)
    requires near < disks && p >= 1 && Start(p, near, disks) == 0
    ensures j < p && Start(j, near, disks) == Start(k, near, disks)
    decreases k
  {
    if k < p {
      j := k;
    } else {
      j := StartReduce(k - p, p, near, disks);
      StartShift(k - p, p, near, disks);
    }
  }

  lemma RotateWindow(s: nat, near: nat, copies: nat, disks: nat)
    requires s < disks && near < disks && copies <= disks
    ensures forall b :: b in Window(s, copies, disks) ==> b < disks
    ensures Rotate(Window(s, copies, disks), near, disks) ==
              Window(Wrap(s + near, disks), copies, disks)
  {
    var w := Window(s, copies, disks);
    var t := Wrap(s + near, disks);
    forall x | x in Rotate(w, near, disks)
      ensures x in Window(t, copies, disks)
    {
      var b :| b in w && x == Wrap(b + near, disks);
      var j: nat :| j < copies && b == Cell(s, j, disks);
      assert x == Cell(t, j, disks);
    }
    forall x | x in Window(t, copies, disks)
      ensures x in Rotate(w, near, disks)
    {
      var j: nat :| j < copies && x == Cell(t, j, disks);
      var b := Cell(s, j, disks);
      assert b in w;
      assert x == Wrap(b + near, disks);
    }
  }

  /** The rotation is back at its start value exactly when the window start
      is back at disk 0 (for 0 < copies < disks). */
  lemma WindowAtStart(s: nat, copies: nat, disks: nat)
    requires 0 < copies < disks && s < disks
    ensures Window(s, copies, disks) == Window(0, copies, disks) <==> s == 0
  {
    if s != 0 {
      assert forall x :: x in Window(0, copies, disks) ==> x < copies;
      if s < copies {
        assert Cell(s, copies - s, disks) == copies;
        assert copies in Window(s, copies, disks);
      } else {
        assert Cell(s, 0, disks) == s;
        assert s in Window(s, copies, disks);
      }
    }
  }

  /** fcd_raid_r10_failed.  The uint16 masks are modelled as the sets of
      disk positions whose bits are set. */
  method R10Failed(layout: R10Layout, ideal: nat, current: nat) returns (r: Option<bool>)
    requires CopiesOr1(layout.near) * CopiesOr1(layout.far) <= ideal
    ensures r == R10Verdict(layout, ideal, current)
  {
    var near := CopiesOr1(layout.near);
    var far := CopiesOr1(layout.far);
    var copies := near * far;
    var disks := ideal;
    if disks + near > 16 {
      return None;
    }
    if copies == disks {
      return Some(current < 1);
    }
    if copies == 1 {
      return Some(true);
    }
    var active := ScanActive(layout.summary);
    if copies == 0 {
      // an empty chunk mask meets no active disk
      return Some(true);
    }
    MulAtLeast(near, far);
    var lost := WindowLost(active, near, copies, disks);
    return Some(lost);
  }

  /** The first loop of fcd_raid_r10_failed: the mask of disks shown 'U' in
      the member summary (bits beyond 15 do not exist). */
  method ScanActive(summary: seq<char>) returns (active: set<nat>)
    ensures active == ActiveDisks(summary)
  {
    active := {};
    var pos := 0;
    while pos < |summary|
      invariant 0 <= pos <= |summary|
      invariant active == ActiveDisks(summary[..pos])
    {
      if pos < 16 && summary[pos] == 'U' {
        active := active + {pos};
      }
      pos := pos + 1;
    }
    assert summary[..pos] == summary;
  }

  /** The rotation loop of fcd_raid_r10_failed: some window of `copies`
      disks, starting at a multiple of `near`, has no active disk. */
  method WindowLost(active: set<nat>, near: nat, copies: nat, disks: nat) returns (lost: bool)
    requires 0 < near <= copies < disks
    ensures lost == SomeWindowLost(active, near, copies, disks)
  {
    var first := Window(0, copies, disks);
    var chunk := first;
    var k: nat := 0;
    while true
      invariant 0 <= k < disks
      invariant chunk == Window(Start(k, near, disks), copies, disks)
      invariant forall j: nat :: 1 <= j <= k ==> Start(j, near, disks) != 0
      invariant forall j: nat :: j < k ==> Window(Start(j, near, disks), copies, disks) * active != {}
      decreases disks - k
    {
      if chunk * active == {} {
        return true;
      }
      RotateWindow(Start(k, near, disks), near, copies, disks);
      chunk := Rotate(chunk, near, disks);
      k := k + 1;
      WindowAtStart(Start(k, near, disks), copies, disks);
      if chunk == first {
        break;
      }
      if k == disks {
        StartAtDisks(near, disks);
      }
    }
    // back at the start after k steps: every window start is one already seen
    forall j: nat | j < disks
      ensures Window(Start(j, near, disks), copies, disks) * active != {}
    {
      var j' := StartReduce(j, k, near, disks);
    }
    return false;
  }

  /** With every disk up, a RAID-10 with redundancy never counts as failed. */
  lemma R10AllUpNotFailed(layout: R10Layout, ideal: nat, current: nat)
    requires 1 <= current
    requires 1 < CopiesOr1(layout.near) * CopiesOr1(layout.far) <= ideal
    requires |layout.summary| == ideal && forall j :: 0 <= j < ideal ==> layout.summary[j] == 'U'
    ensures R10Verdict(layout, ideal, current) != Some(true)
  {
    var near := CopiesOr1(layout.near);
    var copies := near * CopiesOr1(layout.far);
    if ideal + near <= 16 && copies != ideal {
      MulAtLeast(near, CopiesOr1(layout.far));
      var active := ActiveDisks(layout.summary);
      forall k: nat | k < ideal
        ensures Window(Start(k, near, ideal), copies, ideal) * active != {}
      {
        var s := Start(k, near, ideal);
        assert Cell(s, 0, ideal) == s;
        assert s in Window(s, copies, ideal);
        assert s in active;
        assert s in Window(s, copies, ideal) * active;
      }
    }
  }

  lemma WindowOfTwo(s: nat, disks: nat)
    requires s < disks && 2 <= disks
    ensures Window(s, 2, disks) == {Cell(s, 0, disks), Cell(s, 1, disks)}
  {
    forall x | x in Window(s, 2, disks)
      ensures x == Cell(s, 0, disks) || x == Cell(s, 1, disks)
    {
      var j: nat :| j < 2 && x == Cell(s, j, disks);
    }
    assert Cell(s, 0, disks) in Window(s, 2, disks);
    assert Cell(s, 1, disks) in Window(s, 2, disks);
  }

  /** The chunk windows of a four-disk "near 2" layout: disks 0-1 and 2-3. */
  lemma Near2Of4Windows(k: nat)
    requires k < 4
    ensures Window(Start(k, 2, 4), 2, 4) == if k % 2 == 0 then {0, 1} else {2, 3}
  {
    assert Start(1, 2, 4) == 2 && Start(2, 2, 4) == 0 && Start(3, 2, 4) == 2;
    WindowOfTwo(Start(k, 2, 4), 4);
  }

  /** The classic four-disk "near 2" layout fails exactly when both disks of
      a mirrored pair are down. */
  lemma Near2Of4(summary: seq<char>)
    requires |summary| == 4
    ensures R10Verdict(R10Layout(Some(2), None, summary), 4, 2) ==
              Some((summary[0] != 'U' && summary[1] != 'U') || (summary[2] != 'U' && summary[3] != 'U'))
  {
    var active := ActiveDisks(summary);
    var lost := (summary[0] != 'U' && summary[1] != 'U') || (summary[2] != 'U' && summary[3] != 'U');
    assert forall b: nat :: b < 4 ==> (b in active <==> summary[b] == 'U');
    if summary[0] != 'U' && summary[1] != 'U' {
      Near2Of4Windows(0);
      assert Window(Start(0, 2, 4), 2, 4) * active == {};
    } else if summary[2] != 'U' && summary[3] != 'U' {
      Near2Of4Windows(1);
      assert Window(Start(1, 2, 4), 2, 4) * active == {};
    } else {
      forall k: nat | k < 4
        ensures Window(Start(k, 2, 4), 2, 4) * active != {}
      {
        Near2Of4Windows(k);
        var b: nat := if k % 2 == 0 then (if summary[0] == 'U' then 0 else 1)
                      else (if summary[2] == 'U' then 2 else 3);
        assert b in Window(Start(k, 2, 4), 2, 4) * active;
      }
    }
  }

  // ---------------------------------------------------------------------
  // Per-level failure rule

  /** What fcd_raid_array_failed decides for a degraded array. */
  function FailedVerdict(t: RaidType, ideal: nat, current: nat, layout: R10Layout): Option<bool>
    requires ideal < U32 && current < U32
    requires t == Raid10 ==> CopiesOr1(layout.near) * CopiesOr1(layout.far) <= ideal
  {
    match t
    case Faulty => Some(false)
    case Linear => Some(true)
    case Raid0 => Some(true)
    case Multipath => Some(current < 1)
    case Raid1 => Some(current < 1)
    case Raid4 => Some(U32Sub(ideal, current) > 1)
    case Raid5 => Some(U32Sub(ideal, current) > 1)
    case Raid6 => Some(U32Sub(ideal, current) > 2)
    case Raid10 => R10Verdict(layout, ideal, current)
  }

  /** fcd_raid_array_failed: the RAID-10 case runs the window scan of
      R10Failed, every other level is the switch of FailedVerdict. */
  method ArrayFailed(t: RaidType, ideal: nat, current: nat, layout: R10Layout) returns (r: Option<bool>)
    requires ideal < U32 && current < U32
    requires t == Raid10 ==> CopiesOr1(layout.near) * CopiesOr1(layout.far) <= ideal
    ensures r == FailedVerdict(t, ideal, current, layout)
  {
    if t == Raid10 {
      r := R10Failed(layout, ideal, current);
    } else {
      r := FailedVerdict(t, ideal, current, layout);
    }
  }

  /** How many missing members each level survives, for a degraded array:
      none for linear and raid0, all but one for multipath and raid1, one for
      raid4/5, two for raid6. */
  lemma FailedVerdictTolerance(t: RaidType, ideal: nat, current: nat, layout: R10Layout)
    requires current < ideal < U32
    requires t != Raid10 && t != Faulty
    ensures FailedVerdict(t, ideal, current, layout) == Some(
              match t
              case Linear => true
              case Raid0 => true
              case Multipath => current == 0
              case Raid1 => current == 0
              case Raid6 => ideal - current >= 3
              case _ => ideal - current >= 2)
  {
  }

  /** Losing more members never turns a failed verdict back into a degraded
      one (for every level but RAID-10, whose verdict depends on which disks
      are lost). */
  lemma FailedVerdictMonotone(t: RaidType, ideal: nat, fewer: nat, more: nat, layout: R10Layout)
    requires fewer <= more < ideal < U32
    requires t != Raid10
    ensures FailedVerdict(t, ideal, more, layout) == Some(true) ==>
              FailedVerdict(t, ideal, fewer, layout) == Some(true)
  {
  }

  // ---------------------------------------------------------------------
  // Member status

  /** A matched member of an mdstat array line: the third character of the
      device name (the disk letter of "sdX"), the status letter inside
      "(...)" if there was one, and the match length. */
  datatype DevMatch = DevMatch(letter: char, status: Option<char>, length: nat)

  /** The status parse_dev records for a member; an unexpected letter (which
      the expression cannot match) leaves the old status. */
  function MemberStatus(status: Option<char>, prev: DevStatus): DevStatus
  {
    match status
    case None => ActiveDev
    case Some(c) =>
      if c == 'W' then WriteMostly
      else if c == 'F' then FailedDev
      else if c == 'S' then Spare
      else if c == 'R' then Replacement
      else prev
  }

  /** Start of parse_devs: every disk the array knew about is expected again. */
  function ResetExpected(st: seq<DevStatus>): (r: seq<DevStatus>)
    ensures |r| == |st|
    ensures forall i :: 0 <= i < |st| ==> r[i] == (if st[i] == UnknownDev then UnknownDev else Expected)
  {
    seq(|st|, i requires 0 <= i < |st| => if st[i] == UnknownDev then UnknownDev else Expected)
  }

  /** The end of parse_devs as intended: still-expected disks are missing. */
  function MarkMissing(st: seq<DevStatus>): (r: seq<DevStatus>)
    ensures |r| == |st|
    ensures forall i :: 0 <= i < |st| ==> r[i] == (if st[i] == Expected then Missing else st[i])
  {
    seq(|st|, i requires 0 <= i < |st| => if st[i] == Expected then Missing else st[i])
  }

  datatype DevsOutcome = DevsOutcome(st: seq<DevStatus>, code: int)

  /** The member loop: record each member's status at its disk's index; an
      unknown disk stops it with -1, the end of the list with 0. */
  function ApplyMembers(st: seq<DevStatus>, devs: seq<DevMatch>, table: seq<DiskConf>): (o: DevsOutcome)
    requires DiskTableOk(table) && |st| == MaxDiskCount
    ensures |o.st| == MaxDiskCount
    ensures o.code == 0 || o.code == -1
    decreases |devs|
  {
    if devs == [] then DevsOutcome(st, 0)
    else
      var i := LetterIndex(table, devs[0].letter);
      if i == -1 then DevsOutcome(st, -1)
      else ApplyMembers(st[i := MemberStatus(devs[0].status, st[i])], devs[1..], table)
  }

  /** A disk no member maps to keeps its status through the member loop. */
  lemma {:induction false} UnlistedDiskUntouched(st: seq<DevStatus>, devs: seq<DevMatch>, table: seq<DiskConf>, i: nat)
    requires DiskTableOk(table) && |st| == MaxDiskCount && i < MaxDiskCount
    requires forall k :: 0 <= k < |devs| ==> LetterIndex(table, devs[k].letter) != i
    ensures ApplyMembers(st, devs, table).st[i] == st[i]
    decreases |devs|
  {
    if devs != [] {
      var j := LetterIndex(table, devs[0].letter);
      if j != -1 {
        UnlistedDiskUntouched(st[j := MemberStatus(devs[0].status, st[j])], devs[1..], table, i);
      }
    }
  }

  /** parse_devs as written: its while(1) leaves only through return, so the
      expected-to-missing conversion after it never runs. */
  function DevsAsWritten(before: seq<DevStatus>, devs: seq<DevMatch>, table: seq<DiskConf>): DevsOutcome
    requires DiskTableOk(table) && |before| == MaxDiskCount
  {
    ApplyMembers(ResetExpected(before), devs, table)
  }

  /** parse_devs as evidently intended: at the end of the member list, every
      disk that was a member and was not listed is missing. */
  function DevsIntended(before: seq<DevStatus>, devs: seq<DevMatch>, table: seq<DiskConf>): DevsOutcome
    requires DiskTableOk(table) && |before| == MaxDiskCount
  {
    var o := ApplyMembers(ResetExpected(before), devs, table);
    if o.code == 0 then DevsOutcome(MarkMissing(o.st), 0) else o
  }

  /** As intended, a member that dropped out of the list is missing. */
  lemma DroppedMemberMissing(before: seq<DevStatus>, devs: seq<DevMatch>, table: seq<DiskConf>, i: nat)
    requires DiskTableOk(table) && |before| == MaxDiskCount && i < MaxDiskCount
    requires before[i] != UnknownDev
    requires forall k :: 0 <= k < |devs| ==> LetterIndex(table, devs[k].letter) != i
    requires ApplyMembers(ResetExpected(before), devs, table).code == 0
    ensures DevsIntended(before, devs, table).st[i] == Missing
  {
    UnlistedDiskUntouched(ResetExpected(before), devs, table, i);
  }

  /** As written, the same member is left in the transient Expected state. */
  lemma DroppedMemberLeftExpected(before: seq<DevStatus>, devs: seq<DevMatch>, table: seq<DiskConf>, i: nat)
    requires DiskTableOk(table) && |before| == MaxDiskCount && i < MaxDiskCount
    requires before[i] != UnknownDev
    requires forall k :: 0 <= k < |devs| ==> LetterIndex(table, devs[k].letter) != i
    ensures DevsAsWritten(before, devs, table).st[i] == Expected
  {
    UnlistedDiskUntouched(ResetExpected(before), devs, table, i);
  }

  /** As intended, no disk is left Expected after a complete member list. */
  lemma IntendedLeavesNoExpected(before: seq<DevStatus>, devs: seq<DevMatch>, table: seq<DiskConf>)
    requires DiskTableOk(table) && |before| == MaxDiskCount
    requires ApplyMembers(ResetExpected(before), devs, table).code == 0
    ensures forall i :: 0 <= i < MaxDiskCount ==> DevsIntended(before, devs, table).st[i] != Expected
  {
  }

  // ---------------------------------------------------------------------
  // Arrays

  /** The first line of an array in /proc/mdstat, as matched: "inactive"
      rather than "active", the letter after "(" of a read-only mark, and the
      personality text. */
  datatype FirstLine = FirstLine(inactive: bool, readOnlyMark: Option<char>, personality: Option<seq<char>>)

  /** The matched second line: copy counts and summary, ideal and current
      member counts. */
  datatype SecondLine = SecondLine(layout: R10Layout, ideal: nat, current: nat)

  /** The result of parsing an array: 1, -1, or one of the daemon's aborts. */
  datatype ParseResult = Parsed | ParseError | Abort

  /** One RAID array (struct fcd_raid_array, without its list link and
      sysfs descriptor). */
  class RaidArray {
    const uuid: array<nat>
    var name: seq<char>
    var transient: bool
    var idealDevs: nat
    var currentDevs: nat
    var rtype: RaidType
    var status: ArrayStatus
    const devStatus: array<DevStatus>

    ghost predicate Valid()
      reads this
    {
      uuid.Length == 4 && devStatus.Length == MaxDiskCount
    }

    /** fcd_raid_array_alloc plus the fields its callers set: a zeroed array
        (all members UNKNOWN, status STOPPED). */
    constructor (uuid0: seq<nat>, name: seq<char>, transient: bool)
      requires |uuid0| == 4
      ensures Valid() && uuid[..] == uuid0 && this.name == name && this.transient == transient
      ensures status == Stopped && idealDevs == 0 && currentDevs == 0 && rtype == Faulty
      ensures forall i :: 0 <= i < MaxDiskCount ==> devStatus[i] == UnknownDev
    {
      uuid := new nat[4](i requires 0 <= i < 4 => uuid0[i]);
      this.name := name;
      this.transient := transient;
      idealDevs := 0;
      currentDevs := 0;
      rtype := Faulty;
      status := Stopped;
      devStatus := new DevStatus[MaxDiskCount](_ => UnknownDev);
    }

    /** fcd_raid_parse_dev: record one member's status.  Returns the match
        length, or -1 for a device that is not a configured disk. */
    method ParseDev(m: DevMatch, table: seq<DiskConf>) returns (r: int)
      requires Valid() && DiskTableOk(table)
      modifies devStatus
      ensures r == -1 <==> LetterIndex(table, m.letter) == -1
      ensures r != -1 ==> r == m.length
      ensures r == -1 ==> devStatus[..] == old(devStatus[..])
      ensures r != -1 ==> var i := LetterIndex(table, m.letter);
                          devStatus[..] == old(devStatus[..])[i := MemberStatus(m.status, old(devStatus[i]))]
    {
      var i := DiskIndex(table, m.letter);
      if i == -1 {
        return -1;
      }
      match m.status {
        case None => devStatus[i] := ActiveDev;
        case Some(c) =>
          if c == 'W' {
            devStatus[i] := WriteMostly;
          } else if c == 'F' {
            devStatus[i] := FailedDev;
          } else if c == 'S' {
            devStatus[i] := Spare;
          } else if c == 'R' {
            devStatus[i] := Replacement;
          }
      }
      return m.length;
    }

    /** The member loop shared by both versions of parse_devs. */
    method ParseMembers(devs: seq<DevMatch>, table: seq<DiskConf>) returns (r: int)
      requires Valid() && DiskTableOk(table)
      requires forall k :: 0 <= k < |devs| ==> devs[k].length >= 1
      modifies devStatus
      ensures DevsOutcome(devStatus[..], r) == ApplyMembers(old(devStatus[..]), devs, table)
    {
      var k := 0;
      while k < |devs|
        invariant 0 <= k <= |devs|
        invariant ApplyMembers(devStatus[..], devs[k..], table) == ApplyMembers(old(devStatus[..]), devs, table)
      {
        assert devs[k..][1..] == devs[k + 1..];
        var ret := ParseDev(devs[k], table);
        if ret < 1 {
          return ret;
        }
        k := k + 1;
      }
      return 0;
    }

    /** fcd_raid_parse_devs as written. */
    method ParseDevsAsWritten(devs: seq<DevMatch>, table: seq<DiskConf>) returns (r: int)
      requires Valid() && DiskTableOk(table)
      requires forall k :: 0 <= k < |devs| ==> devs[k].length >= 1
      modifies devStatus
      ensures DevsOutcome(devStatus[..], r) == DevsAsWritten(old(devStatus[..]), devs, table)
    {
      forall i | 0 <= i < MaxDiskCount && devStatus[i] != UnknownDev {
        devStatus[i] := Expected;
      }
      assert devStatus[..] == ResetExpected(old(devStatus[..]));
      r := ParseMembers(devs, table);
    }

    /** fcd_raid_parse_devs as evidently intended: leave the member loop at
        the end of the list and mark still-expected disks missing. */
    method ParseDevs(devs: seq<DevMatch>, table: seq<DiskConf>) returns (r: int)
      requires Valid() && DiskTableOk(table)
      requires forall k :: 0 <= k < |devs| ==> devs[k].length >= 1
      modifies devStatus
      ensures DevsOutcome(devStatus[..], r) == DevsIntended(old(devStatus[..]), devs, table)
    {
      forall i | 0 <= i < MaxDiskCount && devStatus[i] != UnknownDev {
        devStatus[i] := Expected;
      }
      assert devStatus[..] == ResetExpected(old(devStatus[..]));
      r := ParseMembers(devs, table);
      if r == 0 {
        ghost var listed := devStatus[..];
        forall i | 0 <= i < MaxDiskCount && devStatus[i] == Expected {
          devStatus[i] := Missing;
        }
        assert devStatus[..] == MarkMissing(listed);
      }
    }

    /** The status logic of fcd_raid_parse_array, after the array has been
        found: `first` is the matched first line, `devs` its members and
        `second` the matched second line (None when there is no further line
        or it does not match).  The member statuses come from parse_devs as
        written, so a disk that dropped out of the list is left EXPECTED. */
    method ParseArray(first: FirstLine, devs: seq<DevMatch>, second: Option<SecondLine>, table: seq<DiskConf>)
      returns (r: ParseResult)
      requires Valid() && DiskTableOk(table)
      requires forall k :: 0 <= k < |devs| ==> devs[k].length >= 1
      requires second.Some? ==> second.value.ideal < U32 && second.value.current < U32
      requires second.Some? && !first.inactive && ParseType(first.personality) == Some(Raid10) ==>
                 R10Fits(second.value)
      modifies this`status, this`rtype, this`idealDevs, this`currentDevs, devStatus
      ensures first.inactive ==> rtype == old(rtype)
      ensures !first.inactive && ParseType(first.personality).None? ==> r == Abort
      ensures r != Abort && !first.inactive ==> Some(rtype) == ParseType(first.personality)
      ensures r != Abort ==>
                DevsOutcome(devStatus[..], if r == ParseError && DevsAsWritten(old(devStatus[..]), devs, table).code == -1 then -1 else 0)
                  == DevsAsWritten(old(devStatus[..]), devs, table)
      ensures r == ParseError <==>
                (!first.inactive ==> ParseType(first.personality).Some?) &&
                (DevsAsWritten(old(devStatus[..]), devs, table).code == -1 || (!first.inactive && second.None?))
      ensures r == Parsed && first.inactive ==> status == Inactive
      ensures r == Parsed && !first.inactive ==>
                && second.Some?
                && idealDevs == second.value.ideal && currentDevs == second.value.current
                && Some(status) == LineStatus(first, rtype, second.value)
      ensures r == Abort ==>
                && !first.inactive
                && (ParseType(first.personality).None? ||
                    (second.Some? && ParseType(first.personality) == Some(rtype) &&
                     LineStatus(first, rtype, second.value).None?))
    {
      if first.inactive {
        status := Inactive;
      } else {
        status := if first.readOnlyMark == Some('r') then ReadOnly else ActiveArray;
        var t := ParseType(first.personality);
        if t.None? {
          return Abort;
        }
        rtype := t.value;
      }
      var code := ParseDevsAsWritten(devs, table);
      if code == -1 {
        return ParseError;
      }
      if first.inactive {
        return Parsed;
      }
      if second.None? {
        return ParseError;
      }
      var line := second.value;
      idealDevs := line.ideal;
      currentDevs := line.current;
      if currentDevs < idealDevs {
        var failed := ArrayFailed(rtype, idealDevs, currentDevs, line.layout);
        if failed.None? {
          return Abort;
        }
        status := if failed.value then FailedArray else Degraded;
      }
      return Parsed;
    }
  }

  /** The kernel never reports more RAID-10 copies than member disks. */
  predicate R10Fits(line: SecondLine)
  {
    CopiesOr1(line.layout.near) * CopiesOr1(line.layout.far) <= line.ideal
  }

  /** The status an active array line leads to, once its type is known:
      degraded or failed (as the level's rule decides) only when members are
      missing, otherwise read-only for "(read-only)" and active otherwise.
      None is an abort of the RAID-10 rule. */
  function LineStatus(first: FirstLine, t: RaidType, line: SecondLine): Option<ArrayStatus>
    requires line.ideal < U32 && line.current < U32
    requires t == Raid10 ==> R10Fits(line)
  {
    if line.current < line.ideal then
      match FailedVerdict(t, line.ideal, line.current, line.layout)
      case None => None
      case Some(f) => Some(if f then FailedArray else Degraded)
    else if first.readOnlyMark == Some('r') then Some(ReadOnly)
    else Some(ActiveArray)
  }

  /** DEGRADED and FAILED are given exactly when members are missing, and
      "(auto-read-only)" leaves a complete array ACTIVE. */
  lemma LineStatusCases(first: FirstLine, t: RaidType, line: SecondLine)
    requires line.ideal < U32 && line.current < U32
    requires t == Raid10 ==> R10Fits(line)
    requires LineStatus(first, t, line).Some?
    ensures LineStatus(first, t, line).value in {Degraded, FailedArray} <==> line.current < line.ideal
    ensures line.current >= line.ideal && first.readOnlyMark == Some('a') ==>
              LineStatus(first, t, line) == Some(ActiveArray)
    ensures LineStatus(first, t, line) == Some(ReadOnly) ==> first.readOnlyMark == Some('r')
    ensures line.current < line.ideal ==>
              (LineStatus(first, t, line) == Some(FailedArray) <==>
               FailedVerdict(t, line.ideal, line.current, line.layout) == Some(true))
  {
  }

  // ---------------------------------------------------------------------
  // Tally

  /** Whether fcd_raid_result blames disk `dev` of an array: never for an
      active or stopped array or an ignored transient one; for FAILED and
      MISSING members; for members of unknown status only when every RAID
      disk should be in the array. */
  predicate Blamed(status: ArrayStatus, transient: bool, dev: DevStatus, ideal: nat, diskCount: nat)
  {
    && status != ActiveArray && status != Stopped
    && !(transient && status == Inactive)
    && (dev == FailedDev || dev == Missing || (dev == UnknownDev && ideal == diskCount))
  }

  predicate CountsOk(status: ArrayStatus) { status == ActiveArray }

  predicate CountsWarn(status: ArrayStatus) { status == Degraded }

  predicate CountsFail(status: ArrayStatus, transient: bool)
  {
    status == ReadOnly || status == FailedArray || (!transient && (status == Stopped || status == Inactive))
  }

  /** Each array is counted once, except transient stopped or inactive ones,
      which are ignored; a blamed disk always comes with a warning or a
      failure. */
  lemma TallyCategories(status: ArrayStatus, transient: bool, dev: DevStatus, ideal: nat, diskCount: nat)
    ensures (if CountsOk(status) then 1 else 0) + (if CountsWarn(status) then 1 else 0)
              + (if CountsFail(status, transient) then 1 else 0)
            == (if transient && (status == Stopped || status == Inactive) then 0 else 1)
    ensures Blamed(status, transient, dev, ideal, diskCount) ==>
              CountsWarn(status) || CountsFail(status, transient)
  {
  }

  /** A member the array still waits for is never blamed: with parse_devs as
      written, a disk that dropped out of the array escapes blame. */
  lemma ExpectedNeverBlamed(status: ArrayStatus, transient: bool, ideal: nat, diskCount: nat)
    ensures !Blamed(status, transient, Expected, ideal, diskCount)
  {
  }

  /** The counters fcd_raid_fn passes to fcd_raid_result. */
  class RaidTally {
    var ok: int
    var warn: int
    var fail: int
    const disks: array<int>

    constructor ()
      ensures ok == 0 && warn == 0 && fail == 0
      ensures disks.Length == MaxDiskCount && forall i :: 0 <= i < MaxDiskCount ==> disks[i] == 0
    {
      ok, warn, fail := 0, 0, 0;
      disks := new int[MaxDiskCount](_ => 0);
    }

    /** fcd_raid_result: count one array and blame its disks. */
    method Add(a: RaidArray, diskCount: nat)
      requires a.Valid() && disks.Length == MaxDiskCount && diskCount <= MaxDiskCount
      modifies this`ok, this`warn, this`fail, disks
      ensures ok == old(ok) + (if CountsOk(a.status) then 1 else 0)
      ensures warn == old(warn) + (if CountsWarn(a.status) then 1 else 0)
      ensures fail == old(fail) + (if CountsFail(a.status, a.transient) then 1 else 0)
      ensures forall i :: 0 <= i < MaxDiskCount ==>
                disks[i] == old(disks[i]) +
                  (if i < diskCount && Blamed(a.status, a.transient, a.devStatus[i], a.idealDevs, diskCount)
                   then 1 else 0)
    {
      match a.status {
        case ActiveArray =>
          ok := ok + 1;
          return;
        case Degraded =>
          warn := warn + 1;
        case Stopped =>
          if a.transient {
            return;
          }
          fail := fail + 1;
        case Inactive =>
          if a.transient {
            return;
          }
          fail := fail + 1;
        case ReadOnly =>
          fail := fail + 1;
        case FailedArray =>
          fail := fail + 1;
      }
      if a.status == Stopped {
        return;
      }
      var i := 0;
      while i < diskCount
        modifies disks
        invariant 0 <= i <= diskCount
        invariant forall k :: 0 <= k < MaxDiskCount ==>
                    disks[k] == old(disks[k]) +
                      (if k < i && Blamed(a.status, a.transient, a.devStatus[k], a.idealDevs, diskCount)
                       then 1 else 0)
      {
        match a.devStatus[i] {
          case UnknownDev =>
            if a.idealDevs == diskCount {
              disks[i] := disks[i] + 1;
            }
          case FailedDev =>
            disks[i] := disks[i] + 1;
          case Missing =>
            disks[i] := disks[i] + 1;
          case _ =>
        }
        i := i + 1;
      }
    }
  }

  // ---------------------------------------------------------------------
  // UUIDs

  /** A hex digit as strtoul base 16 reads it, in either case. */
  predicate IsHex(c: char) { '0' <= c <= '9' || 'a' <= c <= 'f' || 'A' <= c <= 'F' }

  function HexValue(c: char): nat
    requires IsHex(c)
  {
    if c <= '9' then (c as int - '0' as int) as nat
    else if c <= 'F' then (c as int - 'A' as int + 10) as nat
    else (c as int - 'a' as int + 10) as nat
  }

  function HexChar(d: nat): (c: char)
    requires d < 16
    ensures IsHex(c) && HexValue(c) == d
  {
    "0123456789abcdef"[d]
  }

  /** strtoul(s, NULL, 16) on a run of hex digits. */
  function ParseHex(s: seq<char>): nat
    requires forall i :: 0 <= i < |s| ==> IsHex(s[i])
  {
    if s == [] then 0 else ParseHex(s[..|s| - 1]) * 16 + HexValue(s[|s| - 1])
  }

  function Pow16(n: nat): nat
  {
    if n == 0 then 1 else 16 * Pow16(n - 1)
  }

  /** v as n hex digits, zero-padded: the form mdadm prints UUID words in. */
  function HexText(v: nat, n: nat): (r: seq<char>)
    ensures |r| == n && forall i :: 0 <= i < n ==> IsHex(r[i])
  {
    if n == 0 then [] else HexText(v / 16, n - 1) + [HexChar(v % 16)]
  }

  lemma {:induction false} HexRoundTrip(v: nat, n: nat)
    requires v < Pow16(n)
    ensures ParseHex(HexText(v, n)) == v
  {
    if n > 0 {
      var t := HexText(v, n);
      assert t[..n - 1] == HexText(v / 16, n - 1);
      HexRoundTrip(v / 16, n - 1);
    }
  }

  /** The 35-character text the UUID expressions match:
      aaaaaaaa:bbbbbbbb:cccccccc:dddddddd. */
  predicate UuidText(s: seq<char>)
  {
    && |s| == 35
    && (forall i :: 0 <= i < 35 && i % 9 != 8 ==> IsHex(s[i]))
    && (forall i :: 0 <= i < 35 && i % 9 == 8 ==> s[i] == ':')
  }

  /** The group of the text that ends up in word k: the first group in
      word 3, the last in word 0. */
  function UuidWord(s: seq<char>, k: nat): nat
    requires UuidText(s) && k < 4
  {
    var off := 9 * (3 - k);
    GroupIsHex(s, off);
    ParseHex(s[off..off + 8])
  }

  lemma GroupIsHex(s: seq<char>, off: nat)
    requires UuidText(s) && off % 9 == 0 && off + 8 <= 35
    ensures forall i :: off <= i < off + 8 ==> IsHex(s[i])
  {
    forall i | off <= i < off + 8
      ensures IsHex(s[i])
    {
      assert i % 9 != 8;
    }
  }

  function UuidWords(s: seq<char>): (u: seq<nat>)
    requires UuidText(s)
    ensures |u| == 4
  {
    [UuidWord(s, 0), UuidWord(s, 1), UuidWord(s, 2), UuidWord(s, 3)]
  }

  /** How a UUID is written: word 3 first. */
  function FormatUuid(u: seq<nat>): (s: seq<char>)
    requires |u| == 4
  {
    HexText(u[3], 8) + [':'] + HexText(u[2], 8) + [':'] + HexText(u[1], 8) + [':'] + HexText(u[0], 8)
  }

  /** Where the groups and separators of a formatted UUID lie. */
  lemma FormatUuidGroups(u: seq<nat>)
    requires |u| == 4
    ensures |FormatUuid(u)| == 35
    ensures FormatUuid(u)[0..8] == HexText(u[3], 8) && FormatUuid(u)[9..17] == HexText(u[2], 8)
    ensures FormatUuid(u)[18..26] == HexText(u[1], 8) && FormatUuid(u)[27..35] == HexText(u[0], 8)
    ensures FormatUuid(u)[8] == ':' && FormatUuid(u)[17] == ':' && FormatUuid(u)[26] == ':'
  {
    var s := FormatUuid(u);
    var h0, h1, h2, h3 := HexText(u[0], 8), HexText(u[1], 8), HexText(u[2], 8), HexText(u[3], 8);
    assert s[9..] == h2 + [':'] + h1 + [':'] + h0;
    assert s[18..] == s[9..][9..] == h1 + [':'] + h0;
    assert s[27..] == s[18..][9..] == h0;
    assert s[9..17] == s[9..][..8];
    assert s[18..26] == s[18..][..8];
  }

  /** A formatted UUID has the shape the UUID expressions match. */
  lemma FormatUuidIsText(u: seq<nat>)
    requires |u| == 4
    ensures UuidText(FormatUuid(u))
  {
    var s := FormatUuid(u);
    FormatUuidGroups(u);
    forall i | 0 <= i < 35
      ensures i % 9 != 8 ==> IsHex(s[i])
      ensures i % 9 == 8 ==> s[i] == ':'
    {
      if i < 8 {
        assert s[i] == s[0..8][i];
      } else if 9 <= i < 17 {
        assert s[i] == s[9..17][i - 9];
      } else if 18 <= i < 26 {
        assert s[i] == s[18..26][i - 18];
      } else if 27 <= i {
        assert s[i] == s[27..35][i - 27];
      }
    }
  }

  /** Parsing a formatted UUID gives back its words. */
  lemma UuidRoundTrip(u: seq<nat>)
    requires |u| == 4 && forall k :: 0 <= k < 4 ==> u[k] < U32
    ensures UuidText(FormatUuid(u))
    ensures UuidWords(FormatUuid(u)) == u
  {
    assert Pow16(8) == U32;
    FormatUuidGroups(u);
    FormatUuidIsText(u);
    HexRoundTrip(u[0], 8);
    HexRoundTrip(u[1], 8);
    HexRoundTrip(u[2], 8);
    HexRoundTrip(u[3], 8);
  }

  /** fcd_raid_parse_uuid: the four words of a UUID text, last group first;
      each group is read with strtoul base 16 at `off`, nine characters on
      from the one before. */
  method ParseUuid(uuid: array<nat>, s: seq<char>)
    requires uuid.Length == 4 && UuidText(s)
    modifies uuid
    ensures uuid[..] == UuidWords(s)
  {
    var i := 4;
    var off := 0;
    while i > 0
      invariant 0 <= i <= 4 && off == 9 * (4 - i)
      invariant forall k :: i <= k < 4 ==> uuid[k] == UuidWord(s, k)
    {
      i := i - 1;
      GroupIsHex(s, off);
      uuid[i] := ParseHex(s[off..off + 8]);
      off := off + 9;
    }
  }

  /** The lower-case form of a hex digit. */
  function LowerHex(c: char): (l: char)
    requires IsHex(c)
    ensures IsHex(l) && HexValue(l) == HexValue(c) && !('A' <= l <= 'F')
  {
    if 'A' <= c <= 'F' then (c as int - 'A' as int + 'a' as int) as char else c
  }

  /** A UUID text with its hex digits in lower case. */
  function LowerUuid(s: seq<char>): (l: seq<char>)
    requires UuidText(s)
    ensures |l| == 35
  {
    seq(35, i requires 0 <= i < 35 => if i % 9 == 8 then s[i] else LowerHex(s[i]))
  }

  lemma {:induction false} ParseHexLower(t: seq<char>, l: seq<char>)
    requires |t| == |l| && forall i :: 0 <= i < |t| ==> IsHex(t[i]) && IsHex(l[i]) && HexValue(l[i]) == HexValue(t[i])
    ensures ParseHex(l) == ParseHex(t)
  {
    if t != [] {
      ParseHexLower(t[..|t| - 1], l[..|l| - 1]);
    }
  }

  /** The configuration expression matches UUIDs ignoring case, and
      strtoul reads both cases alike: an upper-case UUID gives the same
      words as its lower-case form. */
  lemma UuidIgnoresCase(s: seq<char>)
    requires UuidText(s)
    ensures UuidText(LowerUuid(s))
    ensures UuidWords(LowerUuid(s)) == UuidWords(s)
  {
    var l := LowerUuid(s);
    forall k | 0 <= k < 4
      ensures UuidWord(l, k) == UuidWord(s, k)
    {
      var off := 9 * (3 - k);
      GroupIsHex(s, off);
      GroupIsHex(l, off);
      ParseHexLower(s[off..off + 8], l[off..off + 8]);
    }
  }

  // ---------------------------------------------------------------------
  // The array list

  /** UUID equality as fcd_raid_find_by_uuid tests it: memcmp of
      sizeof *uuid bytes, one 32-bit word. */
  predicate SameUuidAsWritten(a: seq<nat>, b: seq<nat>)
    requires |a| == 4 && |b| == 4
  {
    a[0] == b[0]
  }

  /** UUID equality as intended: all four words. */
  predicate SameUuid(a: seq<nat>, b: seq<nat>)
    requires |a| == 4 && |b| == 4
  {
    a == b
  }

  /** Two distinct UUIDs that the as-written comparison confuses: the words
      [1, 0, 0, 0] and [1, 0, 0, 1], written 00000000:00000000:00000000:00000001
      and 00000001:00000000:00000000:00000001, share only their last group. */
  lemma UuidCollision()
    ensures UuidText(FormatUuid([1, 0, 0, 0])) && UuidText(FormatUuid([1, 0, 0, 1]))
    ensures SameUuidAsWritten(UuidWords(FormatUuid([1, 0, 0, 0])), UuidWords(FormatUuid([1, 0, 0, 1])))
    ensures !SameUuid(UuidWords(FormatUuid([1, 0, 0, 0])), UuidWords(FormatUuid([1, 0, 0, 1])))
  {
    UuidRoundTrip([1, 0, 0, 0]);
    UuidRoundTrip([1, 0, 0, 1]);
  }

  /** The daemon's list of known arrays, in the order they were found. */
  class RaidList {
    var arrays: seq<RaidArray>

    ghost predicate Valid()
      reads this, arrays
    {
      forall i :: 0 <= i < |arrays| ==> arrays[i].Valid()
    }

    constructor ()
      ensures arrays == []
    {
      arrays := [];
    }

    /** fcd_raid_list_append: add at the tail. */
    method Append(a: RaidArray)
      modifies this
      ensures arrays == old(arrays) + [a]
    {
      arrays := arrays + [a];
    }

    /** fcd_raid_find_by_substr: the first array with the given kernel name. */
    method FindByName(s: seq<char>) returns (r: RaidArray?)
      ensures r == null <==> forall i :: 0 <= i < |arrays| ==> arrays[i].name != s
      ensures r != null ==> exists i :: 0 <= i < |arrays| && arrays[i] == r && r.name == s &&
                                        forall j :: 0 <= j < i ==> arrays[j].name != s
    {
      var i := 0;
      while i < |arrays|
        invariant 0 <= i <= |arrays|
        invariant forall j :: 0 <= j < i ==> arrays[j].name != s
      {
        if arrays[i].name == s {
          return arrays[i];
        }
        i := i + 1;
      }
      return null;
    }

    /** fcd_raid_find_by_uuid as written: the first array whose first UUID
        word matches. */
    method FindByUuidAsWritten(u: seq<nat>) returns (r: RaidArray?)
      requires Valid() && |u| == 4
      ensures r == null <==> forall i :: 0 <= i < |arrays| ==> !SameUuidAsWritten(arrays[i].uuid[..], u)
      ensures r != null ==> exists i :: 0 <= i < |arrays| && arrays[i] == r && SameUuidAsWritten(r.uuid[..], u) &&
                                        forall j :: 0 <= j < i ==> !SameUuidAsWritten(arrays[j].uuid[..], u)
    {
      var i := 0;
      while i < |arrays|
        invariant 0 <= i <= |arrays|
        invariant forall j :: 0 <= j < i ==> !SameUuidAsWritten(arrays[j].uuid[..], u)
      {
        if arrays[i].uuid[0] == u[0] {
          return arrays[i];
        }
        i := i + 1;
      }
      return null;
    }

    /** fcd_raid_find_by_uuid as intended: the first array with the same
        UUID, all 128 bits compared. */
    method FindByUuid(u: seq<nat>) returns (r: RaidArray?)
      requires Valid() && |u| == 4
      ensures r == null <==> forall i :: 0 <= i < |arrays| ==> !SameUuid(arrays[i].uuid[..], u)
      ensures r != null ==> exists i :: 0 <= i < |arrays| && arrays[i] == r && SameUuid(r.uuid[..], u) &&
                                        forall j :: 0 <= j < i ==> !SameUuid(arrays[j].uuid[..], u)
    {
      var i := 0;
      while i < |arrays|
        invariant 0 <= i <= |arrays|
        invariant forall j :: 0 <= j < i ==> !SameUuid(arrays[j].uuid[..], u)
      {
        if arrays[i].uuid[..] == u {
          return arrays[i];
        }
        i := i + 1;
      }
      return null;
    }
  }
}
