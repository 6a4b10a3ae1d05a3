/** Configuration callbacks of freecusd/conf.c: validation of the RAID disk
    list and the per-monitor enable switch.  The INI parsing that feeds them
    is not part of this model; the callbacks receive the parsed values. */
module Conf {
  import opened Common
  import opened Lib

  /** The disk list used when the configuration names none. */
  const DefaultDiskNames: seq<seq<char>> := ["/dev/sdb", "/dev/sdc", "/dev/sdd", "/dev/sde", "/dev/sdf"]

  /** A RAID disk name: "/dev/sd" and one lower-case letter. */
  predicate ValidDiskName(d: seq<char>)
  {
    |d| == DiskNameSize - 1 && d[..DiskNameSize - 2] == "/dev/sd" && 'a' <= d[DiskNameSize - 2] <= 'z'
  }

  /** What raid_disks must be: one to five valid names with distinct letters. */
  predicate ValidDiskList(list: seq<seq<char>>)
  {
    && 1 <= |list| <= MaxDiskCount
    && (forall i :: 0 <= i < |list| ==> ValidDiskName(list[i]))
    && (forall i, j :: 0 <= j < i < |list| ==> list[i][DiskNameSize - 2] != list[j][DiskNameSize - 2])
  }

  lemma DefaultDiskNamesValid()
    ensures ValidDiskList(DefaultDiskNames)
  {
    assert DefaultDiskNames[0][..7] == "/dev/sd";
    assert DefaultDiskNames[1][..7] == "/dev/sd";
    assert DefaultDiskNames[2][..7] == "/dev/sd";
    assert DefaultDiskNames[3][..7] == "/dev/sd";
    assert DefaultDiskNames[4][..7] == "/dev/sd";
  }

  /** In a disk table built from a valid list, looking a disk up by its
      letter finds that very disk: fcd_lib_disk_index is a bijection between
      the letters and the table positions. */
  lemma ValidListIndexesItself(list: seq<seq<char>>, table: seq<DiskConf>, i: nat)
    requires ValidDiskList(list) && |table| == |list|
    requires forall k :: 0 <= k < |table| ==> table[k].name == list[k]
    requires i < |table|
    ensures LetterIndex(table, Letter(table[i])) == i
  {
  }

  /** The checks of fcd_conf_raiddisks_cb: the count, each name, and each
      name's letter against the letters before it. */
  method CheckDiskList(list: seq<seq<char>>) returns (ok: bool)
    ensures ok <==> ValidDiskList(list)
  {
    if |list| < 1 || |list| > MaxDiskCount {
      return false;
    }
    var i := 0;
    while i < |list|
      invariant 0 <= i <= |list|
      invariant forall k :: 0 <= k < i ==> ValidDiskName(list[k])
      invariant forall k, l :: 0 <= l < k < i ==> list[k][DiskNameSize - 2] != list[l][DiskNameSize - 2]
    {
      var disk := list[i];
      if |disk| != DiskNameSize - 1 || disk[..DiskNameSize - 2] != "/dev/sd"
         || disk[DiskNameSize - 2] < 'a' || disk[DiskNameSize - 2] > 'z' {
        return false;
      }
      var j := 0;
      while j < i
        invariant 0 <= j <= i
        invariant forall l :: 0 <= l < j ==> disk[DiskNameSize - 2] != list[l][DiskNameSize - 2]
      {
        if disk[DiskNameSize - 2] == list[j][DiskNameSize - 2] {
          return false;
        }
        j := j + 1;
      }
      i := i + 1;
    }
    return true;
  }

  /** The global disk table: fcd_conf_disk_count and fcd_conf_disk_names. */
  class DiskNames {
    var count: nat
    const names: array<seq<char>>

    ghost predicate Valid()
      reads this
    {
      names.Length == MaxDiskCount
    }

    constructor ()
      ensures Valid() && count == 0
      ensures forall i :: 0 <= i < MaxDiskCount ==> names[i] == ""
    {
      count := 0;
      names := new seq<char>[MaxDiskCount](_ => "");
    }

    /** fcd_conf_raiddisks_cb: take the list over only when every check
        passes; otherwise leave the table as it was. */
    method RaidDisksCb(list: seq<seq<char>>) returns (r: int)
      requires Valid()
      modifies this`count, names
      ensures r == 0 <==> ValidDiskList(list)
      ensures r == 0 || r == -1
      ensures r == -1 ==> count == old(count) && names[..] == old(names[..])
      ensures r == 0 ==> count == |list| && names[..count] == list
                         && forall k :: |list| <= k < MaxDiskCount ==> names[k] == old(names[k])
    {
      var ok := CheckDiskList(list);
      if !ok {
        return -1;
      }
      var i := 0;
      while i < |list|
        modifies names
        invariant 0 <= i <= |list|
        invariant names[..i] == list[..i]
        invariant forall k :: i <= k < MaxDiskCount ==> names[k] == old(names[k])
      {
        names[i] := list[i];
        i := i + 1;
      }
      count := |list|;
      r := 0;
    }
  }

  /** fcd_conf_mon_enable_cb: switch a monitor on or off; never an error. */
  method MonEnableCb(mon: Monitor, b: bool) returns (r: int)
    modifies mon`enabled
    ensures mon.enabled == b && r == 0
  {
    mon.enabled := b;
    r := 0;
  }
}
