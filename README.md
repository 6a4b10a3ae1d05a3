# freecusd and raidcheck, modelled in Dafny

This project models the decision logic of `freecusd`, the hardware-monitoring
daemon of a Thecus N5550 NAS, and of its companion program `raidcheck`.

- **Monitor threads** publish their results into a per-monitor record. The
  record holds two 20-character display fields, an alert cell for system
  warning, system failure and each disk LED, and a byte of fan flags. The
  publishing path is `Lib.Monitor` (`SetMonStatus2`, `SetMonStatus`, `Fail`).
- **Alert cells** are a four-state request/acknowledge handshake (`Alert`).
  The main thread acknowledges requests and keeps one counter per LED
  (`AlertLeds`). The invariant "each counter equals the number of monitors
  whose cell is acknowledged-on" is proved to survive every transition, so
  the negative-counter abort is unreachable.
- **Fan arbitration** (`Pwm`) ORs every monitor's flags and picks normal,
  high or maximum speed with hysteresis.
- **RAID health** (`Raid`) covers:
  - the per-level failure rules;
  - the RAID-10 rotating chunk-window rule;
  - member and array status;
  - the OK/warning/failure tally with per-disk blame;
  - UUID parsing;
  - the list of known arrays.
- **Monitors** for disk temperature (`HddTemp`), SMART status (`Smart`) and
  CPU temperature (`CpuTemp`).
- **The SMART helper program** (`Helper`), which reads a disk's overall SMART
  verdict and temperature and prints them.
- **Start-up** (`Main`): command-line parsing, the signal masks and the
  signal handler.
- **Configuration callbacks** (`Conf`).
- **raidcheck** (`RaidCheck`): it reads a list of RAID devices, refuses to run
  while an array is degraded or busy, and starts a check on every device that
  is due.

How C code is modelled:
- C functions that change state in place become methods of classes over
  arrays and fields, specified against pure functions.
- Pure C code becomes functions and lemmas.
- Clocks, file and sysfs reads, command runs and realloc outcomes become
  parameters: `now`, the `read` oracle, `allocOk`, `openOk`/`wrote`, and
  `CmdStatus` values.

`Common` holds the shared pieces:
- the disk table entry (`DiskConf`);
- `FCD_MAX_DISK_COUNT` = 5 and `FCD_DISK_NAME_SIZE` = 9;
- decimal rendering and parsing of integers, with their round trip;
- `Overlay`, a `memcpy` into a character field.

## Model

| member | source | states |
|---|---|---|
| Alert.Set | freecusd/alert.c:76-111 | After a set request the cell asks for the alert and its acknowledged bit is unchanged, so CLR_ACK→SET_REQ, CLR_REQ→SET_ACK and the SET states stay. The result is true exactly when the cell changed. |
| Alert.Clear | freecusd/alert.c:113-148 | After a clear request the cell no longer asks for the alert and its acknowledged bit is unchanged, so SET_ACK→CLR_REQ, SET_REQ→CLR_ACK and the CLR states stay. The result is true exactly when the cell changed. |
| Alert.Update | freecusd/alert.c:150-158 | Anything but SET_REQ or CLR_REQ is the abort (None). Otherwise the result is the set or the clear transition. |
| Alert.StateIsItsTwoBits | freecusd/alert.c:76-148 | A cell is determined by its requested bit and its acknowledged bit, so the set/clear contracts fix every transition. |
| Alert.Request | freecusd/lib.c:325-328 | A request for `b` leaves the cell asking for `b` with its acknowledged bit unchanged. |
| Alert.RequestsIdempotent | freecusd/alert.c:76-148 | Repeating a set or a clear request leaves the cell as it is and reports no change. |
| Alert.WithdrawnRequestRestoresAck | freecusd/alert.c:87-94 | A set on CLR_ACK followed by a clear gives CLR_ACK again. A clear on SET_ACK followed by a set gives SET_ACK again. |
| Alert.Acknowledge | freecusd/alert.c:202-215 | Acknowledging makes the acknowledged bit equal to the requested bit and keeps the request. |
| Alert.AckedCountUpdate | freecusd/alert.c:202-215 | Replacing one cell moves the count of acknowledged-on cells by exactly that cell's change. |
| Alert.AckedCellIsCounted | freecusd/alert.c:209-211 | A column with an acknowledged-on cell has a count of at least one. |
| Alert.RequestKeepsCount | freecusd/alert.c:76-148 | A monitor's set or clear request never changes the count of acknowledged-on cells. |
| AlertLeds.Delta | freecusd/alert.c:202-212 | The counter moves by the change in the cell's acknowledged bit: +1 for SET_REQ, -1 for CLR_REQ, 0 otherwise. |
| AlertLeds.AlertLeds.constructor | freecusd/alert.c:32-68 | Every LED counter starts at 0 and every LED is off. |
| AlertLeds.AlertLeds.AcknowledgeCell | freecusd/alert.c:197-216 | One step of the loop. It aborts exactly on CLR_REQ with a counter below 1. Otherwise it acknowledges the cell, moves the counter by Delta, logs LED on at 1 and LED off at 0, and keeps "lit iff counter positive". |
| AlertLeds.AlertLeds.ReadMonitor | freecusd/alert.c:188-217 | It aborts exactly when some CLR_REQ meets a counter below 1. Otherwise every cell is acknowledged, every counter moves by its Delta, and the LED writes are those of each cell in order. |
| AlertLeds.Column | freecusd/alert.c:202-203 | Cell i of every monitor, in monitor order. |
| AlertLeds.AcknowledgeAll | freecusd/alert.c:197-216 | A monitor's row after the main thread read it: each cell acknowledged. |
| AlertLeds.InitiallyCounted | freecusd/alert.c:32-68 | At start-up (all cells CLR_ACK, all counters 0) every counter equals its count of acknowledged-on cells. |
| AlertLeds.NoAckedNoCount | freecusd/alert.c:32-68 | A column with no acknowledged-on cell counts 0. |
| AlertLeds.ReadMonitorKeepsCounts | freecusd/alert.c:202-215 | Under the counting invariant, reading any monitor never hits the negative-counter abort, and afterwards every counter still equals its count. |
| AlertLeds.RequestKeepsCounts | freecusd/alert.c:76-148 | A monitor's set or clear request keeps every counter equal to its count. |
| AlertLeds.LitIffSomeAcked | freecusd/alert.c:204-215 | Under the invariant, an LED's counter is positive exactly when some monitor's cell for it is acknowledged-on. |
| Lib.Deadline | freecusd/lib.c:59-79 | The deadline denotes now + timeout, and it is normalised when both inputs are. |
| Lib.Remaining | freecusd/lib.c:85-113 | The remaining time is never negative. For normalised inputs it is normalised, equals deadline - now while that is positive, and is (0, 0) otherwise. |
| Lib.NormalizedByNanos | freecusd/lib.c:59-113 | A normalised timespec is determined by the instant it denotes. |
| Lib.RemainingOfDeadline | freecusd/lib.c:59-113 | Asked at the moment the deadline was set, the remaining time is the timeout itself. |
| Lib.RemainingClampedAfterDeadline | freecusd/lib.c:98-103 | Once the deadline has passed, the remaining time is exactly (0, 0). |
| Lib.RemainingNonIncreasing | freecusd/lib.c:85-113 | As the clock advances, the remaining time never grows. |
| Lib.RoundUpToChunk | freecusd/lib.c:188-193 | The cap is the smallest multiple of 2000 at or above max_size. |
| Lib.InputBuffer.constructor | freecusd/lib.c:217-218 | A caller's buffer starts as NULL with size 0. |
| Lib.InputBuffer.Grow | freecusd/lib.c:178-208 | It returns -4 exactly when the next size (2000 from empty, else size + 2000) exceeds the rounded cap, -1 exactly when realloc fails, and 0 otherwise. A failure changes nothing. A success sets the size to the next size and keeps the old contents. |
| Lib.AnsweredAt | freecusd/lib.c:217-238 | In an answered log, read n is the oracle's answer to call n, asked for exactly the space left: the buffer size at call n less the bytes delivered before it, at least one byte. That size is the size before plus one chunk exactly when those bytes filled the buffer, and otherwise the size before. |
| Lib.AllNonEmptyAt | freecusd/lib.c:236-238 | In a log of reads that all delivered bytes, read n delivered bytes. |
| Lib.AnsweredExtend | freecusd/lib.c:224-233 | A read at the size the growth rule gives, asked for the space left there, keeps the log answered. |
| Lib.ReadNext | freecusd/lib.c:230-238 | One more read keeps the log answered. Its bytes fit the space it was given and are appended to the bytes delivered before. An error ends the loop with the read's code, an empty read ends it at end of file, and otherwise every read so far delivered bytes. |
| Lib.InputBuffer.MakeRoom | freecusd/lib.c:224-228 | The growth step on a full buffer. On success the realloc was allowed, there are 2000 more bytes of room and the bytes read so far are kept. On failure nothing changes: -4 exactly when the next size is past the cap, -1 exactly when it is not and the realloc fails. |
| Lib.InputBuffer.ReadOnce | freecusd/lib.c:230-233 | The read is the oracle's answer for the space left after the bytes held, and the bytes it delivers follow them in the buffer. |
| Lib.InputBuffer.ReadStep | freecusd/lib.c:230-238 | On a buffer with room, one read either ends the loop (its error code, or 0 at end of file with the buffer unchanged) or leaves strictly more bytes buffered, with the log still answered. |
| Lib.InputBuffer.Step | freecusd/lib.c:224-238 | One pass of the loop grows a full buffer, counting the successful realloc, then reads. It either goes on with strictly more bytes buffered, or stops at end of file, on a read error, or on a growth failure, exactly as ReadAll's cases say. |
| Lib.InputBuffer.ReadLoop | freecusd/lib.c:223-239 | The loop stops only at end of file, on a read error, or on a full buffer that cannot grow. At each stop the log is answered, the size grew one chunk per successful realloc, and on end of file the buffer holds exactly the delivered bytes with room left after them. |
| Lib.InputBuffer.Terminate | freecusd/lib.c:246 | The NUL goes right after the bytes read, which stay as they were. |
| Lib.InputBuffer.ReadAll | freecusd/lib.c:217-249 | Every read in the ghost log is the oracle's answer to its call number. Each is asked for exactly the space left, at a size that grew by one chunk only when the bytes before filled the buffer. The size grew by one chunk per successful realloc, and every realloc before the last one attempted succeeded. Reading goes on exactly while reads deliver bytes. On success the result is the number of bytes delivered, the buffer holds exactly those bytes followed by a NUL in bounds, and the last read was empty. A negative result is either the code of the failed last read (-1, -2 or -3), or the growth of a full buffer failing: -4 exactly when the next size is past the cap, otherwise -1 with the next realloc failing. |
| Lib.Monitor.constructor | freecusd/hddtemp.c:329-340 | A statically initialised monitor: its text, every cell CLR_ACK, no fan flags, enabled. |
| Lib.Monitor.SetMonStatus2 | freecusd/lib.c:305-347 | These parts change: bytes 45..65 get the lower text, bytes 5..25 only when an upper text is given, sys_warn/sys_fail get a set or clear request, and the new fan flags are stored. With a disk array, each configured disk's LED cell gets its request (the last one when LEDs repeat). All other bytes and cells are unchanged, and no acknowledged bit moves. |
| Lib.Monitor.WriteField | freecusd/lib.c:320-323 | The first 20 bytes of the text land at the field's offset, and every other byte of the record is unchanged. |
| Lib.Monitor.RequestDisks | freecusd/lib.c:332-342 | The disk loop leaves the cells as ApplyRequests says. The system cells and acknowledged bits are kept, the last request per LED stands, and unused LEDs are untouched. |
| Lib.Monitor.RequestLoop | freecusd/lib.c:332-342 | After the loop the cells are exactly the original cells with every disk's request applied in table order (ApplyRequests). |
| Lib.ApplyRequestsAll | freecusd/lib.c:332-342 | Applying all disk requests keeps sys_warn/sys_fail and every acknowledged bit, lets the last request per LED stand, and leaves unused LEDs alone. |
| Lib.ApplyRequestsKeeps | freecusd/lib.c:332-342 | Disk requests never touch sys_warn/sys_fail or any acknowledged bit. |
| Lib.ApplyRequestsLast | freecusd/lib.c:332-342 | A disk with no later disk on its LED has its request stand, as if made on the cell's original value. |
| Lib.ApplyRequestsUnused | freecusd/lib.c:332-342 | An LED that no configured disk feeds keeps its cell. |
| Lib.Monitor.SetMonStatus | freecusd/lib.c:349-357 | The same as SetMonStatus2 without an upper text: only bytes 45..65 of the record change. |
| Lib.Monitor.Fail | freecusd/lib.c:254-271 | sys_fail gets a set request and bytes 45..65 read "ERROR: NOT AVAILABLE", whatever was there. Nothing else changes. |
| Lib.RequestDependsOnAcked | freecusd/lib.c:325-328 | A request's outcome depends on the cell only through its acknowledged bit. |
| Lib.PublishedDiskRequest | freecusd/lib.c:332-342 | A published disk request leaves the cell asking for exactly `disks[i] != 0`, with its acknowledged bit kept. |
| Lib.DistinctLedsAllLast | freecusd/lib.c:332-342 | In a table with one disk per LED, every disk's request is the one that stands. |
| Lib.LetterIndex | freecusd/lib.c:546-557 | The first disk whose name ends in `c`, or -1 exactly when there is none. |
| Lib.DiskIndex | freecusd/lib.c:546-557 | The search loop returns LetterIndex. |
| Pwm.TargetBands | freecusd/pwm.c:118-145 | The hysteresis rules. MAX iff MAX_ON, or MAX_HYST while at MAX. HIGH iff not MAX and (HIGH_ON, or HIGH_HYST while at HIGH or MAX). NORMAL otherwise. |
| Pwm.NoSpeedUpWithoutOnFlag | freecusd/pwm.c:118-145 | Without an ON flag the fan never speeds up. |
| Pwm.TargetStable | freecusd/pwm.c:118-145 | Settling again on the same flags stays put. |
| Pwm.OrAllHas | freecusd/pwm.c:113-116 | A flag is in the combined byte exactly when some monitor raised it. |
| Pwm.FlagsOf | freecusd/pwm.c:113-116 | Every monitor's old_pwm_flags, in list order. |
| Pwm.Fan.constructor | freecusd/pwm.c:27-35 | Start-up state: NORMAL, settings 170/215/255. |
| Pwm.Fan.Configure | freecusd/pwm.c:64-84 | A value outside 0..255 is rejected (-1) with its text left alone. Otherwise the text is the value's decimal digits (at most 3) and len is their number. The value itself is stored either way, and other settings are unchanged. |
| Pwm.Fan.SetSpeed | freecusd/pwm.c:86-103 | Nothing is written when already at the speed. Otherwise the setting's text is written, and the state changes only after a complete write; anything else aborts. |
| Pwm.Fan.SettleOn | freecusd/pwm.c:118-145 | It moves to Target(flags, current) through SetSpeed. |
| Pwm.Fan.Update | freecusd/pwm.c:105-146 | Unchanged flags change nothing. Otherwise the new flags are copied into old, and the fan settles on the target of the OR of every monitor's old_pwm_flags. When that target differs from the current speed, its setting's text is written, the daemon aborts exactly when the write returns anything but the full length, and the speed changes only without an abort. |
| Raid.U32Sub | freecusd/raid.c:631-638 | unsigned subtraction wraps modulo 2^32. |
| Raid.FirstPersonality | freecusd/raid.c:443-461 | The first table entry the personality is a prefix of, or None exactly when there is none. |
| Raid.ParseTypeRaid10 | freecusd/raid.c:163-173 | "raid10 " is recognised as RAID-10 although "raid1 " comes first in the table. |
| Raid.R10Failed | freecusd/raid.c:552-609 | The rotating-mask loop terminates and decides R10Verdict. That is: abort when disks + near > 16; when copies == disks, failed iff no disk is current; when copies == 1, always failed; otherwise failed iff some window of `copies` cyclically consecutive disks, starting at a multiple of `near`, has no 'U'. |
| Raid.ScanActive | freecusd/raid.c:586-591 | The active mask holds exactly the positions below 16 shown 'U'. |
| Raid.WindowLost | freecusd/raid.c:593-608 | The rotation loop ends and reports true exactly when some window starting at a multiple of near has no active disk. |
| Raid.StartAtDisks | freecusd/raid.c:587-608 | After `disks` rotation steps the window start is back at disk 0, so the loop ends. |
| Raid.StartCongruent | freecusd/raid.c:598-600 | The k-th window start is k·near, less a whole number of wraps. |
| Raid.StartReduce | freecusd/raid.c:594-605 | Every window start is among the first p, where p is the period. |
| Raid.RotateWindow | freecusd/raid.c:598-600 | Shifting the chunk mask by near with wrap-around gives the next window. |
| Raid.WindowAtStart | freecusd/raid.c:605 | The mask is back at its start value exactly when the window start is disk 0. |
| Raid.R10AllUpNotFailed | freecusd/raid.c:552-609 | With every disk up and some redundancy, a RAID-10 never counts as failed. |
| Raid.Near2Of4 | freecusd/raid.c:552-609 | The classic four-disk near-2 array fails exactly when both disks of one mirror pair (0-1 or 2-3) are down. |
| Raid.ArrayFailed | freecusd/raid.c:611-645 | The per-level rule. Faulty never fails; linear and raid0 always fail; multipath and raid1 fail iff no disk is current; raid4/5 fail iff ideal - current > 1 and raid6 iff > 2 (uint32 arithmetic); raid10 uses R10Failed. |
| Raid.FailedVerdictTolerance | freecusd/raid.c:611-645 | For a degraded array: linear/raid0 fail; multipath/raid1 fail only with 0 members; raid4/5 fail with 2 or more missing; raid6 with 3 or more. |
| Raid.FailedVerdictMonotone | freecusd/raid.c:611-645 | Outside RAID-10, losing more members never turns a failure back into a degraded array. |
| Raid.ResetExpected | freecusd/raid.c:520-524 | Every disk not UNKNOWN becomes EXPECTED. |
| Raid.MarkMissing | freecusd/raid.c:537-541 | Every EXPECTED disk becomes MISSING, and nothing else changes. |
| Raid.ApplyMembers | freecusd/raid.c:526-534 | The member loop yields five statuses and returns 0 or -1. |
| Raid.UnlistedDiskUntouched | freecusd/raid.c:466-513 | A disk no member maps to keeps its status through the member loop. |
| Raid.DroppedMemberMissing | freecusd/raid.c:515-542 | As intended, a disk the array knew of and that is no longer listed ends MISSING. |
| Raid.DroppedMemberLeftExpected | freecusd/raid.c:526-534 | As written, the same disk is left in the transient EXPECTED state. |
| Raid.IntendedLeavesNoExpected | freecusd/raid.c:537-541 | As intended, no disk is EXPECTED after a complete member list. |
| Raid.RaidArray.constructor | freecusd/raid.c:347-362 | A zeroed array (STOPPED, FAULTY, no members, every disk UNKNOWN) with the caller's UUID, name and transient flag. |
| Raid.RaidArray.ParseDev | freecusd/raid.c:466-513 | It returns -1 and changes nothing when the disk letter is not configured. Otherwise it returns the match length and sets that disk's status: no suffix gives ACTIVE; W/F/S/R give WRITEMOSTLY/FAILED/SPARE/REPLACEMENT. |
| Raid.RaidArray.ParseMembers | freecusd/raid.c:526-534 | The member loop leaves exactly the statuses and code of ApplyMembers. |
| Raid.RaidArray.ParseDevsAsWritten | freecusd/raid.c:515-542 | parse_devs as written equals DevsAsWritten: reset to EXPECTED, then the members, and no MISSING step. |
| Raid.RaidArray.ParseDevs | freecusd/raid.c:515-542 | parse_devs as intended equals DevsIntended: reset, members, then EXPECTED→MISSING at the end of the list. |
| Raid.RaidArray.ParseArray | freecusd/raid.c:651-718 | "inactive" gives INACTIVE and keeps the type. Otherwise the type is the first matching personality (unknown aborts). A missing second line is a parse error. The devices come from parse_devs as written (DevsAsWritten), so a disk that dropped out of the member list stays EXPECTED. The status is LineStatus: DEGRADED or FAILED only when current < ideal; otherwise READONLY for "(read-only)" and ACTIVE otherwise. |
| Raid.LineStatusCases | freecusd/raid.c:673-715 | DEGRADED/FAILED exactly when current < ideal; FAILED iff the level's rule says failed; "(auto-read-only)" on a complete array is ACTIVE; READONLY only for "(read-only)". |
| Raid.TallyCategories | freecusd/raid.c:943-997 | Each array counts in exactly one of ok/warn/fail, except transient STOPPED or INACTIVE arrays, which are ignored. A blamed disk always comes with a warning or a failure. |
| Raid.ExpectedNeverBlamed | freecusd/raid.c:975-993 | An EXPECTED member is never blamed, so with parse_devs as written a disk that dropped out escapes blame. |
| Raid.RaidTally.constructor | freecusd/raid.c:1031-1032 | Counters and per-disk blame start at 0. |
| Raid.RaidTally.Add | freecusd/raid.c:943-997 | ACTIVE counts ok; DEGRADED counts warn; READONLY, FAILED and non-transient STOPPED/INACTIVE count fail. Outside ACTIVE, STOPPED and ignored arrays, each configured disk that is FAILED or MISSING, or UNKNOWN when ideal equals the disk count, gets one blame. |
| Raid.HexRoundTrip | freecusd/raid.c:287-298 | strtoul base 16 reads back an n-digit zero-padded hex rendering. |
| Raid.FormatUuidIsText | freecusd/raid.c:287-298 | A formatted UUID has the 8:8:8:8 hex shape the expressions match. |
| Raid.UuidRoundTrip | freecusd/raid.c:287-298 | Parsing a formatted UUID gives back its four words, with the first group in word 3. |
| Raid.ParseUuid | freecusd/raid.c:287-298 | Each group is read base 16 at its offset, nine characters on from the one before, and the four words are stored last group first (uuid[3] from the first group). |
| Raid.UuidIgnoresCase | freecusd/raid.c:74-76 | The mdadm.conf expression matches UUIDs ignoring case (REG_ICASE, raid.c:118) and strtoul reads both cases alike: an upper-case UUID text gives the same words as its lower-case form. |
| Raid.UuidCollision | freecusd/raid.c:232-243 | Two different UUIDs whose last groups agree are equal under the as-written comparison. |
| Raid.RaidList.constructor | freecusd/raid.c:208-209 | The list starts empty. |
| Raid.RaidList.Append | freecusd/raid.c:211-216 | The array is added at the tail. |
| Raid.RaidList.FindByName | freecusd/raid.c:218-230 | The first array with that name, or null exactly when none has it. |
| Raid.RaidList.FindByUuidAsWritten | freecusd/raid.c:232-243 | The first array whose uuid[0] equals the key's, or null exactly when none matches. |
| Raid.RaidList.FindByUuid | freecusd/raid.c:232-243 | The first array with all four UUID words equal, or null exactly when none matches. |
| Conf.DefaultDiskNamesValid | freecusd/conf.c:35-37 | The built-in list /dev/sdb../dev/sdf passes every check. |
| Conf.ValidListIndexesItself | freecusd/conf.c:103-111 | In a table built from a valid list, looking up disk i by its letter finds i. |
| Conf.CheckDiskList | freecusd/conf.c:82-111 | Accepted exactly when it has 1 to 5 names, each "/dev/sd" plus a letter a..z, with no letter twice. |
| Conf.DiskNames.constructor | freecusd/conf.c:30-31 | No disks, empty names. |
| Conf.DiskNames.RaidDisksCb | freecusd/conf.c:70-122 | It returns 0 exactly for a valid list: the names are copied in order and the count set. On -1 the table and count are unchanged. |
| Conf.MonEnableCb | freecusd/conf.c:127-146 | enabled becomes the parsed boolean, and the result is always 0. |
| HddTemp.DefaultsAccepted | freecusd/hddtemp.c:31-33 | The built-in thresholds 45 and 50 pass the check with no doubt, and warn < crit. |
| HddTemp.FreecusdCb | freecusd/hddtemp.c:85-121 | Below -273 is rejected and leaves the slots alone. Otherwise (with a doubt for ≤ 0 or ≥ 1000) the value is copied into all five slots. |
| HddTemp.MonitoredNames | freecusd/hddtemp.c:148-160 | The non-ignored disks' names, in table order. |
| HddTemp.MonitoredNamesExact | freecusd/hddtemp.c:148-160 | A name is monitored exactly when a configured disk has it and is not temp-ignored. |
| HddTemp.MkCmd | freecusd/hddtemp.c:148-160 | argv[2..] get the monitored names in order; the rest of the array is unchanged. |
| HddTemp.MkCmdTerminated | freecusd/hddtemp.c:26-29 | From the initial command, the program path and argv[0] stay, and a NULL follows the names. |
| HddTemp.ApplyReadings | freecusd/hddtemp.c:228-239 | It fails on the first letter not in the table; otherwise each temperature goes to its disk's slot. |
| HddTemp.UnreportedDiskKeepsValue | freecusd/hddtemp.c:228-239 | A disk hddtemp said nothing about keeps its previous value. |
| HddTemp.LastReadingKept | freecusd/hddtemp.c:228-239 | When a disk is reported twice, the last reading wins. |
| HddTemp.Parse | freecusd/hddtemp.c:201-240 | It succeeds exactly when ApplyReadings does, and the temperature array is then its result. |
| HddTemp.CellText | freecusd/hddtemp.c:281-302 | Three characters: "..." ignored, "???" no reading, "-**" below -99, "***" above 999, otherwise the decimal padded with a space. |
| HddTemp.CellShowsValue | freecusd/hddtemp.c:293-301 | A value in -99..999 is shown exactly and reads back as itself. |
| HddTemp.DisplayCells | freecusd/hddtemp.c:270-302 | Every disk's cell at 4·(port_no - 2) holds its text, and every other position is blank. |
| HddTemp.AlertRules | freecusd/hddtemp.c:304-313 | A missing reading is critical; an ignored disk never alerts; critical and warm exclude each other. |
| HddTemp.DrawCell | freecusd/hddtemp.c:277-302 | Only the disk's three cells change, and they get CellText. |
| HddTemp.JudgeDisk | freecusd/hddtemp.c:304-313 | temp ≥ crit or ≤ 0 raises the disk's alert, sets fail and clears warn. Otherwise temp ≥ warn raises it and sets warn = !fail. |
| HddTemp.Render | freecusd/hddtemp.c:270-314 | The field is Display. Each disk's alert is set iff it is critical or warm. fail iff some disk is critical, and warn iff none is and some is warm. |
| Smart.Verdict | freecusd/smart.c:102-115 | Two characters for an exit status. |
| Smart.VerdictMeaning | freecusd/smart.c:23-25 | "**" iff a bit of 0x0f is set; "??" iff none of those but one of 0xf0; "OK" iff the status is 0. |
| Smart.CellText | freecusd/smart.c:93-115 | ".." for an ignored disk, the verdict otherwise. |
| Smart.DisplayUpTo | freecusd/smart.c:85-116 | The field after n disks is 21 characters. |
| Smart.DisplayCells | freecusd/smart.c:85-116 | With every disk in its own cell at 4·i, disk i's two characters are its text and the gaps are blank. |
| Smart.DisplayAsWrittenOverlaps | freecusd/smart.c:93-95 | As written, with the fourth disk ignored and the rest healthy, ".." at 3·3 = 9 overwrites the second half of the third disk's "OK", so bytes 8..10 read "O..", and the fourth disk's cell at 12 stays blank. Placing each text at 4·i instead gives "OK" at 8 and ".." at 12. |
| Smart.CheckDisk | freecusd/smart.c:102-115 | A failing status writes "**", raises the alert, sets fail and clears warn. A warning status writes "??", raises it and sets warn = !fail. Status 0 writes "OK". |
| Smart.CheckDisks | freecusd/smart.c:91-116 | The disk loop either stops at the first checked disk whose smartctl did not exit, or finishes with the field as written (DisplayAsWritten), alerts exactly on the alerting disks and zero past them, and warn set iff no checked disk fails and some checked disk warns. |
| Smart.Pass | freecusd/smart.c:48-124 | The pass publishes iff every checked disk's smartctl exited. Otherwise it stops at the first one that did not: a timeout or error disables, a thread exit ends. A published pass shows the field as written (DisplayAsWritten: a verdict at 4·i, an ignored disk's ".." at 3·i), alerts exactly the alerting disks, has fail 0, and warns iff no disk fails and some disk warns. |
| CpuTemp.Truncate | freecusd/cputemp.c:104 | (int) truncates toward zero. |
| CpuTemp.CheckThresholdFits | freecusd/cputemp.c:84-108 | Accepted exactly within INT_MIN/1000..INT_MAX/1000. The stored millidegrees fit an int and lie within one of temp·1000, toward zero. |
| CpuTemp.Thresholds.constructor | freecusd/cputemp.c:23-30 | Defaults warn 47000, fail 52000, fan 42000/39000/40000/37000. |
| CpuTemp.Thresholds.Configure | freecusd/cputemp.c:84-108 | -1 exactly when rejected, with nothing changed. Otherwise the chosen threshold gets the truncated millidegrees and the others keep theirs. |
| CpuTemp.JudgeMeaning | freecusd/cputemp.c:169-171 | fail iff either core reaches the fail threshold; warn iff neither does and one reaches warn; never both. |
| CpuTemp.JudgeMonotone | freecusd/cputemp.c:169-171 | Hotter cores never give a milder verdict. |
| CpuTemp.WholeDegreesNearest | freecusd/cputemp.c:179-181 | The printed whole degrees are within half a degree of the reading, and exact for whole readings. |
| CpuTemp.DegreesTextRoundTrip | freecusd/cputemp.c:179-181 | The printed number ("-0" included) reads back as the rounded value. |
| CpuTemp.Field | freecusd/cputemp.c:176-188 | The published field is 20 characters. |
| CpuTemp.TwoDigitCoresFit | freecusd/cputemp.c:179-188 | Readings below 99.5 degrees fit the field whole. |
| CpuTemp.Format | freecusd/cputemp.c:176-188 | The 21-byte buffer's first 20 bytes are the text cut or padded with spaces. Byte 20 is NUL when the text was cut, and a space otherwise. |
| CpuTemp.Pass | freecusd/cputemp.c:155-190 | An unreadable core disables the monitor through Fail. Otherwise the verdict is Judge, the lower field shows both cores, sys_warn/sys_fail get their requests, the fan flags are stored, and nothing else in the record or the disk cells changes. A disabled pass writes the disabled message, sets sys_fail, and leaves sys_warn and the fan flags as they were. |
| Helper.StatusOfMeaning | freecusd/smart/helper.c:41-61 | GOOD/BAD_ATTRIBUTE_IN_THE_PAST map to 0, BAD_SECTOR/BAD_ATTRIBUTE_NOW to 1, BAD_SECTOR_MANY/BAD_STATUS to 2, and any other value to the failure exit. |
| Helper.CDiv | freecusd/smart/helper.c:70-72 | C division truncates toward zero. |
| Helper.CelsiusBounds | freecusd/smart/helper.c:63-72 | The conversion lies in -273..2147210. It is within a degree of the exact value, toward 0, so 0.999 degrees below freezing is 0. |
| Helper.SplitLine | freecusd/smart/helper.c:74 | It splits off the first line. |
| Helper.SplitLineJoin | freecusd/smart/helper.c:74 | A line without a newline, plus "\n" and the rest, splits back into the two. |
| Helper.RunRoundTrip | freecusd/smart/helper.c:41-74 | Whatever is printed reads back as the status and the converted temperature, and the status is 0, 1 or 2. |
| Helper.RunFailures | freecusd/smart/helper.c:12-68 | Exit with failure exactly on a read error, an unknown verdict, or more than INT_MAX mK. |
| Main.ForegroundOnlyFromF | freecusd/main.c:97-119 | Foreground mode is only switched on, and only by a "-f". |
| Main.ConfFileFollowsC | freecusd/main.c:106-114 | The file name is the old one or an argument right after a "-c". |
| Main.NoCKeepsConfFile | freecusd/main.c:106-114 | Without "-c" the file name is unchanged. |
| Main.LastCWins | freecusd/main.c:106-114 | A "-c" with an argument and no "-c" after it decides the file name. |
| Main.UnknownOptionsSkipped | freecusd/main.c:115-117 | Only unknown options: one warning each, nothing else changes. |
| Main.COptionExamples | freecusd/main.c:106-114 | "-c -f" takes "-f" as the file name. A trailing "-c" only warns. |
| Main.Globals.constructor | freecusd/main.c:97-99 | Background mode, the default file name, no warnings. |
| Main.Globals.ParseArgs | freecusd/main.c:97-119 | The globals after the loop are ParseFrom(argv, 1). |
| Main.ApplyOpsMembership | freecusd/main.c:181-212 | A signal is in the built mask exactly when its last operation added it, or it was in the current mask and no operation touched it. |
| Main.SigMask | freecusd/main.c:181-212 | The loop builds ApplyOps: start from the current mask, add positives, remove negations, stop at 0; an invalid signal aborts. |
| Main.FourOps | freecusd/main.c:273-278 | Four valid operations and the 0 give the four single steps in order. |
| Main.StartupMasks | freecusd/main.c:273-278 | The worker mask blocks INT, TERM, CHLD and USR1. The main mask unblocks INT and TERM and blocks CHLD and USR1. The monitor ppoll mask blocks INT, TERM and CHLD and unblocks USR1. The reaper ppoll mask blocks INT and TERM and unblocks CHLD and USR1. Every other signal keeps its state. |
| Main.HandleProperties | freecusd/main.c:67-82 | In foreground, INT aborts iff an exit signal was already seen, so a second INT always aborts. Background never aborts. Otherwise the exit flag is set iff it was set or the signal is INT/TERM, and the thread flag iff it was set or the signal is USR1. |
| Main.SignalState.constructor | freecusd/main.c:67-82 | No flags set. |
| Main.SignalState.SigHandler | freecusd/main.c:67-82 | The flags follow Handle, and the abort leaves them as they were. |
| RaidCheck.DueDays | raidcheck/raidcheck.c:355-364 | Within the window, a device is due exactly on the cycle date plus a whole number of periods. |
| RaidCheck.NoWrapAtMidnight | raidcheck/raidcheck.c:366-370 | The window does not wrap: a device set for 00:05 is not due at 23:55. |
| RaidCheck.HandleDev | raidcheck/raidcheck.c:347-392 | It skips exactly when not Due, starts the check exactly when due, opened and the 7-byte "check\n\0" was fully written, and fails otherwise. It writes only when due and opened. |
| RaidCheck.CheckTimeRoundTrip | raidcheck/raidcheck.c:174-176 | check_time is below 1440, and the hour and minute come back out of it. |
| RaidCheck.ZeroFrequencyAccepted | raidcheck/raidcheck.c:147-158 | As written, a line with frequency 0 is accepted. |
| RaidCheck.ParseLine | raidcheck/raidcheck.c:136-182 | The corrected parser: a device always has a positive frequency, and every other line parses as written. |
| RaidCheck.ParseLineMeaning | raidcheck/raidcheck.c:147-176 | As written, a line is accepted exactly with all four fields and a year 1970..3000, a frequency of 0 included. The device then has its name, frequency and day number, and a time below 24 hours that keeps hour and minute. The corrected parser accepts exactly the same lines with a positive frequency. |
| RaidCheck.KeptSound | raidcheck/raidcheck.c:214-225 | Every kept entry is a non-empty, non-comment line under its own line number, with one newline stripped. |
| RaidCheck.KeptInOrder | raidcheck/raidcheck.c:200-225 | The kept lines are in file order. |
| RaidCheck.KeptComplete | raidcheck/raidcheck.c:214-225 | Every significant line is kept. |
| RaidCheck.ParseKeptOrder | raidcheck/raidcheck.c:200-231 | The result is a list exactly when every kept line parses as written, and it then has one device per kept line, in order. |
| RaidCheck.KeptParse | raidcheck/raidcheck.c:200-231 | Taking the next line from the file and parsing the kept lines agree. |
| RaidCheck.ParseCfg | raidcheck/raidcheck.c:184-234 | The loop over the file's lines gives ParseKept of the kept lines, parsed as written: the devices in file order (a frequency of 0 included), or the first bad line's number. |
| RaidCheck.CString | raidcheck/raidcheck.c:271-277 | The text before the first NUL. |
| RaidCheck.TrimmedAccepts | raidcheck/raidcheck.c:272-295 | A value without NULs is accepted exactly when it is the word, with or without one trailing newline. |
| RaidCheck.CheckValue | raidcheck/raidcheck.c:272-281 | The in-place trim: accepted iff the trimmed value is the word; the buffer gets a NUL at the trimmed length and keeps the rest. |
| RaidCheck.FirstBusyMeaning | raidcheck/raidcheck.c:259-301 | The run goes ahead exactly when every array reads degraded "0" and sync_action "idle". |
| RaidCheck.FirstBusy | raidcheck/raidcheck.c:259-301 | A busy verdict names an array at or after the start. |
| RaidCheck.SysVerdict | raidcheck/raidcheck.c:243-305 | A busy verdict names an existing array. |
| RaidCheck.CheckSysStatus | raidcheck/raidcheck.c:243-305 | No arrays fails. Otherwise it stops at the first array whose degraded value is not "0" (or else whose sync_action is not "idle"). |
| RaidCheck.ReadInto | raidcheck/raidcheck.c:266-281 | Reading a value into the buffer and trimming it accepts exactly when the trimmed value is the word. |
| RaidCheck.RunChecksDue | raidcheck/raidcheck.c:413-419 | Checks are started only on due devices, and with no failure on every due device. |
| RaidCheck.HandleAll | raidcheck/raidcheck.c:413-419 | The loop starts checks in list order and stops at the first failure, as RunFrom says. |

## Left out

- The header `freecusd/freecusd.h` is older than the `.c` files. smart.c and hddtemp.c call `fcd_lib_set_mon_status` with five arguments, while lib.c defines it with six. `Smart.Pass` and `HddTemp.Render` therefore return the values they publish rather than call `Lib.Monitor.SetMonStatus`. `CpuTemp.Pass`, whose call matches lib.c, does call it.
- `CpuTemp.Pass`: the fan flags come from the `FCD_PWM_TEMP_FLAGS` macro, which is not part of this model. They are a parameter (`pwmFlags`).
- `fcd_lib_read`, `fcd_lib_monitor_sleep`, `ppoll`, `clock_gettime` and signal masks at run time are not modelled. The clock is the `now` parameter, and each timed read is the `read` oracle of `Lib.InputBuffer.ReadAll`.
- fork/exec of commands (`fcd_lib_cmd_*`) is not modelled. A command's result is a `CmdStatus` value (`Smart`), or the parsed output (`HddTemp`).
- Mutexes, threads and the disk mutex are not modelled. Publishing and failing are sequential methods.
- `fcd_lib_disable_cmd_mon`/`fcd_lib_disable_monitor` never return, so a disabled pass ends there (`Smart.Pass` returns `Disabled`).
- POSIX regular expressions (raid.c, hddtemp.c's `sscanf`) are not modelled. The matched groups are inputs (`DevMatch`, `FirstLine`, `SecondLine`, `HddTemp.Reading`).
- raid.c's `fcd_raid_find_array`, `fcd_raid_get_uuid` (runs mdadm), `fcd_raid_parse_mdstat` (re-scans after re-reads), sysfs reads and the thread loop are not modelled. The "names changed" early return of `fcd_raid_parse_array` is left out with `find_array`.
- `Raid.R10Failed` requires near·far ≤ the member count, which the kernel guarantees for a running array.
- Linked lists (`fcd_raid_list`, raidcheck's device list) are `seq` fields, not nodes with `next` pointers. The tail-pointer aliasing is not modelled.
- `Raid.UuidCollision` is shown on the UUID words and their text form. The byte layout of `memcmp` on a little-endian `uint32_t` is not modelled.
- `fcd_conf_parse` and libcip's INI parsing, `fcd_hddtemp_raiddisk_cb` (a libcip helper plus the same `check_temp`) and the per-disk threshold tables are not modelled.
- `CpuTemp`: the configured value is a C `float` widened to `double`, modelled as a `real`. Float rounding of `temp * 1000.0` and of `t / 1000.0` is not modelled. `%.0f` is round-half-to-even on the exact quotient.
- `freecusd/loadavg.c` is not part of this model.
- raidcheck: `strptime`, `timegm`, `localtime` (`get_current_time`), `glob`, `getline`, syslog and the final sleep are not modelled. Dates and the clock are day and minute numbers given as inputs, and `scan` stands for `sscanf`/`strptime` on one line.
- `RaidCheck.ParseCfg`: a NUL byte inside a configuration line (which C would treat as the end of the line) is not modelled.
- RaidCheck.HandleDev, RaidCheck.Due, RaidCheck.RunFrom and RaidCheck.HandleAll require a positive frequency. A frequency of 0, which ParseCfg lets through as written, makes `handle_dev` compute `% 0`, which is undefined behaviour in C and not modelled (see Findings).
- `RaidCheck.CheckSysStatus`: a failed `open` or `read` (which `fail`s) is not modelled; every value is read.
- `sscanf("%u")` of a negative frequency, which wraps in C, is not modelled. The frequency is a `nat`.
- `Helper`: opening the disk and reading its SMART data through libatasmart is the `readOk` input.
- `Main`: thread creation, `daemon`, the tty/GPIO display loop and the core-dump setup are not modelled. The main thread's initial mask is a parameter.

## Findings

| source | as written | input that shows it | evidently intended | confidence | as-written member | corrected member |
|---|---|---|---|---|---|---|
| freecusd/raid.c:526-541 | `while (1)` leaves only by `return`, so the loop that turns EXPECTED into MISSING is never reached | an array that knew disk sdc, whose member list no longer names sdc | a member that dropped out is MISSING and is blamed | high (not executed) | Raid.DroppedMemberLeftExpected | Raid.DroppedMemberMissing |
| freecusd/smart.c:94 | an ignored disk's ".." is written at `buf + i * 3` | four disks, the fourth smart-ignored, all healthy: the field reads "OK  OK  O.." followed by blanks, instead of "OK  OK  OK  .." | ".." at `i * 4`, in the disk's own cell | high (not executed) | Smart.DisplayAsWrittenOverlaps | Smart.DisplayCells |
| freecusd/raid.c:239 | `memcmp(array->uuid, uuid, sizeof *uuid)` compares 4 bytes, i.e. `uuid[0]` only | UUIDs 00000000:00000000:00000000:00000001 and 00000001:00000000:00000000:00000001 | all 16 bytes (`sizeof array->uuid`) | high (not executed) | Raid.RaidList.FindByUuidAsWritten | Raid.RaidList.FindByUuid |
| raidcheck/raidcheck.c:147 | `parse_cfg_line` accepts a check frequency of 0, and `handle_dev` then computes `% 0` | the line "md0 0 2020-01-01 03:00" | a frequency of 0 rejected as unparsable | medium (not executed) | RaidCheck.ZeroFrequencyAccepted | RaidCheck.ParseLine |
