/** The monitor-support library of freecusd/lib.c: timeout arithmetic, the
    growable input buffer filled by read-all, the per-monitor display and
    alert record that monitor threads publish into, and the disk-letter
    lookup. */
module Lib {
  import opened Common
  import opened Alert

  // ---------------------------------------------------------------------
  // Deadlines and remaining time

  const NsecPerSec: int := 1_000_000_000

  /** A struct timespec; Linux time_t and long are signed. */
  datatype Timespec = Timespec(sec: int, nsec: int)

  predicate Normalized(t: Timespec) { 0 <= t.nsec < NsecPerSec }

  /** The instant (or duration) a timespec denotes, in nanoseconds. */
  function Nanos(t: Timespec): int { t.sec * NsecPerSec + t.nsec }

  /** fcd_lib_deadline, with the monotonic clock reading passed in as `now`. */
  function Deadline(now: Timespec, timeout: Timespec): (d: Timespec)
    ensures Nanos(d) == Nanos(now) + Nanos(timeout)
    ensures Normalized(now) && Normalized(timeout) ==> Normalized(d)
  {
    var sec := now.sec + timeout.sec;
    var nsec := now.nsec + timeout.nsec;
    if nsec >= NsecPerSec then Timespec(sec + 1, nsec - NsecPerSec)
    else Timespec(sec, nsec)
  }

  /** fcd_lib_remaining, with the clock reading passed in as `now`: the time
      left until the deadline, never negative. */
  function Remaining(deadline: Timespec, now: Timespec): (r: Timespec)
    ensures r.sec >= 0
    ensures Normalized(deadline) && Normalized(now) ==>
              && Normalized(r)
              && Nanos(r) == (if Nanos(deadline) <= Nanos(now) then 0
                              else Nanos(deadline) - Nanos(now))
  {
    var sec := deadline.sec - now.sec;
    var nsec := deadline.nsec - now.nsec;
    var (s, ns) := if nsec < 0 then (sec - 1, nsec + NsecPerSec) else (sec, nsec);
    if s < 0 then Timespec(0, 0) else Timespec(s, ns)
  }

  /** A normalised timespec is determined by the instant it denotes. */
  lemma NormalizedByNanos(a: Timespec, b: Timespec)
    requires Normalized(a) && Normalized(b) && Nanos(a) == Nanos(b)
    ensures a == b
  {
  }

  /** Asked straight after the deadline was computed, the remaining time is
      the whole timeout. */
  lemma RemainingOfDeadline(now: Timespec, timeout: Timespec)
    requires Normalized(now) && Normalized(timeout) && timeout.sec >= 0
    ensures Remaining(Deadline(now, timeout), now) == timeout
  {
    NormalizedByNanos(Remaining(Deadline(now, timeout), now), timeout);
  }

  /** Once the deadline has passed, the remaining time is exactly zero. */
  lemma RemainingClampedAfterDeadline(deadline: Timespec, now: Timespec)
    requires Normalized(deadline) && Normalized(now)
    requires Nanos(deadline) <= Nanos(now)
    ensures Remaining(deadline, now) == Timespec(0, 0)
  {
    NormalizedByNanos(Remaining(deadline, now), Timespec(0, 0));
  }

  /** As the clock advances the remaining time never grows. */
  lemma RemainingNonIncreasing(deadline: Timespec, earlier: Timespec, later: Timespec)
    requires Normalized(deadline) && Normalized(earlier) && Normalized(later)
    requires Nanos(earlier) <= Nanos(later)
    ensures Nanos(Remaining(deadline, later)) <= Nanos(Remaining(deadline, earlier))
  {
  }

  // ---------------------------------------------------------------------
  // Growable input buffer and read-all

  /** FCD_LIB_BUF_CHUNK */
  const BufChunk: nat := 2000

  /** The effective buffer cap: max_size rounded up to a multiple of the chunk. */
  function RoundUpToChunk(maxSize: nat): (r: nat)
    ensures r % BufChunk == 0
    ensures maxSize <= r < maxSize + BufChunk
  {
    ((maxSize + BufChunk - 1) / BufChunk) * BufChunk
  }

  /** Outcome of one timed read (fcd_lib_read): up to `count` bytes, where no
      bytes means end of file, or a negative error code (-1 error, -2 timeout,
      -3 thread exit signal). */
  datatype ReadOutcome = Bytes(data: seq<char>) | ReadError(code: int)

  /** What fcd_lib_read promises its callers about every call. */
  ghost predicate ReadContract(read: (nat, nat) -> ReadOutcome)
  {
    forall call: nat, count: nat ::
      match read(call, count)
      case Bytes(data) => |data| <= count
      case ReadError(code) => code == -1 || code == -2 || code == -3
  }

  /** The bytes delivered by a sequence of reads. */
  function Delivered(log: seq<ReadOutcome>): seq<char>
  {
    if log == [] then []
    else Delivered(log[..|log| - 1])
         + (match log[|log| - 1] case Bytes(d) => d case ReadError(_) => [])
  }

  /** The buffer size before the next call: the size at the last call so
      far, or the size the caller passed in. */
  function SizeBefore(sizes: seq<nat>, size0: nat): nat
  {
    if sizes == [] then size0 else sizes[|sizes| - 1]
  }

  /** The buffer size at a call: one chunk more than before exactly when the
      bytes read so far fill the buffer (the growth step always adds one
      chunk, from empty as well). */
  function SizeAt(prev: nat, total: nat): nat
  {
    if total == prev then prev + BufChunk else prev
  }

  /** Every recorded read is the oracle's answer to the call with that
      number, asked for exactly the space left: `sizes[n]` is the buffer
      size at call n, grown from the size before it only when the bytes read
      so far filled it, and `counts[n]` is that size less those bytes, at
      least one.  Stated from the last read; `AnsweredAt` gives it for every
      index. */
  ghost predicate Answered(read: (nat, nat) -> ReadOutcome, log: seq<ReadOutcome>, counts: seq<nat>,
                           sizes: seq<nat>, size0: nat)
    decreases |log|
  {
    && |counts| == |log| && |sizes| == |log|
    && (log != [] ==>
          var n := |log| - 1;
          var before := |Delivered(log[..n])|;
          && Answered(read, log[..n], counts[..n], sizes[..n], size0)
          && sizes[n] == SizeAt(SizeBefore(sizes[..n], size0), before)
          && 0 < counts[n] && before + counts[n] == sizes[n]
          && log[n] == read(n, counts[n]))
  }

  /** Answered, read at one index. */
  lemma {:induction false} AnsweredAt(read: (nat, nat) -> ReadOutcome, log: seq<ReadOutcome>, counts: seq<nat>,
                                      sizes: seq<nat>, size0: nat, i: nat)
    requires Answered(read, log, counts, sizes, size0) && i < |log|
    ensures log[i] == read(i, counts[i])
    ensures sizes[i] == SizeAt(SizeBefore(sizes[..i], size0), |Delivered(log[..i])|)
    ensures 0 < counts[i] && |Delivered(log[..i])| + counts[i] == sizes[i]
    decreases |log|
  {
    var n := |log| - 1;
    if i < n {
      AnsweredAt(read, log[..n], counts[..n], sizes[..n], size0, i);
      assert log[..n][..i] == log[..i];
      assert sizes[..n][..i] == sizes[..i];
    }
  }

  /** Every recorded read delivered some bytes (stated from the last read;
      `AllNonEmptyAt` gives it for every index). */
  ghost predicate AllNonEmpty(log: seq<ReadOutcome>)
    decreases |log|
  {
    log != [] ==>
      && AllNonEmpty(log[..|log| - 1])
      && log[|log| - 1].Bytes? && log[|log| - 1].data != []
  }

  lemma {:induction false} AllNonEmptyAt(log: seq<ReadOutcome>, i: nat)
    requires AllNonEmpty(log) && i < |log|
    ensures log[i].Bytes? && log[i].data != []
    decreases |log|
  {
    var n := |log| - 1;
    if i < n {
      AllNonEmptyAt(log[..n], i);
    }
  }

  /** The next read, at the size the growth rule gives and asked for the
      space left there, keeps the log answered. */
  lemma AnsweredExtend(read: (nat, nat) -> ReadOutcome, log: seq<ReadOutcome>, counts: seq<nat>,
                       sizes: seq<nat>, size0: nat, total: nat, size: nat)
    requires Answered(read, log, counts, sizes, size0) && total == |Delivered(log)|
    requires size == SizeAt(SizeBefore(sizes, size0), total) && total < size
    ensures Answered(read, log + [read(|log|, size - total)], counts + [size - total], sizes + [size], size0)
  {
    assert (log + [read(|log|, size - total)])[..|log|] == log;
    assert (counts + [size - total])[..|log|] == counts;
    assert (sizes + [size])[..|log|] == sizes;
  }

  /** The loop ended on an empty read (end of file), after reads that all
      delivered bytes. */
  ghost predicate EndedEmpty(log: seq<ReadOutcome>)
  {
    |log| >= 1 && AllNonEmpty(log[..|log| - 1]) && log[|log| - 1] == Bytes([])
  }

  /** The loop ended on a failed read whose code is `r`, after reads that all
      delivered bytes. */
  ghost predicate EndedError(log: seq<ReadOutcome>, r: int)
  {
    && |log| >= 1 && AllNonEmpty(log[..|log| - 1]) && log[|log| - 1] == ReadError(r)
    && (r == -1 || r == -2 || r == -3)
  }

  /** What one more read does to the log: it stays answered at the size the
      growth rule gives; its bytes fit the space it was given and follow
      the bytes delivered before; and it ends the loop, or leaves a log of
      reads that all delivered bytes. */
  lemma ReadNext(read: (nat, nat) -> ReadOutcome, log: seq<ReadOutcome>, counts: seq<nat>,
                 sizes: seq<nat>, size0: nat, total: nat, size: nat)
    requires ReadContract(read)
    requires Answered(read, log, counts, sizes, size0) && AllNonEmpty(log) && total == |Delivered(log)|
    requires size == SizeAt(SizeBefore(sizes, size0), total) && total < size
    ensures var out := read(|log|, size - total);
            var log' := log + [out];
            && Answered(read, log', counts + [size - total], sizes + [size], size0)
            && SizeBefore(sizes + [size], size0) == size
            && (out.ReadError? ==> out.code < 0 && EndedError(log', out.code))
            && (out.Bytes? ==> |out.data| <= size - total && Delivered(log') == Delivered(log) + out.data)
            && (out.Bytes? && out.data == [] ==> EndedEmpty(log'))
            && (out.Bytes? && out.data != [] ==> AllNonEmpty(log'))
  {
    AnsweredExtend(read, log, counts, sizes, size0, total, size);
    var log' := log + [read(|log|, size - total)];
    assert log'[..|log|] == log;
  }

  /** A heap buffer and its size, as passed to read-all by reference
      (`char **buf`, `size_t *buf_size`). */
  class InputBuffer {
    var data: array?<char>
    var size: nat

    ghost predicate Valid()
      reads this
    {
      && (data == null ==> size == 0)
      && (data != null ==> data.Length == size)
    }

    constructor ()
      ensures Valid() && data == null && size == 0
    {
      data := null;
      size := 0;
    }

    /** The size the next growth step asks for. */
    function NextSize(): nat
      reads this
    {
      if data == null || size == 0 then BufChunk else size + BufChunk
    }

    /** fcd_lib_grow_buf; `allocOk` is whether realloc succeeds. */
    method Grow(maxSize: nat, allocOk: bool) returns (r: int)
      requires Valid()
      modifies this
      ensures Valid()
      ensures r == -4 <==> old(NextSize()) > RoundUpToChunk(maxSize)
      ensures r == -1 <==> old(NextSize()) <= RoundUpToChunk(maxSize) && !allocOk
      ensures r == 0 <==> old(NextSize()) <= RoundUpToChunk(maxSize) && allocOk
      ensures r != 0 ==> data == old(data) && size == old(size)
      ensures r == 0 ==> fresh(data) && size == old(NextSize())
      ensures r == 0 && old(data) != null ==> data[..old(size)] == old(data[..])
    {
      var newSize := NextSize();
      var cap := RoundUpToChunk(maxSize);
      if newSize > cap {
        return -4;
      }
      if !allocOk {
        return -1;
      }
      var old_ := data;
      var newBuf := new char[newSize](i => '\0');
      if old_ != null {
        forall i | 0 <= i < old_.Length {
          newBuf[i] := old_[i];
        }
      }
      data := newBuf;
      size := newSize;
      r := 0;
    }

    /** The memcpy of one read's bytes into the buffer at `at`. */
    method Store(at: nat, bytes: seq<char>)
      requires data != null && at + |bytes| <= data.Length
      modifies data
      ensures data[..at + |bytes|] == old(data[..at]) + bytes
    {
      forall j | 0 <= j < |bytes| {
        data[at + j] := bytes[j];
      }
      assert data[..at + |bytes|] == old(data[..at]) + bytes;
    }

    /** The first `total` bytes of the buffer are `bytes`. */
    ghost predicate Buffered(total: nat, bytes: seq<char>)
      reads this, data
    {
      && total == |bytes|
      && (data != null ==> total <= data.Length && data[..total] == bytes)
    }

    /** The state between passes of fcd_lib_read_all's loop: the buffer
        holds exactly the bytes of the reads in `log`, each of which was the
        oracle's answer for the space left and delivered some bytes, and it
        has the size of the last call. */
    ghost predicate Holds(read: (nat, nat) -> ReadOutcome, log: seq<ReadOutcome>, counts: seq<nat>,
                          sizes: seq<nat>, size0: nat, total: nat)
      reads this, data
    {
      && Buffered(total, Delivered(log))
      && Answered(read, log, counts, sizes, size0)
      && AllNonEmpty(log)
      && size == SizeBefore(sizes, size0)
    }

    /** The growth step of fcd_lib_read_all's loop, taken when the buffer is
        full: on success `BufChunk` more bytes of room, the bytes read so far
        kept; on failure nothing changes. */
    method MakeRoom(maxSize: nat, allocOk: bool, total: nat, ghost bytes: seq<char>)
      returns (r: int)
      requires Valid() && total == size && (total > 0 ==> data != null)
      requires Buffered(total, bytes)
      modifies this
      ensures Valid() && Buffered(total, bytes)
      ensures r == -4 <==> old(NextSize()) > RoundUpToChunk(maxSize)
      ensures r == -1 <==> old(NextSize()) <= RoundUpToChunk(maxSize) && !allocOk
      ensures r == 0 || r == -1 || r == -4
      ensures r < 0 ==> data == old(data) && size == old(size)
      ensures r < 0 ==> (r == -4 <==> NextSize() > RoundUpToChunk(maxSize)) && (r == -1 ==> !allocOk)
      ensures r == 0 ==> allocOk && fresh(data) && size == total + BufChunk && size <= RoundUpToChunk(maxSize)
    {
      r := Grow(maxSize, allocOk);
      if r == 0 && total > 0 {
        assert data[..total] == data[..old(size)];
      }
    }

    /** One timed read asked for the space left after `total` bytes, and the
        memcpy of what it delivered right after those bytes. */
    method ReadOnce(read: (nat, nat) -> ReadOutcome, call: nat, total: nat, ghost bytes: seq<char>)
      returns (out: ReadOutcome)
      requires Valid() && data != null && total < size
      requires ReadContract(read)
      requires Buffered(total, bytes)
      modifies data
      ensures out == read(call, size - total)
      ensures out.Bytes? ==> Buffered(total + |out.data|, bytes + out.data)
    {
      out := read(call, size - total);
      if out.Bytes? {
        Store(total, out.data);
      }
    }

    /** The loop ended because the buffer was full and could not grow: past
        the cap (-4), or the next realloc, number `grows`, failed (-1); the
        reads before all delivered bytes, and they fill the buffer. */
    ghost predicate GrowFailed(r: int, log: seq<ReadOutcome>, maxSize: nat, allocOk: nat -> bool, grows: nat)
      reads this
    {
      && AllNonEmpty(log) && |Delivered(log)| == size
      && (r == -4 || r == -1)
      && (r == -4 <==> NextSize() > RoundUpToChunk(maxSize))
      && (r == -1 ==> !allocOk(grows))
    }

    /** fcd_lib_read_all.  `read(n, count)` is the outcome of the n-th timed
        read when asked for at most `count` bytes; `allocOk(k)` is whether the
        k-th realloc succeeds.  `log` records the read outcomes in order,
        `sizes` the buffer size at each read and `counts` the space left that
        each read was given; `grows` is the number of successful reallocs. */
    method ReadAll(maxSize: nat, read: (nat, nat) -> ReadOutcome, allocOk: nat -> bool)
      returns (r: int, ghost log: seq<ReadOutcome>, ghost counts: seq<nat>, ghost sizes: seq<nat>, ghost grows: nat)
      requires Valid()
      requires ReadContract(read)
      modifies this, data
      ensures Valid()
      ensures size == old(size) || size <= RoundUpToChunk(maxSize)
      // one chunk per successful realloc, asked for in order
      ensures size == old(size) + grows * BufChunk
      ensures forall k: nat :: k < grows ==> allocOk(k)
      // every read is the oracle's answer, asked for the space left after the
      // bytes before it, at a size grown only when those bytes filled the
      // buffer
      ensures Answered(read, log, counts, sizes, old(size)) && size == SizeBefore(sizes, old(size))
      // success: the bytes up to the first empty read, NUL-terminated in bounds
      ensures r >= 0 ==> && EndedEmpty(log)
                         && data != null && r < size
                         && r == |Delivered(log)|
                         && data[..r] == Delivered(log) && data[r] == '\0'
      ensures r >= 0 && size != old(size) ==> size - r <= BufChunk
      // failure: a failed read's code passed on, or a full buffer that
      // could not grow
      ensures r < 0 ==> EndedError(log, r) || GrowFailed(r, log, maxSize, allocOk, grows)
    {
      var total;
      r, total, log, counts, sizes, grows := ReadLoop(maxSize, read, allocOk);
      if r == 0 {
        Terminate(total, Delivered(log));
        r := total;
      }
    }

    /** The NUL written after the bytes read. */
    method Terminate(total: nat, ghost bytes: seq<char>)
      requires data != null && total < data.Length && Buffered(total, bytes)
      modifies data
      ensures data[..total] == bytes && data[total] == '\0'
    {
      data[total] := '\0';
      assert data[..total] == old(data[..total]);
    }

    /** The loop of fcd_lib_read_all, up to the terminating NUL. */
    method ReadLoop(maxSize: nat, read: (nat, nat) -> ReadOutcome, allocOk: nat -> bool)
      returns (r: int, total: nat, ghost log: seq<ReadOutcome>, ghost counts: seq<nat>, ghost sizes: seq<nat>,
               ghost grows: nat)
      requires Valid()
      requires ReadContract(read)
      modifies this, data
      ensures Valid()
      ensures data != null ==> data == old(data) || fresh(data)
      ensures size == old(size) || size <= RoundUpToChunk(maxSize)
      ensures size == old(size) + grows * BufChunk
      ensures forall k: nat :: k < grows ==> allocOk(k)
      ensures Answered(read, log, counts, sizes, old(size)) && size == SizeBefore(sizes, old(size))
      ensures r >= 0 ==> && r == 0 && EndedEmpty(log)
                         && data != null && total < size
                         && Buffered(total, Delivered(log))
                         && (size != old(size) ==> size - total <= BufChunk)
      ensures r < 0 ==> EndedError(log, r) || GrowFailed(r, log, maxSize, allocOk, grows)
    {
      var bound := if size < RoundUpToChunk(maxSize) then RoundUpToChunk(maxSize) else size;
      total := 0;
      var grew: nat := 0;
      var calls := 0;
      log, counts, sizes := [], [], [];
      while true
        invariant Valid()
        invariant total <= size <= bound
        invariant calls == |log|
        invariant size == old(size) || size <= RoundUpToChunk(maxSize)
        invariant data != null ==> data == old(data) || fresh(data)
        invariant total > 0 ==> data != null
        invariant Holds(read, log, counts, sizes, old(size), total)
        invariant size == old(size) + grew * BufChunk && forall k: nat :: k < grew ==> allocOk(k)
        invariant size != old(size) ==> size - total <= BufChunk
        decreases bound - total
      {
        var stop;
        r, stop, total, grew, calls, log, counts, sizes :=
          Step(maxSize, read, allocOk, total, grew, calls, log, counts, sizes, old(size));
        if stop {
          break;
        }
      }
      grows := grew;
    }

    /** One pass of fcd_lib_read_all's loop: grow if the buffer is full,
        then one read.  Either the loop goes on with more bytes in the
        buffer (`stop` false), or it ends as `ReadAll` says, before the
        terminating NUL. */
    method Step(maxSize: nat, read: (nat, nat) -> ReadOutcome, allocOk: nat -> bool,
                total: nat, grows: nat, calls: nat,
                ghost log: seq<ReadOutcome>, ghost counts: seq<nat>, ghost sizes: seq<nat>, ghost size0: nat)
      returns (r: int, stop: bool, total': nat, grows': nat, calls': nat,
               ghost log': seq<ReadOutcome>, ghost counts': seq<nat>, ghost sizes': seq<nat>)
      requires Valid() && ReadContract(read)
      requires total <= size && calls == |log|
      requires size == size0 || size <= RoundUpToChunk(maxSize)
      requires total > 0 ==> data != null
      requires Holds(read, log, counts, sizes, size0, total)
      requires size == size0 + grows * BufChunk && forall k: nat :: k < grows ==> allocOk(k)
      requires size != size0 ==> size - total <= BufChunk
      modifies this, data
      ensures Valid()
      ensures size == size0 || size <= RoundUpToChunk(maxSize)
      ensures data != null ==> data == old(data) || fresh(data)
      ensures calls' == |log'|
      ensures size == size0 + grows' * BufChunk && forall k: nat :: k < grows' ==> allocOk(k)
      ensures Answered(read, log', counts', sizes', size0) && size == SizeBefore(sizes', size0)
      ensures !stop ==> && total < total' <= size
                        && data != null
                        && Holds(read, log', counts', sizes', size0, total')
                        && (size != size0 ==> size - total' <= BufChunk)
      ensures stop && r >= 0 ==> && r == 0 && EndedEmpty(log')
                                 && data != null && total' < size
                                 && Buffered(total', Delivered(log'))
                                 && (size != size0 ==> size - total' <= BufChunk)
      ensures stop && r < 0 ==> EndedError(log', r) || GrowFailed(r, log', maxSize, allocOk, grows')
    {
      total', grows', calls', log', counts', sizes' := total, grows, calls, log, counts, sizes;
      stop := false;
      r := 0;
      if total == size {
        r := MakeRoom(maxSize, allocOk(grows), total, Delivered(log));
        if r < 0 {
          stop := true;
          return;
        }
        grows' := grows + 1;
        assert forall k: nat :: k < grows' ==> allocOk(k) by {
          assert allocOk(grows);
        }
        assert size == size0 + grows' * BufChunk;
      }
      r, stop, total', calls', log', counts', sizes' := ReadStep(read, total, calls, log, counts, sizes, size0);
    }


    /** The read half of a pass of fcd_lib_read_all's loop, on a buffer with
        room: one read, which ends the loop on an error (`r` is its code) or
        on end of file (`r` is 0), or else leaves more bytes buffered. */
    method ReadStep(read: (nat, nat) -> ReadOutcome, total: nat, calls: nat,
                    ghost log: seq<ReadOutcome>, ghost counts: seq<nat>, ghost sizes: seq<nat>, ghost size0: nat)
      returns (r: int, stop: bool, total': nat, calls': nat,
               ghost log': seq<ReadOutcome>, ghost counts': seq<nat>, ghost sizes': seq<nat>)
      requires Valid() && data != null && total < size
      requires ReadContract(read) && calls == |log|
      requires Buffered(total, Delivered(log)) && Answered(read, log, counts, sizes, size0) && AllNonEmpty(log)
      requires size == SizeAt(SizeBefore(sizes, size0), total)
      modifies data
      ensures calls' == |log'|
      ensures Answered(read, log', counts', sizes', size0) && size == SizeBefore(sizes', size0)
      ensures !stop ==> total < total' <= size && Holds(read, log', counts', sizes', size0, total')
      ensures stop ==> r <= 0 && total' == total
      ensures stop && r == 0 ==> EndedEmpty(log') && Buffered(total, Delivered(log'))
      ensures stop && r < 0 ==> EndedError(log', r)
    {
      ReadNext(read, log, counts, sizes, size0, total, size);
      var out := ReadOnce(read, calls, total, Delivered(log));
      log', counts', sizes' := log + [out], counts + [size - total], sizes + [size];
      calls' := calls + 1;
      r, stop, total' := 0, true, total;
      match out {
        case ReadError(code) =>
          r := code;
        case Bytes(bytes) =>
          if bytes != [] {
            stop, total' := false, total + |bytes|;
          }
      }
    }
  }

  // ---------------------------------------------------------------------
  // The monitor record

  /** Cell indices of the monitor record's alerts. */
  const SysWarn: nat := 0
  const SysFail: nat := 1
  function DiskCell(led: nat): nat { 2 + led }
  const AlertCount: nat := 2 + MaxDiskCount

  /** The display record: 66 bytes, with two 20-byte fields published by the
      monitors at offsets 5 (upper line) and 45 (lower line). */
  const RecordSize: nat := 66
  const UpperOffset: nat := 5
  const LowerOffset: nat := 45
  const FieldSize: nat := 20

  /** The lower-line text of a disabled monitor ("ERROR: NOT AVAILABLE",
      exactly 20 bytes, no terminator). */
  const DisabledMsg: seq<char> := "ERROR: NOT AVAILABLE"

  /** The bytes of the record outside a field keep their value. */
  ghost predicate OutsideUnchanged(now: seq<char>, before: seq<char>, off: nat, len: nat)
  {
    |now| == |before| &&
    forall k :: 0 <= k < |now| && !(off <= k < off + len) ==> now[k] == before[k]
  }

  /** The disk-cell LED a configured disk feeds, when none of the disks after
      position i in the table feeds the same LED (so i's request is the last). */
  ghost predicate LastForLed(table: seq<DiskConf>, i: nat)
    requires i < |table|
  {
    forall j :: i < j < |table| ==> Led(table[j]) != Led(table[i])
  }

  /** Some configured disk feeds LED `led`. */
  ghost predicate LedUsed(table: seq<DiskConf>, led: int)
  {
    exists i :: 0 <= i < |table| && Led(table[i]) == led
  }

  /** A monitor: its alert cells (0 sys_warn, 1 sys_fail, 2.. disk_alerts),
      its display record, and the PWM flags and enable switch that the
      current revision of the daemon keeps beside them. */
  class Monitor {
    const name: seq<char>
    const cells: array<AlertMsg>
    const buf: array<char>
    var newPwmFlags: bv8
    var oldPwmFlags: bv8
    var enabled: bool

    ghost predicate Valid()
      reads this
    {
      cells.Length == AlertCount && buf.Length == RecordSize
    }

    /** A statically initialised monitor: every cell CLR_ACK, no fan flags. */
    constructor (name: seq<char>, text: seq<char>)
      requires |text| == RecordSize
      ensures Valid()
      ensures this.name == name && buf[..] == text
      ensures forall k :: 0 <= k < AlertCount ==> cells[k] == ClrAck
      ensures newPwmFlags == 0 && oldPwmFlags == 0 && enabled
    {
      this.name := name;
      cells := new AlertMsg[AlertCount](_ => ClrAck);
      buf := new char[RecordSize](i requires 0 <= i < RecordSize => text[i]);
      newPwmFlags := 0;
      oldPwmFlags := 0;
      enabled := true;
    }

    /** fcd_lib_set_mon_status2: publish the upper field (when given), the
        lower field, the two system alerts, the PWM flags and (when given)
        one request per configured disk. */
    method SetMonStatus2(upper: Option<seq<char>>, lower: seq<char>, warn: bool, fail: bool,
                         disks: Option<seq<int>>, pwmFlags: bv8, table: seq<DiskConf>)
      requires Valid()
      requires upper.Some? ==> |upper.value| >= FieldSize
      requires |lower| >= FieldSize
      requires disks.Some? ==> |disks.value| >= |table|
      requires disks.Some? ==> forall i :: 0 <= i < |table| ==> 0 <= Led(table[i]) < MaxDiskCount
      modifies buf, cells, this`newPwmFlags
      ensures buf[LowerOffset..LowerOffset + FieldSize] == lower[..FieldSize]
      ensures upper.Some? ==> buf[UpperOffset..UpperOffset + FieldSize] == upper.value[..FieldSize]
      ensures upper.Some? ==>
                forall k :: (0 <= k < RecordSize && !(UpperOffset <= k < UpperOffset + FieldSize)
                             && !(LowerOffset <= k < LowerOffset + FieldSize)) ==> buf[k] == old(buf[k])
      ensures upper.None? ==> OutsideUnchanged(buf[..], old(buf[..]), LowerOffset, FieldSize)
      ensures cells[SysWarn] == Request(warn, old(cells[SysWarn]))
      ensures cells[SysFail] == Request(fail, old(cells[SysFail]))
      ensures newPwmFlags == pwmFlags
      ensures disks.Some? ==> forall i :: 0 <= i < |table| && LastForLed(table, i) ==>
                cells[DiskCell(Led(table[i]))] == Request(disks.value[i] != 0, old(cells[DiskCell(Led(table[i]))]))
      ensures forall led :: 0 <= led < MaxDiskCount && (disks.None? || !LedUsed(table, led)) ==>
                cells[DiskCell(led)] == old(cells[DiskCell(led)])
      // no acknowledged state is touched: the LED counters stay right
      ensures forall k :: 0 <= k < AlertCount ==> Acked(cells[k]) == Acked(old(cells[k]))
    {
      if upper.Some? {
        WriteField(UpperOffset, upper.value);
      }
      WriteField(LowerOffset, lower);
      cells[SysWarn] := Request(warn, cells[SysWarn]);
      cells[SysFail] := Request(fail, cells[SysFail]);
      newPwmFlags := pwmFlags;
      if disks.Some? {
        RequestDisks(disks.value, table);
      }
    }

    /** One field of the record: the first 20 bytes of `text` at `off`. */
    method WriteField(off: nat, text: seq<char>)
      requires Valid()
      requires off + FieldSize <= RecordSize
      requires |text| >= FieldSize
      modifies buf
      ensures buf[off..off + FieldSize] == text[..FieldSize]
      ensures OutsideUnchanged(buf[..], old(buf[..]), off, FieldSize)
    {
      forall k | 0 <= k < FieldSize {
        buf[off + k] := text[k];
      }
    }

    /** The disk loop of fcd_lib_set_mon_status2 (RequestLoop) and what it
        leaves in the cells: one request per configured disk, in table order,
        on the cell of the LED it feeds. */
    method RequestDisks(disks: seq<int>, table: seq<DiskConf>)
      requires Valid()
      requires |disks| >= |table|
      requires forall i :: 0 <= i < |table| ==> 0 <= Led(table[i]) < MaxDiskCount
      modifies cells
      ensures cells[..] == ApplyRequests(old(cells[..]), disks, table, |table|)
      ensures cells[SysWarn] == old(cells[SysWarn]) && cells[SysFail] == old(cells[SysFail])
      ensures forall i :: 0 <= i < |table| && LastForLed(table, i) ==>
                cells[DiskCell(Led(table[i]))] == Request(disks[i] != 0, old(cells[DiskCell(Led(table[i]))]))
      ensures forall led :: 0 <= led < MaxDiskCount && !LedUsed(table, led) ==>
                cells[DiskCell(led)] == old(cells[DiskCell(led)])
      ensures forall k :: 0 <= k < AlertCount ==> Acked(cells[k]) == Acked(old(cells[k]))
    {
      RequestLoop(disks, table);
      ApplyRequestsAll(old(cells[..]), disks, table);
    }

    /** The loop itself: one request per configured disk, in table order. */
    method RequestLoop(disks: seq<int>, table: seq<DiskConf>)
      requires Valid()
      requires |disks| >= |table|
      requires forall i :: 0 <= i < |table| ==> 0 <= Led(table[i]) < MaxDiskCount
      modifies cells
      ensures cells[..] == ApplyRequests(old(cells[..]), disks, table, |table|)
    {
      var i := 0;
      while i < |table|
        invariant 0 <= i <= |table|
        invariant cells[..] == ApplyRequests(old(cells[..]), disks, table, i)
      {
        var c := DiskCell(Led(table[i]));
        cells[c] := Request(disks[i] != 0, cells[c]);
        i := i + 1;
      }
    }

    /** fcd_lib_set_mon_status: publish without an upper field. */
    method SetMonStatus(lower: seq<char>, warn: bool, fail: bool,
                        disks: Option<seq<int>>, pwmFlags: bv8, table: seq<DiskConf>)
      requires Valid()
      requires |lower| >= FieldSize
      requires disks.Some? ==> |disks.value| >= |table|
      requires disks.Some? ==> forall i :: 0 <= i < |table| ==> 0 <= Led(table[i]) < MaxDiskCount
      modifies buf, cells, this`newPwmFlags
      ensures buf[LowerOffset..LowerOffset + FieldSize] == lower[..FieldSize]
      ensures OutsideUnchanged(buf[..], old(buf[..]), LowerOffset, FieldSize)
      ensures cells[SysWarn] == Request(warn, old(cells[SysWarn]))
      ensures cells[SysFail] == Request(fail, old(cells[SysFail]))
      ensures newPwmFlags == pwmFlags
      ensures disks.Some? ==> forall i :: 0 <= i < |table| && LastForLed(table, i) ==>
                cells[DiskCell(Led(table[i]))] == Request(disks.value[i] != 0, old(cells[DiskCell(Led(table[i]))]))
      ensures forall led :: 0 <= led < MaxDiskCount && (disks.None? || !LedUsed(table, led)) ==>
                cells[DiskCell(led)] == old(cells[DiskCell(led)])
      ensures forall k :: 0 <= k < AlertCount ==> Acked(cells[k]) == Acked(old(cells[k]))
    {
      SetMonStatus2(None, lower, warn, fail, disks, pwmFlags, table);
    }

    /** fcd_lib_fail: raise the system failure alert and show the
        not-available message in the lower field. */
    method Fail()
      requires Valid()
      modifies buf, cells
      ensures cells[SysFail] == Set(old(cells[SysFail])).next
      ensures forall k :: 0 <= k < AlertCount && k != SysFail ==> cells[k] == old(cells[k])
      ensures buf[LowerOffset..LowerOffset + FieldSize] == DisabledMsg
      ensures OutsideUnchanged(buf[..], old(buf[..]), LowerOffset, FieldSize)
    {
      cells[SysFail] := Set(cells[SysFail]).next;
      forall k | 0 <= k < FieldSize {
        buf[LowerOffset + k] := DisabledMsg[k];
      }
    }
  }

  /** The cells after the disk loop has handled the first n disks. */
  function ApplyRequests(cs: seq<AlertMsg>, disks: seq<int>, table: seq<DiskConf>, n: nat): (r: seq<AlertMsg>)
    requires |cs| == AlertCount && n <= |table| <= |disks|
    requires forall i :: 0 <= i < |table| ==> 0 <= Led(table[i]) < MaxDiskCount
    ensures |r| == AlertCount
    decreases n
  {
    if n == 0 then cs
    else
      var p := ApplyRequests(cs, disks, table, n - 1);
      var c := DiskCell(Led(table[n - 1]));
      p[c := Request(disks[n - 1] != 0, p[c])]
  }

  /** The disk loop leaves the system cells alone and no acknowledged bit
      moves. */
  lemma {:induction false} ApplyRequestsKeeps(cs: seq<AlertMsg>, disks: seq<int>, table: seq<DiskConf>, n: nat)
    requires |cs| == AlertCount && n <= |table| <= |disks|
    requires forall i :: 0 <= i < |table| ==> 0 <= Led(table[i]) < MaxDiskCount
    ensures ApplyRequests(cs, disks, table, n)[SysWarn] == cs[SysWarn]
    ensures ApplyRequests(cs, disks, table, n)[SysFail] == cs[SysFail]
    ensures forall k :: 0 <= k < AlertCount ==> Acked(ApplyRequests(cs, disks, table, n)[k]) == Acked(cs[k])
  {
    if n > 0 {
      ApplyRequestsKeeps(cs, disks, table, n - 1);
    }
  }

  /** The disk i whose LED no later disk (below n) feeds has its request
      standing, as if made on the cell's original value. */
  lemma {:induction false} ApplyRequestsLast(cs: seq<AlertMsg>, disks: seq<int>, table: seq<DiskConf>, n: nat, i: nat)
    requires |cs| == AlertCount && n <= |table| <= |disks|
    requires forall k :: 0 <= k < |table| ==> 0 <= Led(table[k]) < MaxDiskCount
    requires i < n && forall m :: i < m < n ==> Led(table[m]) != Led(table[i])
    ensures ApplyRequests(cs, disks, table, n)[DiskCell(Led(table[i]))] ==
              Request(disks[i] != 0, cs[DiskCell(Led(table[i]))])
  {
    var c := DiskCell(Led(table[i]));
    if i == n - 1 {
      var p := ApplyRequests(cs, disks, table, n - 1);
      ApplyRequestsKeeps(cs, disks, table, n - 1);
      RequestDependsOnAcked(disks[i] != 0, p[c], cs[c]);
    } else {
      ApplyRequestsLast(cs, disks, table, n - 1, i);
    }
  }

  /** An LED that none of the first n disks feeds keeps its cell. */
  lemma {:induction false} ApplyRequestsUnused(cs: seq<AlertMsg>, disks: seq<int>, table: seq<DiskConf>, n: nat, led: int)
    requires |cs| == AlertCount && n <= |table| <= |disks|
    requires forall k :: 0 <= k < |table| ==> 0 <= Led(table[k]) < MaxDiskCount
    requires 0 <= led < MaxDiskCount && forall m :: 0 <= m < n ==> Led(table[m]) != led
    ensures ApplyRequests(cs, disks, table, n)[DiskCell(led)] == cs[DiskCell(led)]
  {
    if n > 0 {
      ApplyRequestsUnused(cs, disks, table, n - 1, led);
    }
  }

  /** The three facts above for the whole disk table at once. */
  lemma ApplyRequestsAll(cs: seq<AlertMsg>, disks: seq<int>, table: seq<DiskConf>)
    requires |cs| == AlertCount && |table| <= |disks|
    requires forall i :: 0 <= i < |table| ==> 0 <= Led(table[i]) < MaxDiskCount
    ensures var r := ApplyRequests(cs, disks, table, |table|);
            && r[SysWarn] == cs[SysWarn] && r[SysFail] == cs[SysFail]
            && (forall i :: 0 <= i < |table| && LastForLed(table, i) ==>
                  r[DiskCell(Led(table[i]))] == Request(disks[i] != 0, cs[DiskCell(Led(table[i]))]))
            && (forall led :: 0 <= led < MaxDiskCount && !LedUsed(table, led) ==>
                  r[DiskCell(led)] == cs[DiskCell(led)])
            && (forall k :: 0 <= k < AlertCount ==> Acked(r[k]) == Acked(cs[k]))
  {
    ApplyRequestsKeeps(cs, disks, table, |table|);
    forall j | 0 <= j < |table| && LastForLed(table, j)
      ensures ApplyRequests(cs, disks, table, |table|)[DiskCell(Led(table[j]))] == Request(disks[j] != 0, cs[DiskCell(Led(table[j]))])
    {
      ApplyRequestsLast(cs, disks, table, |table|, j);
    }
    forall led | 0 <= led < MaxDiskCount && !LedUsed(table, led)
      ensures ApplyRequests(cs, disks, table, |table|)[DiskCell(led)] == cs[DiskCell(led)]
    {
      ApplyRequestsUnused(cs, disks, table, |table|, led);
    }
  }

  /** A request's outcome depends on the cell only through its acknowledged
      bit, so of several requests to one cell the last one decides. */
  lemma RequestDependsOnAcked(b: bool, s: AlertMsg, t: AlertMsg)
    requires Acked(s) == Acked(t)
    ensures Request(b, s) == Request(b, t)
  {
    StateIsItsTwoBits(Request(b, s), Request(b, t));
  }

  /** A published disk request leaves the cell asking for exactly what the
      monitor reported, whatever the cell held before. */
  lemma PublishedDiskRequest(table: seq<DiskConf>, i: nat, disks: seq<int>, before: AlertMsg, after: AlertMsg)
    requires i < |table| && i < |disks|
    requires after == Request(disks[i] != 0, before)
    ensures Wanted(after) <==> disks[i] != 0
    ensures Acked(after) == Acked(before)
  {
  }

  /** In a table with one disk per LED, every disk's request is the last one
      for its LED, so every configured disk's request is published. */
  lemma DistinctLedsAllLast(table: seq<DiskConf>, i: nat)
    requires DiskTableOk(table) && i < |table|
    ensures LastForLed(table, i)
  {
  }

  // ---------------------------------------------------------------------
  // Disk lookup

  /** The first configured disk whose letter is c, or -1. */
  function LetterIndex(table: seq<DiskConf>, c: char): (r: int)
    requires forall i :: 0 <= i < |table| ==> |table[i].name| == DiskNameSize - 1
    ensures -1 <= r < |table|
    ensures r == -1 <==> forall i :: 0 <= i < |table| ==> Letter(table[i]) != c
    ensures r >= 0 ==> Letter(table[r]) == c
    ensures r >= 0 ==> forall i :: 0 <= i < r ==> Letter(table[i]) != c
  {
    if table == [] then -1
    else if Letter(table[0]) == c then 0
    else
      var k := LetterIndex(table[1..], c);
      if k == -1 then -1 else k + 1
  }

  /** fcd_lib_disk_index: the search loop over the disk table. */
  method DiskIndex(table: seq<DiskConf>, c: char) returns (r: int)
    requires forall i :: 0 <= i < |table| ==> |table[i].name| == DiskNameSize - 1
    ensures r == LetterIndex(table, c)
  {
    var i := 0;
    while i < |table|
      invariant 0 <= i <= |table|
      invariant forall j :: 0 <= j < i ==> Letter(table[j]) != c
    {
      if c == Letter(table[i]) {
        return i;
      }
      i := i + 1;
    }
    return -1;
  }
}
