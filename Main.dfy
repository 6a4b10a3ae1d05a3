/** The start-up logic of freecusd/main.c: command-line parsing, the signal
    masks of the daemon's threads, and the signal handler's flags. */
module Main {
  import opened Common

  // ---------------------------------------------------------------------
  // Command line

  /** The globals fcd_main_parse_args sets, and the count of warnings it
      prints. */
  datatype Options = Options(foreground: bool, confFile: seq<char>, warnings: nat)

  /** The options after scanning argv from position i on. */
  function ParseFrom(argv: seq<seq<char>>, i: nat, o: Options): Options
    decreases |argv| - i
  {
    if i >= |argv| then o
    else if argv[i] == "-f" then ParseFrom(argv, i + 1, o.(foreground := true))
    else if argv[i] == "-c" then
      if i + 1 < |argv| then ParseFrom(argv, i + 2, o.(confFile := argv[i + 1]))
      else o.(warnings := o.warnings + 1)
    else ParseFrom(argv, i + 1, o.(warnings := o.warnings + 1))
  }

  /** Foreground mode is only ever switched on, and only by a "-f". */
  lemma {:induction false} ForegroundOnlyFromF(argv: seq<seq<char>>, i: nat, o: Options)
    ensures o.foreground ==> ParseFrom(argv, i, o).foreground
    ensures ParseFrom(argv, i, o).foreground ==> o.foreground || exists k :: i <= k < |argv| && argv[k] == "-f"
    decreases |argv| - i
  {
    if i < |argv| {
      if argv[i] == "-f" {
        ForegroundOnlyFromF(argv, i + 1, o.(foreground := true));
      } else if argv[i] == "-c" {
        if i + 1 < |argv| {
          ForegroundOnlyFromF(argv, i + 2, o.(confFile := argv[i + 1]));
        }
      } else {
        ForegroundOnlyFromF(argv, i + 1, o.(warnings := o.warnings + 1));
      }
    }
  }

  /** The configuration file name is the one it was, or an argument that
      follows a "-c". */
  lemma {:induction false} ConfFileFollowsC(argv: seq<seq<char>>, i: nat, o: Options)
    ensures var r := ParseFrom(argv, i, o).confFile;
            r == o.confFile || exists k :: i < k < |argv| && argv[k - 1] == "-c" && r == argv[k]
    decreases |argv| - i
  {
    if i < |argv| {
      if argv[i] == "-f" {
        ForegroundOnlyFromF(argv, i + 1, o.(foreground := true));
        ConfFileFollowsC(argv, i + 1, o.(foreground := true));
      } else if argv[i] == "-c" {
        if i + 1 < |argv| {
          ConfFileFollowsC(argv, i + 2, o.(confFile := argv[i + 1]));
        }
      } else {
        ConfFileFollowsC(argv, i + 1, o.(warnings := o.warnings + 1));
      }
    }
  }

  /** Arguments without "-c" leave the file name as it is. */
  lemma {:induction false} NoCKeepsConfFile(argv: seq<seq<char>>, i: nat, o: Options)
    requires forall k :: i <= k < |argv| ==> argv[k] != "-c"
    ensures ParseFrom(argv, i, o).confFile == o.confFile
    decreases |argv| - i
  {
    if i < |argv| {
      if argv[i] == "-f" {
        NoCKeepsConfFile(argv, i + 1, o.(foreground := true));
      } else {
        NoCKeepsConfFile(argv, i + 1, o.(warnings := o.warnings + 1));
      }
    }
  }

  /** The last "-c" wins: a "-c" that the scan reaches as an option, with an
      argument after it and no "-c" beyond that, decides the file name. */
  lemma LastCWins(argv: seq<seq<char>>, i: nat, o: Options)
    requires i + 1 < |argv| && argv[i] == "-c"
    requires forall k :: i + 2 <= k < |argv| ==> argv[k] != "-c"
    ensures ParseFrom(argv, i, o).confFile == argv[i + 1]
  {
    NoCKeepsConfFile(argv, i + 2, o.(confFile := argv[i + 1]));
  }

  /** Only unknown options: each one is warned about and skipped. */
  lemma {:induction false} UnknownOptionsSkipped(argv: seq<seq<char>>, i: nat, o: Options)
    requires i <= |argv|
    requires forall k :: i <= k < |argv| ==> argv[k] != "-c" && argv[k] != "-f"
    ensures ParseFrom(argv, i, o) == o.(warnings := o.warnings + |argv| - i)
    decreases |argv| - i
  {
    if i < |argv| {
      UnknownOptionsSkipped(argv, i + 1, o.(warnings := o.warnings + 1));
    }
  }

  /** "-c" takes the next argument even when it looks like an option, and a
      trailing "-c" only warns. */
  lemma COptionExamples(o: Options)
    ensures ParseFrom(["freecusd", "-c", "-f"], 1, o) == o.(confFile := "-f")
    ensures ParseFrom(["freecusd", "-f", "-c"], 1, o) == o.(foreground := true, warnings := o.warnings + 1)
  {
    var a := ["freecusd", "-c", "-f"];
    assert a[1] == "-c";
    var b := ["freecusd", "-f", "-c"];
    assert b[1] == "-f" && b[2] == "-c";
  }

  /** fcd_err_foreground and fcd_conf_file_name, with the warnings printed. */
  class Globals {
    var foreground: bool
    var confFile: seq<char>
    var warnings: nat

    function Current(): Options
      reads this
    {
      Options(foreground, confFile, warnings)
    }

    constructor (defaultConfFile: seq<char>)
      ensures Current() == Options(false, defaultConfFile, 0)
    {
      foreground := false;
      confFile := defaultConfFile;
      warnings := 0;
    }

    /** fcd_main_parse_args: argv[0] is the program name. */
    method ParseArgs(argv: seq<seq<char>>)
      modifies this
      ensures Current() == ParseFrom(argv, 1, old(Current()))
    {
      var i := 1;
      while i < |argv|
        invariant 1 <= i
        invariant ParseFrom(argv, i, Current()) == ParseFrom(argv, 1, old(Current()))
        decreases |argv| - i
      {
        if argv[i] == "-f" {
          foreground := true;
        } else if argv[i] == "-c" {
          i := i + 1;
          if i < |argv| {
            confFile := argv[i];
          } else {
            warnings := warnings + 1;
          }
        } else {
          warnings := warnings + 1;
        }
        i := i + 1;
      }
    }
  }

  // ---------------------------------------------------------------------
  // Signal masks

  /** Linux signal numbers. */
  const SigInt: int := 2
  const SigUsr1: int := 10
  const SigTerm: int := 15
  const SigChld: int := 17

  /** sigaddset and sigdelset accept signals 1 to 64. */
  predicate ValidSignal(s: int) { 1 <= s <= 64 }

  /** The mask fcd_main_sigmask builds from the thread's current mask and
      the argument list up to its 0, or None where sigaddset or sigdelset
      fails and the daemon aborts. */
  function ApplyOps(mask: set<int>, args: seq<int>): Option<set<int>>
    decreases |args|
  {
    if args == [] || args[0] == 0 then Some(mask)
    else if args[0] > 0 then
      if ValidSignal(args[0]) then ApplyOps(mask + {args[0]}, args[1..]) else None
    else
      if ValidSignal(-args[0]) then ApplyOps(mask - {-args[0]}, args[1..]) else None
  }

  /** The last operation on signal s before the terminating 0: true for
      "add", false for "remove". */
  function LastOp(args: seq<int>, s: int): Option<bool>
  {
    if args == [] || args[0] == 0 then None
    else
      var later := LastOp(args[1..], s);
      if later.Some? then later
      else if args[0] == s then Some(true)
      else if args[0] == -s then Some(false)
      else None
  }

  /** A signal is in the mask exactly when its last operation added it, or
      nothing touched it and it was in the starting mask. */
  lemma {:induction false} ApplyOpsMembership(mask: set<int>, args: seq<int>, s: int)
    requires ApplyOps(mask, args).Some? && s > 0
    ensures s in ApplyOps(mask, args).value <==>
              LastOp(args, s) == Some(true) || (LastOp(args, s).None? && s in mask)
    decreases |args|
  {
    if args != [] && args[0] != 0 {
      if args[0] > 0 {
        ApplyOpsMembership(mask + {args[0]}, args[1..], s);
      } else {
        ApplyOpsMembership(mask - {-args[0]}, args[1..], s);
      }
    }
  }

  /** fcd_main_sigmask: start from the current mask, add positive arguments,
      remove negated ones, stop at 0; None means the daemon aborted.  The
      argument list is a C variadic list and must end in 0. */
  method SigMask(current: set<int>, args: seq<int>) returns (mask: Option<set<int>>)
    requires 0 in args
    ensures mask == ApplyOps(current, args)
  {
    var m := current;
    var i := 0;
    while true
      invariant 0 <= i < |args|
      invariant 0 in args[i..]
      invariant ApplyOps(m, args[i..]) == ApplyOps(current, args)
      decreases |args| - i
    {
      var a := args[i];
      assert args[i..][1..] == args[i + 1..];
      if a == 0 {
        return Some(m);
      }
      if a > 0 {
        if !ValidSignal(a) {
          return None;
        }
        m := m + {a};
      } else {
        if !ValidSignal(-a) {
          return None;
        }
        m := m - {-a};
      }
      i := i + 1;
    }
  }

  /** One argument's effect on the mask. */
  function Op(mask: set<int>, a: int): set<int>
  {
    if a > 0 then mask + {a} else mask - {-a}
  }

  /** A list of four valid operations and its 0. */
  lemma FourOps(mask: set<int>, a: int, b: int, c: int, d: int)
    requires ValidSignal(if a > 0 then a else -a) && ValidSignal(if b > 0 then b else -b)
    requires ValidSignal(if c > 0 then c else -c) && ValidSignal(if d > 0 then d else -d)
    ensures ApplyOps(mask, [a, b, c, d, 0]) == Some(Op(Op(Op(Op(mask, a), b), c), d))
  {
    var m1 := Op(mask, a);
    var m2 := Op(m1, b);
    var m3 := Op(m2, c);
    var m4 := Op(m3, d);
    assert ApplyOps(m4, [0]) == Some(m4);
    assert [d, 0][1..] == [0];
    assert ApplyOps(m3, [d, 0]) == Some(m4);
    assert [c, d, 0][1..] == [d, 0];
    assert ApplyOps(m2, [c, d, 0]) == Some(m4);
    assert [b, c, d, 0][1..] == [c, d, 0];
    assert ApplyOps(m1, [b, c, d, 0]) == Some(m4);
    assert [a, b, c, d, 0][1..] == [b, c, d, 0];
  }

  const WorkerOps: seq<int> := [SigInt, SigTerm, SigChld, SigUsr1, 0]
  const MainOps: seq<int> := [-SigInt, -SigTerm, SigChld, SigUsr1, 0]
  const MonitorPpollOps: seq<int> := [SigInt, SigTerm, SigChld, -SigUsr1, 0]
  const ReaperPpollOps: seq<int> := [SigInt, SigTerm, -SigChld, -SigUsr1, 0]

  /** The four masks built at start-up, all from the main thread's initial
      mask: worker threads block INT, TERM, CHLD and USR1; the main thread
      takes INT and TERM but blocks CHLD and USR1; a monitor's ppoll lets
      only USR1 through; the reaper's ppoll lets CHLD and USR1 through.
      Every other signal keeps its initial state. */
  lemma StartupMasks(initial: set<int>, s: int)
    requires s > 0
    ensures ApplyOps(initial, WorkerOps).Some? && ApplyOps(initial, MainOps).Some?
    ensures ApplyOps(initial, MonitorPpollOps).Some? && ApplyOps(initial, ReaperPpollOps).Some?
    ensures var w := ApplyOps(initial, WorkerOps).value;
            SigInt in w && SigTerm in w && SigChld in w && SigUsr1 in w
    ensures var m := ApplyOps(initial, MainOps).value;
            SigInt !in m && SigTerm !in m && SigChld in m && SigUsr1 in m
    ensures var p := ApplyOps(initial, MonitorPpollOps).value;
            SigInt in p && SigTerm in p && SigChld in p && SigUsr1 !in p
    ensures var r := ApplyOps(initial, ReaperPpollOps).value;
            SigInt in r && SigTerm in r && SigChld !in r && SigUsr1 !in r
    ensures s !in {SigInt, SigTerm, SigChld, SigUsr1} ==>
              && (s in ApplyOps(initial, WorkerOps).value <==> s in initial)
              && (s in ApplyOps(initial, MainOps).value <==> s in initial)
              && (s in ApplyOps(initial, MonitorPpollOps).value <==> s in initial)
              && (s in ApplyOps(initial, ReaperPpollOps).value <==> s in initial)
  {
    FourOps(initial, SigInt, SigTerm, SigChld, SigUsr1);
    FourOps(initial, -SigInt, -SigTerm, SigChld, SigUsr1);
    FourOps(initial, SigInt, SigTerm, SigChld, -SigUsr1);
    FourOps(initial, SigInt, SigTerm, -SigChld, -SigUsr1);
  }

  // ---------------------------------------------------------------------
  // Signal handler

  /** fcd_main_got_exit_signal and fcd_thread_exit_flag. */
  datatype Flags = Flags(gotExit: bool, threadExit: bool)

  /** The flags after one signal, or None when the handler aborts to dump
      core. */
  function Handle(f: Flags, signum: int, foreground: bool): Option<Flags>
  {
    if signum == SigInt && f.gotExit && foreground then None
    else Some(Flags(f.gotExit || signum == SigInt || signum == SigTerm,
                    f.threadExit || signum == SigUsr1))
  }

  /** In foreground mode a second ctrl-C dumps core, whatever came before;
      in the background no signal aborts; the flags are never cleared. */
  lemma HandleProperties(f: Flags, signum: int, foreground: bool)
    ensures Handle(f, SigInt, true).Some? <==> !f.gotExit
    ensures Handle(f, SigInt, true).Some? ==> Handle(Handle(f, SigInt, true).value, SigInt, true).None?
    ensures !foreground ==> Handle(f, signum, false).Some?
    ensures Handle(f, signum, foreground).Some? ==>
              var g := Handle(f, signum, foreground).value;
              && (f.gotExit ==> g.gotExit) && (f.threadExit ==> g.threadExit)
              && (g.gotExit <==> f.gotExit || signum == SigInt || signum == SigTerm)
              && (g.threadExit <==> f.threadExit || signum == SigUsr1)
  {
  }

  /** The handler's flags. */
  class SignalState {
    var gotExit: bool
    var threadExit: bool

    constructor ()
      ensures !gotExit && !threadExit
    {
      gotExit, threadExit := false, false;
    }

    /** fcd_main_sig_handler; `aborted` is the call to abort(). */
    method SigHandler(signum: int, foreground: bool) returns (aborted: bool)
      modifies this
      ensures aborted <==> Handle(old(Flags(gotExit, threadExit)), signum, foreground).None?
      ensures !aborted ==> Some(Flags(gotExit, threadExit)) == Handle(old(Flags(gotExit, threadExit)), signum, foreground)
      ensures aborted ==> gotExit == old(gotExit) && threadExit == old(threadExit)
    {
      if signum == SigInt && gotExit && foreground {
        return true;
      }
      if signum == SigInt || signum == SigTerm {
        gotExit := true;
      }
      if signum == SigUsr1 {
        threadExit := true;
      }
      aborted := false;
    }
  }
}
