/** io_select.c: one idle timeout cut into re-log slices, over a select that
    knows nothing of the bytes a TLS library holds back. */
module IoSelect {
  import opened Text

  datatype Timeval = Timeval(sec: nat, usec: nat) {
    function Micros(): nat { sec * 1_000_000 + usec }
  }

  const ZERO := Timeval(0, 0)

  lemma ZeroIsNothing()
    ensures ZERO.Micros() == 0
  {
  }

  lemma MicrosAdd(a: Timeval, b: Timeval)
    ensures Timeval(a.sec + b.sec, a.usec + b.usec).Micros() == a.Micros() + b.Micros()
  {
  }

  /** The descriptor sets of a select call, which it cuts down in place; a NULL
      fd_set pointer is a set that is empty. */
  class FdSets {
    var r: set<nat>
    var w: set<nat>
    var e: set<nat>

    constructor (r: set<nat>, w: set<nat>, e: set<nat>)
      ensures this.r == r && this.w == w && this.e == e
    {
      this.r, this.w, this.e := r, w, e;
    }

    /** The number of bits set. */
    function Count(): nat
      reads this
    {
      |r| + |w| + |e|
    }

    /** Some of the bits, possibly none, stay set. */
    method CutDown()
      modifies this
      ensures r <= old(r) && w <= old(w) && e <= old(e)
    {
      var r': set<nat> :| r' <= r;
      var w': set<nat> :| w' <= w;
      var e': set<nat> :| e' <= e;
      r, w, e := r', w', e';
    }

    method Restore(r: set<nat>, w: set<nat>, e: set<nat>)
      modifies this
      ensures this.r == r && this.w == w && this.e == e
    {
      this.r, this.w, this.e := r, w, e;
    }

    /** The descriptors of `want` that select cleared are set again, and counted. */
    method Merge(n: nat, want: set<nat>, selected: nat) returns (count: nat)
      requires forall fd | fd in want :: fd < n
      modifies this
      ensures r == old(r) + want && w == old(w) && e == old(e)
      ensures count == selected + Count() - old(Count())
    {
      count := selected;
      ghost var before := r;
      for i: nat := 0 to n
        invariant Merged(before, r, want, i) && w == old(w) && e == old(e)
        invariant count == selected + |r| - |before|
      {
        if i in want && i !in r {
          r, count := r + {i}, count + 1;
        }
      }
    }
  }

  /** `r` is `before` with the descriptors of `want` below `i`. */
  ghost predicate Merged(before: set<nat>, r: set<nat>, want: set<nat>, i: nat) {
    forall fd: nat :: fd in r <==> fd in before || (fd in want && fd < i)
  }

  /** The operating system: a clock that may jump either way, and select(2) with
      the Linux habit of writing back the time left. */
  class Kernel {
    /** Microseconds spent inside select so far, how often it was called, for how long each
        time, and what it returned last; and what the clock showed. */
    ghost var waited: nat
    ghost var calls: nat
    ghost var asked: seq<Timeval>
    ghost var last: int
    ghost var times: seq<int>
    /** How many more times select will come back empty-handed. */
    var quiet: nat

    constructor (quiet: nat)
      ensures this.quiet == quiet && waited == 0 && calls == 0 && asked == [] && times == []
    {
      this.quiet := quiet;
      waited, calls, asked, last, times := 0, 0, [], 0, [];
    }

    method Time() returns (now: int)
      modifies this`times
      ensures times == old(times) + [now]
    {
      now := *;
      times := times + [now];
    }

    method Select(fds: FdSets, timeout: Timeval) returns (status: int, left: Timeval)
      modifies this, fds
      ensures old(waited) <= waited && waited + left.Micros() == old(waited) + timeout.Micros()
      ensures calls == old(calls) + 1 && asked == old(asked) + [timeout] && last == status && times == old(times)
      ensures status == 0 ==> left == ZERO && quiet < old(quiet)
      ensures status >= 0 ==> status == fds.Count()
      ensures fds.r <= old(fds.r) && fds.w <= old(fds.w) && fds.e <= old(fds.e)
    {
      hide Timeval.Micros;
      ZeroIsNothing();
      var failed: bool := *;
      var sec: nat, usec: nat := *, *;
      left := Timeval(sec, usec);
      if left.Micros() > timeout.Micros() {
        left := timeout;
      }
      fds.CutDown();
      status := fds.Count();
      if status == 0 && quiet > 0 {
        quiet, left := quiet - 1, ZERO;
      } else if status == 0 || failed {
        status := -1;
      }
      calls, waited := calls + 1, waited + (timeout.Micros() - left.Micros());
      asked, last := asked + [timeout], status;
    }
  }

  /** The line a connection writes again every `relog` seconds, and when it falls
      due; `relog` of zero turns it off. */
  class Log {
    const relog: nat
    var logTime: int
    /** When each line was written. */
    ghost var lines: seq<int>

    constructor (relog: nat, logTime: int)
      ensures this.relog == relog && this.logTime == logTime && lines == [] && Spread()
    {
      this.relog := relog;
      this.logTime := logTime;
      lines := [];
    }

    /** Any two successive lines are at least `relog` apart, and so will the next be. */
    ghost predicate Spread()
      reads this
    {
      && (forall i | 0 < i < |lines| :: lines[i - 1] + relog <= lines[i])
      && (lines != [] ==> lines[|lines| - 1] + relog <= logTime)
    }

    /** Whether a line is to be written from time to time. */
    predicate On()
      reads this
    {
      relog > 0 && logTime != 0
    }

    /** The log line, if it is due. */
    method Tick(now: int)
      requires Spread()
      modifies this
      ensures Spread() && (relog > 0 ==> now < logTime)
      ensures lines == if now >= old(logTime) then old(lines) + [now] else old(lines)
      ensures logTime == if now >= old(logTime) then now + relog else old(logTime)
    {
      if now >= logTime {
        lines := lines + [now];
        logTime := now + relog;
      }
    }
  }

  /** __io_select; `pending` are the descriptors whose TLS library holds decrypted
      bytes not yet read. */
  method SelectPending(kernel: Kernel, n: nat, fds: FdSets, timeout: Timeval, pending: set<nat>)
    returns (status: int, left: Timeval)
    requires forall fd | fd in fds.r :: fd < n
    modifies kernel, fds
    ensures kernel.waited + left.Micros() == old(kernel.waited) + timeout.Micros()
    ensures kernel.calls == old(kernel.calls) + 1 && kernel.times == old(kernel.times)
    ensures kernel.asked == old(kernel.asked) + [if old(fds.r) * pending != {} then ZERO else timeout]
    ensures status < 0 <==> kernel.last < 0
    ensures status == 0 ==> left == ZERO && kernel.quiet < old(kernel.quiet)
    ensures old(fds.r) * pending != {} ==> kernel.waited == old(kernel.waited) && status != 0
    ensures status >= 0 ==> status == fds.Count() && old(fds.r) * pending <= fds.r
    ensures fds.r <= old(fds.r) && fds.w <= old(fds.w) && fds.e <= old(fds.e)
  {
    hide Timeval.Micros;
    ZeroIsNothing();
    var want: set<nat>, count: nat := {}, 0;
    for i: nat := 0 to n
      invariant want == set fd | fd in fds.r * pending && fd < i
      invariant count == |want|
    {
      if i in fds.r && i in pending {
        want, count := want + {i}, count + 1;
      }
    }
    assert want == fds.r * pending;
    if count == 0 {
      status, left := kernel.Select(fds, timeout);
      return;
    }
    var unused: Timeval;
    status, unused := kernel.Select(fds, ZERO);
    left := timeout;
    if status >= 0 {
      status := fds.Merge(n, want, status);
      NoneMissing(want, fds.r);
    }
  }

  lemma NoneMissing(a: set<nat>, b: set<nat>)
    requires a <= b && a != {}
    ensures |b| > 0
  {
    var x :| x in a;
    assert x in b;
  }

  /** The lines that are due at successive readings of the clock, the first at `due` or
      later and each `relog` after the one before. */
  function LinesDue(times: seq<int>, due: int, relog: nat): seq<int> {
    if times == [] then []
    else if times[0] >= due then [times[0]] + LinesDue(times[1..], times[0] + relog, relog)
    else LinesDue(times[1..], due, relog)
  }

  /** When the next line falls due after these readings. */
  function DueAfter(times: seq<int>, due: int, relog: nat): int {
    if times == [] then due
    else DueAfter(times[1..], if times[0] >= due then times[0] + relog else due, relog)
  }

  lemma {:induction false} DueStep(times: seq<int>, now: int, due: int, relog: nat)
    ensures var before := DueAfter(times, due, relog);
            && DueAfter(times + [now], due, relog) == (if now >= before then now + relog else before)
            && LinesDue(times + [now], due, relog) ==
                 LinesDue(times, due, relog) + (if now >= before then [now] else [])
  {
    var more := times + [now];
    if times == [] {
      assert more == [now] && more[1..] == [];
    } else {
      assert more[1..] == times[1..] + [now];
      DueStep(times[1..], now, if times[0] >= due then times[0] + relog else due, relog);
      assert times[0] >= due ==> forall a: seq<int>, b: seq<int> :: [times[0]] + (a + b) == [times[0]] + a + b;
    }
  }

  /** No line is ever overdue, and none comes early: after each reading the next line is due
      later, and a reading is a line exactly if it is not before the time the last one left. */
  lemma {:induction false} LinesMeaning(times: seq<int>, due: int, relog: nat, i: nat)
    requires relog > 0 && i < |times|
    ensures var before := DueAfter(times[..i], due, relog);
            && times[i] < DueAfter(times[..i + 1], due, relog)
            && LinesDue(times[..i + 1], due, relog) ==
                 LinesDue(times[..i], due, relog) + (if times[i] >= before then [times[i]] else [])
  {
    DueStep(times[..i], times[i], due, relog);
    assert times[..i + 1] == times[..i] + [times[i]];
  }

  /** What select was asked to wait, reading by reading: never past the time a line falls due. */
  predicate NeverOverdue(times: seq<int>, asked: seq<Timeval>, due: int, relog: nat) {
    && |asked| == |times|
    && forall i | 0 <= i < |times| ::
         asked[i] == ZERO || asked[i].sec <= DueAfter(times[..i + 1], due, relog) - times[i]
  }

  /** The log and the slices so far. */
  ghost predicate Scheduled(lines: seq<int>, due: int, log: Log, times: seq<int>, asked: seq<Timeval>)
    reads log
  {
    && log.lines == lines + LinesDue(times, due, log.relog) && log.logTime == DueAfter(times, due, log.relog)
    && NeverOverdue(times, asked, due, log.relog)
  }

  lemma NothingScheduled(log: Log)
    ensures Scheduled(log.lines, log.logTime, log, [], [])
  {
  }

  lemma Schedules(first: seq<int>, start: int, log: Log, times: seq<int>, asked: seq<Timeval>)
    requires Scheduled(first, start, log, times, asked)
    ensures log.lines == first + LinesDue(times, start, log.relog) && log.logTime == DueAfter(times, start, log.relog)
    ensures NeverOverdue(times, asked, start, log.relog)
  {
  }

  lemma ScheduleStep(first: seq<int>, start: int, lines: seq<int>, due: int, log: Log,
                     times: seq<int>, asked: seq<Timeval>, now: int, slice: Timeval)
    requires lines == first + LinesDue(times, start, log.relog) && due == DueAfter(times, start, log.relog)
    requires NeverOverdue(times, asked, start, log.relog)
    requires log.lines == lines + (if now >= due then [now] else [])
    requires log.logTime == (if now >= due then now + log.relog else due)
    requires slice == ZERO || slice.sec <= log.logTime - now
    ensures Scheduled(first, start, log, times + [now], asked + [slice])
  {
    hide NeverOverdue;
    DueStep(times, now, start, log.relog);
    OverdueStep(times, asked, now, slice, start, log.relog);
  }

  lemma OverdueStep(times: seq<int>, asked: seq<Timeval>, now: int, slice: Timeval, due: int, relog: nat)
    requires NeverOverdue(times, asked, due, relog)
    requires slice == ZERO || slice.sec <= DueAfter(times + [now], due, relog) - now
    ensures NeverOverdue(times + [now], asked + [slice], due, relog)
  {
    var more := times + [now];
    forall i | 0 <= i < |more|
      ensures (asked + [slice])[i] == ZERO || (asked + [slice])[i].sec <= DueAfter(more[..i + 1], due, relog) - more[i]
    {
      if i < |times| {
        assert more[..i + 1] == times[..i + 1];
      } else {
        assert more[..i + 1] == more;
      }
    }
  }

  /** The first half of a turn: the line if it is due, and how long to wait this time; of the
      timeout, if there is one, what is left for later. */
  method NextSlice(kernel: Kernel, log: Log, relog: bool, timed: bool, left: Timeval)
    returns (slice: Timeval, left': Timeval, now: int)
    requires log.Spread() && (timed || relog) && (relog ==> log.relog > 0)
    modifies kernel`times, log
    ensures kernel.times == old(kernel.times) + [now] && log.Spread()
    ensures relog ==>
              && log.lines == old(log.lines) + (if now >= old(log.logTime) then [now] else [])
              && log.logTime == (if now >= old(log.logTime) then now + log.relog else old(log.logTime))
              && slice.sec <= log.logTime - now
    ensures !relog ==> unchanged(log) && slice == left && left' == ZERO
    ensures timed ==> left'.Micros() + slice.Micros() == left.Micros() && (left' == ZERO || left'.sec < left.sec)
    ensures !timed ==> slice == Timeval(log.logTime - now, 0) && left' == left
  {
    hide Timeval.Micros;
    ZeroIsNothing();
    slice, left' := ZERO, left;
    now := kernel.Time();
    if timed {
      slice := left;
    }
    if relog {
      log.Tick(now);
    }
    if relog && (!timed || slice.sec > log.logTime - now) {
      slice := Timeval(log.logTime - now, 0);
      if timed {
        left' := left.(sec := left.sec - slice.sec);
        MicrosAdd(left', slice);
      }
    } else if timed {
      left' := ZERO;
    }
  }

  /** io_select. A timeout of None is a NULL pointer; otherwise `left` is what the
      caller finds written back. */
  method Select(kernel: Kernel, n: nat, fds: FdSets, timeout: Option<Timeval>, log: Log, pending: set<nat>)
    returns (status: int, left: Timeval)
    requires forall fd | fd in fds.r :: fd < n
    requires log.Spread() && (timeout.Some? || log.On())
    modifies kernel, log, fds
    ensures timeout.Some? ==> kernel.waited + left.Micros() == old(kernel.waited) + timeout.value.Micros()
    ensures timeout.Some? ==> kernel.calls <= old(kernel.calls) + timeout.value.sec + 1
    ensures status == 0 ==> timeout.Some? && left == ZERO
    ensures status < 0 <==> kernel.last < 0
    ensures old(fds.r) * pending != {} ==> kernel.waited == old(kernel.waited) && status != 0
    ensures status >= 0 ==> status == fds.Count() && old(fds.r) * pending <= fds.r
    ensures fds.r <= old(fds.r) && fds.w <= old(fds.w) && fds.e <= old(fds.e)
    ensures log.Spread() && old(log.lines) <= log.lines
    ensures old(log.On()) || unchanged(log)
    ensures old(kernel.times) <= kernel.times && old(kernel.asked) <= kernel.asked
    ensures var times, asked := kernel.times[|old(kernel.times)|..], kernel.asked[|old(kernel.asked)|..];
            && (old(log.On()) ==> Scheduled(old(log.lines), old(log.logTime), log, times, asked))
            && (!old(log.On()) ==> asked == [if old(fds.r) * pending != {} then ZERO else timeout.value])
  {
    hide Timeval.Micros, Scheduled, LinesDue, DueAfter, NeverOverdue, Log.Spread;
    ZeroIsNothing();
    var relog, timed := log.On(), timeout.Some?;
    var r, w, e := fds.r, fds.w, fds.e;
    var internal := ZERO;
    ghost var times: seq<int>, asked: seq<Timeval> := [], [];
    left := if timed then timeout.value else ZERO;
    NothingScheduled(log);
    while true
      invariant timed ==> kernel.waited + left.Micros() == old(kernel.waited) + timeout.value.Micros()
      invariant timed ==> kernel.calls + left.sec <= old(kernel.calls) + timeout.value.sec
      invariant r * pending != {} ==> kernel.waited == old(kernel.waited)
      invariant log.Spread() && old(log.lines) <= log.lines && (relog || unchanged(log))
      invariant kernel.times == old(kernel.times) + times && kernel.asked == old(kernel.asked) + asked
      invariant relog ==> Scheduled(old(log.lines), old(log.logTime), log, times, asked)
      invariant !relog ==> asked == [] && left == timeout.value
      decreases if timed then left.sec else kernel.quiet
    {
      ghost var lines, due := log.lines, log.logTime;
      if relog {
        Schedules(old(log.lines), old(log.logTime), log, times, asked);
      }
      var now;
      internal, left, now := NextSlice(kernel, log, relog, timed, left);
      fds.Restore(r, w, e);
      ghost var slice := if r * pending != {} then ZERO else internal;
      status, internal := SelectPending(kernel, n, fds, internal, pending);
      if relog {
        ScheduleStep(old(log.lines), old(log.logTime), lines, due, log, times, asked, now, slice);
      }
      times, asked := times + [now], asked + [slice];
      if status != 0 || (timed && left == ZERO) {
        break;
      }
    }
    assert kernel.times[|old(kernel.times)|..] == times && kernel.asked[|old(kernel.asked)|..] == asked;
    if timed {
      MicrosAdd(left, internal);
      left := Timeval(left.sec + internal.sec, left.usec + internal.usec);
    }
  }
}
