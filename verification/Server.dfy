/** The /scan/ handler of the server and the accounting of port resets. */
module Server {
  import opened Bytes
  import opened Device
  import opened Reader
  import opened ResetCounter
  import opened Ops

  /** The counters after some attempts, one after the other. */
  function After(c: Counters, attempts: seq<Attempt>): Counters {
    if attempts == [] then c
    else Count(After(c, attempts[..|attempts| - 1]), attempts[|attempts| - 1]).0
  }

  ghost predicate AllFailed(c: Counters, attempts: seq<Attempt>) {
    forall i :: 0 <= i < |attempts| ==> !Count(After(c, attempts[..i]), attempts[i]).1
  }

  /** A request tries at most three times and stops at the first success; it ends in 504
      when the last of three tries failed. */
  ghost predicate Request(c: Counters, attempts: seq<Attempt>, status: int) {
    if status == 504 then |attempts| == 3 && AllFailed(c, attempts)
    else
      status == 200 && 1 <= |attempts| <= 3
      && var last := |attempts| - 1;
         AllFailed(c, attempts[..last]) && Count(After(c, attempts[..last]), attempts[last]).1
  }

  /** The attempts met the port as the environment has it: whether it could be reopened
      each time that was tried. */
  ghost predicate Met(reopens: nat -> bool, c: Counters, attempts: seq<Attempt>) {
    forall i :: 0 <= i < |attempts| ==> attempts[i].reopen == reopens(After(c, attempts[..i]).tried)
  }

  ghost predicate AlwaysReopens(reopens: nat -> bool) {
    forall n :: reopens(n)
  }

  // ---------------------------------------------------------------- one request

  lemma {:induction false} UnfoldThree(c: Counters, a: seq<Attempt>)
    requires |a| == 3
    ensures After(c, a[..0]) == c
    ensures After(c, a[..1]) == Count(c, a[0]).0
    ensures After(c, a[..2]) == Count(After(c, a[..1]), a[1]).0
    ensures After(c, a) == Count(After(c, a[..2]), a[2]).0
  {
    assert a[..1][..0] == a[..0] && a[..2][..1] == a[..1];
  }

  /** A request whose tries follow each other on the counter, no other request's coming in
      between, never ends in 504 without at least one attempt to reset the port. */
  lemma {:induction false} TimeoutAttemptedReset(c: Counters, attempts: seq<Attempt>)
    requires Request(c, attempts, 504)
    ensures After(c, attempts).tried >= c.tried + 1
  {
    UnfoldThree(c, attempts);
    assert attempts[..3] == attempts;
  }

  /** Three first tries failed, the last one included. */
  predicate ThreeFailed(attempts: seq<Attempt>) {
    |attempts| == 3 && !attempts[2].first
  }

  /** If every reset succeeds, a request that starts with the counter at zero leaves it at
      zero, and makes one reset exactly if its three first tries failed; a 504 has. */
  lemma {:induction false} RequestFromZero(c: Counters, attempts: seq<Attempt>, status: int)
    requires Request(c, attempts, status) && c.failures == 0
    requires forall i :: 0 <= i < |attempts| ==> attempts[i].reopen
    ensures var end := After(c, attempts);
            end.failures == 0 && end.reopened - c.reopened == end.tried - c.tried
            && end.reopened == c.reopened + (if ThreeFailed(attempts) then 1 else 0)
    ensures status == 504 ==> ThreeFailed(attempts)
  {
    assert attempts[..|attempts|] == attempts;
    if |attempts| == 3 {
      UnfoldThree(c, attempts);
    } else if |attempts| == 2 {
      assert attempts[..2][..1] == attempts[..1];
      assert attempts[..1][..0] == [];
    } else {
      assert attempts[..0] == [];
    }
  }

  /** The counters moved from one request's start to its end, a 504 having made exactly one
      reset. */
  predicate FromZero(c: Counters, end: Counters, status: int) {
    end.failures == 0 && end.tried - c.tried == end.reopened - c.reopened
    && (if status == 504 then end.reopened == c.reopened + 1
        else c.reopened <= end.reopened <= c.reopened + 1)
  }

  /** The request of a handler whose port can always be reopened. */
  lemma {:induction false} MetFromZero(reopens: nat -> bool, c: Counters, attempts: seq<Attempt>, status: int)
    requires Request(c, attempts, status) && Met(reopens, c, attempts)
    requires AlwaysReopens(reopens) && c.failures == 0
    ensures FromZero(c, After(c, attempts), status)
  {
    RequestFromZero(c, attempts, status);
  }

  lemma {:induction false} MetOneMore(reopens: nat -> bool, c: Counters, attempts: seq<Attempt>, more: Attempt)
    requires Met(reopens, c, attempts) && more.reopen == reopens(After(c, attempts).tried)
    ensures Met(reopens, c, attempts + [more])
  {
    var all := attempts + [more];
    forall i | 0 <= i < |all| ensures all[i].reopen == reopens(After(c, all[..i]).tried) {
      assert all[..i] == if i < |attempts| then attempts[..i] else attempts;
    }
  }

  lemma NoAttempts(reopens: nat -> bool, c: Counters)
    ensures Met(reopens, c, []) && AllFailed(c, [])
  {}

  lemma ThreeAttempts(c: Counters, attempts: seq<Attempt>)
    requires |attempts| == 3 && AllFailed(c, attempts)
    ensures Request(c, attempts, 504)
  {}

  /** One more attempt after some that failed. */
  lemma {:induction false} AttemptMore(reopens: nat -> bool, c: Counters, attempts: seq<Attempt>, more: Attempt)
    requires AllFailed(c, attempts) && Met(reopens, c, attempts) && |attempts| < 3
    requires more.reopen == reopens(After(c, attempts).tried)
    ensures var (end, ok) := Count(After(c, attempts), more);
            After(c, attempts + [more]) == end && Met(reopens, c, attempts + [more])
            && (if ok then Request(c, attempts + [more], 200) else AllFailed(c, attempts + [more]))
  {
    hide Count;
    var all := attempts + [more];
    MetOneMore(reopens, c, attempts, more);
    assert all[..|attempts|] == attempts;
    assert forall i :: 0 <= i < |attempts| ==> all[..i] == attempts[..i];
  }

  // ---------------------------------------------------------------- what the line does

  /** The attempts are scans made one after the other, with the line before, between and
      after them. */
  ghost predicate Made(env: Environment, c: Counters, lines: seq<Line>, attempts: seq<Attempt>) {
    |lines| == |attempts| + 1
    && forall i :: 0 <= i < |attempts| ==>
         attempts[i] == AttemptOf(env, lines[i])
         && lines[i + 1] == ScanRun(env, lines[i], After(c, attempts[..i]).failures).0
  }

  lemma {:induction false} MadeOneMore(env: Environment, c: Counters, lines: seq<Line>, attempts: seq<Attempt>)
    requires Made(env, c, lines, attempts)
    ensures var line := lines[|attempts|];
            Made(env, c, lines + [ScanRun(env, line, After(c, attempts).failures).0],
                 attempts + [AttemptOf(env, line)])
  {
    hide ScanRun, AttemptOf, After;
    var line, n := lines[|attempts|], |attempts|;
    var more, all := lines + [ScanRun(env, line, After(c, attempts).failures).0], attempts + [AttemptOf(env, line)];
    forall i | 0 <= i < |all|
      ensures all[i] == AttemptOf(env, more[i]) && more[i + 1] == ScanRun(env, more[i], After(c, all[..i]).failures).0
    {
      assert all[..i] == if i < n then attempts[..i] else attempts;
    }
  }

  /** How an attempt turns out is how the line answers its one or two commands. */
  lemma AttemptExact(env: Environment, line: Line)
    ensures var attempt := AttemptOf(env, line);
            (attempt.first <==> Clean(env, line)) && attempt.reopen == env.reopens(line.tried)
            && (attempt.reopen ==> (attempt.second <==> env.faults(line.turn + 1).Delivered?))
  {
    hide InventoryRun;
    InventoryReads(env, line);
    InventoryReads(env, Reopened(env, InventoryRun(env, line).0).0);
  }

  /** A scan whose inventory is not answered, and not yet the third, sends nothing else. */
  lemma ScanUnanswered(env: Environment, line: Line, failures: nat)
    requires !Clean(env, line) && failures < 2
    ensures ScanRun(env, line, failures).0 == line.(turn := line.turn + 1)
  {
    hide InventoryWithResetRun, ScanTagsRun;
    RecoveryExact(env, line, failures);
  }

  /** A command gets no usable response. */
  predicate Unanswered(env: Environment, n: nat) {
    !env.faults(n).Delivered?
  }

  /** What a request with the counter at zero and the port open sends before it gives up. */
  predicate AllUnanswered(env: Environment, line: Line) {
    Unanswered(env, line.turn) && Unanswered(env, line.turn + 1) && Unanswered(env, line.turn + 2)
    && (env.reopens(line.tried) ==> Unanswered(env, line.turn + 3))
  }

  lemma {:induction false} AfterOne(c: Counters, all: seq<Attempt>, m: nat)
    requires m < |all|
    ensures After(c, all[..m + 1]) == Count(After(c, all[..m]), all[m]).0
  {
    assert all[..m + 1][..m] == all[..m];
  }

  /** An attempt with the counter below two succeeds exactly if the line is clean; else the
      next starts one command later. */
  lemma {:induction false} EarlyAttempt(env: Environment, c: Counters, lines: seq<Line>, attempts: seq<Attempt>, i: nat)
    requires Made(env, c, lines, attempts) && i < |attempts| && After(c, attempts[..i]).failures < 2
    ensures var before := After(c, attempts[..i]);
            Count(before, attempts[i]).1 == attempts[i].first == Clean(env, lines[i])
            && (!attempts[i].first ==>
                  lines[i + 1] == lines[i].(turn := lines[i].turn + 1)
                  && Count(before, attempts[i]).0.failures == before.failures + 1)
  {
    hide ScanRun, AttemptOf, After;
    AttemptExact(env, lines[i]);
    if !Clean(env, lines[i]) {
      ScanUnanswered(env, lines[i], After(c, attempts[..i]).failures);
    }
  }

  lemma {:induction false} PrefixZero(c: Counters, attempts: seq<Attempt>)
    ensures After(c, attempts[..0]) == c
  {}

  /** The third attempt has a reset and a second try. */
  lemma ThirdAttempt(c: Counters, a: Attempt)
    requires c.failures == 2
    ensures Count(c, a).1 <==> a.first || (a.reopen && a.second)
  {}

  /** An attempt of a request that fails is followed by another or is the third; one that
      succeeds is the last. */
  lemma {:induction false} LastOrFailed(c: Counters, attempts: seq<Attempt>, status: int, i: nat)
    requires Request(c, attempts, status) && i < |attempts|
    ensures var ok := Count(After(c, attempts[..i]), attempts[i]).1;
            if ok then status == 200 && |attempts| == i + 1
            else if i < 2 then |attempts| > i + 1 else status == 504
  {
    hide Count, After;
    assert attempts[..i] == attempts[..|attempts| - 1][..i] || i == |attempts| - 1;
  }

  /** Alone on an open line with the counter at zero, a request ends in 504 exactly if three
      inventories in a row are not answered and the reset then fails or its inventory is not
      answered either. */
  lemma {:induction false} TimeoutExact(env: Environment, c: Counters, lines: seq<Line>, attempts: seq<Attempt>,
                                        status: int)
    requires Request(c, attempts, status) && Made(env, c, lines, attempts)
    requires c.failures == 0 && lines[0].open
    ensures status == 504 <==> AllUnanswered(env, lines[0])
  {
    hide AttemptOf, ScanRun, After, Count;
    PrefixZero(c, attempts);
    EarlyAttempt(env, c, lines, attempts, 0);
    LastOrFailed(c, attempts, status, 0);
    if !attempts[0].first {
      AfterOne(c, attempts, 0);
      EarlyAttempt(env, c, lines, attempts, 1);
      LastOrFailed(c, attempts, status, 1);
      if !attempts[1].first {
        AfterOne(c, attempts, 1);
        AttemptExact(env, lines[2]);
        ThirdAttempt(After(c, attempts[..2]), attempts[2]);
        LastOrFailed(c, attempts, status, 2);
      }
    }
  }

  /** A request alone on the reader. */
  method HandleScan(reader: Reader)
    returns (status: int, tags: seq<TagInfo>, ghost attempts: seq<Attempt>, ghost base: nat, ghost lines: seq<Line>)
    requires reader.Valid() && !reader.locked
    modifies reader, reader.port
    ensures reader.Valid() && !reader.locked && reader.line.pad == old(reader.line.pad)
    ensures Request(old(reader.counters), attempts, status)
    ensures Met(reader.env.reopens, old(reader.counters), attempts)
    ensures Made(reader.env, old(reader.counters), lines, attempts)
    ensures lines[0] == old(reader.line) && lines[|attempts|] == reader.line
    ensures reader.counters == After(old(reader.counters), attempts)
    ensures old(reader.line.open) && old(reader.counters).failures == 0 ==>
              (status == 504 <==> AllUnanswered(reader.env, old(reader.line)))
    ensures AlwaysReopens(reader.env.reopens) && old(reader.counters).failures == 0 ==>
              FromZero(old(reader.counters), reader.counters, status)
    ensures status == 200 ==> |tags| == |reader.line.pad.order|
                              && Accurate(tags, reader.line.pad, reader.env.faults, base)
    ensures base == ScanBase(reader.env, lines[|attempts| - 1],
                             After(old(reader.counters), attempts[..|attempts| - 1]).failures)
  {
    hide ScanRun, Accurate, Met, AllFailed, Request, FromZero, AttemptOf, ScanBase, AllUnanswered;
    attempts, base, lines := [], 0, [reader.line];
    var result: Result<seq<TagInfo>> := Err;
    NoAttempts(reader.env.reopens, reader.counters);
    for i := 0 to 3
      invariant reader.Valid() && !reader.locked && reader.line.pad == old(reader.line.pad)
      invariant |attempts| == i && result == Err
      invariant reader.counters == After(old(reader.counters), attempts)
      invariant Met(reader.env.reopens, old(reader.counters), attempts)
      invariant AllFailed(old(reader.counters), attempts)
      invariant Made(reader.env, old(reader.counters), lines, attempts) && lines[0] == old(reader.line)
      invariant lines[|attempts|] == reader.line
      invariant i > 0 ==> base == ScanBase(reader.env, lines[i - 1],
                                           After(old(reader.counters), attempts[..i - 1]).failures)
    {
      ghost var attempt: Attempt;
      MadeOneMore(reader.env, old(reader.counters), lines, attempts);
      base := ScanBase(reader.env, reader.line, reader.counters.failures);
      result, attempt := Scan(reader);
      AttemptMore(reader.env.reopens, old(reader.counters), attempts, attempt);
      assert (attempts + [attempt])[..i] == attempts;
      attempts, lines := attempts + [attempt], lines + [reader.line];
      if result.Ok? {
        break;
      }
    }
    status, tags := if result.Err? then 504 else 200, if result.Err? then [] else result.value;
    if result.Err? {
      ThreeAttempts(old(reader.counters), attempts);
    }
    if AlwaysReopens(reader.env.reopens) && old(reader.counters).failures == 0 {
      MetFromZero(reader.env.reopens, old(reader.counters), attempts, status);
    }
    if old(reader.line.open) && old(reader.counters).failures == 0 {
      TimeoutExact(reader.env, old(reader.counters), lines, attempts, status);
    }
  }

  // ---------------------------------------------------------------- many requests

  datatype Handled = Handled(attempts: seq<Attempt>, status: int)

  /** The counters after a run of requests, one after the other. */
  function AfterAll(c: Counters, run: seq<Handled>): Counters {
    if run == [] then c else After(AfterAll(c, run[..|run| - 1]), run[|run| - 1].attempts)
  }

  ghost predicate Requests(reopens: nat -> bool, c: Counters, run: seq<Handled>) {
    run == []
    || var n := |run| - 1;
       Requests(reopens, c, run[..n]) && Request(AfterAll(c, run[..n]), run[n].attempts, run[n].status)
       && Met(reopens, AfterAll(c, run[..n]), run[n].attempts)
  }

  function Timeouts(run: seq<Handled>): nat {
    if run == [] then 0 else Timeouts(run[..|run| - 1]) + if run[|run| - 1].status == 504 then 1 else 0
  }

  /** Requests answered in the end although their three first tries failed: the reset
      helped. */
  function Rescues(run: seq<Handled>): nat {
    if run == [] then 0
    else Rescues(run[..|run| - 1])
         + if run[|run| - 1].status != 504 && ThreeFailed(run[|run| - 1].attempts) then 1 else 0
  }

  /** Over a whole run of requests from a fresh counter with resets that always succeed:
      between requests the counter is zero, and the resets made are exactly one for every
      504 and one for every request that a reset rescued. */
  lemma {:induction false} RunOfRequests(reopens: nat -> bool, c: Counters, run: seq<Handled>)
    requires Requests(reopens, c, run) && c.failures == 0 && AlwaysReopens(reopens)
    ensures var end := AfterAll(c, run);
            end.failures == 0 && end.reopened == c.reopened + Timeouts(run) + Rescues(run)
            && Timeouts(run) + Rescues(run) <= |run|
  {
    hide Request, After;
    if run != [] {
      var n := |run| - 1;
      RunOfRequests(reopens, c, run[..n]);
      RequestFromZero(AfterAll(c, run[..n]), run[n].attempts, run[n].status);
    }
  }

  /** Requests that come one after the other, alone on the reader. */
  method HandleScans(reader: Reader, count: nat) returns (statuses: seq<int>, ghost run: seq<Handled>)
    requires reader.Valid() && !reader.locked
    modifies reader, reader.port
    ensures reader.Valid() && !reader.locked && reader.line.pad == old(reader.line.pad)
    ensures |run| == |statuses| == count
    ensures forall i :: 0 <= i < count ==> run[i].status == statuses[i]
    ensures Requests(reader.env.reopens, old(reader.counters), run)
    ensures reader.counters == AfterAll(old(reader.counters), run)
    ensures AlwaysReopens(reader.env.reopens) && old(reader.counters).failures == 0 ==>
              reader.counters.failures == 0
              && reader.counters.reopened == old(reader.counters).reopened + Timeouts(run) + Rescues(run)
  {
    hide Request, Met, After, FromZero, Accurate, Made, AllUnanswered, ScanBase;
    statuses, run := [], [];
    for i := 0 to count
      invariant reader.Valid() && !reader.locked && reader.line.pad == old(reader.line.pad)
      invariant |run| == |statuses| == i && forall k :: 0 <= k < i ==> run[k].status == statuses[k]
      invariant Requests(reader.env.reopens, old(reader.counters), run)
      invariant reader.counters == AfterAll(old(reader.counters), run)
    {
      ghost var before := run;
      var status, tags, attempts, base, lines := HandleScan(reader);
      statuses, run := statuses + [status], run + [Handled(attempts, status)];
      assert run[..i] == before;
    }
    if AlwaysReopens(reader.env.reopens) && old(reader.counters).failures == 0 {
      RunOfRequests(reader.env.reopens, old(reader.counters), run);
    }
  }

  // ---------------------------------------------------------------- all attempts

  /** In any run of attempts, by whomever they were made, each successful reset answers
      three failed first tries of its own, as long as every reset succeeds. */
  lemma {:induction false} ResetAccounting(attempts: seq<Attempt>)
    requires forall i :: 0 <= i < |attempts| ==> attempts[i].reopen
    ensures var c := After(START, attempts);
            3 * c.reopened + c.failures <= c.failedFirst && c.failures < 3 && c.tried == c.reopened
  {
    if attempts != [] {
      ResetAccounting(attempts[..|attempts| - 1]);
    }
  }

  /** The first tries that failed. */
  ghost function FirstsFailed(attempts: seq<Attempt>): set<nat> {
    set i: nat | i < |attempts| && !attempts[i].first
  }

  /** The accounting counts each first try that failed once. */
  lemma {:induction false} FailedFirstExact(attempts: seq<Attempt>)
    ensures After(START, attempts).failedFirst == |FirstsFailed(attempts)| <= |attempts|
  {
    if attempts != [] {
      var n := |attempts| - 1;
      FailedFirstExact(attempts[..n]);
      assert FirstsFailed(attempts)
          == FirstsFailed(attempts[..n]) + if attempts[n].first then {} else {n};
    }
  }

  /** The m-th attempt reopened the port. */
  predicate ReopenedAt(c: Counters, all: seq<Attempt>, m: nat)
    requires m < |all|
  {
    After(c, all[..m + 1]).reopened > After(c, all[..m]).reopened
  }

  /** The m-th attempt sets the count of failures back. */
  predicate SetsBack(c: Counters, all: seq<Attempt>, m: nat)
    requires m < |all|
  {
    all[m].first || ReopenedAt(c, all, m)
  }

  /** The counter is the number of attempts since the last that sets it back. */
  lemma {:induction false} FailuresExact(attempts: seq<Attempt>, from: nat, n: nat)
    requires from <= n <= |attempts| && (from == 0 || SetsBack(START, attempts, from - 1))
    requires forall m :: from <= m < n ==> !SetsBack(START, attempts, m)
    ensures After(START, attempts[..n]).failures == n - from
    decreases n
  {
    hide After;
    if n > from {
      FailuresExact(attempts, from, n - 1);
      AfterOne(START, attempts, n - 1);
      assert !SetsBack(START, attempts, n - 1);
    } else if n > 0 {
      AfterOne(START, attempts, n - 1);
    } else {
      PrefixZero(START, attempts);
    }
  }

  /** Resets may fail: then the counter stays at three or more and every further failure
      tries again, so a reset that succeeds still answers three failures, one that fails
      at least one. */
  lemma {:induction false} FailedResetsRepeat(attempts: seq<Attempt>)
    ensures var c := After(START, attempts);
            c.reopened <= c.tried
            && 2 * c.reopened + c.tried + (if c.failures < 2 then c.failures else 2) <= c.failedFirst
            && (c.failures >= 3 ==> c.tried > c.reopened)
  {
    if attempts != [] {
      FailedResetsRepeat(attempts[..|attempts| - 1]);
    }
  }

  // ---------------------------------------------------------------- overlapping requests

  /** Of all attempts, by whomever they were made, the m-th delivered no tags. */
  predicate FailedAt(c: Counters, all: seq<Attempt>, m: nat)
    requires m < |all|
  {
    !Count(After(c, all[..m]), all[m]).1
  }

  /** The m-th attempt tried to reset the port. */
  predicate ResetAt(c: Counters, all: seq<Attempt>, m: nat)
    requires m < |all|
  {
    After(c, all[..m + 1]).tried > After(c, all[..m]).tried
  }

  /** The three tries of a request that ended in 504, among all attempts; attempts of other
      requests may come in between. */
  predicate TimedOut(c: Counters, all: seq<Attempt>, i: nat, j: nat, k: nat) {
    i < j < k < |all| && FailedAt(c, all, i) && FailedAt(c, all, j) && FailedAt(c, all, k)
  }

  /** A failed try attempts a reset exactly if it found the counter at two or more. */
  lemma {:induction false} FailedTryResetsExact(c: Counters, all: seq<Attempt>, m: nat)
    requires m < |all| && FailedAt(c, all, m)
    ensures ResetAt(c, all, m) <==> After(c, all[..m]).failures >= 2
  {
    hide After;
    AfterOne(c, all, m);
  }

  /** A 504 went without a reset of its own exactly if each of its three tries found the
      counter below two. */
  lemma {:induction false} TimeoutResetExact(c: Counters, all: seq<Attempt>, i: nat, j: nat, k: nat)
    requires TimedOut(c, all, i, j, k)
    ensures !ResetAt(c, all, i) && !ResetAt(c, all, j) && !ResetAt(c, all, k) <==>
              After(c, all[..i]).failures < 2 && After(c, all[..j]).failures < 2 && After(c, all[..k]).failures < 2
  {
    hide After, ResetAt, FailedAt;
    FailedTryResetsExact(c, all, i);
    FailedTryResetsExact(c, all, j);
    FailedTryResetsExact(c, all, k);
  }

  /** Without a reset and without a first try that succeeds the counter grows at every
      attempt. */
  lemma {:induction false} FailuresGrow(c: Counters, all: seq<Attempt>, i: nat, n: nat)
    requires i <= n <= |all| && forall m :: i <= m < n ==> !all[m].first
    ensures var before, after := After(c, all[..i]), After(c, all[..n]);
            after.tried >= before.tried
            && (after.tried == before.tried ==> after.failures == before.failures + (n - i))
    decreases n
  {
    if i < n {
      FailuresGrow(c, all, i, n - 1);
      AfterOne(c, all, n - 1);
    }
  }

  /** If from the first to the last try of a request that ended in 504 no first try of
      anyone succeeded, the port was tried to be reset meanwhile. */
  lemma {:induction false} UnbrokenTimeoutResets(c: Counters, all: seq<Attempt>, i: nat, j: nat, k: nat)
    requires TimedOut(c, all, i, j, k) && forall m :: i <= m <= k ==> !all[m].first
    ensures After(c, all[..k + 1]).tried > After(c, all[..i]).tried
  {
    FailuresGrow(c, all, i, k);
    AfterOne(c, all, k);
  }

  /** With other requests in between a 504 may go without any attempt to reset the port:
      each success sets the counter back. */
  lemma OverlappedTimeout(failed: Attempt, good: Attempt)
    requires !failed.first && good.first
    ensures var all := [failed, good, failed, good, failed];
            TimedOut(START, all, 0, 2, 4) && After(START, all).tried == 0
  {
    var all := [failed, good, failed, good, failed];
    assert all[..0] == [] && all[..5] == all;
    AfterOne(START, all, 0);
    AfterOne(START, all, 1);
    AfterOne(START, all, 2);
    AfterOne(START, all, 3);
    AfterOne(START, all, 4);
  }
}
