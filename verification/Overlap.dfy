/** The failure counter under concurrent requests: what each scan of an interleaved run does
    to it, and when a request that ends in 504 has attempted a reset of the port. */
module Overlap {
  import opened Bytes
  import opened Device
  import opened Reader
  import opened ResetCounter
  import opened Ops
  import opened Serialization
  import opened Calls
  import Server

  /** The counters are those of the reader. */
  predicate Agrees(c: Counters, s: Shared<Line>) {
    c.failures == s.failures && c.tried == s.device.tried
  }

  lemma InventoryCounts(env: Environment, line: Line, failures: nat, c: Counters)
    requires Agrees(c, Shared(line, failures))
    ensures var (after, left, tags) := InventoryWithResetRun(env, line, failures);
            var (end, ok) := Count(c, AttemptOf(env, line));
            Agrees(end, Shared(after, left)) && ok == tags.Ok?
  {
    hide InventoryRun;
    var first := InventoryRun(env, line).0;
    InventoryReads(env, line);
    InventoryReads(env, Reopened(env, first).0);
  }

  /** An operation moves the reader's counters as the accounting says: a scan is an attempt,
      the others leave them. */
  lemma OperationCounts(env: Environment, op: Operation, s: Shared<Line>, c: Counters)
    requires Agrees(c, s)
    ensures var (after, answer) := OperationRun(env, op, s);
            if op.Scanning? then
              var (end, ok) := Count(c, AttemptOf(env, s.device));
              Agrees(end, after) && answer.Scanned? && answer.tags.Ok? == ok
            else Agrees(c, after)
  {
    hide InventoryWithResetRun, ScanTagsRun, AttemptOf, ProgramRun, SecureRun, Count;
    match op {
      case Scanning =>
        InventoryCounts(env, s.device, s.failures, c);
        ScanKeepsPort(env, s.device, s.failures);
      case Programming(ops) => ProgramKeepsPort(env, s.device, ops, NO_ERRORS);
      case Securing(ops) => SecureKeepsPort(env, s.device, ops);
    }
  }

  /** The attempts that some turns made. */
  function Attempts(env: Environment, ops: seq<Operation>, turns: seq<Turn>, states: seq<Shared<Line>>): seq<Attempt>
    requires |states| > |turns| && forall i :: 0 <= i < |turns| ==> turns[i].thread < |ops|
    decreases |turns|
  {
    if turns == [] then []
    else
      var n := |turns| - 1;
      Attempts(env, ops, turns[..n], states)
      + if ops[turns[n].thread].Scanning? then [AttemptOf(env, states[n].device)] else []
  }

  lemma InTurnNames(env: Environment, ops: seq<Operation>, turns: seq<Turn>, states: seq<Shared<Line>>,
                    answers: seq<Answer>)
    requires InTurn(env, ops, turns, states, answers)
    ensures |states| == |turns| + 1 && |answers| == |turns|
    ensures forall i :: 0 <= i < |turns| ==> turns[i].thread < |ops|
  {}

  /** A turn in any interleaved run is what its operation does. */
  lemma TurnRuns(env: Environment, ops: seq<Operation>, turns: seq<Turn>, states: seq<Shared<Line>>,
                 answers: seq<Answer>, m: nat, c: Counters)
    requires InTurn(env, ops, turns, states, answers) && m < |turns| && Agrees(c, states[m])
    ensures turns[m].thread < |ops|
    ensures if ops[turns[m].thread].Scanning? then
              var (end, ok) := Count(c, AttemptOf(env, states[m].device));
              Agrees(end, states[m + 1]) && answers[m].Scanned? && answers[m].tags.Ok? == ok
            else Agrees(c, states[m + 1])
  {
    hide OperationRun, Promised, AttemptOf, Count, Agrees;
    assert turns[m].thread < |ops|;
    assert (states[m + 1], answers[m]) == OperationRun(env, ops[turns[m].thread], states[m]);
    OperationCounts(env, ops[turns[m].thread], states[m], c);
  }

  /** Over any interleaved run the reader's counters are those after the attempts of its
      scans in lock order. */
  lemma {:induction false} TurnsCount(env: Environment, ops: seq<Operation>, turns: seq<Turn>,
                                      states: seq<Shared<Line>>, answers: seq<Answer>, c: Counters, m: nat)
    requires InTurn(env, ops, turns, states, answers) && Agrees(c, states[0]) && m <= |turns|
    ensures Agrees(Server.After(c, Attempts(env, ops, turns[..m], states)), states[m])
    decreases m
  {
    hide InTurn, AttemptOf, Count, Agrees;
    InTurnNames(env, ops, turns, states, answers);
    if m > 0 {
      var n, before := m - 1, Attempts(env, ops, turns[..m - 1], states);
      TurnsCount(env, ops, turns, states, answers, c, n);
      assert turns[..m][..n] == turns[..n] && turns[..m][n] == turns[n];
      TurnRuns(env, ops, turns, states, answers, n, Server.After(c, before));
      var all := Attempts(env, ops, turns[..m], states);
      if ops[turns[n].thread].Scanning? {
        assert all == before + [AttemptOf(env, states[n].device)] && all[..|before|] == before;
      } else {
        assert all == before;
      }
    }
  }

  /** The m-th turn was a scan that delivered no tags. */
  predicate FailedScan(ops: seq<Operation>, turns: seq<Turn>, answers: seq<Answer>, m: nat) {
    m < |turns| == |answers| && turns[m].thread < |ops| && ops[turns[m].thread].Scanning?
    && answers[m] == Scanned(Err)
  }

  /** The three tries of a request that ends in 504; other operations may come in between. */
  predicate TimedOut(ops: seq<Operation>, turns: seq<Turn>, answers: seq<Answer>, i: nat, j: nat, k: nat) {
    i < j < k
    && FailedScan(ops, turns, answers, i) && FailedScan(ops, turns, answers, j) && FailedScan(ops, turns, answers, k)
  }

  /** A turn was a scan whose first inventory succeeded. */
  predicate FirstSucceeds(env: Environment, ops: seq<Operation>, turns: seq<Turn>, states: seq<Shared<Line>>, m: nat)
    requires m < |turns| < |states| && turns[m].thread < |ops|
  {
    ops[turns[m].thread].Scanning? && AttemptOf(env, states[m].device).first
  }

  /** In any interleaved run a scan that fails attempts a reset of the port exactly if it
      found the failure counter at two or more. */
  lemma FailedScanResets(env: Environment, ops: seq<Operation>, turns: seq<Turn>, states: seq<Shared<Line>>,
                         answers: seq<Answer>, m: nat)
    requires InTurn(env, ops, turns, states, answers) && FailedScan(ops, turns, answers, m)
    ensures states[m + 1].device.tried > states[m].device.tried <==> states[m].failures >= 2
    ensures states[m + 1].device.tried == states[m].device.tried ==> states[m + 1].failures == states[m].failures + 1
  {
    hide InTurn, AttemptOf;
    InTurnNames(env, ops, turns, states, answers);
    TurnRuns(env, ops, turns, states, answers, m, Counters(states[m].failures, states[m].device.tried, 0, 0));
  }

  lemma {:induction false} FailuresKept(env: Environment, ops: seq<Operation>, turns: seq<Turn>,
                                        states: seq<Shared<Line>>, answers: seq<Answer>, i: nat, n: nat)
    requires InTurn(env, ops, turns, states, answers) && i <= n <= |turns|
    requires forall m :: i <= m < n ==> !FirstSucceeds(env, ops, turns, states, m)
    ensures states[n].device.tried >= states[i].device.tried
    ensures states[n].device.tried == states[i].device.tried ==> states[n].failures >= states[i].failures
    decreases n
  {
    hide InTurn, AttemptOf;
    InTurnNames(env, ops, turns, states, answers);
    if i < n {
      FailuresKept(env, ops, turns, states, answers, i, n - 1);
      var m := n - 1;
      TurnRuns(env, ops, turns, states, answers, m, Counters(states[m].failures, states[m].device.tried, 0, 0));
      assert !FirstSucceeds(env, ops, turns, states, m);
    }
  }

  /** Whatever other operations come between the three failed scans of a request, as long as
      no scan's first inventory succeeds among them the port is tried to be reset before the
      request ends in 504. */
  lemma UnbrokenTimeout(env: Environment, ops: seq<Operation>, turns: seq<Turn>, states: seq<Shared<Line>>,
                        answers: seq<Answer>, i: nat, j: nat, k: nat)
    requires InTurn(env, ops, turns, states, answers) && TimedOut(ops, turns, answers, i, j, k)
    requires forall m :: i <= m <= k ==> !FirstSucceeds(env, ops, turns, states, m)
    ensures states[k + 1].device.tried > states[i].device.tried
  {
    hide InTurn, FirstSucceeds;
    InTurnNames(env, ops, turns, states, answers);
    FailedScanResets(env, ops, turns, states, answers, i);
    FailuresKept(env, ops, turns, states, answers, i, i + 1);
    FailuresKept(env, ops, turns, states, answers, i + 1, j);
    FailedScanResets(env, ops, turns, states, answers, j);
    FailuresKept(env, ops, turns, states, answers, j, j + 1);
    FailuresKept(env, ops, turns, states, answers, j + 1, k);
    FailedScanResets(env, ops, turns, states, answers, k);
    FailuresKept(env, ops, turns, states, answers, k, k + 1);
    assert states[i + 1].device.tried == states[i].device.tried ==> states[i + 1].failures >= 1;
    assert states[j + 1].device.tried == states[i].device.tried ==> states[j + 1].failures >= 2;
    assert states[k].device.tried == states[i].device.tried ==> states[k].failures >= 2;
  }

  // ---------------------------------------------------------------- a timeout without a reset

  /** Every second command is lost, beginning with the first. */
  function EverySecondLost(): Environment {
    Environment(n => if n % 2 == 0 then LostCommand else FAITHFUL, n => true)
  }

  /** Nothing on the pad, so that a scan is a single command. */
  function EmptyPad(turn: nat, failures: nat): Shared<Line> {
    Shared(Line(Pad([], map[]), turn, 0, true), failures)
  }

  lemma LostInventory(env: Environment, line: Line)
    requires env.faults(line.turn) == LostCommand
    ensures InventoryRun(env, line) == (line.(turn := line.turn + 1), Err)
  {}

  lemma EmptyPadScan(turn: nat, failures: nat)
    requires turn % 2 == 0 ==> failures == 0
    ensures OperationRun(EverySecondLost(), Scanning, EmptyPad(turn, failures))
         == if turn % 2 == 0 then (EmptyPad(turn + 1, 1), Scanned(Err))
            else (EmptyPad(turn + 1, 0), Scanned(Ok([])))
  {
    hide InventoryRun;
    var env, line := EverySecondLost(), EmptyPad(turn, failures).device;
    InventoryReads(env, line);
    assert Names(line.pad) == [];
    if turn % 2 == 0 {
      LostInventory(env, line);
    }
  }

  lemma EmptyPadUntried(turn: nat, failures: nat)
    ensures EmptyPad(turn, failures).device.tried == 0
  {}

  /** Three requests on the reader: the tries of the first fail, and between them the other
      two succeed. The first ends in 504 and nobody ever tried to reset the port. */
  lemma OverlappedTimeout() returns (ops: seq<Operation>, turns: seq<Turn>, states: seq<Shared<Line>>,
                                     answers: seq<Answer>)
    ensures InTurn(EverySecondLost(), ops, turns, states, answers) && |turns| == 5
    ensures TimedOut(ops, turns, answers, 0, 2, 4)
    ensures states[0] == EmptyPad(0, 0) && states[5].device.tried == 0
  {
    hide OperationRun, Promised, EmptyPad;
    var env, lost, found := EverySecondLost(), Scanned(Err), Scanned(Ok([]));
    ops := [Scanning, Scanning, Scanning, Scanning, Scanning];
    turns := [Turn(0, 1), Turn(1, 1), Turn(2, 1), Turn(3, 1), Turn(4, 1)];
    states := [EmptyPad(0, 0), EmptyPad(1, 1), EmptyPad(2, 0), EmptyPad(3, 1), EmptyPad(4, 0), EmptyPad(5, 1)];
    answers := [lost, found, lost, found, lost];
    EmptyPadScan(0, 0);
    EmptyPadScan(1, 1);
    EmptyPadScan(2, 0);
    EmptyPadScan(3, 1);
    EmptyPadScan(4, 0);
    forall i | 0 <= i < 5 ensures Promised(env, Scanning, states[i], states[i + 1], answers[i]) {
      OperationKeepsPromise(env, Scanning, states[i]);
    }
    EmptyPadUntried(5, 1);
  }

  // ---------------------------------------------------------------- accounting

  /** The scans among some turns. */
  function Scans(ops: seq<Operation>, turns: seq<Turn>): nat
    requires forall i :: 0 <= i < |turns| ==> turns[i].thread < |ops|
  {
    if turns == [] then 0
    else Scans(ops, turns[..|turns| - 1]) + if ops[turns[|turns| - 1].thread].Scanning? then 1 else 0
  }

  lemma AttemptReopens(env: Environment, line: Line)
    requires Server.AlwaysReopens(env.reopens)
    ensures AttemptOf(env, line).reopen
  {
    hide InventoryRun;
    assert env.reopens(InventoryRun(env, line).0.tried);
  }

  lemma {:induction false} AttemptsReopen(env: Environment, ops: seq<Operation>, turns: seq<Turn>,
                                          states: seq<Shared<Line>>)
    requires |states| > |turns| && forall i :: 0 <= i < |turns| ==> turns[i].thread < |ops|
    requires Server.AlwaysReopens(env.reopens)
    ensures |Attempts(env, ops, turns, states)| == Scans(ops, turns)
    ensures forall a :: a in Attempts(env, ops, turns, states) ==> a.reopen
    decreases |turns|
  {
    hide AttemptOf;
    if turns != [] {
      var n := |turns| - 1;
      AttemptsReopen(env, ops, turns[..n], states);
      AttemptReopens(env, states[n].device);
    }
  }

  /** In any interleaving of any operations from a fresh reader, as long as the port can
      always be reopened: whenever nobody holds the mutex the counter is below three, and each
      attempt to reset the port answers three failed scans of its own. */
  lemma {:induction false} InterleavedAccounting(env: Environment, ops: seq<Operation>, start: Shared<Line>,
                                                 schedule: seq<nat>)
    requires forall i :: 0 <= i < |schedule| ==> schedule[i] < |ops|
    requires Server.AlwaysReopens(env.reopens) && start.failures == 0 && start.device.tried == 0
    ensures var s := Run(FarEnd(env), CallsOf(ops), Initial(CallsOf(ops), start), schedule);
            (forall i :: 0 <= i < |s.history| ==> s.history[i].thread < |ops|)
            && (s.holder.None? ==>
                  s.shared.failures < 3
                  && 3 * s.shared.device.tried + s.shared.failures <= Scans(ops, s.history))
  {
    hide Run, CallsOf, InTurn, HaveResults, InHistory, Attempts, Scans;
    var s := Run(FarEnd(env), CallsOf(ops), Initial(CallsOf(ops), start), schedule);
    var states, answers := OperationsAreSerial(env, ops, start, schedule);
    InTurnNames(env, ops, s.history, states, answers);
    TurnsCount(env, ops, s.history, states, answers, START, |s.history|);
    assert s.history[..|s.history|] == s.history;
    var all := Attempts(env, ops, s.history, states);
    AttemptsReopen(env, ops, s.history, states);
    Server.ResetAccounting(all);
    Server.FailedFirstExact(all);
  }
}
