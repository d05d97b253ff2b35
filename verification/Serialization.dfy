/** Concurrent calls on one reader. Each call locks the reader, exchanges commands and
    responses over the one serial port, each command depending on the responses before it,
    and unlocks. Any interleaving of the single steps of any number of calls gives what
    running them one at a time in the order of their locking gives. */
module Serialization {
  import opened Bytes
  import opened Device

  /** What a call asks for: that a command be carried out, or that the port be closed and
      opened again. */
  datatype Request = Transmit(command: Command) | Reopen

  /** What the mutex guards: the far end of the line and the failure counter. */
  datatype Shared<S> = Shared(device: S, failures: nat)

  /** What becomes of a request; an attempt to open the port is answered as well. */
  type Exchange<!S> = (S, Request) -> (S, Reply)

  /** What a call still has to do: make a request and go on as its answer says, lock the
      reader again, or set the failure counter, return and unlock. */
  datatype Talk<R> =
    | Say(request: Request, more: Reply -> Talk<R>)
    | Relock
    | Return(result: R, failures: nat)

  /** A call, given the failure counter that it finds. */
  datatype Call<R> = Call(talk: nat -> Talk<R>)

  datatype Thread<R> =
    | Waiting
    | Inside(found: nat, said: nat, talk: Talk<R>, awaiting: bool)
    | Finished(result: R)

  /** A response on the line, and whose command it answers. */
  datatype Packet = Packet(owner: nat, reply: Reply)

  /** A finished call and the number of requests that it made. */
  datatype Turn = Turn(thread: nat, requests: nat)

  datatype State<S, R> = State(
    shared: Shared<S>, holder: Option<nat>, line: seq<Packet>,
    threads: seq<Thread<R>>, history: seq<Turn>)

  // ---------------------------------------------------------------- interleaved

  /** A call that is inside and makes a request. A response to a command comes over the
      line; opening the port again throws away what is on the line. */
  function Asked<S, R>(exchange: Exchange<S>, s: State<S, R>, t: nat): State<S, R>
    requires t < |s.threads| && s.threads[t].Inside? && s.threads[t].talk.Say?
  {
    var Inside(found, said, talk, _) := s.threads[t];
    var (device, reply) := exchange(s.shared.device, talk.request);
    var after := s.(shared := s.shared.(device := device));
    match talk.request
    case Transmit(_) =>
      after.(line := s.line + [Packet(t, reply)], threads := s.threads[t := Inside(found, said + 1, talk, true)])
    case Reopen =>
      after.(line := [], threads := s.threads[t := Inside(found, said + 1, talk.more(reply), false)])
  }

  function Step<S, R>(exchange: Exchange<S>, calls: seq<Call<R>>, s: State<S, R>, t: nat): Option<State<S, R>>
    requires |s.threads| == |calls| && t < |calls|
  {
    match s.threads[t]
    case Waiting =>
      if s.holder.Some? then None
      else
        var found := s.shared.failures;
        Some(s.(holder := Some(t), threads := s.threads[t := Inside(found, 0, calls[t].talk(found), false)]))
    case Inside(found, said, talk, true) =>
      if s.line == [] || !talk.Say? then None
      else Some(s.(line := s.line[1..],
                   threads := s.threads[t := Inside(found, said, talk.more(s.line[0].reply), false)]))
    case Inside(found, said, talk, false) =>
      (match talk
       case Say(_, _) => Some(Asked(exchange, s, t))
       case Relock => None
       case Return(result, failures) =>
         Some(s.(shared := s.shared.(failures := failures), holder := None,
                 threads := s.threads[t := Finished(result)],
                 history := s.history + [Turn(t, said)])))
    case Finished(_) => None
  }

  /** The state after a schedule; a thread that cannot step when it is its turn waits. */
  function Run<S, R>(exchange: Exchange<S>, calls: seq<Call<R>>, s: State<S, R>, schedule: seq<nat>)
    : (r: State<S, R>)
    requires |s.threads| == |calls|
    requires forall i :: 0 <= i < |schedule| ==> schedule[i] < |calls|
    ensures |r.threads| == |calls|
    decreases |schedule|
  {
    if schedule == [] then s
    else
      var before := Run(exchange, calls, s, schedule[..|schedule| - 1]);
      match Step(exchange, calls, before, schedule[|schedule| - 1])
      case Some(after) => after
      case None => before
  }

  function Initial<S, R>(calls: seq<Call<R>>, shared: Shared<S>): State<S, R> {
    State(shared, None, [], seq(|calls|, _ => Waiting), [])
  }

  // ---------------------------------------------------------------- one at a time

  /** A talk alone on the reader, after at most n requests: what it left and what it still
      has to do. */
  function Played<S, R>(exchange: Exchange<S>, talk: Talk<R>, device: S, n: nat): (S, Talk<R>) {
    if n == 0 then (device, talk)
    else
      var (before, rest) := Played(exchange, talk, device, n - 1);
      match rest
      case Say(request, more) => var (after, reply) := exchange(before, request); (after, more(reply))
      case _ => (before, rest)
  }

  /** A call alone from beginning to end, if it returns after n requests. */
  function Complete<S, R>(exchange: Exchange<S>, call: Call<R>, s: Shared<S>, n: nat): Option<(Shared<S>, R)> {
    var (after, rest) := Played(exchange, call.talk(s.failures), s.device, n);
    match rest
    case Return(result, failures) => Some((Shared(after, failures), result))
    case _ => None
  }

  /** Calls one after the other: what they leave and their results. */
  function Serial<S, R>(exchange: Exchange<S>, calls: seq<Call<R>>, s: Shared<S>, turns: seq<Turn>)
    : (r: Option<(Shared<S>, seq<R>)>)
    requires forall i :: 0 <= i < |turns| ==> turns[i].thread < |calls|
    ensures r.Some? ==> |r.value.1| == |turns|
    decreases |turns|
  {
    if turns == [] then Some((s, []))
    else
      var last := turns[|turns| - 1];
      match Serial(exchange, calls, s, turns[..|turns| - 1])
      case None => None
      case Some((before, results)) =>
        match Complete(exchange, calls[last.thread], before, last.requests)
        case None => None
        case Some((after, result)) => Some((after, results + [result]))
  }

  // ---------------------------------------------------------------- the invariant

  predicate InHistory(history: seq<Turn>, t: nat) {
    exists i :: 0 <= i < |history| && history[i].thread == t
  }

  /** The history names every finished call once and no other. */
  ghost predicate HistoryOk<S, R>(calls: seq<Call<R>>, s: State<S, R>)
    requires |s.threads| == |calls|
  {
    (forall i :: 0 <= i < |s.history| ==>
       s.history[i].thread < |calls| && s.threads[s.history[i].thread].Finished?)
    && (forall i, j :: 0 <= i < j < |s.history| ==> s.history[i].thread != s.history[j].thread)
    && (forall t :: 0 <= t < |calls| && s.threads[t].Finished? ==> InHistory(s.history, t))
  }

  ghost predicate HaveResults<R>(threads: seq<Thread<R>>, history: seq<Turn>, results: seq<R>) {
    |results| == |history|
    && forall i :: 0 <= i < |history| ==>
         history[i].thread < |threads| && threads[history[i].thread] == Finished(results[i])
  }

  /** The finished calls have their serial results. */
  ghost predicate ResultsOk<S, R>(exchange: Exchange<S>, calls: seq<Call<R>>, start: Shared<S>, s: State<S, R>)
    requires |s.threads| == |calls| && HistoryOk(calls, s)
  {
    var serial := Serial(exchange, calls, start, s.history);
    serial.Some? && HaveResults(s.threads, s.history, serial.value.1)
  }

  ghost predicate Holding<S, R>(exchange: Exchange<S>, call: Call<R>, base: Shared<S>, s: State<S, R>, t: nat)
    requires t < |s.threads|
  {
    s.threads[t].Inside? && s.threads[t].found == base.failures == s.shared.failures
    && var Inside(found, said, talk, awaiting) := s.threads[t];
       var played := Played(exchange, call.talk(found), base.device, said);
       if awaiting
       then talk.Say? && |s.line| == 1 && s.line[0].owner == t
            && played == (s.shared.device, talk.more(s.line[0].reply))
       else s.line == [] && played == (s.shared.device, talk)
  }

  /** The finished calls are those of the history, with their serial results; the one
      inside, if any, is where it would be alone; only its responses are on the line. */
  ghost predicate Serialized<S, R>(exchange: Exchange<S>, calls: seq<Call<R>>, start: Shared<S>, s: State<S, R>)
    requires |s.threads| == |calls|
  {
    HistoryOk(calls, s) && ResultsOk(exchange, calls, start, s)
    && (forall t :: 0 <= t < |calls| && s.threads[t].Inside? ==> s.holder == Some(t))
    && var base := Serial(exchange, calls, start, s.history).value.0;
       match s.holder
       case None => s.line == [] && s.shared == base
       case Some(t) => t < |calls| && Holding(exchange, calls[t], base, s, t)
  }

  lemma LockSerialized<S, R>(exchange: Exchange<S>, calls: seq<Call<R>>, start: Shared<S>,
                             s: State<S, R>, t: nat)
    requires |s.threads| == |calls| && t < |calls| && Serialized(exchange, calls, start, s)
    requires s.threads[t].Waiting? && s.holder.None?
    ensures Serialized(exchange, calls, start, Step(exchange, calls, s, t).value)
  {
    hide Serial, InHistory;
  }

  lemma ReceiveSerialized<S, R>(exchange: Exchange<S>, calls: seq<Call<R>>, start: Shared<S>,
                                s: State<S, R>, t: nat)
    requires |s.threads| == |calls| && t < |calls| && Serialized(exchange, calls, start, s)
    requires s.threads[t].Inside? && s.threads[t].awaiting
    ensures Step(exchange, calls, s, t).Some?
    ensures Serialized(exchange, calls, start, Step(exchange, calls, s, t).value)
  {
    hide Serial, InHistory, Played;
  }

  lemma AskSerialized<S, R>(exchange: Exchange<S>, calls: seq<Call<R>>, start: Shared<S>,
                            s: State<S, R>, t: nat)
    requires |s.threads| == |calls| && t < |calls| && Serialized(exchange, calls, start, s)
    requires s.threads[t].Inside? && !s.threads[t].awaiting && s.threads[t].talk.Say?
    ensures Serialized(exchange, calls, start, Step(exchange, calls, s, t).value)
  {
    hide Serial, InHistory;
    var base := Serial(exchange, calls, start, s.history).value.0;
    assert Holding(exchange, calls[t], base, Asked(exchange, s, t), t);
  }

  lemma ReturnHistory<S, R>(calls: seq<Call<R>>, s: State<S, R>, after: State<S, R>, t: nat, n: nat, result: R)
    requires |s.threads| == |calls| && t < |calls| && HistoryOk(calls, s) && s.threads[t].Inside?
    requires after.threads == s.threads[t := Finished(result)] && after.history == s.history + [Turn(t, n)]
    ensures HistoryOk(calls, after)
  {
    forall i | 0 <= i < |s.history| ensures s.history[i].thread != t {
      assert s.threads[s.history[i].thread].Finished?;
    }
    forall u | 0 <= u < |calls| && after.threads[u].Finished? ensures InHistory(after.history, u) {
      if u == t {
        assert after.history[|s.history|].thread == u;
      } else {
        assert InHistory(s.history, u);
        var i :| 0 <= i < |s.history| && s.history[i].thread == u;
        assert after.history[i].thread == u;
      }
    }
  }

  /** The serial run, one call longer. */
  lemma {:induction false} SerialMore<S, R>(exchange: Exchange<S>, calls: seq<Call<R>>, start: Shared<S>,
                                            turns: seq<Turn>, turn: Turn)
    requires turn.thread < |calls| && forall i :: 0 <= i < |turns| ==> turns[i].thread < |calls|
    requires Serial(exchange, calls, start, turns).Some?
    requires Complete(exchange, calls[turn.thread], Serial(exchange, calls, start, turns).value.0, turn.requests).Some?
    ensures var (before, results) := Serial(exchange, calls, start, turns).value;
            var (after, result) := Complete(exchange, calls[turn.thread], before, turn.requests).value;
            Serial(exchange, calls, start, turns + [turn]) == Some((after, results + [result]))
  {
    hide Complete;
    assert (turns + [turn])[..|turns|] == turns;
  }

  /** The results of the calls that returned before stay what they were. */
  lemma ResultsMore<R>(threads: seq<Thread<R>>, history: seq<Turn>, results: seq<R>, t: nat, n: nat, result: R)
    requires t < |threads| && threads[t].Inside? && HaveResults(threads, history, results)
    ensures HaveResults(threads[t := Finished(result)], history + [Turn(t, n)], results + [result])
  {
    forall i | 0 <= i < |history| ensures history[i].thread != t {
      assert threads[history[i].thread].Finished?;
    }
  }

  lemma HistoryNames<S, R>(calls: seq<Call<R>>, s: State<S, R>)
    requires |s.threads| == |calls| && HistoryOk(calls, s)
    ensures forall i :: 0 <= i < |s.history| ==> s.history[i].thread < |calls|
  {}

  lemma ReturnSerialized<S, R>(exchange: Exchange<S>, calls: seq<Call<R>>, start: Shared<S>,
                               s: State<S, R>, t: nat)
    requires |s.threads| == |calls| && t < |calls| && Serialized(exchange, calls, start, s)
    requires s.threads[t].Inside? && !s.threads[t].awaiting && s.threads[t].talk.Return?
    ensures Serialized(exchange, calls, start, Step(exchange, calls, s, t).value)
  {
    hide Serial, HaveResults, InHistory, HistoryOk, Played;
    var after, n := Step(exchange, calls, s, t).value, s.threads[t].said;
    var result := s.threads[t].talk.result;
    ReturnHistory(calls, s, after, t, n, result);
    HistoryNames(calls, s);
    var (base, results) := Serial(exchange, calls, start, s.history).value;
    assert Holding(exchange, calls[t], base, s, t);
    SerialMore(exchange, calls, start, s.history, Turn(t, n));
    ResultsMore(s.threads, s.history, results, t, n, result);
  }

  lemma StepSerialized<S, R>(exchange: Exchange<S>, calls: seq<Call<R>>, start: Shared<S>,
                             s: State<S, R>, t: nat)
    requires |s.threads| == |calls| && t < |calls|
    requires Serialized(exchange, calls, start, s) && Step(exchange, calls, s, t).Some?
    ensures Serialized(exchange, calls, start, Step(exchange, calls, s, t).value)
  {
    hide Serialized, Asked;
    match s.threads[t] {
      case Waiting => LockSerialized(exchange, calls, start, s, t);
      case Inside(_, _, talk, awaiting) =>
        if awaiting {
          ReceiveSerialized(exchange, calls, start, s, t);
        } else if talk.Say? {
          AskSerialized(exchange, calls, start, s, t);
        } else {
          ReturnSerialized(exchange, calls, start, s, t);
        }
      case Finished(_) =>
    }
  }

  lemma InitialSerialized<S, R>(exchange: Exchange<S>, calls: seq<Call<R>>, start: Shared<S>)
    ensures Serialized(exchange, calls, start, Initial(calls, start))
  {}

  /** Every interleaving is serial: at any point the calls that have returned did so with
      the results, and left the reader in the state, of running them one at a time in the
      order in which they held the lock. */
  lemma {:induction false} EveryInterleavingIsSerial<S, R>(exchange: Exchange<S>, calls: seq<Call<R>>,
                                                           start: Shared<S>, schedule: seq<nat>)
    requires forall i :: 0 <= i < |schedule| ==> schedule[i] < |calls|
    ensures Serialized(exchange, calls, start, Run(exchange, calls, Initial(calls, start), schedule))
    decreases |schedule|
  {
    hide Serialized, Step;
    if schedule == [] {
      InitialSerialized(exchange, calls, start);
    } else {
      var front, t := schedule[..|schedule| - 1], schedule[|schedule| - 1];
      EveryInterleavingIsSerial(exchange, calls, start, front);
      var before := Run(exchange, calls, Initial(calls, start), front);
      if Step(exchange, calls, before, t).Some? {
        StepSerialized(exchange, calls, start, before, t);
      }
    }
  }

  /** No call ever reads a response to another call's command, and at most one call is
      between locking and unlocking. */
  lemma {:induction false} NoStolenResponse<S, R>(exchange: Exchange<S>, calls: seq<Call<R>>, start: Shared<S>,
                                                  schedule: seq<nat>, t: nat)
    requires forall i :: 0 <= i < |schedule| ==> schedule[i] < |calls|
    requires t < |calls|
    ensures var s := Run(exchange, calls, Initial(calls, start), schedule);
            s.threads[t].Inside? ==>
              (forall i :: 0 <= i < |s.line| ==> s.line[i].owner == t)
              && (forall u :: 0 <= u < |calls| && s.threads[u].Inside? ==> u == t)
  {
    hide Run, Serial;
    EveryInterleavingIsSerial(exchange, calls, start, schedule);
  }

  // ---------------------------------------------------------------- deadlock

  /** What a talk still has to do after some answers. */
  function Rest<R>(talk: Talk<R>, replies: seq<Reply>): Talk<R>
    decreases |replies|
  {
    if replies == [] || !talk.Say? then talk else Rest(talk.more(replies[0]), replies[1..])
  }

  ghost predicate NeverRelocks<R>(talk: Talk<R>) {
    forall replies :: !Rest(talk, replies).Relock?
  }

  lemma SayNeverRelocks<R>(talk: Talk<R>, reply: Reply)
    requires NeverRelocks(talk) && talk.Say?
    ensures NeverRelocks(talk.more(reply))
  {
    forall replies ensures !Rest(talk.more(reply), replies).Relock? {
      assert ([reply] + replies)[1..] == replies;
      assert !Rest(talk, [reply] + replies).Relock?;
    }
  }

  lemma {:induction false} PlayedNeverRelocks<S, R>(exchange: Exchange<S>, talk: Talk<R>, device: S, n: nat)
    requires NeverRelocks(talk)
    ensures NeverRelocks(Played(exchange, talk, device, n).1)
  {
    hide NeverRelocks;
    if n > 0 {
      PlayedNeverRelocks(exchange, talk, device, n - 1);
      var (before, rest) := Played(exchange, talk, device, n - 1);
      if rest.Say? {
        SayNeverRelocks(rest, exchange(before, rest.request).1);
      }
    }
  }

  lemma CanStep<S, R>(exchange: Exchange<S>, calls: seq<Call<R>>, start: Shared<S>, s: State<S, R>, t: nat)
    requires |s.threads| == |calls| && t < |calls| && Serialized(exchange, calls, start, s)
    requires if s.holder.Some? then s.holder == Some(t) else !s.threads[t].Finished?
    requires forall found :: NeverRelocks(calls[t].talk(found))
    ensures Step(exchange, calls, s, t).Some?
  {
    hide Serial, Played, HistoryOk;
    if s.holder.Some? {
      var base := Serial(exchange, calls, start, s.history).value.0;
      assert Holding(exchange, calls[t], base, s, t);
      PlayedNeverRelocks(exchange, calls[t].talk(base.failures), base.device, s.threads[t].said);
      assert !s.threads[t].awaiting ==> !Rest(s.threads[t].talk, []).Relock?;
    }
  }

  /** As long as no call locks the reader again while holding it, some call can go on until
      all have returned. */
  lemma NoDeadlock<S, R>(exchange: Exchange<S>, calls: seq<Call<R>>, start: Shared<S>, schedule: seq<nat>, t: nat)
    returns (u: nat)
    requires forall i :: 0 <= i < |schedule| ==> schedule[i] < |calls|
    requires forall i, found :: 0 <= i < |calls| ==> NeverRelocks(calls[i].talk(found))
    requires t < |calls|
    requires !Run(exchange, calls, Initial(calls, start), schedule).threads[t].Finished?
    ensures u < |calls|
    ensures Step(exchange, calls, Run(exchange, calls, Initial(calls, start), schedule), u).Some?
  {
    hide Run, Step, Serial, NeverRelocks, HistoryOk;
    EveryInterleavingIsSerial(exchange, calls, start, schedule);
    var s := Run(exchange, calls, Initial(calls, start), schedule);
    u := if s.holder.Some? then s.holder.value else t;
    CanStep(exchange, calls, start, s, u);
  }

  /** A call that locks the reader again while holding it stops everyone for good. */
  lemma {:induction false} RelockingDeadlocks<S, R>(exchange: Exchange<S>, calls: seq<Call<R>>,
                                                    s: State<S, R>, t: nat, schedule: seq<nat>)
    requires |s.threads| == |calls| && t < |calls|
    requires forall i :: 0 <= i < |schedule| ==> schedule[i] < |calls|
    requires s.holder == Some(t) && s.threads[t].Inside? && !s.threads[t].awaiting
    requires s.threads[t].talk.Relock?
    requires forall u :: 0 <= u < |calls| && u != t ==> !s.threads[u].Inside?
    ensures Run(exchange, calls, s, schedule) == s
    decreases |schedule|
  {
    if schedule != [] {
      RelockingDeadlocks(exchange, calls, s, t, schedule[..|schedule| - 1]);
    }
  }

  // ---------------------------------------------------------------- every schedule ends

  /** A talk that makes at most n requests, whatever the answers, and never locks again. */
  ghost predicate Limited<R>(talk: Talk<R>, n: nat)
    decreases n
  {
    match talk
    case Return(_, _) => true
    case Relock => false
    case Say(_, more) => n > 0 && forall reply :: Limited(more(reply), n - 1)
  }

  lemma {:induction false} LimitedMore<R>(talk: Talk<R>, m: nat, n: nat)
    requires Limited(talk, m) && m <= n
    ensures Limited(talk, n)
    decreases m
  {
    if talk.Say? {
      forall reply ensures Limited(talk.more(reply), n - 1) {
        LimitedMore(talk.more(reply), m - 1, n - 1);
      }
    }
  }

  lemma {:induction false} LimitedRest<R>(talk: Talk<R>, n: nat, replies: seq<Reply>)
    requires Limited(talk, n)
    ensures !Rest(talk, replies).Relock?
    decreases |replies|
  {
    if replies != [] && talk.Say? {
      LimitedRest(talk.more(replies[0]), n - 1, replies[1..]);
    }
  }

  lemma {:induction false} LimitedNeverRelocks<R>(talk: Talk<R>, n: nat)
    requires Limited(talk, n)
    ensures NeverRelocks(talk)
  {
    forall replies ensures !Rest(talk, replies).Relock? {
      LimitedRest(talk, n, replies);
    }
  }

  /** A call has not made more requests than it may, and what it has to do stays within. */
  ghost predicate Bounded<R>(thread: Thread<R>, bound: nat) {
    thread.Inside? ==>
      thread.said <= bound
      && if thread.awaiting
         then thread.talk.Say? && forall reply :: Limited(thread.talk.more(reply), bound - thread.said)
         else Limited(thread.talk, bound - thread.said)
  }

  ghost predicate AllBounded<R>(threads: seq<Thread<R>>, bounds: seq<nat>)
    requires |threads| == |bounds|
  {
    forall i :: 0 <= i < |threads| ==> Bounded(threads[i], bounds[i])
  }

  /** How many steps a call can still take. */
  function Left<R>(thread: Thread<R>, bound: nat): nat {
    match thread
    case Waiting => 2 * bound + 2
    case Inside(_, said, _, awaiting) => (if said <= bound then 2 * (bound - said) else 0) + if awaiting then 2 else 1
    case Finished(_) => 0
  }

  function AllLeft<R>(threads: seq<Thread<R>>, bounds: seq<nat>): nat
    requires |threads| == |bounds|
  {
    if threads == [] then 0 else Left(threads[0], bounds[0]) + AllLeft(threads[1..], bounds[1..])
  }

  /** The steps of calls with given bounds: two for each request, locking and returning. */
  function Budget(bounds: seq<nat>): nat {
    if bounds == [] then 0 else 2 * bounds[0] + 2 + Budget(bounds[1..])
  }

  lemma {:induction false} BudgetAtFirst<R>(threads: seq<Thread<R>>, bounds: seq<nat>)
    requires |threads| == |bounds| && forall i :: 0 <= i < |threads| ==> threads[i].Waiting?
    ensures AllLeft(threads, bounds) == Budget(bounds)
  {
    if threads != [] {
      BudgetAtFirst(threads[1..], bounds[1..]);
    }
  }

  lemma {:induction false} OneLess<R>(threads: seq<Thread<R>>, bounds: seq<nat>, t: nat, thread: Thread<R>)
    requires |threads| == |bounds| && t < |threads| && Left(thread, bounds[t]) < Left(threads[t], bounds[t])
    ensures AllLeft(threads[t := thread], bounds) < AllLeft(threads, bounds)
  {
    hide Left;
    if t > 0 {
      OneLess(threads[1..], bounds[1..], t - 1, thread);
      assert threads[t := thread][1..] == threads[1..][t - 1 := thread];
    } else {
      assert threads[t := thread][1..] == threads[1..];
    }
  }

  /** Every step takes one off what its call can still take. */
  lemma StepBounded<S, R>(exchange: Exchange<S>, calls: seq<Call<R>>, s: State<S, R>, t: nat, bounds: seq<nat>)
    requires |s.threads| == |calls| == |bounds| && t < |calls| && Step(exchange, calls, s, t).Some?
    requires Bounded(s.threads[t], bounds[t])
    requires forall found :: Limited(calls[t].talk(found), bounds[t])
    ensures var after := Step(exchange, calls, s, t).value.threads;
            after == s.threads[t := after[t]] && Bounded(after[t], bounds[t])
            && Left(after[t], bounds[t]) < Left(s.threads[t], bounds[t])
  {
    var thread, after := s.threads[t], Step(exchange, calls, s, t).value.threads;
    match thread {
      case Waiting => assert Limited(after[t].talk, bounds[t]);
      case Inside(_, said, talk, awaiting) =>
        if awaiting {
          assert Limited(talk.more(s.line[0].reply), bounds[t] - said);
        } else if talk.Say? {
          var reply := exchange(s.shared.device, talk.request).1;
          assert said < bounds[t] && Limited(talk.more(reply), bounds[t] - said - 1);
          assert after == Asked(exchange, s, t).threads;
        }
      case Finished(_) =>
    }
  }

  /** Every call in the schedule can step when it is its turn. */
  ghost predicate Enabled<S, R>(exchange: Exchange<S>, calls: seq<Call<R>>, s: State<S, R>, schedule: seq<nat>)
    requires |s.threads| == |calls|
    requires forall i :: 0 <= i < |schedule| ==> schedule[i] < |calls|
    decreases |schedule|
  {
    schedule == []
    || var front := schedule[..|schedule| - 1];
       Enabled(exchange, calls, s, front)
       && Step(exchange, calls, Run(exchange, calls, s, front), schedule[|schedule| - 1]).Some?
  }

  lemma {:induction false} ScheduleBounded<S, R>(exchange: Exchange<S>, calls: seq<Call<R>>, s: State<S, R>,
                                                 schedule: seq<nat>, bounds: seq<nat>)
    requires |s.threads| == |calls| == |bounds| && AllBounded(s.threads, bounds)
    requires forall i :: 0 <= i < |schedule| ==> schedule[i] < |calls|
    requires forall i, found :: 0 <= i < |calls| ==> Limited(calls[i].talk(found), bounds[i])
    requires Enabled(exchange, calls, s, schedule)
    ensures var end := Run(exchange, calls, s, schedule).threads;
            AllBounded(end, bounds) && |schedule| + AllLeft(end, bounds) <= AllLeft(s.threads, bounds)
    decreases |schedule|
  {
    hide Step, Bounded, Left, AllLeft, Limited;
    if schedule != [] {
      var front, t := schedule[..|schedule| - 1], schedule[|schedule| - 1];
      ScheduleBounded(exchange, calls, s, front, bounds);
      var before := Run(exchange, calls, s, front);
      StepBounded(exchange, calls, before, t, bounds);
      OneLess(before.threads, bounds, t, Step(exchange, calls, before, t).value.threads[t]);
    }
  }

  /** Calls that make a bounded number of requests all return: a schedule in which every
      call can step when it is its turn has an end, and when no call can step any more, all
      have returned. */
  lemma {:induction false} EveryScheduleEnds<S, R>(exchange: Exchange<S>, calls: seq<Call<R>>, start: Shared<S>,
                                                   schedule: seq<nat>, bounds: seq<nat>)
    requires forall i :: 0 <= i < |schedule| ==> schedule[i] < |calls|
    requires |bounds| == |calls|
    requires forall i, found :: 0 <= i < |calls| ==> Limited(calls[i].talk(found), bounds[i])
    requires Enabled(exchange, calls, Initial(calls, start), schedule)
    ensures |schedule| <= Budget(bounds)
    ensures var end := Run(exchange, calls, Initial(calls, start), schedule);
            (forall u :: 0 <= u < |calls| ==> Step(exchange, calls, end, u).None?) ==>
              forall t :: 0 <= t < |calls| ==> end.threads[t].Finished?
  {
    hide Run, Step, Enabled, Limited, NeverRelocks, AllLeft;
    ScheduleBounded(exchange, calls, Initial(calls, start), schedule, bounds);
    BudgetAtFirst(Initial(calls, start).threads, bounds);
    forall i, found | 0 <= i < |calls| ensures NeverRelocks(calls[i].talk(found)) {
      LimitedNeverRelocks(calls[i].talk(found), bounds[i]);
    }
    var end := Run(exchange, calls, Initial(calls, start), schedule);
    forall t | 0 <= t < |calls| && !end.threads[t].Finished?
      ensures exists u :: 0 <= u < |calls| && Step(exchange, calls, end, u).Some?
    {
      var u := NoDeadlock(exchange, calls, start, schedule, t);
    }
  }

  // ---------------------------------------------------------------- talks alone

  lemma {:induction false} PlayedOn<S, R>(exchange: Exchange<S>, talk: Talk<R>, device: S, m: nat, n: nat)
    ensures var (between, rest) := Played(exchange, talk, device, m);
            Played(exchange, talk, device, m + n) == Played(exchange, rest, between, n)
  {
    if n > 0 {
      PlayedOn(exchange, talk, device, m, n - 1);
    }
  }

  lemma {:induction false} PlayedStays<S, R>(exchange: Exchange<S>, talk: Talk<R>, device: S, n: nat)
    requires !talk.Say?
    ensures Played(exchange, talk, device, n) == (device, talk)
  {
    if n > 0 {
      PlayedStays(exchange, talk, device, n - 1);
    }
  }

  /** Alone, a talk that does what it does comes from one state to another. */
  ghost predicate Leads<S, R>(exchange: Exchange<S>, talk: Talk<R>, device: S, rest: Talk<R>, after: S) {
    exists n: nat :: Played(exchange, talk, device, n) == (after, rest)
  }

  lemma LeadsNowhere<S, R>(exchange: Exchange<S>, talk: Talk<R>, device: S)
    ensures Leads(exchange, talk, device, talk, device)
  {
    assert Played(exchange, talk, device, 0) == (device, talk);
  }

  lemma LeadsOn<S, R>(exchange: Exchange<S>, talk: Talk<R>, device: S, middle: Talk<R>, between: S,
                      rest: Talk<R>, after: S)
    requires Leads(exchange, talk, device, middle, between) && Leads(exchange, middle, between, rest, after)
    ensures Leads(exchange, talk, device, rest, after)
  {
    hide Played;
    var m: nat :| Played(exchange, talk, device, m) == (between, middle);
    var n: nat :| Played(exchange, middle, between, n) == (after, rest);
    PlayedOn(exchange, talk, device, m, n);
  }

  /** One request, and on from its answer. */
  lemma SayLeads<S, R>(exchange: Exchange<S>, talk: Talk<R>, device: S, rest: Talk<R>, after: S)
    requires talk.Say?
    requires var (between, reply) := exchange(device, talk.request);
             Leads(exchange, talk.more(reply), between, rest, after)
    ensures Leads(exchange, talk, device, rest, after)
  {
    var (between, reply) := exchange(device, talk.request);
    assert Played(exchange, talk, device, 0) == (device, talk);
    assert Played(exchange, talk, device, 1) == (between, talk.more(reply));
    LeadsOn(exchange, talk, device, talk.more(reply), between, rest, after);
  }

  /** However many requests one allows a call, if it returns, it returns what its talk
      leads to. */
  lemma CompleteIs<S, R>(exchange: Exchange<S>, call: Call<R>, s: Shared<S>, n: nat,
                         after: S, result: R, failures: nat)
    requires Leads(exchange, call.talk(s.failures), s.device, Return(result, failures), after)
    requires Complete(exchange, call, s, n).Some?
    ensures Complete(exchange, call, s, n) == Some((Shared(after, failures), result))
  {
    var talk := call.talk(s.failures);
    var m: nat :| Played(exchange, talk, s.device, m) == (after, Return(result, failures));
    var (device, rest) := Played(exchange, talk, s.device, n);
    PlayedOn(exchange, talk, s.device, m, n);
    PlayedStays(exchange, Return(result, failures), after, n);
    PlayedOn(exchange, talk, s.device, n, m);
    PlayedStays(exchange, rest, device, m);
    assert m + n == n + m;
  }
}
