/** Whole runs of the page script: scans, answers to write requests, page loads and resets
    in any order, on one page at a time, with a clock that never runs backwards. */
module AfiRuns {
  import opened Bytes
  import opened AfiMap
  import Runs

  datatype Input =
    | Scan(now: nat, tags: seq<Tag>, page: Page)
    | Answer(now: nat, barcode: string, target: Sec, ok: bool)  // to a request in flight
    | Load(now: nat, sameVersion: bool)                         // a page is loaded
    | Reset(now: nat)                                           // the reset button

  /** The stored map, the write requests whose answer is still to come, the time of the
      last input, and everything done so far. */
  datatype Sys = Sys(store: Store, inFlight: multiset<(string, Sec)>, clock: nat, trace: seq<Event>)

  const START := Sys(map[], multiset{}, 0, [])

  predicate Allowed(s: Sys, i: Input) {
    i.now > 0 && i.now >= s.clock
    && (i.Answer? ==> (i.barcode, i.target) in s.inFlight)
  }

  /** The requests in flight after some events; a form that is submitted leaves the page,
      and with it the answers that it was waiting for. */
  function Flying(inFlight: multiset<(string, Sec)>, events: seq<Event>): multiset<(string, Sec)> {
    if events == [] then inFlight
    else
      var before := Flying(inFlight, events[..|events| - 1]);
      match events[|events| - 1]
      case Submit(_, _, _, _) => multiset{}
      case Secure(barcode, _, target, _) => before + multiset{(barcode, target)}
      case Wipe => before
  }

  function Step(s: Sys, i: Input): Sys {
    match i
    case Scan(now, tags, page) =>
      var (store, events) := Scanned(s.store, tags, page, now);
      Sys(store, Flying(s.inFlight, events), now, s.trace + events)
    case Answer(now, barcode, target, ok) =>
      Sys(if ok then Acknowledge(s.store, barcode, now) else s.store,
          s.inFlight - multiset{(barcode, target)}, now, s.trace)
    case Load(now, sameVersion) =>
      Sys(Cleanup(if sameVersion then s.store else map[], now), multiset{}, now,
          s.trace + if sameVersion then [] else [Wipe])
    case Reset(now) => Sys(map[], s.inFlight, now, s.trace + [Wipe])
  }

  /** A run: some inputs, each allowed where it comes, and the states before, between and
      after them. */
  ghost predicate IsRun(inputs: seq<Input>, states: seq<Sys>)
    ensures IsRun(inputs, states) ==> |states| == |inputs| + 1
  {
    Runs.IsRun(START, Allowed, Step, inputs, states)
  }

  // ---------------------------------------------------------------- looking back

  /** The last form submitted for a barcode. */
  function LastSubmit(trace: seq<Event>, barcode: string): Option<Event> {
    if trace == [] then None
    else
      var e := trace[|trace| - 1];
      if e.Submit? && e.barcode == barcode then Some(e) else LastSubmit(trace[..|trace| - 1], barcode)
  }

  /** The AFI byte that a submission wants written: a book returned from loan is secured,
      a book lent is released. */
  function Wanted(e: Event): Option<Sec> {
    if e.Submit? && (e.form == ReturnsPage || e.form == CheckinTab) && e.sec == D7 then Some(DA)
    else if e.Submit? && e.form == Checkout && e.sec == DA then Some(D7)
    else None
  }

  /** Submissions that are not repeated within ten seconds. */
  predicate Timed(e: Event) {
    e.Submit? && (e.form == ReturnsPage || e.form == CheckinTab || e.form == PatronSearch)
  }

  /** When such a form was last submitted for a barcode, since the map was last wiped. */
  function LastTimed(trace: seq<Event>, barcode: string): Option<nat> {
    if trace == [] then None
    else
      var e := trace[|trace| - 1];
      if e == Wipe then None
      else if Timed(e) && e.barcode == barcode then Some(e.at)
      else LastTimed(trace[..|trace| - 1], barcode)
  }

  predicate EventOk(before: seq<Event>, e: Event) {
    (Timed(e) && LastTimed(before, e.barcode).Some? ==>
       LastTimed(before, e.barcode).value + DEDUP_MS <= e.at)
    && (e.Secure? ==> LastSubmit(before, e.barcode).Some?
                      && Wanted(LastSubmit(before, e.barcode).value) == Some(e.target))
  }

  predicate TraceOk(trace: seq<Event>) {
    trace == [] || (TraceOk(trace[..|trace| - 1]) && EventOk(trace[..|trace| - 1], trace[|trace| - 1]))
  }

  // ---------------------------------------------------------------- the invariant

  /** A book's entry has seen an AFI byte, and a pending write is the opposite byte, wanted
      by the last submission of that book. A card's entry only keeps its submit time. */
  predicate EntryOk(barcode: string, e: Entry, clock: nat, trace: seq<Event>) {
    0 < e.time <= clock && e.submit <= e.time && 0 < e.lastSeen <= clock
    && if IsBook(barcode) then
         e.sec != Patron
         && (e.pending.Some? ==>
               ((e.pending == Some(DA) && e.sec == D7) || (e.pending == Some(D7) && e.sec == DA))
               && LastSubmit(trace, barcode).Some?
               && Wanted(LastSubmit(trace, barcode).value) == e.pending)
       else e.sec == Patron && e.pending.None? && e.submit > 0 && barcode != ""
  }

  /** The time of the last timed submission survives in the entry, or it lies ten seconds
      back. */
  predicate TimeKept(barcode: string, store: Store, clock: nat, trace: seq<Event>) {
    LastTimed(trace, barcode).Some? ==>
      var t := LastTimed(trace, barcode).value;
      t <= clock && if barcode in store && store[barcode].submit != 0
      then t <= store[barcode].submit else t + DEDUP_MS <= clock
  }

  /** An answer still to come is about the write that is pending, if one is. */
  ghost predicate FlightOk(barcode: string, store: Store, inFlight: multiset<(string, Sec)>) {
    forall target :: (barcode, target) in inFlight && barcode in store && store[barcode].pending.Some?
      ==> store[barcode].pending == Some(target)
  }

  ghost predicate KeyOk(barcode: string, s: Sys) {
    (barcode in s.store ==> EntryOk(barcode, s.store[barcode], s.clock, s.trace))
    && TimeKept(barcode, s.store, s.clock, s.trace)
    && FlightOk(barcode, s.store, s.inFlight)
  }

  ghost predicate Good(s: Sys) {
    (forall barcode :: KeyOk(barcode, s)) && TraceOk(s.trace)
  }

  function Seen(s: Sys, visible: seq<string>, now: nat): Sys {
    s.(store := See(s.store, visible, now), clock := now)
  }

  function Swept(s: Sys, visible: seq<string>, now: nat): Sys {
    s.(store := Sweep(s.store, visible, now), clock := now)
  }

  /** A tag dealt with, without the sweep. */
  function Acted(s: Sys, tag: Tag, page: Page): Sys {
    var a := TagAction(s.store, tag, page, s.clock);
    var events := Emitted(tag, a, s.clock);
    s.(store := Changed(s.store, tag.content, a.(sweep := false), s.clock),
       inFlight := Flying(s.inFlight, events), trace := s.trace + events)
  }

  function ScannedOne(s: Sys, tag: Tag, page: Page, now: nat): Sys {
    var seen := Seen(s, [tag.content], now);
    var acted := Acted(seen, tag, page);
    if TagAction(seen.store, tag, page, now).sweep then Swept(acted, [tag.content], now) else acted
  }

  /** A scan in parts. */
  lemma ScanParts(s: Sys, i: Input)
    requires i.Scan?
    ensures var seen := Seen(s, Contents(i.tags), i.now);
            Step(s, i) ==
              if |i.tags| == 1 then ScannedOne(s, i.tags[0], i.page, i.now)
              else if |i.tags| > 1 && Pick(seen.store, i.tags, i.page).Some?
              then ScannedOne(seen, Pick(seen.store, i.tags, i.page).value, i.page, i.now)
              else Swept(seen, Contents(i.tags), i.now)
  {
    assert s.trace + [] == s.trace;
  }

  lemma SeenGood(s: Sys, visible: seq<string>, now: nat)
    requires Good(s) && now > 0 && now >= s.clock
    ensures Good(Seen(s, visible, now))
  {
    forall b ensures KeyOk(b, Seen(s, visible, now)) {
      assert KeyOk(b, s);
    }
  }

  lemma SweptGood(s: Sys, visible: seq<string>, now: nat)
    requires Good(s) && now > 0 && now >= s.clock
    ensures Good(Swept(s, visible, now))
  {
    forall b ensures KeyOk(b, Swept(s, visible, now)) {
      assert KeyOk(b, s);
    }
  }

  /** One action emits at most one event, about its own tag. */
  lemma EmittedOne(store: Store, tag: Tag, page: Page, now: nat)
    ensures var a := TagAction(store, tag, page, now);
            var events := Emitted(tag, a, now);
            (a.target.None? || a.form.None?)
            && (events == [] <==> a.target.None? && a.form.None?)
            && (a.target.Some? ==> events == [Secure(tag.content, tag.sid, a.target.value, now)])
            && (a.form.Some? ==> |events| == 1 && events[0].Submit? && events[0].barcode == tag.content
                                 && events[0].form == a.form.value && events[0].at == now
                                 && (IsBook(tag.content) ==> events[0].sec == SecOf(tag.security)))
  {}

  /** A scan emits at most one event. */
  lemma ScannedEvents(store: Store, tags: seq<Tag>, page: Page, now: nat)
    ensures |Scanned(store, tags, page, now).1| <= 1
  {
    var seen := See(store, Contents(tags), now);
    if |tags| == 1 {
      EmittedOne(See(store, [tags[0].content], now), tags[0], page, now);
    } else if |tags| > 1 && Pick(seen, tags, page).Some? {
      var tag := Pick(seen, tags, page).value;
      EmittedOne(See(seen, [tag.content], now), tag, page, now);
    }
  }

  lemma {:induction false} Extended(s: Sys, events: seq<Event>)
    requires |events| <= 1
    ensures events == [] ==> s.trace + events == s.trace && Flying(s.inFlight, events) == s.inFlight
    ensures events != [] ==> (s.trace + events)[..|s.trace|] == s.trace
    ensures events != [] ==> (s.trace + events)[|s.trace|] == events[0]
    ensures events != [] ==> Flying(s.inFlight, events[..|events| - 1]) == s.inFlight
  {
    if events != [] { assert events[..|events| - 1] == []; }
  }

  lemma ActedOther(s: Sys, tag: Tag, page: Page, b: string)
    requires KeyOk(b, s) && b != tag.content
    ensures KeyOk(b, Acted(s, tag, page))
  {
    EmittedOne(s.store, tag, page, s.clock);
    Extended(s, Emitted(tag, TagAction(s.store, tag, page, s.clock), s.clock));
    var after := Acted(s, tag, page);
    assert LastSubmit(after.trace, b) == LastSubmit(s.trace, b);
    assert LastTimed(after.trace, b) == LastTimed(s.trace, b);
    assert Get(after.store, b) == Get(s.store, b);
  }

  /** The entry of the tag that is dealt with: a new pending write comes with the form that
      wants it, and a pending write that stays comes with no form. */
  lemma ActionEntry(store: Store, tag: Tag, page: Page, now: nat)
    requires tag.content in store ==> 0 < store[tag.content].lastSeen <= now
                                      && 0 < store[tag.content].time <= now
                                      && store[tag.content].submit <= store[tag.content].time
    requires tag.content in store ==> (IsBook(tag.content) <==> store[tag.content].sec != Patron)
    ensures var a := TagAction(store, tag, page, now);
            var after := Changed(store, tag.content, a.(sweep := false), now);
            tag.content in after ==>
              var e := after[tag.content];
              e.submit <= e.time && (now > 0 ==> 0 < e.time <= now && 0 < e.lastSeen <= now)
              && (IsBook(tag.content) <==> e.sec != Patron)
              && ((tag.content in store && e == store[tag.content] && a.form.None?)
                  || (e.pending.None? && (!IsBook(tag.content) ==> tag.content != "" && (e.submit > 0 || now == 0)))
                  || (e.pending == Some(DA) && e.sec == D7 && IsBook(tag.content)
                      && (a.form == Some(ReturnsPage) || a.form == Some(CheckinTab)) && SecOf(tag.security) == D7)
                  || (e.pending == Some(D7) && e.sec == DA && IsBook(tag.content)
                      && a.form == Some(Checkout) && SecOf(tag.security) == DA))
  {}

  /** The last submission after an action. */
  lemma ActedLastSubmit(s: Sys, tag: Tag, page: Page)
    ensures var a := TagAction(s.store, tag, page, s.clock);
            var events := Emitted(tag, a, s.clock);
            LastSubmit(s.trace + events, tag.content) ==
              if a.form.Some? then Some(events[0]) else LastSubmit(s.trace, tag.content)
  {
    hide TagAction, Emitted;
    EmittedOne(s.store, tag, page, s.clock);
    Extended(s, Emitted(tag, TagAction(s.store, tag, page, s.clock), s.clock));
  }

  lemma ActedEntry(s: Sys, tag: Tag, page: Page)
    requires KeyOk(tag.content, s) && s.clock > 0
    ensures var after := Acted(s, tag, page);
            tag.content in after.store ==>
              EntryOk(tag.content, after.store[tag.content], after.clock, after.trace)
  {
    hide TagAction, Changed, Emitted;
    EmittedOne(s.store, tag, page, s.clock);
    ActionEntry(s.store, tag, page, s.clock);
    ActedLastSubmit(s, tag, page);
  }

  predicate TimedForm(form: Option<Form>) {
    form == Some(ReturnsPage) || form == Some(CheckinTab) || form == Some(PatronSearch)
  }

  lemma TimedFormStamps(store: Store, tag: Tag, page: Page, now: nat)
    ensures var a := TagAction(store, tag, page, now);
            (TimedForm(a.form) ==> a.stamp) && (a.stamp ==> a.put.Some?)
  {}

  /** The submit time of an entry is set whenever a timed form is submitted, and only
      moves forward. */
  lemma StampedWithForm(store: Store, b: string, a: Action, now: nat)
    requires a.stamp ==> a.put.Some?
    ensures var after := Changed(store, b, a.(sweep := false), now);
            (a.stamp ==> b in after && after[b].submit == now)
            && (!a.stamp && b in store ==> b in after && after[b].submit == store[b].submit)
            && (!a.stamp && b !in store && b in after ==> after[b].submit == 0)
  {}

  /** The time of the last timed submission after an action. */
  lemma ActedLastTimed(s: Sys, tag: Tag, page: Page)
    ensures var a := TagAction(s.store, tag, page, s.clock);
            LastTimed(s.trace + Emitted(tag, a, s.clock), tag.content) ==
              if TimedForm(a.form) then Some(s.clock) else LastTimed(s.trace, tag.content)
  {
    hide TagAction, Emitted;
    EmittedOne(s.store, tag, page, s.clock);
    Extended(s, Emitted(tag, TagAction(s.store, tag, page, s.clock), s.clock));
  }

  lemma ActedTime(s: Sys, tag: Tag, page: Page)
    requires KeyOk(tag.content, s) && s.clock > 0
    ensures var after := Acted(s, tag, page);
            TimeKept(tag.content, after.store, after.clock, after.trace)
  {
    hide TagAction, Changed, Emitted;
    ActedLastTimed(s, tag, page);
    TimedFormStamps(s.store, tag, page, s.clock);
    StampedWithForm(s.store, tag.content, TagAction(s.store, tag, page, s.clock), s.clock);
  }

  /** The requests in flight after an action. */
  lemma ActedFlying(s: Sys, tag: Tag, page: Page)
    ensures var a := TagAction(s.store, tag, page, s.clock);
            Flying(s.inFlight, Emitted(tag, a, s.clock)) ==
              if a.form.Some? then multiset{}
              else if a.target.Some? then s.inFlight + multiset{(tag.content, a.target.value)}
              else s.inFlight
  {
    hide TagAction;
    EmittedOne(s.store, tag, page, s.clock);
    Extended(s, Emitted(tag, TagAction(s.store, tag, page, s.clock), s.clock));
  }

  /** Without a form no write becomes pending, and a write that is requested is the one that
      is pending. */
  lemma ActedPending(store: Store, tag: Tag, page: Page, now: nat)
    ensures var a := TagAction(store, tag, page, now);
            var after := Changed(store, tag.content, a.(sweep := false), now);
            a.form.None? && tag.content in after && after[tag.content].pending.Some? ==>
              tag.content in store && after == store
              && (a.target.Some? ==> a.target == store[tag.content].pending)
  {}

  lemma ActedFlight(s: Sys, tag: Tag, page: Page)
    requires KeyOk(tag.content, s)
    ensures var after := Acted(s, tag, page); FlightOk(tag.content, after.store, after.inFlight)
  {
    hide TagAction, Changed, Emitted;
    ActedFlying(s, tag, page);
    ActedPending(s.store, tag, page, s.clock);
  }

  lemma SubmitOk(s: Sys, tag: Tag, page: Page)
    requires tag.content in s.store ==> EntryOk(tag.content, s.store[tag.content], s.clock, s.trace)
    requires TimeKept(tag.content, s.store, s.clock, s.trace)
    requires TagAction(s.store, tag, page, s.clock).form.Some?
    ensures EventOk(s.trace, Emitted(tag, TagAction(s.store, tag, page, s.clock), s.clock)[0])
  {
    EmittedOne(s.store, tag, page, s.clock);
  }

  lemma SecureOk(s: Sys, tag: Tag, page: Page)
    requires tag.content in s.store ==> EntryOk(tag.content, s.store[tag.content], s.clock, s.trace)
    requires TagAction(s.store, tag, page, s.clock).target.Some?
    ensures EventOk(s.trace, Emitted(tag, TagAction(s.store, tag, page, s.clock), s.clock)[0])
  {
    EmittedOne(s.store, tag, page, s.clock);
    var a := TagAction(s.store, tag, page, s.clock);
    assert IsBook(tag.content) && a.target == s.store[tag.content].pending;
    assert Emitted(tag, a, s.clock)[0] == Secure(tag.content, tag.sid, a.target.value, s.clock);
  }

  lemma ActedTrace(s: Sys, tag: Tag, page: Page)
    requires KeyOk(tag.content, s) && TraceOk(s.trace)
    ensures TraceOk(Acted(s, tag, page).trace)
  {
    hide TagAction, Emitted;
    var a := TagAction(s.store, tag, page, s.clock);
    EmittedOne(s.store, tag, page, s.clock);
    Extended(s, Emitted(tag, a, s.clock));
    if a.form.Some? {
      SubmitOk(s, tag, page);
    } else if a.target.Some? {
      SecureOk(s, tag, page);
    }
  }

  lemma ActedGood(s: Sys, tag: Tag, page: Page)
    requires Good(s) && s.clock > 0
    ensures Good(Acted(s, tag, page))
  {
    assert KeyOk(tag.content, s);
    ActedEntry(s, tag, page);
    ActedTime(s, tag, page);
    ActedFlight(s, tag, page);
    ActedTrace(s, tag, page);
    forall b ensures KeyOk(b, Acted(s, tag, page)) {
      assert KeyOk(b, s);
      if b != tag.content { ActedOther(s, tag, page, b); }
    }
  }

  lemma AnswerGood(s: Sys, i: Input)
    requires Good(s) && Allowed(s, i) && i.Answer?
    ensures Good(Step(s, i))
  {
    forall b ensures KeyOk(b, Step(s, i)) {
      assert KeyOk(b, s);
    }
  }

  lemma CleanedGood(s: Sys, now: nat)
    requires Good(s) && now > 0 && now >= s.clock
    ensures Good(s.(store := Cleanup(s.store, now), inFlight := multiset{}, clock := now))
  {
    forall b ensures KeyOk(b, s.(store := Cleanup(s.store, now), inFlight := multiset{}, clock := now)) {
      assert KeyOk(b, s);
    }
  }

  lemma WipedGood(s: Sys, now: nat)
    requires Good(s) && now >= s.clock
    ensures Good(Sys(map[], s.inFlight, now, s.trace + [Wipe]))
  {
    var after := Sys(map[], s.inFlight, now, s.trace + [Wipe]);
    assert after.trace[..|s.trace|] == s.trace;
    forall b ensures KeyOk(b, after) {
      assert LastTimed(after.trace, b) == None;
    }
  }

  lemma ScannedOneGood(s: Sys, tag: Tag, page: Page, now: nat)
    requires Good(s) && now > 0 && now >= s.clock
    ensures Good(ScannedOne(s, tag, page, now))
  {
    var seen := Seen(s, [tag.content], now);
    SeenGood(s, [tag.content], now);
    ActedGood(seen, tag, page);
    SweptGood(Acted(seen, tag, page), [tag.content], now);
  }

  lemma StepGood(s: Sys, i: Input)
    requires Good(s) && Allowed(s, i)
    ensures Good(Step(s, i))
  {
    match i {
      case Scan(now, tags, page) =>
        ScanParts(s, i);
        var seen := Seen(s, Contents(tags), now);
        SeenGood(s, Contents(tags), now);
        if |tags| == 1 {
          ScannedOneGood(s, tags[0], page, now);
        } else if |tags| > 1 && Pick(seen.store, tags, page).Some? {
          ScannedOneGood(seen, Pick(seen.store, tags, page).value, page, now);
        } else {
          SweptGood(seen, Contents(tags), now);
        }
      case Answer(_, _, _, _) => AnswerGood(s, i);
      case Load(now, sameVersion) =>
        if sameVersion {
          assert s.trace + [] == s.trace;
          CleanedGood(s, now);
        } else {
          WipedGood(s, now);
          CleanedGood(Sys(map[], s.inFlight, now, s.trace + [Wipe]), now);
        }
      case Reset(now) => WipedGood(s, now);
    }
  }

  lemma RunStep(inputs: seq<Input>, states: seq<Sys>, k: nat)
    requires IsRun(inputs, states) && k < |inputs|
    ensures Allowed(states[k], inputs[k]) && states[k + 1] == Step(states[k], inputs[k])
  {
    Runs.RunStep(START, Allowed, Step, inputs, states, k);
  }

  /** A run goes on with any input that is allowed. */
  lemma Extend(inputs: seq<Input>, states: seq<Sys>, i: Input) returns (more: seq<Input>, after: seq<Sys>)
    requires IsRun(inputs, states) && Allowed(states[|inputs|], i)
    ensures IsRun(more, after) && |more| == |inputs| + 1 && after[|more|] == Step(states[|inputs|], i)
    ensures more == inputs + [i] && forall k :: 0 <= k <= |inputs| ==> after[k] == states[k]
  {
    Runs.RunExtends(START, Allowed, Step, inputs, states, i);
    more, after := inputs + [i], states + [Step(states[|inputs|], i)];
  }

  /** The invariant holds at every point of every run. */
  lemma {:induction false} RunGood(inputs: seq<Input>, states: seq<Sys>, k: nat)
    requires IsRun(inputs, states) && k <= |inputs|
    ensures Good(states[k])
    decreases k
  {
    if k == 0 {
      Runs.RunStarts(START, Allowed, Step, inputs, states);
    } else {
      RunGood(inputs, states, k - 1);
      RunStep(inputs, states, k - 1);
      StepGood(states[k - 1], inputs[k - 1]);
    }
  }

  // ---------------------------------------------------------------- the map in every run

  /** In every reachable state: a pending write is the opposite of the stored byte, and a
      card's entry holds nothing but its submit time. */
  lemma MapInvariant(inputs: seq<Input>, states: seq<Sys>, k: nat, barcode: string)
    requires IsRun(inputs, states) && k <= |inputs| && barcode in states[k].store
    ensures var e := states[k].store[barcode];
            if IsBook(barcode) then
              e.sec != Patron
              && (e.pending == None || (e.pending == Some(DA) && e.sec == D7)
                  || (e.pending == Some(D7) && e.sec == DA))
            else e.sec == Patron && e.pending == None && e.submit > 0
  {
    RunGood(inputs, states, k);
    assert KeyOk(barcode, states[k]);
  }

  lemma {:induction false} TraceOkAt(trace: seq<Event>, k: nat)
    requires TraceOk(trace) && k < |trace|
    ensures EventOk(trace[..k], trace[k])
  {
    var n := |trace| - 1;
    if k < n {
      TraceOkAt(trace[..n], k);
      assert trace[..n][..k] == trace[..k];
    }
  }

  lemma {:induction false} LastSubmitAt(trace: seq<Event>, barcode: string) returns (j: nat)
    requires LastSubmit(trace, barcode).Some?
    ensures j < |trace| && trace[j] == LastSubmit(trace, barcode).value
    ensures trace[j].Submit? && trace[j].barcode == barcode
    ensures forall m :: j < m < |trace| ==> !(trace[m].Submit? && trace[m].barcode == barcode)
  {
    var n := |trace| - 1;
    if trace[n].Submit? && trace[n].barcode == barcode {
      j := n;
    } else {
      j := LastSubmitAt(trace[..n], barcode);
      assert forall m :: j < m < n ==> trace[m] == trace[..n][m];
    }
  }

  /** Every AFI byte that the script asks to be written goes back to the last submission of
      that book: a return of a book on loan asks for DA, a checkout for D7. */
  lemma WritesAreEarned(inputs: seq<Input>, states: seq<Sys>, k: nat) returns (j: nat)
    requires IsRun(inputs, states)
    requires k < |states[|inputs|].trace| && states[|inputs|].trace[k].Secure?
    ensures var trace := states[|inputs|].trace;
            j < k && trace[j].Submit? && trace[j].barcode == trace[k].barcode
            && (forall m :: j < m < k ==> !(trace[m].Submit? && trace[m].barcode == trace[k].barcode))
            && ((trace[k].target == DA && trace[j].sec == D7
                 && (trace[j].form == ReturnsPage || trace[j].form == CheckinTab))
                || (trace[k].target == D7 && trace[j].sec == DA && trace[j].form == Checkout))
  {
    RunGood(inputs, states, |inputs|);
    var trace := states[|inputs|].trace;
    TraceOkAt(trace, k);
    j := LastSubmitAt(trace[..k], trace[k].barcode);
    assert forall m :: j < m < k ==> trace[m] == trace[..k][m];
  }

  lemma {:induction false} LastTimedAfter(trace: seq<Event>, barcode: string, i: nat)
    requires i < |trace| && Timed(trace[i]) && trace[i].barcode == barcode
    requires forall m :: i < m < |trace| ==> trace[m] != Wipe
    requires TraceOk(trace)
    ensures LastTimed(trace, barcode).Some? && LastTimed(trace, barcode).value >= trace[i].at
  {
    var n := |trace| - 1;
    if i < n {
      assert forall m :: i < m < n ==> trace[..n][m] == trace[m];
      LastTimedAfter(trace[..n], barcode, i);
    }
  }

  lemma {:induction false} TraceOkPrefix(trace: seq<Event>, n: nat)
    requires TraceOk(trace) && n <= |trace|
    ensures TraceOk(trace[..n])
    decreases |trace|
  {
    if n < |trace| {
      TraceOkPrefix(trace[..|trace| - 1], n);
      assert trace[..|trace| - 1][..n] == trace[..n];
    } else {
      assert trace[..n] == trace;
    }
  }

  /** No book is returned and no card looked up twice within ten seconds, on whatever page,
      across page loads, sweeps and clean-ups; only wiping the map shortens the distance. */
  lemma SubmissionsApart(inputs: seq<Input>, states: seq<Sys>, i: nat, j: nat)
    requires IsRun(inputs, states) && i < j < |states[|inputs|].trace|
    requires var trace := states[|inputs|].trace;
             Timed(trace[i]) && Timed(trace[j]) && trace[i].barcode == trace[j].barcode
             && forall m :: i < m < j ==> trace[m] != Wipe
    ensures states[|inputs|].trace[j].at >= states[|inputs|].trace[i].at + DEDUP_MS
  {
    RunGood(inputs, states, |inputs|);
    var trace := states[|inputs|].trace;
    TraceOkAt(trace, j);
    TraceOkPrefix(trace, j);
    assert forall m :: i < m < j ==> trace[..j][m] == trace[m];
    LastTimedAfter(trace[..j], trace[i].barcode, i);
  }

  /** An answer never clears a write other than the one that it answers. */
  lemma AnswersMatch(inputs: seq<Input>, states: seq<Sys>, k: nat)
    requires IsRun(inputs, states) && k < |inputs| && inputs[k].Answer?
    ensures var store, i := states[k].store, inputs[k];
            i.barcode in store && store[i.barcode].pending.Some? ==>
              store[i.barcode].pending == Some(i.target)
  {
    RunGood(inputs, states, k);
    RunStep(inputs, states, k);
    assert KeyOk(inputs[k].barcode, states[k]);
  }
}
