/** Runs at the edges of the guarantees. */
module AfiEdges {
  import opened Bytes
  import opened AfiMap
  import opened AfiRuns
  import opened AfiFate

  /** A book on loan and the returns page, its input free for the book. */
  predicate Returning(tag: Tag, page: Page) {
    IsBook(tag.content) && SecOf(tag.security) == D7
    && page.returnsUrl && !page.renewUrl && Free(page.barcode, tag.content)
  }

  function Submission(tag: Tag, now: nat): Event {
    Submit(ReturnsPage, tag.content, D7, now)
  }

  function Returned(tag: Tag, now: nat): Store {
    map[tag.content := Entry(D7, Some(DA), now, now, now)]
  }

  /** The book, scanned with nothing in the map. */
  lemma FreshReturn(s: Sys, tag: Tag, page: Page, now: nat)
    requires s.store == map[] && Returning(tag, page)
    ensures Step(s, Scan(now, [tag], page))
         == Sys(Returned(tag, now), multiset{}, now, s.trace + [Submission(tag, now)])
  {
    var seen := See(s.store, [tag.content], now);
    assert seen == map[];
    assert tag.content != "";
    var a := TagAction(seen, tag, page, now);
    assert a == Return(ReturnsPage, D7);
    assert Changed(seen, tag.content, a, now) == Returned(tag, now);
    assert Emitted(tag, a, now) == [Submission(tag, now)];
  }

  /** A scan of the empty reader ten seconds after the book was returned and taken away. */
  lemma DroppedAtTenSeconds(s: Sys, tag: Tag, page: Page, start: nat)
    requires start > 0 && s.store == Returned(tag, start)
    ensures Step(s, Scan(start + 10000, [], page)) == Sys(map[], s.inFlight, start + 10000, s.trace)
  {
    var now := start + 10000;
    assert s.trace + [] == s.trace;
    assert Contents([]) == [];
    assert Stale(tag.content, s.store[tag.content], [], now);
    assert Sweep(See(s.store, [], now), [], now) == map[];
  }

  lemma NoInput() returns (inputs: seq<Input>, states: seq<Sys>)
    ensures IsRun(inputs, states) && inputs == [] && states == [START]
  {
    inputs, states := [], [START];
  }

  lemma ExtendReturn(inputs: seq<Input>, states: seq<Sys>, tag: Tag, page: Page, now: nat)
    returns (more: seq<Input>, after: seq<Sys>)
    requires IsRun(inputs, states) && Returning(tag, page)
    requires states[|inputs|].store == map[] && now > 0 && now >= states[|inputs|].clock
    ensures IsRun(more, after) && |more| == |inputs| + 1
    ensures after[|more|] == Sys(Returned(tag, now), multiset{}, now, states[|inputs|].trace + [Submission(tag, now)])
  {
    FreshReturn(states[|inputs|], tag, page, now);
    var i := Scan(now, [tag], page);
    more, after := Extend(inputs, states, i);
  }

  lemma ExtendDrop(inputs: seq<Input>, states: seq<Sys>, tag: Tag, page: Page, start: nat)
    returns (more: seq<Input>, after: seq<Sys>)
    requires IsRun(inputs, states) && start > 0
    requires states[|inputs|].store == Returned(tag, start) && start >= states[|inputs|].clock
    ensures IsRun(more, after) && |more| == |inputs| + 1
    ensures after[|more|] == Sys(map[], states[|inputs|].inFlight, start + 10000, states[|inputs|].trace)
  {
    DroppedAtTenSeconds(states[|inputs|], tag, page, start);
    var i := Scan(start + 10000, [], page);
    more, after := Extend(inputs, states, i);
  }

  lemma ExtendReset(inputs: seq<Input>, states: seq<Sys>, now: nat)
    returns (more: seq<Input>, after: seq<Sys>)
    requires IsRun(inputs, states) && now > 0 && now >= states[|inputs|].clock
    ensures IsRun(more, after) && |more| == |inputs| + 1
    ensures after[|more|] == Sys(map[], states[|inputs|].inFlight, now, states[|inputs|].trace + [Wipe])
  {
    var i := Reset(now);
    more, after := Extend(inputs, states, i);
  }

  /** The distance of ten seconds is exact although the guard asks for more than ten: a
      sweep may drop the entry at ten seconds sharp, and the book is submitted again. */
  lemma TenSecondsIsExact(tag: Tag, page: Page, start: nat) returns (inputs: seq<Input>, states: seq<Sys>)
    requires start > 0 && Returning(tag, page)
    ensures IsRun(inputs, states)
    ensures states[|inputs|].trace == [Submission(tag, start), Submission(tag, start + DEDUP_MS)]
  {
    hide Step, Returning, IsRun, Returned;
    inputs, states := NoInput();
    inputs, states := ExtendReturn(inputs, states, tag, page, start);
    inputs, states := ExtendDrop(inputs, states, tag, page, start);
    inputs, states := ExtendReturn(inputs, states, tag, page, start + 10000);
  }

  /** After the reset button the same book is submitted again at once. */
  lemma ResetShortens(tag: Tag, page: Page, now: nat) returns (inputs: seq<Input>, states: seq<Sys>)
    requires now > 0 && Returning(tag, page)
    ensures IsRun(inputs, states)
    ensures states[|inputs|].trace == [Submission(tag, now), Wipe, Submission(tag, now)]
  {
    inputs, states := NoInput();
    inputs, states := ExtendReturn(inputs, states, tag, page, now);
    inputs, states := ExtendReset(inputs, states, now);
    inputs, states := ExtendReturn(inputs, states, tag, page, now);
  }

  /** A book in the library on a circulation page with the renew tab and the checkout tab
      both open, the input free for the book. */
  predicate TwoTabs(tag: Tag, page: Page) {
    IsBook(tag.content) && SecOf(tag.security) == DA
    && page.Circulation() && !page.returnsUrl && !page.renewUrl
    && page.renewTab && page.checkoutTab && !page.checkinTab && Free(page.barcode, tag.content)
  }

  function Lent(tag: Tag, pending: Option<Sec>, now: nat): Store {
    map[tag.content := Entry(DA, pending, 0, now, now)]
  }

  /** A scan of one tag whose action needs no sweep. */
  lemma ScanSingle(s: Sys, tag: Tag, page: Page, now: nat)
    ensures var seen := See(s.store, [tag.content], now);
            var a := TagAction(seen, tag, page, now);
            Step(s, Scan(now, [tag], page)) ==
              Sys(Changed(seen, tag.content, a, now),
                  if a.form.Some? then multiset{}
                  else if a.target.Some? then s.inFlight + multiset{(tag.content, a.target.value)}
                  else s.inFlight,
                  now, s.trace + Emitted(tag, a, now))
  {
    ActedFlying(Seen(s, [tag.content], now), tag, page);
  }

  lemma CheckoutAction(entry: Option<Entry>, tag: Tag, page: Page, now: nat)
    requires TwoTabs(tag, page)
    requires entry.Some? ==> entry.value.pending == None
    ensures BookAction(entry, tag.content, DA, page, now)
         == Action(Some((DA, Some(D7))), false, Some(Checkout), None, false)
  {}

  lemma LentStore(store: Store, tag: Tag, now: nat)
    requires store == map[] || store == Lent(tag, None, now)
    ensures Changed(store, tag.content, Action(Some((DA, Some(D7))), false, Some(Checkout), None, false), now)
         == Lent(tag, Some(D7), now)
  {}

  lemma CheckoutSeen(s: Sys, tag: Tag, page: Page, now: nat)
    requires TagAction(See(s.store, [tag.content], now), tag, page, now).form == Some(Checkout)
    ensures ChecksOut(s, Scan(now, [tag], page), tag.content)
  {
    var seen := See(s.store, [tag.content], now);
    EmittedOne(seen, tag, page, now);
    var events := Emitted(tag, TagAction(seen, tag, page, now), now);
    assert events[0] in events;
  }

  lemma TwoTabsAction(store: Store, tag: Tag, page: Page, now: nat)
    requires TwoTabs(tag, page) && (store == map[] || store == Lent(tag, None, now))
    ensures See(store, [tag.content], now) == store
    ensures TagAction(store, tag, page, now)
         == Action(Some((DA, Some(D7))), false, Some(Checkout), None, false)
  {
    assert tag.content != "";
    CheckoutAction(Get(store, tag.content), tag, page, now);
  }

  /** The book is checked out, whether it is new to the map or in it as DA. */
  lemma TwoTabsCheckout(s: Sys, tag: Tag, page: Page, now: nat)
    requires TwoTabs(tag, page) && (s.store == map[] || s.store == Lent(tag, None, now))
    ensures Step(s, Scan(now, [tag], page))
         == Sys(Lent(tag, Some(D7), now), multiset{}, now,
                s.trace + [Submit(Checkout, tag.content, DA, now)])
  {
    TwoTabsAction(s.store, tag, page, now);
    LentStore(s.store, tag, now);
    ScanSingle(s, tag, page, now);
  }

  lemma TwoTabsChecksOut(s: Sys, tag: Tag, page: Page, now: nat)
    requires TwoTabs(tag, page) && (s.store == map[] || s.store == Lent(tag, None, now))
    ensures ChecksOut(s, Scan(now, [tag], page), tag.content)
  {
    TwoTabsAction(s.store, tag, page, now);
    CheckoutSeen(s, tag, page, now);
  }

  /** The pending write is requested. */
  lemma TwoTabsRequest(s: Sys, tag: Tag, page: Page, now: nat)
    requires TwoTabs(tag, page) && s.store == Lent(tag, Some(D7), now)
    ensures Step(s, Scan(now, [tag], page))
         == Sys(s.store, s.inFlight + multiset{(tag.content, D7)}, now,
                s.trace + [Secure(tag.content, tag.sid, D7, now)])
  {
    ScanSingle(s, tag, page, now);
    assert See(s.store, [tag.content], now) == s.store;
    assert tag.content != "";
  }

  lemma TwoTabsAnswer(s: Sys, tag: Tag, now: nat)
    requires s.store == Lent(tag, Some(D7), now)
    ensures Step(s, Answer(now, tag.content, D7, true))
         == Sys(Lent(tag, None, now), s.inFlight - multiset{(tag.content, D7)}, now, s.trace)
  {}

  /** Nothing that would allow a second checkout: the entry stays, and no other byte is
      read. */
  ghost predicate NoDeparture(s: Sys, i: Input, b: string) {
    InLibrary(s, b) && !Forgotten(s, i, b) && forall sec :: ReadAs(i, b, sec) ==> sec == DA
  }

  lemma ScanIsNoDeparture(s: Sys, tag: Tag, page: Page, now: nat)
    requires InLibrary(s, tag.content) && SecOf(tag.security) == DA
    ensures NoDeparture(s, Scan(now, [tag], page), tag.content)
  {
    assert Contents([tag])[0] == tag.content;
  }

  lemma AnswerIsNoDeparture(s: Sys, i: Input, b: string)
    requires InLibrary(s, b) && i.Answer?
    ensures NoDeparture(s, i, b)
  {}

  /** The first checkout and its write, requested and answered. */
  lemma LentAndAnswered(tag: Tag, page: Page, now: nat) returns (inputs: seq<Input>, states: seq<Sys>)
    requires now > 0 && TwoTabs(tag, page)
    ensures IsRun(inputs, states) && |inputs| == 3
    ensures ChecksOut(states[0], inputs[0], tag.content)
    ensures NoDeparture(states[1], inputs[1], tag.content) && NoDeparture(states[2], inputs[2], tag.content)
    ensures states[3].store == Lent(tag, None, now) && states[3].clock == now
  {
    hide Step, ChecksOut, NoDeparture, IsRun;
    var scan := Scan(now, [tag], page);
    inputs, states := NoInput();
    TwoTabsCheckout(START, tag, page, now);
    TwoTabsChecksOut(START, tag, page, now);
    inputs, states := Extend(inputs, states, scan);
    ghost var one := states[1];
    ScanIsNoDeparture(one, tag, page, now);
    TwoTabsRequest(one, tag, page, now);
    inputs, states := Extend(inputs, states, scan);
    ghost var two := states[2];
    assert states[1] == one;
    TwoTabsAnswer(two, tag, now);
    AnswerIsNoDeparture(two, Answer(now, tag.content, D7, true), tag.content);
    inputs, states := Extend(inputs, states, Answer(now, tag.content, D7, true));
    assert states[1] == one && states[2] == two;
  }

  /** With both tabs open a book can be checked out twice although in between its tag was
      never read with another byte and its entry was never forgotten. */
  lemma TwoTabsCheckOutTwice(tag: Tag, page: Page, now: nat) returns (inputs: seq<Input>, states: seq<Sys>)
    requires now > 0 && TwoTabs(tag, page)
    ensures IsRun(inputs, states) && |inputs| == 4
    ensures ChecksOut(states[0], inputs[0], tag.content) && ChecksOut(states[3], inputs[3], tag.content)
    ensures NoDeparture(states[1], inputs[1], tag.content) && NoDeparture(states[2], inputs[2], tag.content)
  {
    hide Step, ChecksOut, NoDeparture, IsRun;
    inputs, states := LentAndAnswered(tag, page, now);
    TwoTabsChecksOut(states[3], tag, page, now);
    ghost var before := states;
    inputs, states := Extend(inputs, states, Scan(now, [tag], page));
    assert states[0] == before[0] && states[1] == before[1] && states[2] == before[2] && states[3] == before[3];
  }
}
