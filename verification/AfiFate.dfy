/** What can become of the entry of a book, in one step and over whole runs. */
module AfiFate {
  import opened Bytes
  import opened AfiMap
  import opened AfiRuns
  import Runs

  /** A successful answer to a write request for the book. */
  predicate Answered(i: Input, barcode: string) {
    i.Answer? && i.ok && i.barcode == barcode
  }

  /** The book is in range and its tag shows an AFI byte. */
  predicate ReadAs(i: Input, barcode: string, sec: Sec) {
    i.Scan? && exists k :: 0 <= k < |i.tags| && i.tags[k].content == barcode && SecOf(i.tags[k].security) == sec
  }

  /** The book's entry may be dropped: out of range for more than three seconds and not
      submitted within the last ten, or untouched for an hour at a page load, or with the
      whole map. */
  predicate Forgotten(s: Sys, i: Input, barcode: string)
    requires barcode in s.store
  {
    var e := s.store[barcode];
    match i
    case Scan(now, tags, _) =>
      barcode !in Contents(tags) && now - e.lastSeen > STALE_MS
      && (e.submit == 0 || now - e.submit >= DEDUP_MS)
    case Load(now, sameVersion) => !sameVersion || now - e.time > RETENTION_MS
    case Reset(_) => true
    case Answer(_, _, _, _) => false
  }

  /** The tag that a scan deals with. */
  function Acting(s: Sys, i: Input): Option<Tag>
    requires i.Scan?
  {
    if |i.tags| == 1 then Some(i.tags[0])
    else if |i.tags| > 1 then Pick(See(s.store, Contents(i.tags), i.now), i.tags, i.page)
    else None
  }

  /** The branches of a book that end the scan before its sweep: a write is pending, the
      entry matches and no tab asks for more, or the page is one with a form for books. */
  predicate EndsEarly(entry: Option<Entry>, tag: Tag, page: Page) {
    tag.content != "" && IsBook(tag.content)
    && (page.renewUrl || page.returnsUrl || page.Circulation()
        || (entry.Some? && entry.value.pending.Some?)
        || (entry.Some? && entry.value.sec == SecOf(tag.security) && !page.checkinTab && !page.renewTab))
  }

  predicate Sweeps(s: Sys, i: Input)
    requires i.Scan?
  {
    var acting := Acting(s, i);
    acting.None? || !EndsEarly(Get(s.store, acting.value.content), acting.value, i.page)
  }

  /** The step drops the entry. */
  predicate Dropped(s: Sys, i: Input, barcode: string)
    requires barcode in s.store
  {
    Forgotten(s, i, barcode) && (i.Scan? ==> Sweeps(s, i))
  }

  lemma SweepExact(store: Store, visible: seq<string>, tag: Tag, page: Page, now: nat)
    ensures TagAction(See(store, visible, now), tag, page, now).sweep
       <==> !EndsEarly(Get(store, tag.content), tag, page)
  {}

  /** How the entry of a book may look after a step. */
  predicate Follows(before: Entry, after: Entry, i: Input, barcode: string) {
    (after.sec != before.sec ==> ReadAs(i, barcode, after.sec))
    && (before.pending.Some? && after.pending != before.pending ==>
          after.pending == None
          && (Answered(i, barcode)
              || (ReadAs(i, barcode, before.pending.value) && after.sec == before.pending.value)))
    && (before.pending.Some? && after.pending == before.pending ==>
          after.sec == before.sec && after.submit == before.submit)
  }

  /** What is put for a book: its byte as read, over a pending write only when the byte is
      the one to be written. */
  lemma BookPut(entry: Option<Entry>, b: string, sec: Sec, page: Page, now: nat)
    ensures var a := BookAction(entry, b, sec, page, now);
            (a.put.Some? ==> a.put.value.0 == sec) && (a.stamp ==> a.put.Some?)
            && (entry.Some? && entry.value.pending.Some? ==>
                  !a.stamp && (a.put.None? || (a.put.value.1 == None && entry.value.pending == Some(sec))))
  {}

  lemma ActedKey(s: Sys, tag: Tag, page: Page, b: string)
    requires IsBook(b) && b in s.store && s.store[b].lastSeen != 0
    ensures var after := Acted(s, tag, page).store;
            var e := s.store[b];
            b in after && after[b].lastSeen == e.lastSeen
            && (b != tag.content ==> after[b] == e)
            && (b == tag.content ==>
                  (after[b].sec != e.sec ==> after[b].sec == SecOf(tag.security))
                  && (e.pending.Some? ==>
                        after[b] == e
                        || (after[b].pending == None && after[b].sec == SecOf(tag.security) == e.pending.value)))
  {
    if b == tag.content {
      BookPut(Get(s.store, b), b, SecOf(tag.security), page, s.clock);
      assert b != "";
    }
  }

  /** The entry of a book after the scan of one tag, as part of a scan with more tags. */
  predicate ScannedKey(e: Entry, after: Store, i: Input, b: string, sweep: bool)
    requires i.Scan?
  {
    (b !in after <==> sweep && b !in Contents(i.tags) && i.now - e.lastSeen > STALE_MS
                      && (e.submit == 0 || i.now - e.submit >= DEDUP_MS))
    && (b in after ==> Follows(e, after[b], i, b))
  }

  lemma ScannedOneKey(s: Sys, tag: Tag, page: Page, now: nat, b: string, i: Input)
    requires IsBook(b) && b in s.store && 0 < s.store[b].lastSeen <= now
    requires i.Scan? && i.now == now && tag in i.tags
    requires b in Contents(i.tags) ==> s.store[b].lastSeen == now
    ensures ScannedKey(s.store[b], ScannedOne(s, tag, page, now).store, i, b,
                       TagAction(See(s.store, [tag.content], now), tag, page, now).sweep)
  {
    hide TagAction, Acted;
    var k :| 0 <= k < |i.tags| && i.tags[k] == tag;
    assert Contents(i.tags)[k] == tag.content;
    var seen := Seen(s, [tag.content], now);
    ActedKey(seen, tag, page, b);
    if b == tag.content {
      assert ReadAs(i, b, SecOf(tag.security));
    }
  }

  lemma NoTagKey(s: Sys, i: Input, b: string)
    requires Good(s) && Allowed(s, i) && i.Scan? && IsBook(b) && b in s.store
    ensures ScannedKey(s.store[b], Sweep(See(s.store, Contents(i.tags), i.now), Contents(i.tags), i.now), i, b, true)
  {
    assert KeyOk(b, s);
  }

  lemma SeenTwice(s: Sys, tag: Tag, page: Page, now: nat)
    ensures ScannedOne(Seen(s, [tag.content], now), tag, page, now) == ScannedOne(s, tag, page, now)
  {
    hide Acted, TagAction;
    assert Seen(Seen(s, [tag.content], now), [tag.content], now) == Seen(s, [tag.content], now) by {
      var visible := [tag.content];
      assert See(See(s.store, visible, now), visible, now) == See(s.store, visible, now);
    }
  }

  lemma ActingKey(s: Sys, tag: Tag, i: Input, b: string)
    requires Good(s) && Allowed(s, i) && i.Scan? && IsBook(b) && b in s.store && tag in i.tags
    ensures var seen := Seen(s, Contents(i.tags), i.now);
            ScannedKey(s.store[b], ScannedOne(seen, tag, i.page, i.now).store, i, b,
                       !EndsEarly(Get(s.store, tag.content), tag, i.page))
  {
    hide ScannedOne, TagAction;
    assert KeyOk(b, s);
    var seen := Seen(s, Contents(i.tags), i.now);
    ScannedOneKey(seen, tag, i.page, i.now, b, i);
    SweepExact(seen.store, [tag.content], tag, i.page, i.now);
  }

  lemma ScanFate(s: Sys, i: Input, b: string)
    requires Good(s) && Allowed(s, i) && i.Scan? && IsBook(b) && b in s.store
    ensures ScannedKey(s.store[b], Step(s, i).store, i, b, Sweeps(s, i))
  {
    hide ScannedOne, TagAction, EndsEarly, Step, Pick, ScannedKey;
    var visible := Contents(i.tags);
    var seen := Seen(s, visible, i.now);
    ScanParts(s, i);
    if Acting(s, i).None? {
      NoTagKey(s, i, b);
    } else {
      var tag := Acting(s, i).value;
      if |i.tags| == 1 {
        assert visible == [tag.content];
        SeenTwice(s, tag, i.page, i.now);
      }
      ActingKey(s, tag, i, b);
    }
  }

  /** The fate of an entry in one step: it is dropped exactly for a stated reason, by a
      scan only if that does not end early; otherwise it is kept, with its pending write
      and the byte it is the opposite of, unless the write was answered or the tag already
      shows the byte to be written. */
  lemma KeyFate(s: Sys, i: Input, b: string)
    requires Good(s) && Allowed(s, i) && IsBook(b) && b in s.store
    ensures b in Step(s, i).store <==> !Dropped(s, i, b)
    ensures b in Step(s, i).store ==> Follows(s.store[b], Step(s, i).store[b], i, b)
  {
    assert KeyOk(b, s);
    if i.Scan? {
      ScanFate(s, i, b);
    }
  }

  ghost predicate Pending(s: Sys, b: string, target: Sec) {
    b in s.store && s.store[b].pending == Some(target)
  }

  /** The three ends of a pending write: the answer to this very write, the tag showing the
      byte already, the entry dropped. */
  predicate Ends(s: Sys, i: Input, b: string, target: Sec)
    requires b in s.store
  {
    (Answered(i, b) && i.target == target) || ReadAs(i, b, target) || Dropped(s, i, b)
  }

  lemma PendingEnds(s: Sys, i: Input, b: string, target: Sec)
    requires Good(s) && Allowed(s, i) && IsBook(b)
    requires Pending(s, b, target) && !Pending(Step(s, i), b, target)
    ensures Ends(s, i, b, target)
    ensures b in Step(s, i).store ==> Step(s, i).store[b].pending == None
    ensures b !in Step(s, i).store <==> Dropped(s, i, b)
  {
    hide Step;
    assert KeyOk(b, s);
    KeyFate(s, i, b);
  }

  predicate InLibrary(s: Sys, b: string) {
    b in s.store && s.store[b].sec == DA
  }

  /** The entry that said DA is dropped, or rewritten with another byte, read from the tag. */
  predicate Departs(s: Sys, i: Input, after: Sys, b: string)
    requires b in s.store
  {
    if b in after.store then after.store[b].sec != DA && ReadAs(i, b, after.store[b].sec)
    else Dropped(s, i, b)
  }

  lemma LeavesDA(s: Sys, i: Input, b: string)
    requires Good(s) && Allowed(s, i) && IsBook(b)
    requires InLibrary(s, b) && !InLibrary(Step(s, i), b)
    ensures Departs(s, i, Step(s, i), b)
  {
    hide Step;
    KeyFate(s, i, b);
  }

  /** Over whole runs: a write that is pending at some point and no longer at a later one
      was ended in between by a successful answer to it, by the tag showing the byte
      already, or by the entry being dropped; after that step nothing is pending. */
  lemma FateOfPendingWrite(inputs: seq<Input>, states: seq<Sys>, b: string, target: Sec, m: nat, n: nat)
    returns (k: nat)
    requires IsRun(inputs, states) && IsBook(b) && m <= n <= |inputs|
    requires Pending(states[m], b, target) && !Pending(states[n], b, target)
    ensures m <= k < n && Pending(states[k], b, target)
    ensures Ends(states[k], inputs[k], b, target)
    ensures b in states[k + 1].store ==> states[k + 1].store[b].pending == None
    ensures b !in states[k + 1].store <==> Dropped(states[k], inputs[k], b)
  {
    hide Good, Step, Ends, Allowed;
    k := Runs.LastTrue(j => 0 <= j <= |inputs| && Pending(states[j], b, target), m, n);
    RunGood(inputs, states, k);
    RunStep(inputs, states, k);
    PendingEnds(states[k], inputs[k], b, target);
  }

  // ---------------------------------------------------------------- checking out once

  /** The renew tab and the checkout tab are not both open. */
  predicate OneTab(page: Page) {
    !(page.renewTab && page.checkoutTab)
  }

  /** The step submits the checkout form for the book. */
  ghost predicate ChecksOut(s: Sys, i: Input, b: string) {
    i.Scan? && exists e :: e in Scanned(s.store, i.tags, i.page, i.now).1
                           && e.Submit? && e.form == Checkout && e.barcode == b
  }

  /** A book whose entry matches its tag and has nothing pending is checked out all the
      same exactly when the renew tab and the checkout tab are both open. */
  lemma RepeatedCheckoutExact(e: Entry, b: string, page: Page, now: nat)
    requires e.sec == DA && e.pending == None
    ensures BookAction(Some(e), b, DA, page, now).form == Some(Checkout) <==>
              page.renewTab && page.checkoutTab && page.Circulation() && Free(page.barcode, b)
              && !page.checkinTab && !page.renewUrl && !page.returnsUrl
  {}

  lemma CheckoutOne(store: Store, tag: Tag, page: Page, now: nat, b: string)
    requires OneTab(page)
    requires exists e :: e in ScanOne(store, tag, page, now).1 && e.Submit? && e.form == Checkout && e.barcode == b
    ensures IsBook(b) && (b in store ==> store[b].sec != DA)
    ensures var after := ScanOne(store, tag, page, now).0;
            b in after && after[b].sec == DA && after[b].pending == Some(D7)
  {
    EmittedOne(See(store, [tag.content], now), tag, page, now);
  }

  /** A scan whose entry says DA and matches is not checked out. */
  lemma CheckoutNeedsChange(s: Sys, i: Input, b: string)
    requires i.Scan? && OneTab(i.page) && ChecksOut(s, i, b)
    ensures IsBook(b) && !InLibrary(s, b) && InLibrary(Step(s, i), b)
    ensures Step(s, i).store[b].pending == Some(D7)
  {
    var visible := Contents(i.tags);
    var seen := See(s.store, visible, i.now);
    if |i.tags| == 1 {
      CheckoutOne(s.store, i.tags[0], i.page, i.now, b);
    } else {
      CheckoutOne(seen, Pick(seen, i.tags, i.page).value, i.page, i.now, b);
    }
  }

  lemma DepartsFromDA(inputs: seq<Input>, states: seq<Sys>, b: string, m: nat, n: nat) returns (k: nat)
    requires IsRun(inputs, states) && IsBook(b) && m <= n <= |inputs|
    requires InLibrary(states[m], b) && !InLibrary(states[n], b)
    ensures m <= k < n && InLibrary(states[k], b)
    ensures Departs(states[k], inputs[k], states[k + 1], b)
  {
    hide Good, Step, Departs, Allowed;
    k := Runs.LastTrue(j => 0 <= j <= |inputs| && InLibrary(states[j], b), m, n);
    RunGood(inputs, states, k);
    RunStep(inputs, states, k);
    LeavesDA(states[k], inputs[k], b);
  }

  /** Between two checkouts of a book its entry was rewritten with another byte, read from
      its tag, or dropped: a checkout is not repeated although an answered write leaves the old byte
      in the entry. */
  lemma CheckoutOnce(inputs: seq<Input>, states: seq<Sys>, b: string, m: nat, n: nat) returns (k: nat)
    requires IsRun(inputs, states) && m < n < |inputs|
    requires ChecksOut(states[m], inputs[m], b) && ChecksOut(states[n], inputs[n], b)
    requires OneTab(inputs[m].page) && OneTab(inputs[n].page)
    ensures m < k < n && InLibrary(states[k], b)
    ensures Departs(states[k], inputs[k], states[k + 1], b)
  {
    hide Step, Scanned, Departs;
    CheckoutNeedsChange(states[m], inputs[m], b);
    CheckoutNeedsChange(states[n], inputs[n], b);
    RunStep(inputs, states, m);
    k := DepartsFromDA(inputs, states, b, m + 1, n);
  }
}
