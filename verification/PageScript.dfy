/** The page script itself: it changes the stored map step by step, and its effects are
    those of the functions in AfiMap. */
module PageScript {
  import opened Bytes
  import opened AfiMap
  import AfiRuns

  class PageScript {
    var afi: Store               // in the browser's local storage
    ghost var events: seq<Event> // forms submitted, writes requested, wipes
    ghost var inFlight: multiset<(string, Sec)>  // writes whose answer is still to come
    ghost var clock: nat         // the time of the last input

    /** The state that the theorems about runs speak of. */
    ghost function State(): AfiRuns.Sys
      reads this
    {
      AfiRuns.Sys(afi, inFlight, clock, events)
    }

    ghost predicate Valid()
      reads this
    {
      AfiRuns.Good(State())
    }

    constructor ()
      ensures State() == AfiRuns.START && Valid()
    {
      afi, events, inFlight, clock := map[], [], multiset{}, 0;
    }

    // -------------------------------------------------------------- the map

    method AfiGet(barcode: string) returns (e: Option<Entry>)
      ensures e == Get(afi, barcode)
    {
      e := if barcode in afi then Some(afi[barcode]) else None;
    }

    method AfiSet(barcode: string, sec: Sec, pending: Option<Sec>, now: nat)
      modifies this`afi
      ensures afi == Put(old(afi), barcode, sec, pending, now)
    {
      var submit, seen := 0, now;
      if barcode in afi {
        submit := afi[barcode].submit;
        if afi[barcode].lastSeen != 0 {
          seen := afi[barcode].lastSeen;
        }
      }
      afi := afi[barcode := Entry(sec, pending, submit, now, seen)];
    }

    method AfiSetLastSeen(barcode: string, now: nat)
      modifies this`afi
      ensures afi == See(old(afi), [barcode], now)
    {
      if barcode in afi {
        afi := afi[barcode := afi[barcode].(lastSeen := now)];
      }
    }

    method AfiSetSubmit(barcode: string, now: nat)
      modifies this`afi
      ensures afi == Stamp(old(afi), barcode, now)
    {
      if barcode in afi {
        afi := afi[barcode := afi[barcode].(submit := now)];
      }
    }

    method AfiClearPending(barcode: string, now: nat)
      modifies this`afi
      ensures afi == Acknowledge(old(afi), barcode, now)
    {
      if barcode in afi {
        afi := afi[barcode := afi[barcode].(pending := None)];
        afi := afi[barcode := afi[barcode].(time := now)];
      }
    }

    method AfiSweepStale(visible: seq<string>, now: nat)
      modifies this`afi
      ensures afi == Sweep(old(afi), visible, now)
    {
      var keys := afi.Keys;
      while keys != {}
        invariant keys <= afi.Keys <= old(afi).Keys
        invariant forall k :: k in afi ==> afi[k] == old(afi)[k]
        invariant forall k :: k in old(afi) && k !in keys ==>
                    (k in afi <==> !Stale(k, old(afi)[k], visible, now))
        decreases keys
      {
        var key :| key in keys;
        keys := keys - {key};
        if key in visible {
          continue;
        }
        var e := afi[key];
        if e.submit != 0 && now - e.submit < DEDUP_MS {
          continue;
        }
        var age := now - if e.lastSeen != 0 then e.lastSeen else e.time;
        if age > STALE_MS {
          afi := afi - {key};
        }
      }
    }

    method AfiCleanup(now: nat)
      modifies this`afi
      ensures afi == Cleanup(old(afi), now)
    {
      var keys := afi.Keys;
      while keys != {}
        invariant keys <= afi.Keys <= old(afi).Keys
        invariant forall k :: k in afi ==> afi[k] == old(afi)[k]
        invariant forall k :: k in old(afi) && k !in keys ==>
                    (k in afi <==> !(now - old(afi)[k].time > RETENTION_MS))
        decreases keys
      {
        var key :| key in keys;
        keys := keys - {key};
        if now - afi[key].time > RETENTION_MS {
          afi := afi - {key};
        }
      }
    }

    // -------------------------------------------------------------- effects

    method SubmitForm(form: Form, barcode: string, sec: Sec, now: nat)
      modifies this`events
      ensures events == old(events) + [Submit(form, barcode, sec, now)]
    {
      events := events + [Submit(form, barcode, sec, now)];
    }

    method RequestSecure(barcode: string, sid: string, target: Sec, now: nat)
      modifies this`events
      ensures events == old(events) + [Secure(barcode, sid, target, now)]
    {
      events := events + [Secure(barcode, sid, target, now)];
    }

    // -------------------------------------------------------------- a scan

    /** The tabs of the circulation pages. */
    method ScanOnCirculation(t: Tag, page: Page, now: nat, entry: Option<Entry>)
      requires IsBook(t.content) && entry == Get(afi, t.content)
      modifies this`afi, this`events
      ensures var a := CirculationAction(entry, t.content, SecOf(t.security), page, now);
              afi == Changed(old(afi), t.content, a, now)
              && events == old(events) + Emitted(t, a, now)
    {
      var sec := SecOf(t.security);
      if page.checkinTab {
        var shouldSubmit := entry.None? || entry.value.submit == 0 || now - entry.value.submit > DEDUP_MS;
        if shouldSubmit {
          if page.returnBarcode.visible && page.returnBarcode.value != t.content {
            var pending := if sec == D7 then Some(DA) else None;
            AfiSet(t.content, sec, pending, now);
            AfiSetSubmit(t.content, now);
            SubmitForm(CheckinTab, t.content, sec, now);
          }
        }
      } else if page.renewTab && sec == D7 {
        if page.renewBarcode.visible && page.renewBarcode.value != t.content {
          AfiSet(t.content, sec, None, now);
          SubmitForm(RenewTab, t.content, sec, now);
        }
      } else if page.CheckoutActive() && sec == DA {
        if page.barcode.visible && page.barcode.value != t.content {
          AfiSet(t.content, sec, Some(D7), now);
          SubmitForm(Checkout, t.content, sec, now);
        }
      } else if page.CheckoutActive() && sec != DA {
        AfiSet(t.content, sec, None, now);
      }
    }

    /** What a scan of one book does. True when it ends without a sweep. */
    method ScanBook(t: Tag, page: Page, now: nat) returns (done: bool)
      requires IsBook(t.content)
      modifies this`afi, this`events
      ensures var a := TagAction(old(afi), t, page, now);
              done == !a.sweep && afi == Changed(old(afi), t.content, a.(sweep := false), now)
              && events == old(events) + Emitted(t, a, now)
    {
      var sec := SecOf(t.security);
      var entry := AfiGet(t.content);
      if entry.Some? && entry.value.pending.Some? {
        if entry.value.pending.value != sec {
          RequestSecure(t.content, t.sid, entry.value.pending.value, now);
          return true;
        } else {
          AfiSet(t.content, sec, None, now);
          return true;
        }
      }
      if entry.Some? && entry.value.sec == sec && !page.returnsUrl && !page.renewUrl
         && !page.checkinTab && !page.renewTab {
        return true;
      }
      if page.renewUrl {
        if sec == D7 {
          if page.barcode.visible && page.barcode.value != t.content {
            AfiSet(t.content, sec, None, now);
            SubmitForm(RenewPage, t.content, sec, now);
          }
        } else {
          AfiSet(t.content, sec, None, now);
        }
        return true;
      }
      if page.returnsUrl {
        var shouldSubmit := entry.None? || entry.value.submit == 0 || now - entry.value.submit > DEDUP_MS;
        if shouldSubmit {
          if page.barcode.visible && page.barcode.value != t.content {
            var pending := if sec == D7 then Some(DA) else None;
            AfiSet(t.content, sec, pending, now);
            AfiSetSubmit(t.content, now);
            SubmitForm(ReturnsPage, t.content, sec, now);
          }
        } else {
          AfiSet(t.content, sec, None, now);
        }
        return true;
      }
      if page.circulationUrl || page.homeUrl {
        ScanOnCirculation(t, page, now, entry);
        return true;
      }
      AfiSet(t.content, sec, None, now);
      return false;
    }

    /** What a scan of one patron card does, up to the sweep. */
    method ScanCard(t: Tag, page: Page, now: nat)
      requires IsCard(t)
      modifies this`afi, this`events
      ensures var a := TagAction(old(afi), t, page, now);
              a.sweep && afi == Changed(old(afi), t.content, a.(sweep := false), now)
              && events == old(events) + Emitted(t, a, now)
    {
      var entry := AfiGet(t.content);
      var canResubmit := entry.None? || (entry.value.sec == Patron && now - entry.value.submit > DEDUP_MS)
                         || entry.value.sec != Patron;
      if canResubmit {
        AfiSet(t.content, Patron, None, now);
        AfiSetSubmit(t.content, now);
        if page.patronSearch {
          SubmitForm(PatronSearch, t.content, Patron, now);
        }
      }
    }

    /** Mark all tags in range as seen. */
    method SeeTags(tags: seq<Tag>, now: nat) returns (visible: seq<string>)
      modifies this`afi
      ensures visible == Contents(tags) && afi == See(old(afi), visible, now)
    {
      visible := [];
      for i := 0 to |tags|
        invariant visible == Contents(tags)[..i]
        invariant afi == See(old(afi), visible, now)
      {
        AfiSetLastSeen(tags[i].content, now);
        visible := visible + [tags[i].content];
      }
    }

    method FindCard(tags: seq<Tag>) returns (card: Option<Tag>)
      ensures card == FirstCard(tags)
    {
      for i := 0 to |tags|
        invariant FirstCard(tags) == FirstCard(tags[i..])
      {
        if tags[i].content != "" && !IsBook(tags[i].content) {
          return Some(tags[i]);
        }
      }
      card := None;
    }

    method FindBook(tags: seq<Tag>) returns (book: Option<Tag>)
      ensures book == FirstBook(afi, tags)
    {
      for i := 0 to |tags|
        invariant FirstBook(afi, tags) == FirstBook(afi, tags[i..])
      {
        if tags[i].content == "" {
          continue;
        }
        if IsBook(tags[i].content) {
          var entry := AfiGet(tags[i].content);
          var sec := SecOf(tags[i].security);
          if entry.None? || entry.value.sec != sec || entry.value.pending.Some? {
            return Some(tags[i]);
          }
        }
      }
      book := None;
    }

    /** The branches for a single tag. */
    method ScanSingle(t: Tag, page: Page, now: nat) returns (done: bool)
      modifies this`afi, this`events
      ensures var a := TagAction(old(afi), t, page, now);
              done == !a.sweep && afi == Changed(old(afi), t.content, a.(sweep := false), now)
              && events == old(events) + Emitted(t, a, now)
    {
      done := false;
      if t.content == "" {
      } else if IsBook(t.content) {
        done := ScanBook(t, page, now);
      } else {
        ScanCard(t, page, now);
      }
    }

    /** A scan: tags in range are marked as seen, and at most one tag is dealt with; of
        several tags the chosen one is scanned again as if it were alone. */
    method Scan(tags: seq<Tag>, page: Page, now: nat)
      modifies this`afi, this`events
      ensures afi == Scanned(old(afi), tags, page, now).0
      ensures events == old(events) + Scanned(old(afi), tags, page, now).1
      decreases |tags|
    {
      var visible := SeeTags(tags, now);
      if |tags| == 1 {
        assert visible == [tags[0].content];
        var done := ScanSingle(tags[0], page, now);
        if done {
          return;
        }
      } else if |tags| > 1 {
        if (page.CheckoutActive() || (!page.checkinTab && page.Circulation())) && !page.patronLoaded {
          var card := FindCard(tags);
          if card.Some? {
            Scan([card.value], page, now);
            return;
          }
        }
        var book := FindBook(tags);
        if book.Some? {
          Scan([book.value], page, now);
          return;
        }
      } else {
        assert afi == old(afi);
      }
      AfiSweepStale(visible, now);
    }

    // -------------------------------------------------------------- other events

    /** The page is ready: a map of another version is dropped, old entries too. */
    method Ready(sameVersion: bool, now: nat)
      modifies this`afi, this`events
      ensures afi == Cleanup(if sameVersion then old(afi) else map[], now)
      ensures events == old(events) + if sameVersion then [] else [Wipe]
    {
      if !sameVersion {
        afi := map[];
        events := events + [Wipe];
      }
      AfiCleanup(now);
    }

    /** The reset button. */
    method Reset()
      modifies this`afi, this`events
      ensures afi == map[] && events == old(events) + [Wipe]
    {
      afi := map[];
      events := events + [Wipe];
    }

    /** The answer to a request to write an AFI byte; one that failed changes nothing. */
    method SecureAnswered(barcode: string, status: int, now: nat)
      modifies this`afi
      ensures afi == if status == 200 then Acknowledge(old(afi), barcode, now) else old(afi)
    {
      if status == 200 {
        AfiClearPending(barcode, now);
      }
    }

    // -------------------------------------------------------------- every event

    /** Whatever happens to the page takes the state where the model of runs takes it. */
    method Handle(i: AfiRuns.Input)
      requires Valid() && AfiRuns.Allowed(State(), i)
      modifies this
      ensures State() == AfiRuns.Step(old(State()), i) && Valid()
    {
      AfiRuns.StepGood(State(), i);
      match i {
        case Scan(now, tags, page) =>
          Scan(tags, page, now);
          inFlight := AfiRuns.Flying(inFlight, Scanned(old(afi), tags, page, now).1);
        case Answer(now, barcode, target, ok) =>
          SecureAnswered(barcode, if ok then 200 else 500, now);
          inFlight := inFlight - multiset{(barcode, target)};
        case Load(now, sameVersion) =>
          Ready(sameVersion, now);
          inFlight := multiset{};
        case Reset(now) =>
          Reset();
      }
      clock := i.now;
    }
  }
}
