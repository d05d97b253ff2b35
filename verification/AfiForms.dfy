/** What a scan does, in terms of the page, the tags and the stored entries alone: which
    form is submitted or which write requested, exactly when, and what is left in the map. */
module AfiForms {
  import opened Bytes
  import opened AfiMap
  import opened AfiRuns
  import opened AfiFate
  import Hex

  // ---------------------------------------------------------------- the tag dealt with

  predicate Book(tag: Tag) {
    "130" <= tag.content
  }

  predicate Card(tag: Tag) {
    tag.content != "" && !("130" <= tag.content)
  }

  /** Cards go before books where a patron is to be found first. */
  predicate CardsFirst(page: Page) {
    !page.patronLoaded
    && (page.checkoutTab || ((page.circulationUrl || page.homeUrl) && !page.checkinTab))
  }

  /** A book without an entry, with an entry of another byte, or with a write pending. */
  predicate Open(store: Store, tag: Tag) {
    Book(tag)
    && (tag.content in store ==>
          store[tag.content].sec != SecOf(tag.security) || store[tag.content].pending != None)
  }

  /** The i-th tag is dealt with: the only one, or of several the first card where cards go
      first, else the first open book. */
  predicate DealtWith(store: Store, tags: seq<Tag>, page: Page, i: nat) {
    i < |tags|
    && (|tags| == 1
        || if CardsFirst(page) && exists c :: 0 <= c < |tags| && Card(tags[c])
           then Card(tags[i]) && forall j :: 0 <= j < i ==> !Card(tags[j])
           else Open(store, tags[i]) && forall j :: 0 <= j < i ==> !Open(store, tags[j]))
  }

  lemma {:induction false} FirstCardIs(tags: seq<Tag>, i: nat)
    requires i < |tags| && Card(tags[i]) && forall j :: 0 <= j < i ==> !Card(tags[j])
    ensures FirstCard(tags) == Some(tags[i])
  {
    if i > 0 {
      assert !Card(tags[0]);
      FirstCardIs(tags[1..], i - 1);
    }
  }

  lemma {:induction false} FirstCardAt(tags: seq<Tag>) returns (i: nat)
    requires exists c :: 0 <= c < |tags| && Card(tags[c])
    ensures i < |tags| && Card(tags[i]) && forall j :: 0 <= j < i ==> !Card(tags[j])
  {
    i := 0;
    while !Card(tags[i])
      invariant i < |tags| && forall j :: 0 <= j < i ==> !Card(tags[j])
      decreases |tags| - i
    {
      i := i + 1;
    }
  }

  lemma {:induction false} FirstBookIs(store: Store, tags: seq<Tag>, i: nat)
    requires i < |tags| && Open(store, tags[i]) && forall j :: 0 <= j < i ==> !Open(store, tags[j])
    ensures FirstBook(store, tags) == Some(tags[i])
  {
    assert "" != tags[i].content;
    if i > 0 {
      assert !Open(store, tags[0]) && !Unprocessed(store, tags[0]);
      FirstBookIs(store, tags[1..], i - 1);
    }
  }

  lemma FirstBookAt(store: Store, tags: seq<Tag>) returns (i: nat)
    requires FirstBook(store, tags).Some?
    ensures i < |tags| && Open(store, tags[i]) && forall j :: 0 <= j < i ==> !Open(store, tags[j])
  {
    var t := FirstBook(store, tags).value;
    var k :| 0 <= k < |tags| && tags[k] == t;
    assert Open(store, tags[k]);
    i := 0;
    while !Open(store, tags[i])
      invariant i <= k && forall j :: 0 <= j < i ==> !Open(store, tags[j])
      decreases k - i
    {
      i := i + 1;
    }
  }

  lemma SeenOpen(store: Store, visible: seq<string>, now: nat, tag: Tag)
    ensures Open(See(store, visible, now), tag) == Open(store, tag)
  {}

  lemma SeenDealtWith(store: Store, visible: seq<string>, now: nat, tags: seq<Tag>, page: Page, i: nat)
    ensures DealtWith(See(store, visible, now), tags, page, i) == DealtWith(store, tags, page, i)
  {
    hide Open, See;
    forall j | 0 <= j < |tags| ensures Open(See(store, visible, now), tags[j]) == Open(store, tags[j]) {
      SeenOpen(store, visible, now, tags[j]);
    }
  }

  lemma PickIs(store: Store, tags: seq<Tag>, page: Page, i: nat)
    requires |tags| > 1 && DealtWith(store, tags, page, i)
    ensures Pick(store, tags, page) == Some(tags[i])
  {
    hide Open, FirstCard, FirstBook;
    if exists c :: 0 <= c < |tags| && Card(tags[c]) {
      var c := FirstCardAt(tags);
      FirstCardIs(tags, c);
      if CardsFirst(page) {
        FirstCardIs(tags, i);
      } else {
        FirstBookIs(store, tags, i);
      }
    } else {
      FirstBookIs(store, tags, i);
    }
  }

  lemma PickAt(store: Store, tags: seq<Tag>, page: Page) returns (i: nat)
    requires |tags| > 1 && Pick(store, tags, page).Some?
    ensures DealtWith(store, tags, page, i) && Pick(store, tags, page) == Some(tags[i])
  {
    hide Open, FirstCard, FirstBook;
    if CardsFirst(page) && exists c :: 0 <= c < |tags| && Card(tags[c]) {
      i := FirstCardAt(tags);
    } else {
      i := FirstBookAt(store, tags);
    }
    PickIs(store, tags, page, i);
  }

  lemma DealtInRange(store: Store, tags: seq<Tag>, page: Page, k: nat)
    requires DealtWith(store, tags, page, k)
    ensures k < |tags|
  {}

  /** At most one tag is dealt with, and it is the one on which the scan acts. */
  lemma ActsOnDealt(s: Sys, i: Input, k: nat)
    requires i.Scan? && DealtWith(s.store, i.tags, i.page, k)
    ensures Acting(s, i) == Some(i.tags[k])
  {
    hide DealtWith, Pick;
    var visible := Contents(i.tags);
    SeenDealtWith(s.store, visible, i.now, i.tags, i.page, k);
    assert k < |i.tags| by { DealtInRange(s.store, i.tags, i.page, k); }
    if |i.tags| > 1 {
      PickIs(See(s.store, visible, i.now), i.tags, i.page, k);
    }
  }

  lemma DealtIfActing(s: Sys, i: Input) returns (k: nat)
    requires i.Scan? && Acting(s, i).Some?
    ensures DealtWith(s.store, i.tags, i.page, k) && k < |i.tags| && Acting(s, i) == Some(i.tags[k])
  {
    var visible := Contents(i.tags);
    k := 0;
    if |i.tags| > 1 {
      k := PickAt(See(s.store, visible, i.now), i.tags, i.page);
    }
    SeenDealtWith(s.store, visible, i.now, i.tags, i.page, k);
  }

  // ---------------------------------------------------------------- what is due

  predicate Writing(e: Option<Entry>) {
    e.Some? && e.value.pending != None
  }

  predicate Same(e: Option<Entry>, sec: Sec) {
    e.Some? && e.value.sec == sec
  }

  /** More than ten seconds since the last submission that the entry knows of. */
  predicate Waited(e: Option<Entry>, now: nat) {
    e.Some? && e.value.submit != 0 ==> now - e.value.submit > 10000
  }

  /** A shown input that does not hold the barcode yet. */
  predicate Ready(field: Field, tag: Tag) {
    field.visible && field.value != tag.content
  }

  /** A circulation page, and not the page for returns or renewals. */
  predicate Desk(page: Page) {
    (page.circulationUrl || page.homeUrl) && !page.returnsUrl && !page.renewUrl
  }

  /** The form is to be submitted for the tag that is dealt with. */
  predicate Due(form: Form, e: Option<Entry>, tag: Tag, page: Page, now: nat) {
    var sec := SecOf(tag.security);
    match form
    case PatronSearch =>
      Card(tag) && page.patronSearch
      && (e.Some? && e.value.sec == Patron ==> now - e.value.submit > 10000)
    case RenewPage =>
      Book(tag) && !Writing(e) && page.renewUrl && sec == D7 && Ready(page.barcode, tag)
    case ReturnsPage =>
      Book(tag) && !Writing(e) && page.returnsUrl && !page.renewUrl && Waited(e, now) && Ready(page.barcode, tag)
    case CheckinTab =>
      Book(tag) && !Writing(e) && Desk(page) && page.checkinTab && Waited(e, now) && Ready(page.returnBarcode, tag)
    case RenewTab =>
      Book(tag) && !Writing(e) && Desk(page) && !page.checkinTab && page.renewTab && sec == D7
      && Ready(page.renewBarcode, tag)
    case Checkout =>
      Book(tag) && !Writing(e) && Desk(page) && !page.checkinTab && sec == DA && Ready(page.barcode, tag)
      && (if page.renewTab then page.checkoutTab else !Same(e, sec))
  }

  /** The write that is pending is to be requested. */
  predicate WriteDue(e: Option<Entry>, tag: Tag, target: Sec) {
    Book(tag) && e.Some? && e.value.pending == Some(target) && target != SecOf(tag.security)
  }

  /** The byte of a book is only to be noted. */
  predicate NoteDue(e: Option<Entry>, tag: Tag, page: Page, now: nat) {
    var sec := SecOf(tag.security);
    Book(tag)
    && if Writing(e) then e.value.pending == Some(sec)
       else if page.renewUrl then sec != D7
       else if page.returnsUrl then !Waited(e, now)
       else if page.circulationUrl || page.homeUrl then
         !page.checkinTab && sec != DA
         && (if page.renewTab then page.checkoutTab && sec != D7 else !Same(e, sec))
       else !Same(e, sec) || page.checkinTab || page.renewTab
  }

  /** A card is noted and its time of submission set, whether or not the patron search is
      there to be submitted. */
  predicate CardDue(e: Option<Entry>, tag: Tag, now: nat) {
    Card(tag) && (e.Some? && e.value.sec == Patron ==> now - e.value.submit > 10000)
  }

  function Shown(tag: Tag): Sec {
    if Book(tag) then SecOf(tag.security) else Patron
  }

  /** The write that a form leaves pending. */
  function Leaves(form: Form, sec: Sec): Option<Sec> {
    match form
    case ReturnsPage => if sec == D7 then Some(DA) else None
    case CheckinTab => if sec == D7 then Some(DA) else None
    case Checkout => Some(D7)
    case _ => None
  }

  /** The entry of the tag that was dealt with. */
  predicate Left(e: Option<Entry>, after: Option<Entry>, tag: Tag, page: Page, now: nat) {
    var submit := if e.Some? then e.value.submit else 0;
    (forall form :: Due(form, e, tag, page, now) ==>
       after == Some(Entry(Shown(tag), Leaves(form, Shown(tag)),
                           if form == ReturnsPage || form == CheckinTab || form == PatronSearch then now else submit,
                           now, now)))
    && (NoteDue(e, tag, page, now) ==> after == Some(Entry(Shown(tag), None, submit, now, now)))
    && (CardDue(e, tag, now) ==> after == Some(Entry(Patron, None, now, now, now)))
    && ((forall form :: !Due(form, e, tag, page, now)) && !NoteDue(e, tag, page, now) && !CardDue(e, tag, now) ==>
          after == if e.None? then None else Some(e.value.(lastSeen := now)))
  }

  // ---------------------------------------------------------------- one tag

  predicate Timed(form: Form) {
    form == ReturnsPage || form == CheckinTab || form == PatronSearch
  }

  /** The decision table for books decides as stated. */
  lemma BookDecides(e: Option<Entry>, tag: Tag, page: Page, now: nat, form: Form)
    requires Book(tag)
    ensures var a := BookAction(e, tag.content, SecOf(tag.security), page, now);
            a.form == Some(form) <==> Due(form, e, tag, page, now)
  {
    hide SecOf;
    assert tag.content != "";
  }

  lemma BookWrites(e: Option<Entry>, tag: Tag, page: Page, now: nat, target: Sec)
    requires Book(tag)
    ensures var a := BookAction(e, tag.content, SecOf(tag.security), page, now);
            a.target == Some(target) <==> WriteDue(e, tag, target)
  {
    hide SecOf;
  }

  lemma BookPuts(e: Option<Entry>, tag: Tag, page: Page, now: nat)
    requires Book(tag)
    ensures var sec := SecOf(tag.security);
            var a := BookAction(e, tag.content, sec, page, now);
            a.put == (if a.form.Some? then Some((sec, Leaves(a.form.value, sec)))
                      else if NoteDue(e, tag, page, now) then Some((sec, None)) else None)
            && a.stamp == (a.form.Some? && Timed(a.form.value))
  {
    hide SecOf;
  }

  /** What is due depends on the byte, the pending write and the submit time alone. */
  lemma SeenDue(e: Entry, tag: Tag, page: Page, now: nat)
    ensures var f := e.(lastSeen := now);
            (forall form :: Due(form, Some(f), tag, page, now) == Due(form, Some(e), tag, page, now))
            && (forall target :: WriteDue(Some(f), tag, target) == WriteDue(Some(e), tag, target))
            && NoteDue(Some(f), tag, page, now) == NoteDue(Some(e), tag, page, now)
            && CardDue(Some(f), tag, now) == CardDue(Some(e), tag, now)
  {}

  function SeenAt(e: Option<Entry>, now: nat): Option<Entry> {
    if e.None? then None else Some(e.value.(lastSeen := now))
  }

  /** The action on the tag, given its entry. */
  function ActionOn(e: Option<Entry>, tag: Tag, page: Page, now: nat): Action {
    if tag.content == "" then NOTHING.(sweep := true)
    else if IsBook(tag.content) then BookAction(e, tag.content, SecOf(tag.security), page, now)
    else CardAction(e, page, now)
  }

  lemma ActionIs(store: Store, tag: Tag, page: Page, now: nat)
    ensures TagAction(See(store, [tag.content], now), tag, page, now)
         == ActionOn(SeenAt(Get(store, tag.content), now), tag, page, now)
  {
    hide BookAction, CardAction;
    assert Get(See(store, [tag.content], now), tag.content) == SeenAt(Get(store, tag.content), now);
  }

  /** The action has the form and the write that are due. */
  lemma ActionDue(e: Option<Entry>, tag: Tag, page: Page, now: nat)
    ensures var a := ActionOn(e, tag, page, now);
            (forall form :: a.form == Some(form) <==> Due(form, e, tag, page, now))
            && (forall target :: a.target == Some(target) <==> WriteDue(e, tag, target))
  {
    hide BookAction;
    var a := ActionOn(e, tag, page, now);
    if Book(tag) {
      assert tag.content != "";
      forall form ensures a.form == Some(form) <==> Due(form, e, tag, page, now) {
        BookDecides(e, tag, page, now, form);
      }
      forall target ensures a.target == Some(target) <==> WriteDue(e, tag, target) {
        BookWrites(e, tag, page, now, target);
      }
    }
  }

  lemma ActionPuts(e: Option<Entry>, tag: Tag, page: Page, now: nat)
    ensures var a := ActionOn(e, tag, page, now);
            a.put == (if a.form.Some? then Some((Shown(tag), Leaves(a.form.value, Shown(tag))))
                      else if NoteDue(e, tag, page, now) || CardDue(e, tag, now) then Some((Shown(tag), None))
                      else None)
            && a.stamp == ((a.form.Some? && Timed(a.form.value)) || CardDue(e, tag, now))
  {
    hide BookAction;
    if Book(tag) {
      assert tag.content != "";
      BookPuts(e, tag, page, now);
    }
  }

  lemma OneTagEvents(store: Store, tag: Tag, page: Page, now: nat)
    ensures var events, e := ScanOne(store, tag, page, now).1, Get(store, tag.content);
            |events| <= 1
            && (forall form, sec, at :: Submit(form, tag.content, sec, at) in events <==>
                  Due(form, e, tag, page, now) && sec == Shown(tag) && at == now)
            && (forall target, sid, at :: Secure(tag.content, sid, target, at) in events <==>
                  WriteDue(e, tag, target) && sid == tag.sid && at == now)
            && (forall event :: event in events ==> event != Wipe && event.barcode == tag.content)
  {
    hide TagAction, ActionOn, Due, WriteDue;
    var e := Get(store, tag.content);
    var seen := See(store, [tag.content], now);
    var a := TagAction(seen, tag, page, now);
    EmittedOne(seen, tag, page, now);
    ActionIs(store, tag, page, now);
    ActionDue(SeenAt(e, now), tag, page, now);
    if e.Some? {
      SeenDue(e.value, tag, page, now);
    }
    assert a.form.Some? ==> Emitted(tag, a, now) == [Submit(a.form.value, tag.content, Shown(tag), now)];
  }

  /** What an action leaves of the entry. */
  lemma ChangedEntry(store: Store, b: string, a: Action, now: nat)
    requires a.stamp ==> a.put.Some?
    ensures var e, after := Get(store, b), Get(Changed(store, b, a, now), b);
            after == if a.put.None? then e
                     else Some(Entry(a.put.value.0, a.put.value.1,
                                     if a.stamp then now else if e.Some? then e.value.submit else 0, now,
                                     if e.Some? && e.value.lastSeen != 0 then e.value.lastSeen else now))
  {}

  lemma CardForm(e: Option<Entry>, tag: Tag, page: Page, now: nat)
    ensures Due(PatronSearch, e, tag, page, now) ==> CardDue(e, tag, now) && Leaves(PatronSearch, Patron) == None
    ensures CardDue(e, tag, now) ==> Shown(tag) == Patron && !NoteDue(e, tag, page, now)
                                     && forall form :: Due(form, e, tag, page, now) ==> form == PatronSearch
    ensures NoteDue(e, tag, page, now) ==> forall form :: !Due(form, e, tag, page, now)
  {
    hide SecOf;
    forall form | NoteDue(e, tag, page, now) ensures !Due(form, e, tag, page, now) {}
  }

  lemma OneTagEntry(store: Store, tag: Tag, page: Page, now: nat)
    ensures Left(Get(store, tag.content), Get(ScanOne(store, tag, page, now).0, tag.content), tag, page, now)
  {
    hide TagAction, ActionOn, Due, WriteDue, NoteDue, CardDue, Changed, Leaves;
    var e := Get(store, tag.content);
    var seen := See(store, [tag.content], now);
    var a := TagAction(seen, tag, page, now);
    ActionIs(store, tag, page, now);
    ActionDue(SeenAt(e, now), tag, page, now);
    ActionPuts(SeenAt(e, now), tag, page, now);
    if e.Some? {
      SeenDue(e.value, tag, page, now);
    }
    ChangedEntry(seen, tag.content, a, now);
    assert Get(seen, tag.content) == SeenAt(e, now);
    CardForm(SeenAt(e, now), tag, page, now);
  }

  // ---------------------------------------------------------------- a whole scan

  function ScanEvents(s: Sys, i: Input): seq<Event>
    requires i.Scan?
  {
    Scanned(s.store, i.tags, i.page, i.now).1
  }

  lemma SeenAlready(store: Store, tag: Tag, page: Page, now: nat)
    ensures ScanOne(See(store, [tag.content], now), tag, page, now) == ScanOne(store, tag, page, now)
  {
    hide TagAction, Changed;
    var visible := [tag.content];
    assert See(See(store, visible, now), visible, now) == See(store, visible, now);
  }

  /** A scan is the scan of the tag dealt with, after all tags were marked as seen. */
  lemma ScanOfDealt(s: Sys, i: Input, k: nat)
    requires i.Scan? && DealtWith(s.store, i.tags, i.page, k) && k < |i.tags|
    ensures Scanned(s.store, i.tags, i.page, i.now)
         == ScanOne(See(s.store, Contents(i.tags), i.now), i.tags[k], i.page, i.now)
  {
    hide ScanOne, DealtWith, Pick;
    ActsOnDealt(s, i, k);
    if |i.tags| == 1 {
      SeenAlready(s.store, i.tags[0], i.page, i.now);
      assert Contents(i.tags) == [i.tags[0].content];
    }
  }

  lemma NoneDealt(s: Sys, i: Input)
    requires i.Scan? && forall k: nat :: !DealtWith(s.store, i.tags, i.page, k)
    ensures Scanned(s.store, i.tags, i.page, i.now)
         == (Sweep(See(s.store, Contents(i.tags), i.now), Contents(i.tags), i.now), [])
  {
    hide DealtWith, Pick;
    if Acting(s, i).Some? {
      var k := DealtIfActing(s, i);
    }
  }

  lemma SeenEntry(store: Store, tags: seq<Tag>, k: nat, now: nat)
    requires k < |tags|
    ensures Get(See(store, Contents(tags), now), tags[k].content) == SeenAt(Get(store, tags[k].content), now)
  {
    assert Contents(tags)[k] == tags[k].content;
  }

  /** The k-th tag is the one dealt with, it has the barcode, and the form is due. */
  predicate FormDueAt(s: Sys, i: Input, k: nat, form: Form, barcode: string)
    requires i.Scan?
  {
    k < |i.tags| && DealtWith(s.store, i.tags, i.page, k) && i.tags[k].content == barcode
    && Due(form, Get(s.store, barcode), i.tags[k], i.page, i.now)
  }

  /** The events of a scan in which a tag is dealt with. */
  lemma DealtEvents(s: Sys, i: Input, k: nat)
    requires i.Scan? && k < |i.tags| && DealtWith(s.store, i.tags, i.page, k)
    ensures var events, tag := ScanEvents(s, i), i.tags[k];
            var e := Get(s.store, tag.content);
            |events| <= 1
            && (forall form, sec, at :: Submit(form, tag.content, sec, at) in events <==>
                  Due(form, e, tag, i.page, i.now) && sec == Shown(tag) && at == i.now)
            && (forall target, sid, at :: Secure(tag.content, sid, target, at) in events <==>
                  WriteDue(e, tag, target) && sid == tag.sid && at == i.now)
            && (forall event :: event in events ==> event != Wipe && event.barcode == tag.content)
  {
    hide Due, WriteDue, DealtWith, Scanned, ScanOne, Shown;
    var tag := i.tags[k];
    ScanOfDealt(s, i, k);
    OneTagEvents(See(s.store, Contents(i.tags), i.now), tag, i.page, i.now);
    SeenEntry(s.store, i.tags, k, i.now);
    if tag.content in s.store {
      SeenDue(s.store[tag.content], tag, i.page, i.now);
    }
  }

  /** A scan submits a form exactly if it is due for the tag that is dealt with, for that
      tag's barcode and with the byte that the tag shows. */
  lemma SubmitsExactly(s: Sys, i: Input, form: Form, barcode: string, sec: Sec, at: nat)
    requires i.Scan?
    ensures Submit(form, barcode, sec, at) in ScanEvents(s, i) <==>
              exists k: nat :: FormDueAt(s, i, k, form, barcode) && sec == Shown(i.tags[k]) && at == i.now
  {
    hide Due, DealtWith, Scanned, ScanOne, Shown;
    if k: nat :| DealtWith(s.store, i.tags, i.page, k) && k < |i.tags| {
      DealtEvents(s, i, k);
      forall j: nat | FormDueAt(s, i, j, form, barcode) ensures j < |i.tags| && i.tags[j] == i.tags[k] {
        ActsOnDealt(s, i, j);
        ActsOnDealt(s, i, k);
      }
      assert FormDueAt(s, i, k, form, barcode)
          <==> i.tags[k].content == barcode && Due(form, Get(s.store, i.tags[k].content), i.tags[k], i.page, i.now);
    } else {
      forall k: nat ensures !DealtWith(s.store, i.tags, i.page, k) {
        if DealtWith(s.store, i.tags, i.page, k) { DealtInRange(s.store, i.tags, i.page, k); }
      }
      NoneDealt(s, i);
    }
  }

  predicate WriteDueAt(s: Sys, i: Input, k: nat, barcode: string, target: Sec)
    requires i.Scan?
  {
    k < |i.tags| && DealtWith(s.store, i.tags, i.page, k) && i.tags[k].content == barcode
    && WriteDue(Get(s.store, barcode), i.tags[k], target)
  }

  /** A scan requests a write exactly if it is pending for the tag that is dealt with and the
      tag shows another byte. */
  lemma RequestsExactly(s: Sys, i: Input, barcode: string, sid: string, target: Sec, at: nat)
    requires i.Scan?
    ensures Secure(barcode, sid, target, at) in ScanEvents(s, i) <==>
              exists k: nat :: WriteDueAt(s, i, k, barcode, target) && sid == i.tags[k].sid && at == i.now
  {
    hide WriteDue, DealtWith, Scanned, ScanOne;
    if k: nat :| DealtWith(s.store, i.tags, i.page, k) && k < |i.tags| {
      DealtEvents(s, i, k);
      forall j: nat | WriteDueAt(s, i, j, barcode, target) ensures j < |i.tags| && i.tags[j] == i.tags[k] {
        ActsOnDealt(s, i, j);
        ActsOnDealt(s, i, k);
      }
      assert WriteDueAt(s, i, k, barcode, target)
          <==> i.tags[k].content == barcode && WriteDue(Get(s.store, i.tags[k].content), i.tags[k], target);
    } else {
      forall k: nat ensures !DealtWith(s.store, i.tags, i.page, k) {
        if DealtWith(s.store, i.tags, i.page, k) { DealtInRange(s.store, i.tags, i.page, k); }
      }
      NoneDealt(s, i);
    }
  }

  /** A scan makes at most one event, a form or a write request. */
  lemma AtMostOneEvent(s: Sys, i: Input)
    requires i.Scan?
    ensures |ScanEvents(s, i)| <= 1 && Wipe !in ScanEvents(s, i)
    ensures Step(s, i).trace == s.trace + ScanEvents(s, i)
  {
    hide DealtWith, Scanned;
    if k: nat :| DealtWith(s.store, i.tags, i.page, k) && k < |i.tags| {
      DealtEvents(s, i, k);
    } else {
      forall k: nat ensures !DealtWith(s.store, i.tags, i.page, k) {
        if DealtWith(s.store, i.tags, i.page, k) { DealtInRange(s.store, i.tags, i.page, k); }
      }
      NoneDealt(s, i);
    }
  }

  lemma SeenLeft(e: Option<Entry>, after: Option<Entry>, tag: Tag, page: Page, now: nat)
    requires Left(SeenAt(e, now), after, tag, page, now)
    ensures Left(e, after, tag, page, now)
  {
    hide Due, NoteDue, CardDue, WriteDue;
    if e.Some? {
      SeenDue(e.value, tag, page, now);
    }
  }

  /** The entry that a scan leaves of the tag that it deals with. */
  lemma DealtEntry(s: Sys, i: Input, k: nat)
    requires i.Scan? && k < |i.tags| && DealtWith(s.store, i.tags, i.page, k)
    ensures var c := i.tags[k].content;
            Left(Get(s.store, c), Get(Step(s, i).store, c), i.tags[k], i.page, i.now)
  {
    hide DealtWith, Scanned, ScanOne, Left;
    var tag, seen := i.tags[k], See(s.store, Contents(i.tags), i.now);
    ScanOfDealt(s, i, k);
    OneTagEntry(seen, tag, i.page, i.now);
    SeenEntry(s.store, i.tags, k, i.now);
    SeenLeft(Get(s.store, tag.content), Get(Step(s, i).store, tag.content), tag, i.page, i.now);
  }

  /** Submitted within ten seconds or seen within three. */
  predicate Fresh(e: Entry, now: nat) {
    (e.submit != 0 && now - e.submit < 10000)
    || now - (if e.lastSeen != 0 then e.lastSeen else e.time) <= 3000
  }

  /** The scan ends before its sweep. */
  ghost predicate Unswept(s: Sys, i: Input)
    requires i.Scan?
  {
    exists k :: 0 <= k < |i.tags| && DealtWith(s.store, i.tags, i.page, k)
                && EndsEarly(Get(s.store, i.tags[k].content), i.tags[k], i.page)
  }

  lemma OtherUnchanged(store: Store, tag: Tag, page: Page, now: nat, d: string)
    requires d != tag.content
    ensures var sweep := TagAction(See(store, [tag.content], now), tag, page, now).sweep;
            Get(ScanOne(store, tag, page, now).0, d)
            == if d in store && sweep && !Fresh(store[d], now) then None else Get(store, d)
  {
    hide TagAction;
    var a := TagAction(See(store, [tag.content], now), tag, page, now);
    assert !a.sweep ==> a == a.(sweep := false);
  }

  lemma SeenEnds(e: Option<Entry>, tag: Tag, page: Page, now: nat)
    ensures EndsEarly(SeenAt(e, now), tag, page) == EndsEarly(e, tag, page)
  {}

  /** Every other entry: marked as seen if its tag is in range, else kept as it is, unless
      the scan sweeps and it is not fresh. */
  lemma OtherEntries(s: Sys, i: Input, d: string)
    requires i.Scan?
    requires forall k :: 0 <= k < |i.tags| && DealtWith(s.store, i.tags, i.page, k) ==> i.tags[k].content != d
    ensures Get(Step(s, i).store, d)
         == if d in Contents(i.tags) then SeenAt(Get(s.store, d), i.now)
            else if d in s.store && !Unswept(s, i) && !Fresh(s.store[d], i.now) then None
            else Get(s.store, d)
  {
    hide DealtWith, Scanned, ScanOne, EndsEarly;
    var seen := See(s.store, Contents(i.tags), i.now);
    if k: nat :| DealtWith(s.store, i.tags, i.page, k) && k < |i.tags| {
      var tag := i.tags[k];
      ScanOfDealt(s, i, k);
      OtherUnchanged(seen, tag, i.page, i.now, d);
      SweepExact(seen, [tag.content], tag, i.page, i.now);
      SeenEntry(s.store, i.tags, k, i.now);
      SeenEnds(Get(s.store, tag.content), tag, i.page, i.now);
      forall j | 0 <= j < |i.tags| && DealtWith(s.store, i.tags, i.page, j) ensures i.tags[j] == tag {
        ActsOnDealt(s, i, j);
        ActsOnDealt(s, i, k);
      }
    } else {
      forall k: nat ensures !DealtWith(s.store, i.tags, i.page, k) {
        if DealtWith(s.store, i.tags, i.page, k) { DealtInRange(s.store, i.tags, i.page, k); }
      }
      NoneDealt(s, i);
    }
  }

  /** The other inputs: an answer of success ends the pending write of its barcode, a failure
      nothing; a page load drops what is older than an hour, or all of another version. */
  lemma OtherInputs(s: Sys, i: Input, d: string)
    requires !i.Scan?
    ensures Get(Step(s, i).store, d) ==
      match i
      case Answer(now, barcode, _, ok) =>
        if ok && d == barcode && d in s.store then Some(s.store[d].(pending := None, time := now)) else Get(s.store, d)
      case Load(now, sameVersion) =>
        if d in s.store && sameVersion && now - s.store[d].time <= 3600000 then Some(s.store[d]) else None
      case Reset(_) => None
  {}

  /** The two bytes are recognised in either case. */
  lemma BytesRead(security: string)
    ensures SecOf(security) == DA <==>
              |security| == 2 && (security[0] == 'D' || security[0] == 'd')
              && (security[1] == 'A' || security[1] == 'a')
    ensures SecOf(security) == D7 <==>
              |security| == 2 && (security[0] == 'D' || security[0] == 'd') && security[1] == '7'
  {
    var text := Hex.Upper(security);
    assert text == "DA" <==> |text| == 2 && text[0] == 'D' && text[1] == 'A';
    assert text == "D7" <==> |text| == 2 && text[0] == 'D' && text[1] == '7';
  }
}
