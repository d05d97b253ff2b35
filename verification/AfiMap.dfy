/** The page script's map of barcodes, and what it does with the tags that a scan reports.
    The map outlives page loads; it decides which forms are submitted and which AFI bytes
    are written, so that neither is done twice and no write is forgotten. */
module AfiMap {
  import opened Bytes
  import Hex

  /** The AFI byte last read from a tag; patron cards have none. */
  datatype Sec = DA | D7 | Patron | Other(code: string)

  /** Times are in milliseconds; zero stands for a time that is not set, as both are false
      for the script. */
  datatype Entry = Entry(sec: Sec, pending: Option<Sec>, submit: nat, time: nat, lastSeen: nat)

  type Store = map<string, Entry>

  datatype Tag = Tag(sid: string, content: string, security: string)

  /** An input field of the page. */
  datatype Field = Field(visible: bool, value: string)

  /** The facts about the page that the script looks at. */
  datatype Page = Page(
    circulationUrl: bool, homeUrl: bool, returnsUrl: bool, renewUrl: bool,
    checkinTab: bool, renewTab: bool, checkoutTab: bool, patronLoaded: bool,
    barcode: Field, returnBarcode: Field, renewBarcode: Field, patronSearch: bool)
  {
    predicate Circulation() { circulationUrl || homeUrl }

    predicate CheckoutActive() {
      checkoutTab || (Circulation() && !checkinTab && !renewTab)
    }
  }

  datatype Form = ReturnsPage | CheckinTab | RenewPage | RenewTab | Checkout | PatronSearch

  datatype Event =
    | Submit(form: Form, barcode: string, sec: Sec, at: nat)
    | Secure(barcode: string, sid: string, target: Sec, at: nat)
    | Wipe

  const DEDUP_MS: nat := 10000
  const STALE_MS: nat := 3000
  const RETENTION_MS: nat := 3600000

  predicate IsBook(barcode: string) {
    "130" <= barcode
  }

  function SecOf(security: string): (sec: Sec)
    ensures sec != Patron
  {
    var text := Hex.Upper(security);
    if text == "DA" then DA else if text == "D7" then D7 else Other(text)
  }

  function Get(store: Store, barcode: string): Option<Entry> {
    if barcode in store then Some(store[barcode]) else None
  }

  // ---------------------------------------------------------------- changes of the map

  function Put(store: Store, barcode: string, sec: Sec, pending: Option<Sec>, now: nat): Store {
    var submit := if barcode in store then store[barcode].submit else 0;
    var seen := if barcode in store && store[barcode].lastSeen != 0 then store[barcode].lastSeen else now;
    store[barcode := Entry(sec, pending, submit, now, seen)]
  }

  function Stamp(store: Store, barcode: string, now: nat): Store {
    if barcode in store then store[barcode := store[barcode].(submit := now)] else store
  }

  function Acknowledge(store: Store, barcode: string, now: nat): Store {
    if barcode in store then store[barcode := store[barcode].(pending := None, time := now)] else store
  }

  /** All entries of the given barcodes seen now. */
  function See(store: Store, visible: seq<string>, now: nat): Store {
    map k | k in store :: if k in visible then store[k].(lastSeen := now) else store[k]
  }

  predicate Stale(barcode: string, e: Entry, visible: seq<string>, now: nat) {
    var seen := if e.lastSeen != 0 then e.lastSeen else e.time;
    barcode !in visible && !(e.submit != 0 && now - e.submit < DEDUP_MS) && now - seen > STALE_MS
  }

  function Sweep(store: Store, visible: seq<string>, now: nat): Store {
    map k | k in store && !Stale(k, store[k], visible, now) :: store[k]
  }

  function Cleanup(store: Store, now: nat): Store {
    map k | k in store && !(now - store[k].time > RETENTION_MS) :: store[k]
  }

  // ---------------------------------------------------------------- one tag

  /** What is done about a tag: an entry put, its submit time set, a form submitted, an AFI
      byte written, stale entries swept. */
  datatype Action = Action(
    put: Option<(Sec, Option<Sec>)>, stamp: bool, form: Option<Form>, target: Option<Sec>, sweep: bool)

  const NOTHING := Action(None, false, None, None, false)

  function Note(sec: Sec): Action {
    NOTHING.(put := Some((sec, None)))
  }

  predicate Free(field: Field, barcode: string) {
    field.visible && field.value != barcode
  }

  /** More than ten seconds since the last submission, as far as the entry knows. */
  predicate MaySubmit(entry: Option<Entry>, now: nat) {
    entry.None? || entry.value.submit == 0 || now - entry.value.submit > DEDUP_MS
  }

  /** A return form for a tag: a book on loan is to be secured afterwards. */
  function Return(form: Form, sec: Sec): Action {
    Action(Some((sec, if sec == D7 then Some(DA) else None)), true, Some(form), None, false)
  }

  function CirculationAction(entry: Option<Entry>, barcode: string, sec: Sec, page: Page, now: nat): Action {
    if page.checkinTab then
      if MaySubmit(entry, now) && Free(page.returnBarcode, barcode) then Return(CheckinTab, sec)
      else NOTHING
    else if page.renewTab && sec == D7 then
      if Free(page.renewBarcode, barcode) then Note(sec).(form := Some(RenewTab)) else NOTHING
    else if page.CheckoutActive() && sec == DA then
      if Free(page.barcode, barcode)
      then Action(Some((sec, Some(D7))), false, Some(Checkout), None, false)
      else NOTHING
    else if page.CheckoutActive() then Note(sec)
    else NOTHING
  }

  function BookAction(entry: Option<Entry>, barcode: string, sec: Sec, page: Page, now: nat): Action {
    if entry.Some? && entry.value.pending.Some? then
      if entry.value.pending.value != sec then NOTHING.(target := entry.value.pending)
      else Note(sec)
    else if entry.Some? && entry.value.sec == sec && !page.returnsUrl && !page.renewUrl
            && !page.checkinTab && !page.renewTab then NOTHING
    else if page.renewUrl then
      if sec != D7 then Note(sec)
      else if Free(page.barcode, barcode) then Note(sec).(form := Some(RenewPage))
      else NOTHING
    else if page.returnsUrl then
      if !MaySubmit(entry, now) then Note(sec)
      else if Free(page.barcode, barcode) then Return(ReturnsPage, sec)
      else NOTHING
    else if page.Circulation() then CirculationAction(entry, barcode, sec, page, now)
    else Note(sec).(sweep := true)
  }

  /** A patron card. */
  function CardAction(entry: Option<Entry>, page: Page, now: nat): Action {
    if entry.None? || (entry.value.sec == Patron && now - entry.value.submit > DEDUP_MS)
       || entry.value.sec != Patron
    then Action(Some((Patron, None)), true, if page.patronSearch then Some(PatronSearch) else None, None, true)
    else NOTHING.(sweep := true)
  }

  function TagAction(store: Store, tag: Tag, page: Page, now: nat): Action {
    if tag.content == "" then NOTHING.(sweep := true)
    else if IsBook(tag.content) then
      BookAction(Get(store, tag.content), tag.content, SecOf(tag.security), page, now)
    else CardAction(Get(store, tag.content), page, now)
  }

  function Changed(store: Store, barcode: string, a: Action, now: nat): Store {
    var put := if a.put.Some? then Put(store, barcode, a.put.value.0, a.put.value.1, now) else store;
    var stamped := if a.stamp then Stamp(put, barcode, now) else put;
    if a.sweep then Sweep(stamped, [barcode], now) else stamped
  }

  function Emitted(tag: Tag, a: Action, now: nat): seq<Event> {
    var sec := if IsBook(tag.content) then SecOf(tag.security) else Patron;
    (if a.target.Some? then [Secure(tag.content, tag.sid, a.target.value, now)] else [])
    + (if a.form.Some? then [Submit(a.form.value, tag.content, sec, now)] else [])
  }

  // ---------------------------------------------------------------- one scan

  function Contents(tags: seq<Tag>): (c: seq<string>)
    ensures |c| == |tags|
  {
    seq(|tags|, i requires 0 <= i < |tags| => tags[i].content)
  }

  predicate IsCard(tag: Tag) {
    tag.content != "" && !IsBook(tag.content)
  }

  /** A book whose entry does not match the tag, or that still has a write pending. */
  predicate Unprocessed(store: Store, tag: Tag) {
    tag.content != "" && IsBook(tag.content)
    && (tag.content !in store || store[tag.content].sec != SecOf(tag.security)
        || store[tag.content].pending.Some?)
  }

  predicate WantsCard(page: Page) {
    (page.CheckoutActive() || (!page.checkinTab && page.Circulation())) && !page.patronLoaded
  }

  /** The first card. */
  function FirstCard(tags: seq<Tag>): (r: Option<Tag>)
    ensures r.Some? ==> r.value in tags && IsCard(r.value)
    ensures r.None? ==> forall i :: 0 <= i < |tags| ==> !IsCard(tags[i])
  {
    if tags == [] then None
    else if IsCard(tags[0]) then Some(tags[0])
    else FirstCard(tags[1..])
  }

  /** The first unprocessed book. */
  function FirstBook(store: Store, tags: seq<Tag>): (r: Option<Tag>)
    ensures r.Some? ==> r.value in tags && Unprocessed(store, r.value)
    ensures r.None? ==> forall i :: 0 <= i < |tags| ==> !Unprocessed(store, tags[i])
  {
    if tags == [] then None
    else if Unprocessed(store, tags[0]) then Some(tags[0])
    else FirstBook(store, tags[1..])
  }

  /** Of several tags at most one is dealt with. */
  function Pick(store: Store, tags: seq<Tag>, page: Page): (r: Option<Tag>)
    ensures r.Some? ==> r.value in tags
  {
    if WantsCard(page) && FirstCard(tags).Some? then FirstCard(tags) else FirstBook(store, tags)
  }

  function ScanOne(store: Store, tag: Tag, page: Page, now: nat): (Store, seq<Event>) {
    var seen := See(store, [tag.content], now);
    var a := TagAction(seen, tag, page, now);
    (Changed(seen, tag.content, a, now), Emitted(tag, a, now))
  }

  /** The map after a scan, and the forms submitted and writes requested. */
  function Scanned(store: Store, tags: seq<Tag>, page: Page, now: nat): (Store, seq<Event>) {
    if |tags| == 1 then ScanOne(store, tags[0], page, now)
    else
      var visible := Contents(tags);
      var seen := See(store, visible, now);
      if |tags| > 1 && Pick(seen, tags, page).Some? then ScanOne(seen, Pick(seen, tags, page).value, page, now)
      else (Sweep(seen, visible, now), [])
  }
}
