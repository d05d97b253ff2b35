/** A pile of returned books on the reader, left there while the returns page polls: every
    book is processed in the end. Each poll is a scan and what follows it: the answer to
    the write that it requested, or the page load that the form it submitted brings. */
module AfiBatch {
  import opened Bytes
  import opened AfiMap
  import opened AfiRuns
  import Hex

  /** One poll: the page as it is then, the time of the scan, and the time of the answer
      or the page load that follows it. */
  datatype Poll = Poll(page: Page, now: nat, next: nat)

  /** The script's state and the tags on the reader. */
  datatype Batch = Batch(sys: Sys, tags: seq<Tag>)

  /** Different books and nothing else, at least two of them. */
  predicate Pile(tags: seq<Tag>) {
    |tags| >= 2
    && (forall i :: 0 <= i < |tags| ==> IsBook(tags[i].content))
    && (forall i, j :: 0 <= i < j < |tags| ==> tags[i].content != tags[j].content)
  }

  /** The returns page with its input shown and empty again. */
  predicate Returns(page: Page) {
    page.returnsUrl && !page.renewUrl && page.barcode == Field(true, "")
  }

  predicate AllReturns(polls: seq<Poll>) {
    forall i :: 0 <= i < |polls| ==> Returns(polls[i].page)
  }

  function CodeOf(sec: Sec): string {
    match sec case DA => "DA" case D7 => "D7" case Patron => "" case Other(code) => code
  }

  /** The byte on a tag after the requested writes were carried out. */
  function Rewritten(tag: Tag, events: seq<Event>): Tag {
    if events != [] && events[0].Secure? && tag.content == events[0].barcode
    then tag.(security := CodeOf(events[0].target)) else tag
  }

  function Written(tags: seq<Tag>, events: seq<Event>): (r: seq<Tag>)
    ensures |r| == |tags|
  {
    seq(|tags|, i requires 0 <= i < |tags| => Rewritten(tags[i], events))
  }

  /** What a scan with some events is followed by. */
  function Following(events: seq<Event>, at: nat): Option<Input> {
    if events == [] then None
    else match events[0]
      case Secure(barcode, _, target, _) => Some(Answer(at, barcode, target, true))
      case Submit(_, _, _, _) => Some(Load(at, true))
      case Wipe => None
  }

  function Polled(b: Batch, p: Poll): Batch {
    var scan := Scan(p.now, b.tags, p.page);
    var events := Scanned(b.sys.store, b.tags, p.page, p.now).1;
    var scanned := Step(b.sys, scan);
    Batch(match Following(events, p.next) case None => scanned case Some(i) => Step(scanned, i),
          Written(b.tags, events))
  }

  function After(b: Batch, polls: seq<Poll>): Batch {
    if polls == [] then b else Polled(After(b, polls[..|polls| - 1]), polls[|polls| - 1])
  }

  // ---------------------------------------------------------------- polls are runs

  /** A clock that never runs backwards. */
  predicate Paced(clock: nat, polls: seq<Poll>) {
    polls == []
    || var n := |polls| - 1;
       0 < polls[n].now <= polls[n].next && Paced(clock, polls[..n])
       && (if n == 0 then clock else polls[n - 1].next) <= polls[n].now
  }

  lemma PollAllowed(b: Batch, p: Poll)
    requires p.now > 0 && b.sys.clock <= p.now <= p.next
    ensures Allowed(b.sys, Scan(p.now, b.tags, p.page)) && Polled(b, p).sys.clock <= p.next
    ensures var scanned := Step(b.sys, Scan(p.now, b.tags, p.page));
            var following := Following(Scanned(b.sys.store, b.tags, p.page, p.now).1, p.next);
            following.Some? ==> Allowed(scanned, following.value)
  {
    var events := Scanned(b.sys.store, b.tags, p.page, p.now).1;
    ScannedEvents(b.sys.store, b.tags, p.page, p.now);
    if events != [] {
      assert events[..|events| - 1] == [];
    }
  }

  lemma PollIsRun(inputs: seq<Input>, states: seq<Sys>, b: Batch, p: Poll)
    returns (more: seq<Input>, after: seq<Sys>)
    requires IsRun(inputs, states) && b.sys == states[|inputs|]
    requires p.now > 0 && b.sys.clock <= p.now <= p.next
    ensures IsRun(more, after) && inputs <= more
    ensures after[|more|] == Polled(b, p).sys && after[|more|].clock <= p.next
  {
    PollAllowed(b, p);
    more, after := Extend(inputs, states, Scan(p.now, b.tags, p.page));
    var following := Following(Scanned(b.sys.store, b.tags, p.page, p.now).1, p.next);
    if following.Some? {
      more, after := Extend(more, after, following.value);
    }
  }

  /** Polls continue any run of the page script, so all that holds in its runs holds here. */
  lemma {:induction false} PollsAreRuns(inputs: seq<Input>, states: seq<Sys>, tags: seq<Tag>, polls: seq<Poll>)
    returns (more: seq<Input>, after: seq<Sys>)
    requires IsRun(inputs, states) && Paced(states[|inputs|].clock, polls)
    ensures IsRun(more, after) && inputs <= more
    ensures after[|more|] == After(Batch(states[|inputs|], tags), polls).sys
    ensures polls != [] ==> after[|more|].clock <= polls[|polls| - 1].next
  {
    hide Polled, Step;
    more, after := inputs, states;
    if polls != [] {
      var n := |polls| - 1;
      var b, p := After(Batch(states[|inputs|], tags), polls[..n]), polls[n];
      more, after := PollsAreRuns(inputs, states, tags, polls[..n]);
      more, after := PollIsRun(more, after, b, p);
    }
  }

  // ---------------------------------------------------------------- the map after a poll

  /** A book's pending write is the opposite of the stored byte. */
  predicate PendingOk(e: Entry) {
    e.pending == None || (e.pending == Some(DA) && e.sec == D7) || (e.pending == Some(D7) && e.sec == DA)
  }

  predicate StoreOk(store: Store) {
    forall b :: b in store && IsBook(b) ==> PendingOk(store[b])
  }

  /** The map after the answer or the page load. */
  function Settled(store: Store, events: seq<Event>, at: nat): Store {
    if events == [] then store
    else match events[0]
      case Secure(barcode, _, _, _) => Acknowledge(store, barcode, at)
      case Submit(_, _, _, _) => Cleanup(store, at)
      case Wipe => store
  }

  lemma FollowingParts(s: Sys, events: seq<Event>, at: nat)
    ensures var following := Following(events, at);
            var after := if following.None? then s else Step(s, following.value);
            after.store == Settled(s.store, events, at) && after.trace == s.trace
  {
    assert s.trace + [] == s.trace;
  }

  lemma PolledParts(b: Batch, p: Poll)
    ensures var (store, events) := Scanned(b.sys.store, b.tags, p.page, p.now);
            Polled(b, p).sys.store == Settled(store, events, p.next)
            && Polled(b, p).sys.trace == b.sys.trace + events
            && Polled(b, p).tags == Written(b.tags, events)
  {
    var events := Scanned(b.sys.store, b.tags, p.page, p.now).1;
    FollowingParts(Step(b.sys, Scan(p.now, b.tags, p.page)), events, p.next);
  }

  /** Not before the polls began, and the page load within an hour of the scan. */
  predicate InTime(start: nat, p: Poll) {
    start <= p.now <= p.next <= p.now + RETENTION_MS
  }

  /** An entry touched since the polls began is no older than an hour at the poll's page
      load. */
  predicate Lasts(store: Store, barcode: string, p: Poll, start: nat) {
    barcode in store && store[barcode].time >= start ==> p.next <= store[barcode].time + RETENTION_MS
  }

  /** The same byte and the same pending write since the same time. */
  predicate SameWrite(e: Option<Entry>, f: Option<Entry>) {
    (e.None? && f.None?)
    || (e.Some? && f.Some? && e.value.sec == f.value.sec && e.value.pending == f.value.pending
        && e.value.time == f.value.time)
  }

  /** Untouched, unless it was dropped, being older than the start of the polls. */
  predicate Carried(e: Option<Entry>, f: Option<Entry>, start: nat) {
    SameWrite(e, f) || (e.Some? && e.value.time < start && f.None?)
  }

  lemma OthersUntouched(store: Store, tag: Tag, p: Poll, c: string)
    requires IsBook(tag.content) && Returns(p.page) && c != tag.content
    ensures Get(ScanOne(store, tag, p.page, p.now).0, c) == Get(store, c)
  {
    assert tag.content != "";
  }

  lemma OthersCarried(store: Store, tag: Tag, p: Poll, start: nat, c: string)
    requires IsBook(tag.content) && Returns(p.page) && InTime(start, p) && c != tag.content
    ensures var (after, events) := ScanOne(store, tag, p.page, p.now);
            var e, f := Get(store, c), Get(Settled(after, events, p.next), c);
            (Lasts(store, c, p, start) ==> Carried(e, f, start)) && (SameWrite(e, f) || f.None?)
  {
    assert tag.content != "";
    EmittedOne(See(store, [tag.content], p.now), tag, p.page, p.now);
    OthersUntouched(store, tag, p, c);
  }

  // ---------------------------------------------------------------- progress

  /** How many polls a book takes that is not in the map. */
  function NewRank(sec: Sec): nat {
    if sec == D7 then 3 else 1
  }

  /** How many polls a book can still take, given its entry and the byte on its tag. An
      entry from before the start may be dropped at a page load, once. */
  function Rank(e: Option<Entry>, sec: Sec, start: nat): (n: nat)
    ensures n <= 4
  {
    match e
    case None => NewRank(sec)
    case Some(entry) =>
      var left := match entry.pending
        case Some(target) => (if target == sec then 1 else if target == D7 then 4 else 2)
        case None => (if entry.sec == sec then 0 else NewRank(sec));
      if entry.time < start && left < NewRank(sec) then NewRank(sec) else left
  }

  function Ranks(b: Batch, start: nat): (r: seq<nat>)
    ensures |r| == |b.tags|
  {
    seq(|b.tags|, i requires 0 <= i < |b.tags| =>
      Rank(Get(b.sys.store, b.tags[i].content), SecOf(b.tags[i].security), start))
  }

  function Sum(r: seq<nat>): nat {
    if r == [] then 0 else r[0] + Sum(r[1..])
  }

  lemma {:induction false} SumAtMost(r: seq<nat>, s: seq<nat>)
    requires |r| == |s| && forall i :: 0 <= i < |r| ==> s[i] <= r[i]
    ensures Sum(s) <= Sum(r)
  {
    if r != [] {
      SumAtMost(r[1..], s[1..]);
    }
  }

  lemma {:induction false} SumLess(r: seq<nat>, s: seq<nat>, k: nat)
    requires |r| == |s| && k < |r| && s[k] < r[k]
    requires forall i :: 0 <= i < |r| ==> s[i] <= r[i]
    ensures Sum(s) < Sum(r)
  {
    if k > 0 {
      SumLess(r[1..], s[1..], k - 1);
    } else {
      SumAtMost(r[1..], s[1..]);
    }
  }

  lemma {:induction false} SumBound(r: seq<nat>)
    requires forall i :: 0 <= i < |r| ==> r[i] <= 4
    ensures Sum(r) <= 4 * |r|
  {
    if r != [] { SumBound(r[1..]); }
  }

  lemma {:induction false} SumZero(r: seq<nat>)
    requires Sum(r) == 0
    ensures forall i :: 0 <= i < |r| ==> r[i] == 0
  {
    if r != [] {
      SumZero(r[1..]);
      assert forall i :: 0 < i < |r| ==> r[i] == r[1..][i - 1];
    }
  }

  lemma CodesRead()
    ensures SecOf("DA") == DA && SecOf("D7") == D7
  {
    assert Hex.Upper("DA") == "DA";
    assert Hex.Upper("D7") == "D7";
  }

  /** What happens to the book that is dealt with: its entry, the byte on its tag, and the
      events. */
  lemma BookPolled(store: Store, tag: Tag, p: Poll, start: nat)
    requires IsBook(tag.content) && Returns(p.page) && InTime(start, p)
    requires tag.content in store ==> PendingOk(store[tag.content])
    requires Unprocessed(store, tag)
    ensures var (after, events) := ScanOne(store, tag, p.page, p.now);
            var final, sec := Settled(after, events, p.next), SecOf(Rewritten(tag, events).security);
            (events != [] ==> events[0].Submit? || (events[0].Secure? && events[0].barcode == tag.content))
            && tag.content in final && PendingOk(final[tag.content]) && final[tag.content].time >= start
            && Rank(Get(final, tag.content), sec, start)
               < Rank(Get(store, tag.content), SecOf(tag.security), start)
  {
    assert tag.content != "";
    CodesRead();
    EmittedOne(See(store, [tag.content], p.now), tag, p.page, p.now);
  }

  /** Every book of the pile has an entry that matches its tag, with nothing pending. */
  predicate Done(b: Batch) {
    forall i :: 0 <= i < |b.tags| ==> !Unprocessed(b.sys.store, b.tags[i])
  }

  /** The poll comes in time for the pile: no entry of its books that was touched since the
      polls began is dropped at the page load. */
  predicate Timely(b: Batch, p: Poll, start: nat) {
    InTime(start, p) && forall i :: 0 <= i < |b.tags| ==> Lasts(b.sys.store, b.tags[i].content, p, start)
  }

  /** Which book a poll deals with. */
  lemma Chosen(b: Batch, p: Poll) returns (k: nat)
    requires Pile(b.tags) && Returns(p.page) && !Done(b)
    ensures k < |b.tags| && Unprocessed(See(b.sys.store, Contents(b.tags), p.now), b.tags[k])
    ensures Scanned(b.sys.store, b.tags, p.page, p.now)
         == ScanOne(See(b.sys.store, Contents(b.tags), p.now), b.tags[k], p.page, p.now)
  {
    var seen := See(b.sys.store, Contents(b.tags), p.now);
    var i :| 0 <= i < |b.tags| && Unprocessed(b.sys.store, b.tags[i]);
    assert Unprocessed(seen, b.tags[i]);
    assert FirstCard(b.tags).None?;
    var t := FirstBook(seen, b.tags).value;
    k :| 0 <= k < |b.tags| && b.tags[k] == t;
  }

  /** One book has come closer to its end and the others are where they were. */
  ghost predicate OneProcessed(b: Batch, after: Batch, k: nat, start: nat)
    requires k < |b.tags|
  {
    var c := b.tags[k].content;
    Contents(after.tags) == Contents(b.tags)
    && (forall i :: 0 <= i < |b.tags| && i != k ==> after.tags[i] == b.tags[i])
    && (forall i :: 0 <= i < |b.tags| && i != k ==>
          Carried(Get(b.sys.store, b.tags[i].content), Get(after.sys.store, b.tags[i].content), start))
    && (forall d :: d != c && d in after.sys.store ==> SameWrite(Get(b.sys.store, d), Get(after.sys.store, d)))
    && c in after.sys.store && PendingOk(after.sys.store[c])
    && Rank(Get(after.sys.store, c), SecOf(after.tags[k].security), start)
       < Rank(Get(b.sys.store, c), SecOf(b.tags[k].security), start)
  }

  lemma SeenSame(store: Store, visible: seq<string>, now: nat, d: string)
    ensures SameWrite(Get(See(store, visible, now), d), Get(store, d))
  {}

  lemma TagsWritten(tags: seq<Tag>, events: seq<Event>, k: nat)
    requires Pile(tags) && k < |tags|
    requires events != [] ==> events[0].Submit? || (events[0].Secure? && events[0].barcode == tags[k].content)
    ensures Contents(Written(tags, events)) == Contents(tags)
    ensures forall i :: 0 <= i < |tags| && i != k ==> Written(tags, events)[i] == tags[i]
  {
    forall i | 0 <= i < |tags| && i != k ensures tags[i].content != tags[k].content {}
  }

  /** The rank looks at nothing that being seen changes. */
  lemma RankSeen(store: Store, visible: seq<string>, now: nat, c: string, sec: Sec, start: nat)
    ensures Rank(Get(See(store, visible, now), c), sec, start) == Rank(Get(store, c), sec, start)
  {}

  /** The entry of another book of the pile. */
  lemma OneCarried(b: Batch, p: Poll, start: nat, k: nat, i: nat)
    requires Pile(b.tags) && Returns(p.page) && Timely(b, p, start)
    requires k < |b.tags| && i < |b.tags| && i != k
    requires Scanned(b.sys.store, b.tags, p.page, p.now)
          == ScanOne(See(b.sys.store, Contents(b.tags), p.now), b.tags[k], p.page, p.now)
    ensures Carried(Get(b.sys.store, b.tags[i].content), Get(Polled(b, p).sys.store, b.tags[i].content), start)
  {
    hide Polled, Scanned, ScanOne;
    var c, seen := b.tags[i].content, See(b.sys.store, Contents(b.tags), p.now);
    assert c != b.tags[k].content && Lasts(b.sys.store, c, p, start);
    PolledParts(b, p);
    SeenSame(b.sys.store, Contents(b.tags), p.now, c);
    OthersCarried(seen, b.tags[k], p, start, c);
  }

  /** A poll with an unprocessed book deals with one of them and leaves the others. */
  lemma OneBookPolled(b: Batch, p: Poll, start: nat) returns (k: nat)
    requires Pile(b.tags) && StoreOk(b.sys.store) && Returns(p.page) && Timely(b, p, start) && !Done(b)
    ensures k < |b.tags| && OneProcessed(b, Polled(b, p), k, start)
  {
    hide Polled, Scanned, ScanOne, Rank;
    k := Chosen(b, p);
    var visible := Contents(b.tags);
    var seen := See(b.sys.store, visible, p.now);
    var tag := b.tags[k];
    var events := ScanOne(seen, tag, p.page, p.now).1;
    PolledParts(b, p);
    BookPolled(seen, tag, p, start);
    RankSeen(b.sys.store, visible, p.now, tag.content, SecOf(tag.security), start);
    TagsWritten(b.tags, events, k);
    forall d | d != tag.content && d in Polled(b, p).sys.store
      ensures SameWrite(Get(b.sys.store, d), Get(Polled(b, p).sys.store, d))
    {
      OthersCarried(seen, tag, p, start, d);
      SeenSame(b.sys.store, visible, p.now, d);
    }
    forall i | 0 <= i < |b.tags| && i != k
      ensures Carried(Get(b.sys.store, b.tags[i].content), Get(Polled(b, p).sys.store, b.tags[i].content), start)
    {
      OneCarried(b, p, start, k, i);
    }
  }

  lemma KeepsPile(b: Batch, after: Batch, k: nat, start: nat)
    requires Pile(b.tags) && StoreOk(b.sys.store) && k < |b.tags| && OneProcessed(b, after, k, start)
    ensures Pile(after.tags) && StoreOk(after.sys.store)
  {
    var n := |Contents(b.tags)|;
    assert forall i :: 0 <= i < n ==> after.tags[i].content == Contents(after.tags)[i] == b.tags[i].content;
    forall c | c in after.sys.store && IsBook(c) ensures PendingOk(after.sys.store[c]) {
      assert c != b.tags[k].content ==> SameWrite(Get(b.sys.store, c), Get(after.sys.store, c));
    }
  }

  lemma RankCarried(e: Option<Entry>, f: Option<Entry>, sec: Sec, start: nat)
    requires Carried(e, f, start)
    ensures Rank(f, sec, start) <= Rank(e, sec, start)
  {}

  lemma SumFalls(b: Batch, after: Batch, k: nat, start: nat)
    requires Pile(b.tags) && k < |b.tags| && OneProcessed(b, after, k, start)
    ensures Sum(Ranks(after, start)) < Sum(Ranks(b, start))
  {
    assert |after.tags| == |Contents(after.tags)| == |b.tags|;
    assert after.tags[k].content == Contents(after.tags)[k] == b.tags[k].content;
    var r, s := Ranks(b, start), Ranks(after, start);
    forall i | 0 <= i < |r| ensures s[i] <= r[i] {
      if i != k {
        var c := b.tags[i].content;
        assert c != b.tags[k].content;
        RankCarried(Get(b.sys.store, c), Get(after.sys.store, c), SecOf(b.tags[i].security), start);
      }
    }
    SumLess(r, s, k);
  }

  /** A poll of a pile with an unprocessed book makes progress, the page load included. */
  lemma PollProgress(b: Batch, p: Poll, start: nat)
    requires Pile(b.tags) && StoreOk(b.sys.store) && Returns(p.page) && Timely(b, p, start) && !Done(b)
    ensures var after := Polled(b, p);
            Pile(after.tags) && Contents(after.tags) == Contents(b.tags) && StoreOk(after.sys.store)
            && Sum(Ranks(after, start)) < Sum(Ranks(b, start))
  {
    hide Polled, Pile, StoreOk, Ranks, Timely;
    var k := OneBookPolled(b, p, start);
    KeepsPile(b, Polled(b, p), k, start);
    SumFalls(b, Polled(b, p), k, start);
  }

  /** A pile that is processed stays so at whatever times it is polled, and nothing more is
      done about it. */
  lemma PollIdle(b: Batch, p: Poll)
    requires Pile(b.tags) && StoreOk(b.sys.store) && Returns(p.page) && Done(b)
    ensures var after := Polled(b, p);
            after.tags == b.tags && after.sys.trace == b.sys.trace && StoreOk(after.sys.store) && Done(after)
            && forall i :: 0 <= i < |b.tags| ==>
                 SameWrite(Get(after.sys.store, b.tags[i].content), Get(b.sys.store, b.tags[i].content))
  {
    var visible := Contents(b.tags);
    var seen := See(b.sys.store, visible, p.now);
    assert forall i :: 0 <= i < |b.tags| ==> !Unprocessed(seen, b.tags[i]);
    assert FirstCard(b.tags).None?;
    PolledParts(b, p);
    forall i | 0 <= i < |b.tags|
      ensures Get(Sweep(seen, visible, p.now), b.tags[i].content) == Get(seen, b.tags[i].content)
    {
      assert visible[i] == b.tags[i].content;
    }
  }

  lemma RanksBounded(b: Batch, start: nat)
    ensures Sum(Ranks(b, start)) <= 4 * |b.tags|
  {
    SumBound(Ranks(b, start));
  }

  lemma RankZero(b: Batch, start: nat, i: nat)
    requires i < |b.tags| && Ranks(b, start)[i] == 0
    ensures !Unprocessed(b.sys.store, b.tags[i])
  {}

  lemma SumZeroDone(b: Batch, start: nat)
    requires Sum(Ranks(b, start)) == 0
    ensures Done(b)
  {
    SumZero(Ranks(b, start));
    forall i | 0 <= i < |b.tags| ensures !Unprocessed(b.sys.store, b.tags[i]) {
      RankZero(b, start, i);
    }
  }

  /** Every poll comes in time as long as the pile is not processed. */
  predicate AllTimely(b: Batch, polls: seq<Poll>, start: nat) {
    polls == []
    || var front := polls[..|polls| - 1];
       AllTimely(b, front, start) && (Done(After(b, front)) || Timely(After(b, front), polls[|polls| - 1], start))
  }

  lemma {:induction false} RanksFall(b: Batch, polls: seq<Poll>, start: nat)
    requires Pile(b.tags) && StoreOk(b.sys.store) && AllReturns(polls) && AllTimely(b, polls, start)
    ensures var after := After(b, polls);
            Pile(after.tags) && Contents(after.tags) == Contents(b.tags) && StoreOk(after.sys.store)
            && (Done(after) || Sum(Ranks(after, start)) + |polls| <= Sum(Ranks(b, start)))
  {
    hide Polled, Ranks, Pile, StoreOk, Timely;
    if polls != [] {
      var n := |polls| - 1;
      RanksFall(b, polls[..n], start);
      var before := After(b, polls[..n]);
      if Done(before) {
        PollIdle(before, polls[n]);
      } else {
        PollProgress(before, polls[n], start);
      }
    }
  }

  lemma {:induction false} DoneAtLast(b: Batch, polls: seq<Poll>, start: nat)
    requires Pile(b.tags) && StoreOk(b.sys.store) && AllReturns(polls) && AllTimely(b, polls, start)
    requires |polls| >= 4 * |b.tags|
    ensures Done(After(b, polls))
  {
    hide Polled, Ranks, Pile, StoreOk, Timely;
    RanksFall(b, polls, start);
    RanksBounded(b, start);
    if !Done(After(b, polls)) {
      SumZeroDone(After(b, polls), start);
    }
  }

  /** The poll lies within the hour that begins at some time. */
  predicate InHour(start: nat, p: Poll) {
    start <= p.now <= p.next <= start + RETENTION_MS
  }

  lemma HourTimely(b: Batch, p: Poll, start: nat)
    requires InHour(start, p)
    ensures Timely(b, p, start)
  {}

  /** Polls come in time if four for each book, loads included, lie within an hour; how far
      the later ones are apart does not matter. */
  lemma {:induction false} HourSuffices(b: Batch, polls: seq<Poll>, start: nat)
    requires Pile(b.tags) && StoreOk(b.sys.store) && AllReturns(polls)
    requires forall i :: 0 <= i < |polls| && i < 4 * |b.tags| ==> InHour(start, polls[i])
    ensures AllTimely(b, polls, start)
  {
    hide Polled, Pile, StoreOk, Timely, InHour;
    if polls != [] {
      var n := |polls| - 1;
      HourSuffices(b, polls[..n], start);
      if n < 4 * |b.tags| {
        HourTimely(After(b, polls[..n]), polls[n], start);
      } else {
        DoneAtLast(b, polls[..n], start);
      }
    }
  }

  predicate ProcessedAt(b: Batch, barcode: string, i: nat)
    requires i < |b.tags|
  {
    b.tags[i].content == barcode && barcode in b.sys.store
    && b.sys.store[barcode].sec == SecOf(b.tags[i].security) && b.sys.store[barcode].pending == None
  }

  /** Every book of the pile has an entry that matches its tag, and no write pending. */
  predicate Processed(b: Batch, tags: seq<Tag>) {
    |b.tags| == |tags|
    && forall i :: 0 <= i < |tags| ==> ProcessedAt(b, tags[i].content, i)
  }

  lemma DoneProcessed(b: Batch, after: Batch)
    requires Pile(b.tags) && Contents(after.tags) == Contents(b.tags) && Done(after)
    ensures Processed(after, b.tags)
  {
    assert |after.tags| == |Contents(after.tags)|;
    forall i | 0 <= i < |b.tags| ensures ProcessedAt(after, b.tags[i].content, i) {
      assert Contents(after.tags)[i] == Contents(b.tags)[i];
      assert !Unprocessed(after.sys.store, after.tags[i]) && after.tags[i].content != "";
    }
  }

  /** After at most four polls a book, whatever the map held about the pile before, every
      book has an entry that matches its tag, and no write is pending, provided that until
      then no page load comes more than an hour after an entry of the pile was touched. */
  lemma {:induction false} PileIsProcessed(b: Batch, polls: seq<Poll>, start: nat)
    requires Pile(b.tags) && StoreOk(b.sys.store) && AllReturns(polls)
    requires |polls| >= 4 * |b.tags| && AllTimely(b, polls, start)
    ensures Processed(After(b, polls), b.tags)
  {
    hide Polled, StoreOk, Processed, AllTimely;
    RanksFall(b, polls, start);
    DoneAtLast(b, polls, start);
    DoneProcessed(b, After(b, polls));
  }

  lemma GoodStoreOk(s: Sys)
    requires Good(s)
    ensures StoreOk(s.store)
  {
    forall b | b in s.store && IsBook(b) ensures PendingOk(s.store[b]) {
      assert KeyOk(b, s);
    }
  }

  /** A pile laid on the reader at any point of any run of the page script is processed by
      the polls that continue the run. */
  lemma {:induction false} RunProcessesPile(inputs: seq<Input>, states: seq<Sys>, tags: seq<Tag>,
                                            polls: seq<Poll>, start: nat)
    returns (more: seq<Input>, after: seq<Sys>)
    requires IsRun(inputs, states) && Paced(states[|inputs|].clock, polls)
    requires Pile(tags) && AllReturns(polls)
    requires |polls| >= 4 * |tags| && AllTimely(Batch(states[|inputs|], tags), polls, start)
    ensures IsRun(more, after) && inputs <= more
    ensures var end := After(Batch(states[|inputs|], tags), polls);
            after[|more|] == end.sys && Processed(end, tags)
  {
    hide After, Pile, Paced, Processed, AllTimely;
    more, after := PollsAreRuns(inputs, states, tags, polls);
    RunGood(inputs, states, |inputs|);
    GoodStoreOk(states[|inputs|]);
    PileIsProcessed(Batch(states[|inputs|], tags), polls, start);
  }

  // ---------------------------------------------------------------- from an empty map

  /** The book was submitted for return, its tag reading a certain byte, since the trace
      had a certain length. */
  predicate Submitted(trace: seq<Event>, since: nat, barcode: string, sec: Sec) {
    exists k :: since <= k < |trace| && trace[k].Submit? && trace[k].form == ReturnsPage
      && trace[k].barcode == barcode && trace[k].sec == sec
  }

  /** How far a book that was not in the map has come, given the byte that its tag had. */
  predicate Stage(first: Sec, e: Option<Entry>, sec: Sec) {
    match e
    case None => sec == first
    case Some(entry) =>
      if first == D7 then
        (entry.pending == Some(DA) && entry.sec == D7 && sec == D7)
        || (entry.pending == None && sec == DA && (entry.sec == D7 || entry.sec == DA))
      else entry.sec == first && sec == first && entry.pending == None
  }

  /** The polls and what they found when they began. */
  datatype Beginning = Beginning(start: nat, since: nat)

  predicate Staged(b: Batch, tag: Tag, first: Sec, o: Beginning) {
    Stage(first, Get(b.sys.store, tag.content), SecOf(tag.security))
    && (tag.content in b.sys.store ==>
          b.sys.store[tag.content].time >= o.start && Submitted(b.sys.trace, o.since, tag.content, first))
  }

  lemma BookStaged(store: Store, tag: Tag, p: Poll, first: Sec, start: nat)
    requires IsBook(tag.content) && Returns(p.page) && InTime(start, p) && Unprocessed(store, tag)
    requires Stage(first, Get(store, tag.content), SecOf(tag.security))
    ensures var (after, events) := ScanOne(store, tag, p.page, p.now);
            Stage(first, Get(Settled(after, events, p.next), tag.content), SecOf(Rewritten(tag, events).security))
            && (tag.content !in store ==>
                  |events| == 1 && events[0].Submit? && events[0].form == ReturnsPage
                  && events[0].barcode == tag.content && events[0].sec == first)
  {
    assert tag.content != "";
    CodesRead();
    EmittedOne(See(store, [tag.content], p.now), tag, p.page, p.now);
  }

  lemma SubmittedMore(trace: seq<Event>, more: seq<Event>, since: nat, barcode: string, sec: Sec)
    requires since <= |trace|
    ensures Submitted(trace, since, barcode, sec) ==> Submitted(trace + more, since, barcode, sec)
    ensures (|more| == 1 && more[0].Submit? && more[0].form == ReturnsPage && more[0].barcode == barcode
             && more[0].sec == sec) ==> Submitted(trace + more, since, barcode, sec)
  {
    if Submitted(trace, since, barcode, sec) {
      var k :| since <= k < |trace| && trace[k].Submit? && trace[k].form == ReturnsPage
        && trace[k].barcode == barcode && trace[k].sec == sec;
      assert (trace + more)[k] == trace[k];
    }
    assert |more| == 1 ==> (trace + more)[|trace|] == more[0];
  }

  lemma ChosenStaged(b: Batch, p: Poll, k: nat, first: Sec, o: Beginning)
    requires Pile(b.tags) && StoreOk(b.sys.store) && Returns(p.page) && Timely(b, p, o.start)
    requires k < |b.tags| && Staged(b, b.tags[k], first, o) && o.since <= |b.sys.trace|
    requires Unprocessed(See(b.sys.store, Contents(b.tags), p.now), b.tags[k])
    requires Scanned(b.sys.store, b.tags, p.page, p.now)
          == ScanOne(See(b.sys.store, Contents(b.tags), p.now), b.tags[k], p.page, p.now)
    ensures Staged(Polled(b, p), Polled(b, p).tags[k], first, o)
  {
    hide Polled, Scanned, ScanOne;
    var seen := See(b.sys.store, Contents(b.tags), p.now);
    PolledParts(b, p);
    SubmittedMore(b.sys.trace, ScanOne(seen, b.tags[k], p.page, p.now).1, o.since, b.tags[k].content, first);
    BookPolled(seen, b.tags[k], p, o.start);
    BookStaged(seen, b.tags[k], p, first, o.start);
  }

  lemma OtherStaged(b: Batch, p: Poll, k: nat, i: nat, first: Sec, o: Beginning)
    requires Pile(b.tags) && StoreOk(b.sys.store) && Returns(p.page) && Timely(b, p, o.start)
    requires k < |b.tags| && i < |b.tags| && i != k
    requires Staged(b, b.tags[i], first, o) && o.since <= |b.sys.trace|
    requires Unprocessed(See(b.sys.store, Contents(b.tags), p.now), b.tags[k])
    requires Scanned(b.sys.store, b.tags, p.page, p.now)
          == ScanOne(See(b.sys.store, Contents(b.tags), p.now), b.tags[k], p.page, p.now)
    ensures Staged(Polled(b, p), Polled(b, p).tags[i], first, o)
  {
    hide Polled, Scanned, ScanOne;
    var seen := See(b.sys.store, Contents(b.tags), p.now);
    var c := b.tags[i].content;
    var events := ScanOne(seen, b.tags[k], p.page, p.now).1;
    assert c != b.tags[k].content;
    PolledParts(b, p);
    SubmittedMore(b.sys.trace, events, o.since, c, first);
    BookPolled(seen, b.tags[k], p, o.start);
    TagsWritten(b.tags, events, k);
    OneCarried(b, p, o.start, k, i);
  }

  lemma PollStaged(b: Batch, p: Poll, i: nat, first: Sec, o: Beginning)
    requires Pile(b.tags) && StoreOk(b.sys.store) && Returns(p.page) && Timely(b, p, o.start) && !Done(b)
    requires i < |b.tags| && Staged(b, b.tags[i], first, o) && o.since <= |b.sys.trace|
    ensures Staged(Polled(b, p), Polled(b, p).tags[i], first, o)
  {
    var k := Chosen(b, p);
    if i == k {
      ChosenStaged(b, p, k, first, o);
    } else {
      OtherStaged(b, p, k, i, first, o);
    }
  }

  lemma IdleStaged(b: Batch, p: Poll, i: nat, first: Sec, o: Beginning)
    requires Pile(b.tags) && StoreOk(b.sys.store) && Returns(p.page) && Done(b)
    requires i < |b.tags| && Staged(b, b.tags[i], first, o)
    ensures Polled(b, p).tags == b.tags && Staged(Polled(b, p), Polled(b, p).tags[i], first, o)
  {
    hide Polled, Submitted;
    PollIdle(b, p);
  }

  lemma {:induction false} AfterStaged(b: Batch, polls: seq<Poll>, i: nat, first: Sec, o: Beginning)
    requires Pile(b.tags) && StoreOk(b.sys.store) && AllReturns(polls)
    requires AllTimely(b, polls, o.start)
    requires i < |b.tags| && Staged(b, b.tags[i], first, o) && o.since <= |b.sys.trace|
    ensures var after := After(b, polls);
            |after.tags| == |b.tags| && Staged(after, after.tags[i], first, o) && o.since <= |after.sys.trace|
  {
    hide Polled, Staged, StoreOk, Timely;
    if polls != [] {
      var n := |polls| - 1;
      AfterStaged(b, polls[..n], i, first, o);
      RanksFall(b, polls[..n], o.start);
      var before := After(b, polls[..n]);
      PolledParts(before, polls[n]);
      if Done(before) {
        IdleStaged(before, polls[n], i, first, o);
      } else {
        PollStaged(before, polls[n], i, first, o);
      }
    }
  }

  /** From an empty map, after at most four polls a book: every book on loan was submitted
      for return and its tag reads DA, every other book was submitted and its tag is as it
      was. */
  lemma {:induction false} FreshPile(s: Sys, tags: seq<Tag>, polls: seq<Poll>, start: nat, i: nat)
    requires s.store == map[] && Pile(tags) && AllReturns(polls) && i < |tags|
    requires |polls| >= 4 * |tags| && AllTimely(Batch(s, tags), polls, start)
    ensures var after, first := After(Batch(s, tags), polls), SecOf(tags[i].security);
            |after.tags| == |tags| && after.tags[i].content == tags[i].content
            && Submitted(after.sys.trace, |s.trace|, tags[i].content, first)
            && SecOf(after.tags[i].security) == if first == D7 then DA else first
  {
    hide Polled;
    var b, first := Batch(s, tags), SecOf(tags[i].security);
    AfterStaged(b, polls, i, first, Beginning(start, |s.trace|));
    PileIsProcessed(b, polls, start);
    assert ProcessedAt(After(b, polls), tags[i].content, i);
  }

  // ---------------------------------------------------------------- the hour

  /** A book in the library, submitted at some time. */
  function Shelved(tag: Tag, at: nat): Store {
    map[tag.content := Entry(DA, None, at, at, at)]
  }

  function Hours(start: nat, count: nat): nat {
    if count == 0 then start else Hours(start, count - 1) + RETENTION_MS
  }

  /** The poll an hour after some time. */
  function HourlyPoll(page: Page, at: nat): Poll {
    Poll(page, at + RETENTION_MS, at + RETENTION_MS + 1)
  }

  /** Polls an hour apart, each page loaded a millisecond after its form was submitted. */
  function Hourly(page: Page, start: nat, count: nat): seq<Poll> {
    if count == 0 then []
    else Hourly(page, start, count - 1) + [HourlyPoll(page, Hours(start, count - 1))]
  }

  lemma HourlyAction(tag: Tag, page: Page, now: nat)
    requires IsBook(tag.content) && SecOf(tag.security) == DA && Returns(page)
    ensures BookAction(None, tag.content, DA, page, now) == Return(ReturnsPage, DA)
  {
    assert tag.content != "";
  }

  /** What the scan does about the book that is not in the map. */
  lemma HourlyScan(store: Store, tag: Tag, page: Page, now: nat)
    requires IsBook(tag.content) && SecOf(tag.security) == DA && Returns(page) && tag.content !in store
    ensures ScanOne(store, tag, page, now)
         == (store[tag.content := Entry(DA, None, now, now, now)], [Submit(ReturnsPage, tag.content, DA, now)])
  {
    assert tag.content != "";
    var a := Return(ReturnsPage, DA);
    assert See(store, [tag.content], now) == store;
    HourlyAction(tag, page, now);
    assert Changed(store, tag.content, a, now) == store[tag.content := Entry(DA, None, now, now, now)];
    assert Emitted(tag, a, now) == [Submit(ReturnsPage, tag.content, DA, now)];
  }

  /** A run reaches such a map: the book was scanned alone on the returns page. */
  lemma ShelvedReached(tag: Tag, page: Page, at: nat)
    requires IsBook(tag.content) && SecOf(tag.security) == DA && Returns(page) && at > 0
    ensures var scan := Scan(at, [tag], page);
            Allowed(START, scan) && Step(START, scan).store == Shelved(tag, at)
  {
    hide ScanOne;
    HourlyScan(map[], tag, page, at);
  }

  lemma HourlyChoice(b: Batch, p: Poll, k: nat, at: nat)
    requires |b.tags| == 2 && Pile(b.tags) && Returns(p.page) && k < 2
    requires SecOf(b.tags[k].security) == DA && b.sys.store == Shelved(b.tags[k], at)
    ensures Scanned(b.sys.store, b.tags, p.page, p.now)
         == ScanOne(map[b.tags[k].content := Entry(DA, None, at, at, p.now)], b.tags[1 - k], p.page, p.now)
  {
    hide ScanOne;
    assert b.tags[k].content != b.tags[1 - k].content && b.tags[1 - k].content != "";
    assert Unprocessed(b.sys.store, b.tags[1 - k]);
    var j := Chosen(b, p);
    assert Contents(b.tags)[k] == b.tags[k].content;
    assert See(b.sys.store, Contents(b.tags), p.now) == map[b.tags[k].content := Entry(DA, None, at, at, p.now)];
    assert j == 1 - k;
  }

  /** The book that is not in the map is submitted, and the page load that follows drops
      the other. */
  lemma HourlyStep(b: Batch, page: Page, k: nat, at: nat)
    requires |b.tags| == 2 && Pile(b.tags) && Returns(page) && k < 2
    requires SecOf(b.tags[0].security) == DA && SecOf(b.tags[1].security) == DA
    requires b.sys.store == Shelved(b.tags[k], at)
    ensures var after := Polled(b, HourlyPoll(page, at));
            after.tags == b.tags && after.sys.store == Shelved(b.tags[1 - k], at + RETENTION_MS)
  {
    hide Polled, Scanned, ScanOne, FirstBook;
    var now, other, p := at + RETENTION_MS, b.tags[1 - k], HourlyPoll(page, at);
    assert b.tags[k].content != other.content;
    HourlyChoice(b, p, k, at);
    var seen := map[b.tags[k].content := Entry(DA, None, at, at, now)];
    HourlyScan(seen, other, page, now);
    PolledParts(b, p);
    assert Written(b.tags, [Submit(ReturnsPage, other.content, DA, now)]) == b.tags;
    assert Cleanup(seen[other.content := Entry(DA, None, now, now, now)], now + 1) == Shelved(other, now);
  }

  /** Of two books one was submitted at some time and the other is not in the map. */
  predicate Turn(b: Batch, tags: seq<Tag>, k: nat, at: nat) {
    |tags| == 2 && b.tags == tags && k < 2 && b.sys.store == Shelved(tags[k], at)
  }

  predicate TwoInLibrary(tags: seq<Tag>) {
    |tags| == 2 && Pile(tags) && SecOf(tags[0].security) == DA && SecOf(tags[1].security) == DA
  }

  lemma {:induction false} TurnTaken(b: Batch, polls: seq<Poll>, tags: seq<Tag>, page: Page, k: nat, at: nat)
    requires TwoInLibrary(tags) && Returns(page) && Turn(After(b, polls), tags, k, at)
    ensures Turn(After(b, polls + [HourlyPoll(page, at)]), tags, 1 - k, at + RETENTION_MS)
  {
    assert (polls + [HourlyPoll(page, at)])[..|polls|] == polls;
    HourlyStep(After(b, polls), page, k, at);
  }

  lemma TurnUnfinished(b: Batch, tags: seq<Tag>, k: nat, at: nat)
    requires TwoInLibrary(tags) && Turn(b, tags, k, at)
    ensures !Done(b)
  {
    assert b.tags[k].content != b.tags[1 - k].content && b.tags[1 - k].content != "";
    assert Unprocessed(b.sys.store, b.tags[1 - k]);
  }

  lemma {:induction false} TurnsAlternate(b: Batch, page: Page, at: nat, count: nat) returns (k: nat)
    requires TwoInLibrary(b.tags) && Returns(page) && Turn(b, b.tags, 0, at)
    ensures k < 2 && Turn(After(b, Hourly(page, at, count)), b.tags, k, Hours(at, count))
    decreases count
  {
    hide Polled, Turn;
    if count == 0 {
      assert Turn(b, b.tags, 0, at);
      k := 0;
    } else {
      k := TurnsAlternate(b, page, at, count - 1);
      TurnTaken(b, Hourly(page, at, count - 1), b.tags, page, k, Hours(at, count - 1));
      k := 1 - k;
    }
  }

  /** The hour is needed: polled an hour apart, two books take turns in the map for ever,
      each submission's page load dropping the other, and the pile is never processed. */
  lemma {:induction false} HourIsNeeded(b: Batch, page: Page, at: nat, count: nat)
    requires TwoInLibrary(b.tags) && Returns(page) && b.sys.store == Shelved(b.tags[0], at)
    ensures !Done(After(b, Hourly(page, at, count)))
  {
    var k := TurnsAlternate(b, page, at, count);
    TurnUnfinished(After(b, Hourly(page, at, count)), b.tags, k, Hours(at, count));
  }
}
