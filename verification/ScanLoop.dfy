/** The command-line scanner: printing which tags come and go. */
module ScanLoop {
  import opened Bytes

  datatype Event = Enter(tag: string) | Leave(tag: string)

  /** The tags in range after some events: a tag can enter only when it is not there and
      leave only when it is. */
  function Replay(tags: set<string>, events: seq<Event>): Option<set<string>>
    decreases |events|
  {
    if events == [] then Some(tags)
    else match events[0]
      case Enter(tag) => if tag in tags then None else Replay(tags + {tag}, events[1..])
      case Leave(tag) => if tag in tags then Replay(tags - {tag}, events[1..]) else None
  }

  lemma {:induction false} ReplayAppend(tags: set<string>, x: seq<Event>, y: seq<Event>)
    requires Replay(tags, x).Some?
    ensures Replay(tags, x + y) == Replay(Replay(tags, x).value, y)
    decreases |x|
  {
    if x == [] {
      assert x + y == y;
    } else {
      assert (x + y)[1..] == x[1..] + y;
      match x[0] {
        case Enter(tag) => ReplayAppend(tags + {tag}, x[1..], y);
        case Leave(tag) => ReplayAppend(tags - {tag}, x[1..], y);
      }
    }
  }

  /** The events of one tag. */
  function Of(events: seq<Event>, tag: string): seq<Event> {
    if events == [] then []
    else (if events[0].tag == tag then [events[0]] else []) + Of(events[1..], tag)
  }

  /** Enter, leave, enter, ... */
  predicate Alternates(events: seq<Event>, inside: bool) {
    events == []
    || ((inside <==> events[0].Leave?) && Alternates(events[1..], !inside))
  }

  lemma {:induction false} NoEvents(tag: string, inside: bool)
    ensures Of([], tag) == [] && Alternates([], inside)
  {}

  lemma {:induction false} OfFirst(events: seq<Event>, tag: string)
    requires events != []
    ensures Of(events, tag) == (if events[0].tag == tag then [events[0]] else []) + Of(events[1..], tag)
  {}

  lemma {:induction false} AlternatesMore(e: Event, rest: seq<Event>, inside: bool)
    requires (inside <==> e.Leave?) && Alternates(rest, !inside)
    ensures Alternates([e] + rest, inside)
  {
    assert ([e] + rest)[1..] == rest;
  }

  /** In a run that can be replayed the events of every tag alternate, beginning with the
      one that its presence at the start allows, and end according to its presence. */
  lemma {:induction false} ReplayAlternates(tags: set<string>, events: seq<Event>, tag: string)
    requires Replay(tags, events).Some?
    ensures Alternates(Of(events, tag), tag in tags)
    ensures tag in Replay(tags, events).value <==> (|Of(events, tag)| % 2 == (if tag in tags then 0 else 1))
    decreases |events|
  {
    hide Alternates, Of;
    if events == [] {
      NoEvents(tag, tag in tags);
    } else {
      var e, rest := events[0], events[1..];
      var next := match e case Enter(t) => tags + {t} case Leave(t) => tags - {t};
      ReplayAlternates(next, rest, tag);
      OfFirst(events, tag);
      assert e.Leave? <==> e.tag in tags;
      if e.tag == tag {
        assert Of(events, tag) == [e] + Of(rest, tag);
        assert tag in next <==> tag !in tags;
        AlternatesMore(e, Of(rest, tag), tag in tags);
      } else {
        assert Of(events, tag) == Of(rest, tag);
        assert tag in next <==> tag in tags;
      }
    }
  }

  /** The event of a tag whose presence changes. */
  function Change(tag: string, before: bool, after: bool): seq<Event> {
    if before == after then [] else if after then [Enter(tag)] else [Leave(tag)]
  }

  lemma {:induction false} OfAppend(x: seq<Event>, y: seq<Event>, tag: string)
    ensures Of(x + y, tag) == Of(x, tag) + Of(y, tag)
  {
    hide Of;
    if x == [] {
      assert x + y == y;
      NoEvents(tag, false);
    } else {
      assert (x + y)[1..] == x[1..] + y;
      OfAppend(x[1..], y, tag);
      OfFirst(x + y, tag);
      OfFirst(x, tag);
      var first: seq<Event> := if x[0].tag == tag then [x[0]] else [];
      assert first + (Of(x[1..], tag) + Of(y, tag)) == first + Of(x[1..], tag) + Of(y, tag);
    }
  }

  lemma {:induction false} OfOne(e: Event, tag: string)
    ensures Of([e], tag) == if e.tag == tag then [e] else []
  {
    assert [e][1..] == [];
  }

  /** The events of every tag are exactly its change. */
  ghost predicate ExactlyChanges(events: seq<Event>, before: set<string>, after: set<string>) {
    forall tag :: Of(events, tag) == Change(tag, tag in before, tag in after)
  }

  lemma {:induction false} OneMoreChange(events: seq<Event>, e: Event, before: set<string>, after: set<string>)
    requires ExactlyChanges(events, before, after)
    requires if e.Enter? then e.tag !in before && e.tag !in after else e.tag in before && e.tag in after
    ensures ExactlyChanges(events + [e], before, if e.Enter? then after + {e.tag} else after - {e.tag})
  {
    hide Of;
    var now := if e.Enter? then after + {e.tag} else after - {e.tag};
    forall tag ensures Of(events + [e], tag) == Change(tag, tag in before, tag in now) {
      OfAppend(events, [e], tag);
      OfOne(e, tag);
      assert Of(events, tag) == Change(tag, tag in before, tag in after);
    }
  }

  /** The tags that come, in the order in which they are read. */
  function Entering(before: set<string>, read: seq<string>): seq<Event> {
    if read == [] then []
    else
      var n := |read| - 1;
      Entering(before, read[..n]) + if read[n] in before || read[n] in read[..n] then [] else [Enter(read[n])]
  }

  lemma {:induction false} NothingChanged(tags: set<string>)
    ensures ExactlyChanges([], tags, tags) && Replay(tags, []) == Some(tags)
  {}

  lemma {:induction false} Enters(before: set<string>, events: seq<Event>, tags: set<string>, tag: string)
    requires Replay(before, events) == Some(tags) && tag !in tags
    ensures Replay(before, events + [Enter(tag)]) == Some(tags + {tag})
  {
    ReplayAppend(before, events, [Enter(tag)]);
  }

  lemma {:induction false} Leaves(before: set<string>, events: seq<Event>, tags: set<string>, tag: string)
    requires Replay(before, events) == Some(tags) && tag in tags
    ensures Replay(before, events + [Leave(tag)]) == Some(tags - {tag})
  {
    ReplayAppend(before, events, [Leave(tag)]);
  }

  /** Enter detection: the tags read that were not there. */
  method EnterTags(prevTags: set<string>, read: seq<string>) returns (tags: set<string>, events: seq<Event>)
    ensures Replay(prevTags, events) == Some(tags) && ExactlyChanges(events, prevTags, tags)
    ensures tags == prevTags + set t | t in read
    ensures events == Entering(prevTags, read)
  {
    hide Replay, ExactlyChanges;
    tags, events := prevTags, [];
    NothingChanged(prevTags);
    for i := 0 to |read|
      invariant Replay(prevTags, events) == Some(tags) && ExactlyChanges(events, prevTags, tags)
      invariant events == Entering(prevTags, read[..i])
      invariant tags == prevTags + set t | t in read[..i]
    {
      var tag := read[i];
      assert read[..i + 1][..i] == read[..i];
      if tag !in tags {
        Enters(prevTags, events, tags, tag);
        OneMoreChange(events, Enter(tag), prevTags, tags);
        events := events + [Enter(tag)];
      } else {
        assert tags + {tag} == tags;
      }
      tags := tags + {tag};
    }
    assert read[..|read|] == read;
  }

  /** Leave detection: the tags there that were not read. */
  method LeaveTags(there: set<string>, current: set<string>, ghost prevTags: set<string>, ghost entered: seq<Event>)
    returns (tags: set<string>, events: seq<Event>)
    requires current <= there <= prevTags + current
    requires Replay(prevTags, entered) == Some(there) && ExactlyChanges(entered, prevTags, there)
    ensures tags == current
    ensures Replay(prevTags, entered + events) == Some(tags) && ExactlyChanges(entered + events, prevTags, tags)
    ensures forall e :: e in events ==> e.Leave?
  {
    hide Replay, ExactlyChanges;
    tags, events := there, [];
    assert entered + [] == entered;
    var left := tags;
    while left != {}
      invariant left <= tags && current <= tags <= prevTags + current
      invariant Replay(prevTags, entered + events) == Some(tags)
      invariant ExactlyChanges(entered + events, prevTags, tags)
      invariant forall e :: e in events ==> e.Leave?
      invariant forall t :: t in tags ==> t in left || t in current
      decreases left
    {
      var tag :| tag in left;
      left := left - {tag};
      if tag !in current {
        Leaves(prevTags, entered + events, tags, tag);
        OneMoreChange(entered + events, Leave(tag), prevTags, tags);
        assert entered + (events + [Leave(tag)]) == entered + events + [Leave(tag)];
        events := events + [Leave(tag)];
        tags := tags - {tag};
      }
    }
    assert tags == current;
  }

  /** One round of the loop: each tag that came or went has one event, the others none, and
      the tags that came are named first, in the order in which they were read. */
  method Round(prevTags: set<string>, result: Result<seq<string>>)
    returns (tags: set<string>, events: seq<Event>)
    ensures Replay(prevTags, events) == Some(tags)
    ensures result.Err? ==> tags == prevTags && events == []
    ensures result.Ok? ==> tags == (set t | t in result.value)
    ensures ExactlyChanges(events, prevTags, tags)
    ensures result.Ok? ==> Entering(prevTags, result.value) <= events
                           && forall e :: e in events[|Entering(prevTags, result.value)|..] ==> e.Leave?
  {
    hide Replay, ExactlyChanges, Entering;
    if result.Err? {
      NothingChanged(prevTags);
      return prevTags, [];
    }
    var current: set<string> := {};
    for i := 0 to |result.value|
      invariant current == set t | t in result.value[..i]
    {
      current := current + {result.value[i]};
    }
    assert result.value[..|result.value|] == result.value;
    var there, entered := EnterTags(prevTags, result.value);
    var leaving: seq<Event>;
    tags, leaving := LeaveTags(there, current, prevTags, entered);
    events := entered + leaving;
  }

  /** The tags read by the last scan that succeeded. */
  function LastRead(results: seq<Result<seq<string>>>): set<string> {
    if results == [] then {}
    else match results[|results| - 1]
      case Ok(tags) => set t | t in tags
      case Err => LastRead(results[..|results| - 1])
  }

  /** The changes of a tag's presence from scan to scan, failed scans left out. */
  function Changes(results: seq<Result<seq<string>>>, tag: string): seq<Event> {
    if results == [] then []
    else
      var front := results[..|results| - 1];
      Changes(front, tag) + Change(tag, tag in LastRead(front), tag in LastRead(results))
  }

  /** The whole loop over the results of any number of scans, failed ones included: the
      events of a tag are the changes of its presence, one each, alternating. */
  method Run(results: seq<Result<seq<string>>>) returns (prevTags: set<string>, events: seq<Event>)
    ensures Replay({}, events) == Some(prevTags)
    ensures forall tag :: Alternates(Of(events, tag), false)
    ensures forall tag :: Of(events, tag) == Changes(results, tag)
    ensures prevTags == LastRead(results)
  {
    hide Of, Replay, Alternates;
    prevTags, events := {}, [];
    NothingChanged({});
    for i := 0 to |results|
      invariant Replay({}, events) == Some(prevTags)
      invariant prevTags == LastRead(results[..i])
      invariant forall tag :: Of(events, tag) == Changes(results[..i], tag)
    {
      var more: seq<Event>;
      ghost var before := prevTags;
      prevTags, more := Round(prevTags, results[i]);
      ReplayAppend({}, events, more);
      assert results[..i + 1][..i] == results[..i];
      assert prevTags == LastRead(results[..i + 1]);
      forall tag ensures Of(events + more, tag) == Changes(results[..i + 1], tag) {
        OfAppend(events, more, tag);
        assert Of(more, tag) == Change(tag, tag in before, tag in prevTags);
      }
      events := events + more;
    }
    assert results[..|results|] == results;
    forall tag ensures Alternates(Of(events, tag), false) {
      ReplayAlternates({}, events, tag);
    }
  }
}
