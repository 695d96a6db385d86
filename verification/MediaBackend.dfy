/**
 * The streams of a call's backend (src/media-backend.c): libpurple adds and ends them by name, and the client, once
 * it has said it is ready, is told of each by its number.
 */
module MediaBackend {
  import opened Wrappers

  type Sid = string

  /** Stream numbers are 32 bits wide. */
  const ID_LIMIT: nat := 0x1_0000_0000

  /** A stream object; serial tells apart the objects ever made, in order. */
  datatype Stream = Stream(serial: nat, id: nat, name: Sid)

  /** The live streams, those announced so far and those ever made. */
  datatype State = State(streams: seq<Stream>, nextId: nat, ready: bool, announced: seq<Stream>, made: seq<Stream>)

  const Initial := State([], 1, false, [], [])

  datatype Event = AddStream(sid: Sid) | StreamEnd(sid: Sid) | Ready

  ghost function IndexByName(streams: seq<Stream>, sid: Sid): Option<nat> {
    if streams == [] then None
    else
      var earlier := IndexByName(streams[..|streams| - 1], sid);
      if earlier.Some? then earlier
      else if streams[|streams| - 1].name == sid then Some(|streams| - 1) else None
  }

  /** The last element takes the place of the one removed. */
  ghost function RemoveAt(streams: seq<Stream>, i: nat): seq<Stream>
    requires i < |streams|
  {
    streams[i := streams[|streams| - 1]][..|streams| - 1]
  }

  lemma {:induction false} IndexFinds(streams: seq<Stream>, sid: Sid)
    ensures match IndexByName(streams, sid)
            case Some(i) =>
              && i < |streams| && streams[i].name == sid && forall j: nat | j < i :: streams[j].name != sid
            case None => forall j: nat | j < |streams| :: streams[j].name != sid
  {
    if streams != [] {
      IndexFinds(streams[..|streams| - 1], sid);
    }
  }

  ghost function AfterEnd(streams: seq<Stream>, sid: Sid): seq<Stream> {
    IndexFinds(streams, sid);
    match IndexByName(streams, sid)
    case Some(i) => RemoveAt(streams, i)
    case None => streams
  }

  ghost function Step(s: State, e: Event): State {
    match e
    case AddStream(sid) =>
      var stream := Stream(|s.made|, s.nextId, sid);
      s.(streams := s.streams + [stream], nextId := (s.nextId + 1) % ID_LIMIT, made := s.made + [stream],
         announced := s.announced + if s.ready then [stream] else [])
    case StreamEnd(sid) => s.(streams := AfterEnd(s.streams, sid))
    case Ready => if s.ready then s else s.(ready := true, announced := s.announced + s.streams)
  }

  ghost function Run(s: State, es: seq<Event>): State
    decreases |es|
  {
    if es == [] then s else Run(Step(s, es[0]), es[1..])
  }

  // ----- What every step keeps -----

  ghost predicate NoRepeats(streams: seq<Stream>) {
    forall i: nat, j: nat | i < j < |streams| :: streams[i].serial != streams[j].serial
  }

  ghost predicate AllMade(streams: seq<Stream>, made: seq<Stream>) {
    forall stream | stream in streams :: stream.serial < |made| && made[stream.serial] == stream
  }

  ghost predicate Numbered(made: seq<Stream>) {
    forall k: nat | k < |made| :: made[k].serial == k && made[k].id == (1 + k) % ID_LIMIT
  }

  ghost predicate Consistent(s: State) {
    && Numbered(s.made) && s.nextId == (1 + |s.made|) % ID_LIMIT
    && NoRepeats(s.streams) && AllMade(s.streams, s.made)
    && NoRepeats(s.announced) && AllMade(s.announced, s.made)
    && (s.ready ==> forall stream | stream in s.streams :: stream in s.announced)
    && (!s.ready ==> s.announced == [])
  }

  lemma RemoveAtIsRemoval(streams: seq<Stream>, i: nat)
    requires i < |streams| && NoRepeats(streams)
    ensures NoRepeats(RemoveAt(streams, i))
    ensures forall stream :: stream in RemoveAt(streams, i) <==> stream in streams && stream != streams[i]
  {
    var after, last := RemoveAt(streams, i), |streams| - 1;
    forall stream | stream in streams && stream != streams[i]
      ensures stream in after
    {
      var j: nat :| j < |streams| && streams[j] == stream;
      assert after[if j == last then i else j] == stream;
    }
  }

  /** The last element takes the place of the one removed, and the others stay where they are. */
  lemma RemovalSwaps(streams: seq<Stream>, i: nat, j: nat)
    requires i < |streams| && j < |streams| - 1
    ensures |RemoveAt(streams, i)| == |streams| - 1
    ensures RemoveAt(streams, i)[j] == streams[if j == i then |streams| - 1 else j]
  {
  }

  lemma NextNumber(n: nat)
    ensures ((1 + n) % ID_LIMIT + 1) % ID_LIMIT == (1 + (n + 1)) % ID_LIMIT
  {
  }

  lemma AppendMade(streams: seq<Stream>, made: seq<Stream>, stream: Stream)
    requires AllMade(streams, made) && NoRepeats(streams) && stream.serial == |made|
    ensures AllMade(streams, made + [stream])
    ensures AllMade(streams + [stream], made + [stream]) && NoRepeats(streams + [stream])
  {
    assert forall i: nat | i < |streams| :: streams[i] in streams;
  }

  lemma AddKeepsConsistent(s: State, sid: Sid)
    requires Consistent(s)
    ensures Consistent(Step(s, AddStream(sid)))
  {
    var stream := Stream(|s.made|, s.nextId, sid);
    NextNumber(|s.made|);
    AppendMade(s.streams, s.made, stream);
    AppendMade(s.announced, s.made, stream);
  }

  lemma StepKeepsConsistent(s: State, e: Event)
    requires Consistent(s)
    ensures Consistent(Step(s, e))
  {
    match e
    case AddStream(sid) => AddKeepsConsistent(s, sid);
    case StreamEnd(sid) =>
      IndexFinds(s.streams, sid);
      if IndexByName(s.streams, sid).Some? {
        RemoveAtIsRemoval(s.streams, IndexByName(s.streams, sid).value);
      }
    case Ready =>
  }

  lemma {:induction false} RunKeepsConsistent(s: State, es: seq<Event>)
    requires Consistent(s)
    ensures Consistent(Run(s, es))
    ensures |Run(s, es).made| == |s.made| + Adds(es)
    ensures Run(s, es).ready <==> s.ready || Ready in es
    decreases |es|
  {
    if es != [] {
      StepKeepsConsistent(s, es[0]);
      RunKeepsConsistent(Step(s, es[0]), es[1..]);
    }
  }

  ghost function Adds(es: seq<Event>): nat
    decreases |es|
  {
    if es == [] then 0 else Adds(es[1..]) + if es[0].AddStream? then 1 else 0
  }

  /** In every order of events no stream is announced twice, and once the client is ready every live one has been
      announced. */
  lemma AnnouncedOnce(es: seq<Event>, stream: Stream)
    ensures var s := Run(Initial, es);
            && multiset(s.announced)[stream] <= 1
            && (Ready !in es ==> s.announced == [])
            && (Ready in es && stream in s.streams ==> multiset(s.announced)[stream] == 1)
  {
    RunKeepsConsistent(Initial, es);
    NoRepeatsCount(Run(Initial, es).announced, stream);
  }

  lemma {:induction false} NoRepeatsCount(streams: seq<Stream>, stream: Stream)
    requires NoRepeats(streams)
    ensures multiset(streams)[stream] == if stream in streams then 1 else 0
  {
    if streams != [] {
      var rest, last := streams[..|streams| - 1], streams[|streams| - 1];
      assert streams == rest + [last];
      NoRepeatsCount(rest, stream);
    }
  }

  /** Numbers are never used twice, for as long as no more streams are made than there are numbers; and no longer. */
  lemma IdsNeverReusedIff(es: seq<Event>)
    ensures (forall j: nat, k: nat | j < k < |Run(Initial, es).made| ::
               Run(Initial, es).made[j].id != Run(Initial, es).made[k].id) <==> Adds(es) <= ID_LIMIT
  {
    RunKeepsConsistent(Initial, es);
    var made := Run(Initial, es).made;
    if |made| <= ID_LIMIT {
      forall j: nat, k: nat | j < k < |made|
        ensures made[j].id != made[k].id
      {
        DifferentNumbers(j, k);
      }
    } else {
      assert made[0].id == 1 == made[ID_LIMIT].id;
    }
  }

  lemma DifferentNumbers(j: nat, k: nat)
    requires j < k < ID_LIMIT
    ensures (1 + j) % ID_LIMIT != (1 + k) % ID_LIMIT
  {
  }

  lemma {:induction false} AddsOnly(es: seq<Event>)
    requires forall i | 0 <= i < |es| :: es[i].AddStream?
    ensures Adds(es) == |es|
    decreases |es|
  {
    if es != [] {
      AddsOnly(es[1..]);
    }
  }

  /** One stream more than there are numbers: the last has the number of the first. */
  lemma FirstIdComesBack() returns (es: seq<Event>)
    ensures Adds(es) == ID_LIMIT + 1 == |Run(Initial, es).made|
    ensures Run(Initial, es).made[0].id == Run(Initial, es).made[ID_LIMIT].id
  {
    es := seq(ID_LIMIT + 1, i => AddStream(""));
    AddsOnly(es);
    RunKeepsConsistent(Initial, es);
    LastNumber(Run(Initial, es).made);
  }

  lemma LastNumber(made: seq<Stream>)
    requires Numbered(made) && |made| == ID_LIMIT + 1
    ensures made[0].id == made[ID_LIMIT].id
  {
    assert made[0].id == 1 == made[ID_LIMIT].id;
  }

  lemma {:induction false} OnceReady(s: State, es: seq<Event>)
    requires s.ready
    ensures s.made <= Run(s, es).made
    ensures Run(s, es).announced == s.announced + Run(s, es).made[|s.made|..]
    decreases |es|
  {
    if es != [] {
      OnceReady(Step(s, es[0]), es[1..]);
      if es[0].AddStream? {
        assert Run(s, es).made[|s.made|..] == [Step(s, es[0]).made[|s.made|]] + Run(s, es).made[|s.made| + 1..];
      }
    }
  }

  lemma {:induction false} RunBoth(s: State, before: seq<Event>, after: seq<Event>)
    ensures Run(s, before + after) == Run(Run(s, before), after)
    decreases |before|
  {
    if before == [] {
      assert before + after == after;
    } else {
      assert (before + after)[1..] == before[1..] + after;
      RunBoth(Step(s, before[0]), before[1..], after);
    }
  }

  /** The announcements are the streams live when the client first got ready, and then every stream made since, in
      order. */
  lemma WhatIsAnnounced(before: seq<Event>, after: seq<Event>)
    requires Ready !in before
    ensures var s, end := Run(Initial, before), Run(Initial, before + [Ready] + after);
            |s.made| <= |end.made| && end.announced == s.streams + end.made[|s.made|..]
  {
    RunKeepsConsistent(Initial, before);
    assert before + [Ready] + after == before + ([Ready] + after);
    RunBoth(Initial, before, [Ready] + after);
    AnnouncedFromReady(Run(Initial, before), after);
  }

  lemma AnnouncedFromReady(s: State, after: seq<Event>)
    requires !s.ready && s.announced == []
    ensures var end := Run(s, [Ready] + after);
            |s.made| <= |end.made| && end.announced == s.streams + end.made[|s.made|..]
  {
    assert ([Ready] + after)[1..] == after;
    OnceReady(Step(s, Ready), after);
  }

  // ----- The live streams as a table by name -----

  /** libpurple gives a new stream a name no live stream has. */
  ghost predicate FreshNames(live: map<Sid, nat>, n: nat, es: seq<Event>)
    decreases |es|
  {
    es == [] ||
    ((es[0].AddStream? ==> es[0].sid !in live) && FreshNames(LiveStep(live, n, es[0]), Count(n, es[0]), es[1..]))
  }

  ghost function Count(n: nat, e: Event): nat {
    if e.AddStream? then n + 1 else n
  }

  ghost function LiveStep(live: map<Sid, nat>, n: nat, e: Event): map<Sid, nat> {
    match e
    case AddStream(sid) => live[sid := n]
    case StreamEnd(sid) => live - {sid}
    case Ready => live
  }

  ghost function Live(live: map<Sid, nat>, n: nat, es: seq<Event>): map<Sid, nat>
    decreases |es|
  {
    if es == [] then live else Live(LiveStep(live, n, es[0]), Count(n, es[0]), es[1..])
  }

  /** The array holds just the streams of the table. */
  ghost predicate Tabled(s: State, live: map<Sid, nat>) {
    && (forall stream | stream in s.streams :: stream.name in live && live[stream.name] == stream.serial)
    && (forall sid | sid in live ::
          live[sid] < |s.made| && s.made[live[sid]] in s.streams && s.made[live[sid]].name == sid)
  }

  lemma StepKeepsTabled(s: State, live: map<Sid, nat>, e: Event)
    requires Consistent(s) && Tabled(s, live) && (e.AddStream? ==> e.sid !in live)
    ensures Tabled(Step(s, e), LiveStep(live, |s.made|, e))
  {
    if e.StreamEnd? {
      IndexFinds(s.streams, e.sid);
      if IndexByName(s.streams, e.sid).Some? {
        RemoveAtIsRemoval(s.streams, IndexByName(s.streams, e.sid).value);
      }
    }
  }

  /** Though every removal reorders the array, its streams are always those added and not ended since, by name. */
  lemma {:induction false} ArrayIsTable(s: State, live: map<Sid, nat>, es: seq<Event>)
    requires Consistent(s) && Tabled(s, live) && FreshNames(live, |s.made|, es)
    ensures Tabled(Run(s, es), Live(live, |s.made|, es)) && NoRepeats(Run(s, es).streams)
    decreases |es|
  {
    if es != [] {
      StepKeepsConsistent(s, es[0]);
      StepKeepsTabled(s, live, es[0]);
      ArrayIsTable(Step(s, es[0]), LiveStep(live, |s.made|, es[0]), es[1..]);
    }
  }

  // ----- The code -----

  class HazeMediaBackend {
    var streams: seq<Stream>
    var nextStreamId: nat
    var ready: bool
    /** The NewStreamHandler signals. */
    var announced: seq<Stream>
    /** The stream objects made so far. */
    var made: seq<Stream>

    ghost predicate Valid()
      reads this
    {
      Consistent(Abs())
    }

    ghost function Abs(): State
      reads this
    {
      State(streams, nextStreamId, ready, announced, made)
    }

    constructor ()
      ensures Valid() && Abs() == Initial
    {
      streams, nextStreamId, ready, announced, made := [], 1, false, [], [];
    }

    /** get_stream_by_name */
    method GetStreamByName(sid: Sid) returns (stream: Option<Stream>)
      ensures match IndexByName(streams, sid)
              case Some(i) => i < |streams| && stream == Some(streams[i])
              case None => stream.None?
    {
      IndexFinds(streams, sid);
      var i := 0;
      while i < |streams|
        invariant 0 <= i <= |streams|
        invariant forall j: nat | j < i :: streams[j].name != sid
      {
        if streams[i].name == sid {
          return Some(streams[i]);
        }
        i := i + 1;
      }
      stream := None;
    }

    /** haze_media_backend_add_stream */
    method AddStream(sid: Sid)
      requires Valid()
      modifies this
      ensures Valid() && Abs() == Step(old(Abs()), Event.AddStream(sid))
    {
      StepKeepsConsistent(Abs(), Event.AddStream(sid));
      var id := nextStreamId;
      nextStreamId := (nextStreamId + 1) % ID_LIMIT;
      var stream := Stream(|made|, id, sid);
      made := made + [stream];
      streams := streams + [stream];
      if ready {
        announced := announced + [stream];
      }
    }

    /** haze_backend_state_changed_cb */
    method StateChanged(end: bool, sid: Option<Sid>, name: Option<string>)
      requires Valid()
      modifies this
      ensures Valid()
      ensures Abs() == if end && sid.Some? && name.None? then Step(old(Abs()), StreamEnd(sid.value)) else old(Abs())
    {
      if end && sid.Some? && name.None? {
        StepKeepsConsistent(Abs(), StreamEnd(sid.value));
        IndexFinds(streams, sid.value);
        var stream := GetStreamByName(sid.value);
        if stream.Some? {
          RemoveFast(stream.value, IndexByName(streams, sid.value).value);
        }
      }
    }

    /** g_ptr_array_remove_fast, for a stream that is in the array. */
    method RemoveFast(stream: Stream, ghost at: nat)
      requires at < |streams| && streams[at] == stream && NoRepeats(streams)
      modifies this`streams
      ensures streams == RemoveAt(old(streams), at)
    {
      var i := 0;
      while streams[i] != stream
        invariant 0 <= i <= at
        decreases at - i
      {
        i := i + 1;
      }
      var last := streams[|streams| - 1];
      streams := streams[i := last][..|streams| - 1];
    }

    /** haze_media_backend_ready */
    method Ready()
      requires Valid()
      modifies this
      ensures Valid() && Abs() == Step(old(Abs()), Event.Ready)
    {
      StepKeepsConsistent(Abs(), Event.Ready);
      if !ready {
        ready := true;
        for i := 0 to |streams|
          invariant streams == old(streams)
          invariant Abs() == old(Abs()).(ready := true, announced := old(announced) + streams[..i])
        {
          announced := announced + [streams[i]];
        }
        assert streams[..|streams|] == streams;
      }
    }

    /** haze_media_backend_codecs_ready; codecsReady tells the streams whose codecs are there. */
    method CodecsReady(sid: Option<Sid>, codecsReady: Stream -> bool) returns (r: bool)
      requires Valid()
      ensures sid.Some? ==>
                (r <==> exists i: nat | i < |streams| :: streams[i].name == sid.value && codecsReady(streams[i]) &&
                                                         forall j: nat | j < i :: streams[j].name != sid.value)
      ensures sid.None? ==> (r <==> forall stream | stream in streams :: codecsReady(stream))
    {
      r := false;
      if sid.Some? {
        IndexFinds(streams, sid.value);
        var stream := GetStreamByName(sid.value);
        if stream.Some? {
          r := codecsReady(stream.value);
        }
      } else {
        for i := 0 to |streams|
          invariant forall j: nat | j < i :: codecsReady(streams[j])
        {
          r := codecsReady(streams[i]);
          if !r {
            return false;
          }
        }
        r := true;
      }
    }
  }
}
