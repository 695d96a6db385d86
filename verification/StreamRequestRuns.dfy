/**
 * What becomes of each stream request over a whole run of requests, new streams and session ends: the reply, when it
 * comes, is fixed by the events that follow the request alone, however many other requests are open beside it.
 */
module StreamRequestRuns {
  import opened StreamRequests

  ghost predicate LegalFrom(s: State, es: seq<Event>)
    decreases |es|
  {
    es == [] || (Legal(s, es[0]) && LegalFrom(Step(s, es[0]), es[1..]))
  }

  ghost function Run(s: State, es: seq<Event>): State
    requires LegalFrom(s, es)
    decreases |es|
  {
    if es == [] then s else Run(Step(s, es[0]), es[1..])
  }

  // ----- One request by itself -----

  datatype Fate = NotMade | Waiting(r: Request) | Replied(reply: Reply)

  /** The fate of request id after an event; made is how many requests there have been before it. */
  ghost function FateStep(f: Fate, id: nat, made: nat, e: Event): Fate {
    match f
    case NotMade =>
      if !(e.Ask? && made == id) then NotMade
      else if e.types == [] then Replied(Succeeded(id, []))
      else Waiting(Request(id, e.types, map[]))
    case Waiting(r) =>
      (match e
       case Ask(_) => f
       case NewStream(t, stream) =>
         var r' := r.With(t, stream);
         if r'.Complete() then Replied(Succeeded(r.id, r'.Streams())) else Waiting(r')
       case SessionEnd => Replied(Cancelled(r.id)))
    case Replied(_) => f
  }

  ghost function Count(made: nat, e: Event): nat {
    if e.Ask? then made + 1 else made
  }

  ghost function Fates(f: Fate, id: nat, made: nat, es: seq<Event>): Fate
    decreases |es|
  {
    if es == [] then f else Fates(FateStep(f, id, made, es[0]), id, Count(made, es[0]), es[1..])
  }

  // ----- The requests of the channel, one by one -----

  ghost function OpenOf(open: seq<Request>, id: nat): seq<Request> {
    if open == [] then []
    else OpenOf(open[..|open| - 1], id) + if open[|open| - 1].id == id then [open[|open| - 1]] else []
  }

  ghost function RepliesOf(replies: seq<Reply>, id: nat): seq<Reply> {
    if replies == [] then []
    else
      var last := replies[|replies| - 1];
      RepliesOf(replies[..|replies| - 1], id) + if last.id == id then [last] else []
  }

  /** The channel holds the request, or has replied to it, exactly once and exactly as its fate says. */
  ghost predicate Agrees(s: State, id: nat, f: Fate) {
    match f
    case NotMade => s.nextId <= id && OpenOf(s.open, id) == [] && RepliesOf(s.replies, id) == []
    case Waiting(r) => id < s.nextId && r.id == id && OpenOf(s.open, id) == [r] && RepliesOf(s.replies, id) == []
    case Replied(reply) => id < s.nextId && OpenOf(s.open, id) == [] && RepliesOf(s.replies, id) == [reply]
  }

  lemma {:induction false} OpenOfFirst(r: Request, open: seq<Request>, id: nat)
    ensures OpenOf([r] + open, id) == (if r.id == id then [r] else []) + OpenOf(open, id)
  {
    var all := [r] + open;
    if open == [] {
      assert all[..0] == [] && all[0] == r;
    } else {
      assert all[..|all| - 1] == [r] + open[..|open| - 1];
      OpenOfFirst(r, open[..|open| - 1], id);
    }
  }

  lemma {:induction false} RepliesOfBoth(a: seq<Reply>, b: seq<Reply>, id: nat)
    ensures RepliesOf(a + b, id) == RepliesOf(a, id) + RepliesOf(b, id)
  {
    if b == [] {
      assert a + b == a;
    } else {
      assert (a + b)[..|a + b| - 1] == a + b[..|b| - 1];
      RepliesOfBoth(a, b[..|b| - 1], id);
    }
  }

  lemma {:induction false} OpenOfBoth(a: seq<Request>, b: seq<Request>, id: nat)
    ensures OpenOf(a + b, id) == OpenOf(a, id) + OpenOf(b, id)
  {
    if b == [] {
      assert a + b == a;
    } else {
      assert (a + b)[..|a + b| - 1] == a + b[..|b| - 1];
      OpenOfBoth(a, b[..|b| - 1], id);
    }
  }

  /** What is left of one request after an offer, and the reply it gives. */
  ghost function Left(r: Request): seq<Request> {
    if r.Complete() then [] else [r]
  }

  ghost function Given(r: Request): seq<Reply> {
    if r.Complete() then [Succeeded(r.id, r.Streams())] else []
  }

  lemma LeftAndGiven(r: Request, id: nat)
    ensures OpenOf(Left(r), id) == (if r.id == id then Left(r) else [])
    ensures RepliesOf(Given(r), id) == (if r.id == id then Given(r) else [])
  {
    assert [r][..0] == [];
    if r.Complete() {
      assert [Succeeded(r.id, r.Streams())][..0] == [];
    }
  }

  lemma OfferToLast(open: seq<Request>, r: Request, t: MediaType, stream: Stream)
    ensures StillOpen(open + [r], t, stream) == StillOpen(open, t, stream) + Left(r.With(t, stream))
    ensures Successes(open + [r], t, stream) == Successes(open, t, stream) + Given(r.With(t, stream))
  {
    assert (open + [r])[..|open|] == open;
  }

  /** Offering a stream to the whole list offers it to each request by itself. */
  lemma {:induction false} OfferOneByOne(open: seq<Request>, t: MediaType, stream: Stream, id: nat)
    ensures OpenOf(StillOpen(open, t, stream), id) == StillOpen(OpenOf(open, id), t, stream)
    ensures RepliesOf(Successes(open, t, stream), id) == Successes(OpenOf(open, id), t, stream)
  {
    if open != [] {
      var rest, r := open[..|open| - 1], open[|open| - 1];
      assert open == rest + [r];
      OfferOneByOne(rest, t, stream, id);
      OfferToLast(rest, r, t, stream);
      OpenOfBoth(StillOpen(rest, t, stream), Left(r.With(t, stream)), id);
      RepliesOfBoth(Successes(rest, t, stream), Given(r.With(t, stream)), id);
      LeftAndGiven(r.With(t, stream), id);
      if r.id == id {
        OfferToLast(OpenOf(rest, id), r, t, stream);
      } else {
        assert OpenOf(open, id) == OpenOf(rest, id);
        assert OpenOf(StillOpen(open, t, stream), id) == OpenOf(StillOpen(rest, t, stream), id);
      }
    }
  }

  lemma {:induction false} CancelOneByOne(open: seq<Request>, id: nat)
    ensures RepliesOf(Cancellations(open), id) == Cancellations(OpenOf(open, id))
  {
    if open != [] {
      var rest, r := open[..|open| - 1], open[|open| - 1];
      CancelOneByOne(rest, id);
      assert Cancellations(open)[..|rest|] == Cancellations(rest);
      assert Cancellations(OpenOf(rest, id) + [r]) == Cancellations(OpenOf(rest, id)) + [Cancelled(r.id)];
    }
  }

  lemma OfferToOne(r: Request, t: MediaType, stream: Stream)
    ensures var r' := r.With(t, stream);
            && StillOpen([r], t, stream) == (if r'.Complete() then [] else [r'])
            && Successes([r], t, stream) == (if r'.Complete() then [Succeeded(r.id, r'.Streams())] else [])
  {
    assert [r][..0] == [];
  }

  lemma StepAgrees(s: State, e: Event, id: nat, f: Fate)
    requires Legal(s, e) && Agrees(s, id, f)
    ensures Agrees(Step(s, e), id, FateStep(f, id, s.nextId, e)) && Step(s, e).nextId == Count(s.nextId, e)
  {
    match e
    case Ask(types) =>
      if types == [] {
        var reply := Succeeded(s.nextId, []);
        RepliesOfBoth(s.replies, [reply], id);
        assert RepliesOf([reply], id) == if reply.id == id then [reply] else [] by { assert [reply][..0] == []; }
      } else {
        OpenOfFirst(Request(s.nextId, types, map[]), s.open, id);
      }
    case NewStream(t, stream) =>
      OfferOneByOne(s.open, t, stream, id);
      RepliesOfBoth(s.replies, Successes(s.open, t, stream), id);
      if f.Waiting? {
        OfferToOne(f.r, t, stream);
      }
    case SessionEnd =>
      CancelOneByOne(s.open, id);
      RepliesOfBoth(s.replies, Cancellations(s.open), id);
  }

  /** Every request, over every run, goes exactly the way it would go by itself. */
  lemma {:induction false} RunAgrees(s: State, es: seq<Event>, id: nat, f: Fate)
    requires LegalFrom(s, es) && Agrees(s, id, f)
    ensures Agrees(Run(s, es), id, Fates(f, id, s.nextId, es))
    decreases |es|
  {
    if es != [] {
      StepAgrees(s, es[0], id, f);
      RunAgrees(Step(s, es[0]), es[1..], id, FateStep(f, id, s.nextId, es[0]));
    }
  }

  // ----- The reply, from the events alone -----

  ghost function Arrival(arrived: map<MediaType, Stream>, e: Event): map<MediaType, Stream> {
    if e.NewStream? then arrived[e.t := e.stream] else arrived
  }

  /** The stream of each type that has arrived by the end of the events. */
  ghost function Arrivals(arrived: map<MediaType, Stream>, es: seq<Event>): map<MediaType, Stream>
    decreases |es|
  {
    if es == [] then arrived else Arrivals(Arrival(arrived, es[0]), es[1..])
  }

  ghost predicate Have(types: seq<MediaType>, arrived: map<MediaType, Stream>) {
    forall t | t in types :: t in arrived
  }

  /** All the types are there after n of the events and not before, and the session has not ended by then. */
  ghost predicate CompletedAt(types: seq<MediaType>, arrived: map<MediaType, Stream>, es: seq<Event>, n: nat) {
    && n <= |es| && SessionEnd !in es[..n] && Have(types, Arrivals(arrived, es[..n]))
    && forall m: nat | m < n :: !Have(types, Arrivals(arrived, es[..m]))
  }

  /** Event n ends the session, the first to do so, and some type is missing up to then. */
  ghost predicate LostAt(types: seq<MediaType>, arrived: map<MediaType, Stream>, es: seq<Event>, n: nat) {
    && n < |es| && es[n] == SessionEnd && SessionEnd !in es[..n]
    && forall m: nat | m <= n :: !Have(types, Arrivals(arrived, es[..m]))
  }

  /** The session goes on, and some type is missing all the way. */
  ghost predicate Lasts(types: seq<MediaType>, arrived: map<MediaType, Stream>, es: seq<Event>) {
    SessionEnd !in es && forall m: nat | m <= |es| :: !Have(types, Arrivals(arrived, es[..m]))
  }

  lemma ShiftPrefix(arrived: map<MediaType, Stream>, es: seq<Event>, m: nat)
    requires es != [] && m < |es|
    ensures es[..m + 1][1..] == es[1..][..m]
    ensures Arrivals(arrived, es[..m + 1]) == Arrivals(Arrival(arrived, es[0]), es[1..][..m])
  {
    assert es[..m + 1][1..] == es[1..][..m];
  }

  lemma {:induction false} ReplyStays(reply: Reply, id: nat, made: nat, es: seq<Event>)
    ensures Fates(Replied(reply), id, made, es) == Replied(reply)
    decreases |es|
  {
    if es != [] {
      ReplyStays(reply, id, Count(made, es[0]), es[1..]);
    }
  }

  lemma NotYet(r: Request, id: nat, made: nat, es: seq<Event>)
    requires es != [] && es[0] != SessionEnd && !Have(r.types, Arrivals(r.arrived, es[..1]))
    ensures FateStep(Waiting(r), id, made, es[0]) == Waiting(r.(arrived := Arrival(r.arrived, es[0])))
  {
    ShiftPrefix(r.arrived, es, 0);
    assert es[1..][..0] == [];
  }

  lemma {:induction false} CompletedRequest(r: Request, id: nat, made: nat, es: seq<Event>, n: nat)
    requires 0 < n && CompletedAt(r.types, r.arrived, es, n)
    ensures Fates(Waiting(r), id, made, es) ==
            Replied(Succeeded(r.id, r.(arrived := Arrivals(r.arrived, es[..n])).Streams()))
    decreases |es|
  {
    var r' := r.(arrived := Arrival(r.arrived, es[0]));
    assert es[0] == es[..n][0];
    ShiftPrefix(r.arrived, es, n - 1);
    if n == 1 {
      assert es[1..][..0] == [] && Arrivals(r.arrived, es[..1]) == r'.arrived;
      assert es[..0] == [] && !Have(r.types, r.arrived);
      assert es[0].NewStream?;
      ReplyStays(Succeeded(r.id, r'.Streams()), id, Count(made, es[0]), es[1..]);
    } else {
      NotYet(r, id, made, es);
      forall m: nat | m < n - 1
        ensures !Have(r.types, Arrivals(r'.arrived, es[1..][..m]))
      {
        ShiftPrefix(r.arrived, es, m);
      }
      CompletedRequest(r', id, Count(made, es[0]), es[1..], n - 1);
    }
  }

  lemma {:induction false} LostRequest(r: Request, id: nat, made: nat, es: seq<Event>, n: nat)
    requires LostAt(r.types, r.arrived, es, n)
    ensures Fates(Waiting(r), id, made, es) == Replied(Cancelled(r.id))
    decreases |es|
  {
    if n == 0 {
      ReplyStays(Cancelled(r.id), id, Count(made, es[0]), es[1..]);
    } else {
      assert es[0] == es[..n][0];
      NotYet(r, id, made, es);
      ShiftPrefix(r.arrived, es, n - 1);
      forall m: nat | m <= n - 1
        ensures !Have(r.types, Arrivals(Arrival(r.arrived, es[0]), es[1..][..m]))
      {
        ShiftPrefix(r.arrived, es, m);
      }
      LostRequest(r.(arrived := Arrival(r.arrived, es[0])), id, Count(made, es[0]), es[1..], n - 1);
    }
  }

  lemma {:induction false} LastingRequest(r: Request, id: nat, made: nat, es: seq<Event>)
    requires Lasts(r.types, r.arrived, es)
    ensures Fates(Waiting(r), id, made, es) == Waiting(r.(arrived := Arrivals(r.arrived, es)))
    decreases |es|
  {
    if es != [] {
      NotYet(r, id, made, es);
      forall m: nat | m <= |es| - 1
        ensures !Have(r.types, Arrivals(Arrival(r.arrived, es[0]), es[1..][..m]))
      {
        ShiftPrefix(r.arrived, es, m);
      }
      LastingRequest(r.(arrived := Arrival(r.arrived, es[0])), id, Count(made, es[0]), es[1..]);
    }
  }

  ghost function Asks(es: seq<Event>): nat
    decreases |es|
  {
    if es == [] then 0 else Asks(es[1..]) + if es[0].Ask? then 1 else 0
  }

  lemma {:induction false} FatesOfLater(id: nat, made: nat, before: seq<Event>, after: seq<Event>)
    requires made + Asks(before) <= id
    ensures Fates(NotMade, id, made, before + after) == Fates(NotMade, id, made + Asks(before), after)
    decreases |before|
  {
    if before == [] {
      assert before + after == after;
    } else {
      assert (before + after)[1..] == before[1..] + after;
      FatesOfLater(id, Count(made, before[0]), before[1..], after);
    }
  }

  lemma NotLostToo(types: seq<MediaType>, arrived: map<MediaType, Stream>, es: seq<Event>, n: nat, m: nat)
    requires CompletedAt(types, arrived, es, n)
    ensures !LostAt(types, arrived, es, m)
  {
    if m < n {
      assert es[..n][m] == es[m];
    }
  }

  /** Either the request is completed, or the session ends on it, or it goes on waiting; never two of these. */
  lemma OneOfThree(types: seq<MediaType>, arrived: map<MediaType, Stream>, es: seq<Event>)
    ensures (exists n: nat :: CompletedAt(types, arrived, es, n)) || (exists n: nat :: LostAt(types, arrived, es, n)) ||
            Lasts(types, arrived, es)
    ensures forall n: nat, m: nat :: !(CompletedAt(types, arrived, es, n) && LostAt(types, arrived, es, m))
    ensures Lasts(types, arrived, es) ==>
              forall n: nat :: !CompletedAt(types, arrived, es, n) && !LostAt(types, arrived, es, n)
  {
    var n: nat := 0;
    while n < |es| && es[n] != SessionEnd && !Have(types, Arrivals(arrived, es[..n]))
      invariant n <= |es| && SessionEnd !in es[..n]
      invariant forall m: nat | m < n :: !Have(types, Arrivals(arrived, es[..m]))
    {
      assert es[..n + 1] == es[..n] + [es[n]];
      n := n + 1;
    }
    forall n: nat, m: nat | CompletedAt(types, arrived, es, n)
      ensures !LostAt(types, arrived, es, m)
    {
      NotLostToo(types, arrived, es, n, m);
    }
    if Have(types, Arrivals(arrived, es[..n])) {
      assert CompletedAt(types, arrived, es, n);
    } else if n < |es| {
      assert LostAt(types, arrived, es, n);
    } else {
      assert es[..n] == es;
    }
  }

  /**
   * The request made after the events before gets one reply or none, and which one is told by the events after it: the
   * streams it asked for as soon as all have arrived, if the session lasts so long; cancelled when the session ends
   * first; and until then it stays open, with no reply.
   */
  lemma EveryRequestHasOneFate(before: seq<Event>, types: seq<MediaType>, after: seq<Event>)
    requires LegalFrom(Initial, before + [Ask(types)] + after)
    ensures var s, id := Run(Initial, before + [Ask(types)] + after), Asks(before);
            && (forall n: nat :: CompletedAt(types, map[], after, n) ==>
                 && OpenOf(s.open, id) == []
                 && RepliesOf(s.replies, id) ==
                    [Succeeded(id, Request(id, types, Arrivals(map[], after[..n])).Streams())])
            && (forall n: nat :: LostAt(types, map[], after, n) ==>
                 OpenOf(s.open, id) == [] && RepliesOf(s.replies, id) == [Cancelled(id)])
            && (Lasts(types, map[], after) ==>
                 && OpenOf(s.open, id) == [Request(id, types, Arrivals(map[], after))]
                 && RepliesOf(s.replies, id) == [])
  {
    var es, id := before + [Ask(types)] + after, Asks(before);
    assert es == before + ([Ask(types)] + after);
    assert ([Ask(types)] + after)[1..] == after;
    RunAgrees(Initial, es, id, NotMade);
    FatesOfLater(id, 0, before, [Ask(types)] + after);
    if types == [] {
      FateOfNoTypes(id, after);
    } else {
      FateOfSome(id, types, after);
    }
    ToldAgrees(Run(Initial, es), id, Fates(NotMade, id, id, [Ask(types)] + after), types, after);
  }

  lemma ToldAgrees(s: State, id: nat, f: Fate, types: seq<MediaType>, after: seq<Event>)
    requires Agrees(s, id, f) && FateIsTold(f, id, types, after)
    ensures forall n: nat :: CompletedAt(types, map[], after, n) ==>
              && OpenOf(s.open, id) == []
              && RepliesOf(s.replies, id) ==
                 [Succeeded(id, Request(id, types, Arrivals(map[], after[..n])).Streams())]
    ensures forall n: nat :: LostAt(types, map[], after, n) ==>
              OpenOf(s.open, id) == [] && RepliesOf(s.replies, id) == [Cancelled(id)]
    ensures Lasts(types, map[], after) ==>
              OpenOf(s.open, id) == [Request(id, types, Arrivals(map[], after))] && RepliesOf(s.replies, id) == []
  {
  }

  /** The fate of a request, told by the events after it. */
  ghost predicate FateIsTold(f: Fate, id: nat, types: seq<MediaType>, after: seq<Event>) {
    && (forall n: nat :: CompletedAt(types, map[], after, n) ==>
          f == Replied(Succeeded(id, Request(id, types, Arrivals(map[], after[..n])).Streams())))
    && (forall n: nat :: LostAt(types, map[], after, n) ==> f == Replied(Cancelled(id)))
    && (Lasts(types, map[], after) ==> f == Waiting(Request(id, types, Arrivals(map[], after))))
  }

  lemma FateOfNoTypes(id: nat, after: seq<Event>)
    ensures FateIsTold(Fates(NotMade, id, id, [Ask([])] + after), id, [], after)
  {
    assert ([Ask([])] + after)[1..] == after;
    ReplyStays(Succeeded(id, []), id, id + 1, after);
    assert after[..0] == [];
    assert Have([], Arrivals(map[], after[..0]));
    assert Have([], Arrivals(map[], after[..|after|]));
    assert forall n: nat :: CompletedAt([], map[], after, n) ==> n == 0;
    assert Request(id, [], map[]).Streams() == [];
  }

  lemma FateOfSome(id: nat, types: seq<MediaType>, after: seq<Event>)
    requires types != []
    ensures FateIsTold(Fates(NotMade, id, id, [Ask(types)] + after), id, types, after)
  {
    assert ([Ask(types)] + after)[1..] == after;
    assert after[..0] == [] && types[0] in types && !Have(types, Arrivals(map[], after[..0]));
    var r := Request(id, types, map[]);
    forall n: nat | CompletedAt(types, map[], after, n)
      ensures Fates(Waiting(r), id, id + 1, after) ==
              Replied(Succeeded(id, Request(id, types, Arrivals(map[], after[..n])).Streams()))
    {
      CompletedRequest(r, id, id + 1, after, n);
    }
    forall n: nat | LostAt(types, map[], after, n)
      ensures Fates(Waiting(r), id, id + 1, after) == Replied(Cancelled(id))
    {
      LostRequest(r, id, id + 1, after, n);
    }
    if Lasts(types, map[], after) {
      LastingRequest(r, id, id + 1, after);
    }
  }

  lemma {:induction false} RunAppends(s: State, es: seq<Event>, e: Event)
    requires LegalFrom(s, es + [e])
    ensures LegalFrom(s, es) && Legal(Run(s, es), e) && Run(s, es + [e]) == Step(Run(s, es), e)
    decreases |es|
  {
    if es == [] {
      assert (es + [e])[1..] == [];
    } else {
      assert (es + [e])[1..] == es[1..] + [e];
      RunAppends(Step(s, es[0]), es[1..], e);
    }
  }

  /** When the session has just ended, every request ever made has been replied to once, and no reply is to a request
      never made. */
  lemma SessionEndSettlesAll(es: seq<Event>, id: nat)
    requires LegalFrom(Initial, es + [SessionEnd])
    ensures var s := Run(Initial, es + [SessionEnd]);
            s.open == [] && |RepliesOf(s.replies, id)| == if id < s.nextId then 1 else 0
  {
    RunAppends(Initial, es, SessionEnd);
    RunAgrees(Initial, es + [SessionEnd], id, NotMade);
  }

  // ----- What a reply holds -----

  /** Event k brings the stream, the last of its type to arrive. */
  ghost predicate ArrivesAt(es: seq<Event>, k: nat, t: MediaType, stream: Stream) {
    && k < |es| && es[k] == NewStream(t, stream)
    && forall j | k < j < |es| :: !(es[j].NewStream? && es[j].t == t)
  }

  ghost predicate Arrives(es: seq<Event>, t: MediaType, stream: Stream) {
    exists k: nat :: ArrivesAt(es, k, t, stream)
  }

  lemma {:induction false} ArrivalsLast(arrived: map<MediaType, Stream>, es: seq<Event>, e: Event)
    ensures Arrivals(arrived, es + [e]) == Arrival(Arrivals(arrived, es), e)
    decreases |es|
  {
    if es == [] {
      assert (es + [e])[1..] == [];
    } else {
      assert (es + [e])[1..] == es[1..] + [e];
      ArrivalsLast(Arrival(arrived, es[0]), es[1..], e);
    }
  }

  lemma {:induction false} ArrivedInRun(es: seq<Event>, t: MediaType)
    ensures t in Arrivals(map[], es) ==> Arrives(es, t, Arrivals(map[], es)[t])
  {
    if es != [] {
      var n := |es| - 1;
      assert es == es[..n] + [es[n]];
      ArrivalsLast(map[], es[..n], es[n]);
      ArrivedInRun(es[..n], t);
      if t in Arrivals(map[], es) {
        var stream := Arrivals(map[], es)[t];
        if es[n].NewStream? && es[n].t == t {
          assert ArrivesAt(es, n, t, stream);
        } else {
          var k: nat :| ArrivesAt(es[..n], k, t, stream);
          assert ArrivesAt(es, k, t, stream);
        }
      }
    }
  }

  /** The reply to a completed request holds, for each type asked for and in that order, the stream of that type that
      arrived since. */
  lemma EachSlotHasItsStream(id: nat, types: seq<MediaType>, after: seq<Event>, n: nat)
    requires CompletedAt(types, map[], after, n)
    ensures var streams := Request(id, types, Arrivals(map[], after[..n])).Streams();
            && |streams| == |types|
            && forall i | 0 <= i < |types| :: Arrives(after[..n], types[i], streams[i])
  {
    var arrived := Arrivals(map[], after[..n]);
    var streams := Request(id, types, arrived).Streams();
    forall i | 0 <= i < |types|
      ensures Arrives(after[..n], types[i], streams[i])
    {
      assert types[i] in types && streams[i] == arrived[types[i]];
      ArrivedInRun(after[..n], types[i]);
    }
  }

  // ----- The order of replies -----

  /** The request made last comes first; all have numbers from low up to high. */
  ghost predicate NewestFirst(open: seq<Request>, low: nat, high: nat) {
    && (forall i, j | 0 <= i < j < |open| :: open[i].id > open[j].id)
    && (forall r | r in open :: low <= r.id < high)
  }

  ghost predicate RepliedNewestFirst(replies: seq<Reply>, low: nat, high: nat) {
    && (forall i, j | 0 <= i < j < |replies| :: replies[i].id > replies[j].id)
    && (forall reply | reply in replies :: low <= reply.id < high)
  }

  lemma OlderIsNext(open: seq<Request>, r: Request, low: nat, high: nat)
    requires NewestFirst(open, r.id + 1, high) && low <= r.id < high
    ensures NewestFirst(open, low, high) && NewestFirst(open + [r], low, high)
  {
  }

  lemma OlderReplyIsNext(replies: seq<Reply>, reply: Reply, low: nat, high: nat)
    requires RepliedNewestFirst(replies, reply.id + 1, high) && low <= reply.id < high
    ensures RepliedNewestFirst(replies, low, high) && RepliedNewestFirst(replies + [reply], low, high)
  {
  }

  lemma LastIsOldest(open: seq<Request>, r: Request, low: nat, high: nat)
    requires NewestFirst(open + [r], low, high)
    ensures NewestFirst(open, r.id + 1, high) && low <= r.id < high
  {
    var all := open + [r];
    assert all[|open|] == r && r in all;
    forall i | 0 <= i < |open|
      ensures all[i] == open[i] && open[i].id > r.id
    {
    }
    assert forall other | other in open :: other in all;
  }

  lemma {:induction false} OfferKeepsOrder(open: seq<Request>, t: MediaType, stream: Stream, low: nat, high: nat)
    requires NewestFirst(open, low, high)
    ensures NewestFirst(StillOpen(open, t, stream), low, high)
    ensures RepliedNewestFirst(Successes(open, t, stream), low, high)
  {
    if open != [] {
      var rest, last := open[..|open| - 1], open[|open| - 1];
      assert open == rest + [last];
      LastIsOldest(rest, last, low, high);
      OfferKeepsOrder(rest, t, stream, last.id + 1, high);
      OfferToLast(rest, last, t, stream);
      var r := last.With(t, stream);
      OlderIsNext(StillOpen(rest, t, stream), r, low, high);
      OlderReplyIsNext(Successes(rest, t, stream), Cancelled(last.id), low, high);
      if r.Complete() {
        OlderReplyIsNext(Successes(rest, t, stream), Succeeded(r.id, r.Streams()), low, high);
        assert StillOpen(rest, t, stream) + [] == StillOpen(rest, t, stream);
      } else {
        assert Successes(rest, t, stream) + [] == Successes(rest, t, stream);
      }
    }
  }

  /** The requests that one event replies to are replied to newest first, as they stand in the list. */
  lemma StepRepliesInOrder(s: State, e: Event) returns (replies: seq<Reply>)
    requires Legal(s, e) && NewestFirst(s.open, 0, s.nextId)
    ensures Step(s, e).replies == s.replies + replies && RepliedNewestFirst(replies, 0, Step(s, e).nextId)
    ensures NewestFirst(Step(s, e).open, 0, Step(s, e).nextId)
  {
    match e {
      case Ask(types) =>
        replies := if types == [] then [Succeeded(s.nextId, [])] else [];
      case NewStream(t, stream) =>
        OfferKeepsOrder(s.open, t, stream, 0, s.nextId);
        replies := Successes(s.open, t, stream);
      case SessionEnd =>
        replies := Cancellations(s.open);
    }
  }

  /** Over every run the list has its requests newest first. */
  lemma {:induction false} RunKeepsNewestFirst(s: State, es: seq<Event>)
    requires LegalFrom(s, es) && NewestFirst(s.open, 0, s.nextId)
    ensures NewestFirst(Run(s, es).open, 0, Run(s, es).nextId)
    decreases |es|
  {
    if es != [] {
      var replies := StepRepliesInOrder(s, es[0]);
      RunKeepsNewestFirst(Step(s, es[0]), es[1..]);
    }
  }
}
