/**
 * Requests for streams in a call (src/media-channel.c). A request names the types of streams wanted; streams turn up
 * one by one in later events, each filling the slots of its type in every open request, until a request is complete
 * or the session ends.
 *
 * A type must not arrive twice while a request for it is open: the code asserts it.
 */
module StreamRequests {
  import opened Wrappers

  type MediaType = nat
  type Stream = nat

  datatype Reply = Succeeded(id: nat, streams: seq<Stream>) | Cancelled(id: nat)

  /** An open request, and the streams that have arrived since it was made, by type. */
  datatype Request = Request(id: nat, types: seq<MediaType>, arrived: map<MediaType, Stream>) {
    ghost predicate Complete() {
      forall t | t in types :: t in arrived
    }

    /** The stream for each requested type, in the order of the request. */
    ghost function Streams(): seq<Stream>
      requires Complete()
    {
      seq(|types|, i requires 0 <= i < |types| => arrived[types[i]])
    }

    ghost function With(t: MediaType, stream: Stream): Request {
      this.(arrived := arrived[t := stream])
    }
  }

  datatype State = State(open: seq<Request>, replies: seq<Reply>, nextId: nat)

  const Initial := State([], [], 0)

  datatype Event = Ask(types: seq<MediaType>) | NewStream(t: MediaType, stream: Stream) | SessionEnd

  ghost predicate Legal(s: State, e: Event) {
    match e
    case Ask(_) => true
    case NewStream(t, _) => forall r | r in s.open && t in r.types :: t !in r.arrived
    case SessionEnd => true
  }

  ghost function StillOpen(open: seq<Request>, t: MediaType, stream: Stream): seq<Request> {
    if open == [] then []
    else
      var r := open[|open| - 1].With(t, stream);
      StillOpen(open[..|open| - 1], t, stream) + if r.Complete() then [] else [r]
  }

  ghost function Successes(open: seq<Request>, t: MediaType, stream: Stream): seq<Reply> {
    if open == [] then []
    else
      var r := open[|open| - 1].With(t, stream);
      Successes(open[..|open| - 1], t, stream) + if r.Complete() then [Succeeded(r.id, r.Streams())] else []
  }

  ghost function Cancellations(open: seq<Request>): seq<Reply> {
    seq(|open|, i requires 0 <= i < |open| => Cancelled(open[i].id))
  }

  ghost function Step(s: State, e: Event): State
    requires Legal(s, e)
  {
    match e
    case Ask(types) =>
      if types == [] then s.(replies := s.replies + [Succeeded(s.nextId, [])], nextId := s.nextId + 1)
      else s.(open := [Request(s.nextId, types, map[])] + s.open, nextId := s.nextId + 1)
    case NewStream(t, stream) =>
      s.(open := StillOpen(s.open, t, stream), replies := s.replies + Successes(s.open, t, stream))
    case SessionEnd => s.(open := [], replies := s.replies + Cancellations(s.open))
  }

  // ----- The code: one request -----

  ghost function Filled(slots: seq<Option<Stream>>): nat {
    if slots == [] then 0 else Filled(slots[..|slots| - 1]) + if slots[|slots| - 1].Some? then 1 else 0
  }

  lemma {:induction false} FilledUpdate(slots: seq<Option<Stream>>, i: nat, stream: Stream)
    requires i < |slots| && slots[i].None?
    ensures Filled(slots[i := Some(stream)]) == Filled(slots) + 1
  {
    var n := |slots| - 1;
    var slots' := slots[i := Some(stream)];
    if i == n {
      assert slots'[..n] == slots[..n];
    } else {
      assert slots'[..n] == slots[..n][i := Some(stream)];
      FilledUpdate(slots[..n], i, stream);
    }
  }

  lemma {:induction false} FilledAll(slots: seq<Option<Stream>>)
    ensures Filled(slots) <= |slots|
    ensures Filled(slots) == |slots| <==> forall i | 0 <= i < |slots| :: slots[i].Some?
  {
    if slots != [] {
      FilledAll(slots[..|slots| - 1]);
    }
  }

  lemma {:induction false} FilledNone(slots: seq<Option<Stream>>)
    requires forall i | 0 <= i < |slots| :: slots[i].None?
    ensures Filled(slots) == 0
  {
    if slots != [] {
      FilledNone(slots[..|slots| - 1]);
    }
  }

  function SlotFor(t: MediaType, arrived: map<MediaType, Stream>): Option<Stream> {
    if t in arrived then Some(arrived[t]) else None
  }

  /** Each slot holds the stream of its type that has arrived, if any. */
  ghost predicate Match(types: seq<MediaType>, slots: seq<Option<Stream>>, arrived: map<MediaType, Stream>) {
    |slots| == |types| && forall i | 0 <= i < |types| :: slots[i] == SlotFor(types[i], arrived)
  }

  /** The first n slots are up to date, the others not yet. */
  ghost predicate MatchUpTo(types: seq<MediaType>, slots: seq<Option<Stream>>, n: nat,
                            before: map<MediaType, Stream>, after: map<MediaType, Stream>)
  {
    && |slots| == |types|
    && (forall i | 0 <= i < |types| :: slots[i] == SlotFor(types[i], if i < n then after else before))
  }

  lemma MatchOneMore(types: seq<MediaType>, slots: seq<Option<Stream>>, n: nat,
                     before: map<MediaType, Stream>, t: MediaType, stream: Stream)
    requires n < |types| && MatchUpTo(types, slots, n, before, before[t := stream])
    requires t in types ==> t !in before
    ensures if types[n] == t
            then slots[n].None? && MatchUpTo(types, slots[n := Some(stream)], n + 1, before, before[t := stream])
            else MatchUpTo(types, slots, n + 1, before, before[t := stream])
  {
  }

  /** When no slot is empty, the slots not yet looked at are up to date too. */
  lemma MatchAll(types: seq<MediaType>, slots: seq<Option<Stream>>, n: nat,
                 before: map<MediaType, Stream>, t: MediaType, stream: Stream)
    requires MatchUpTo(types, slots, n, before, before[t := stream]) && (t in types ==> t !in before)
    requires forall i | 0 <= i < |slots| :: slots[i].Some?
    ensures Match(types, slots, before[t := stream])
    ensures forall u | u in types :: u in before[t := stream]
  {
    forall i | 0 <= i < |types|
      ensures slots[i] == SlotFor(types[i], before[t := stream])
    {
      assert types[i] in types;
    }
  }

  lemma SlotsComplete(types: seq<MediaType>, slots: seq<Option<Stream>>, arrived: map<MediaType, Stream>)
    requires Match(types, slots, arrived)
    ensures (forall u | u in types :: u in arrived) <==> forall i | 0 <= i < |slots| :: slots[i].Some?
  {
    if forall u | u in types :: u in arrived {
      assert forall i | 0 <= i < |slots| :: types[i] in types;
    }
  }

  lemma NotComplete(types: seq<MediaType>, slots: seq<Option<Stream>>, arrived: map<MediaType, Stream>)
    requires Match(types, slots, arrived)
    ensures Filled(slots) <= |types|
    ensures Filled(slots) < |types| <==> exists u :: u in types && u !in arrived
  {
    SlotsComplete(types, slots, arrived);
    FilledAll(slots);
  }

  class PendingStreamRequest {
    const id: nat
    const types: seq<MediaType>
    /** The slots, one for each type. */
    const streams: array<Option<Stream>>
    /** How many slots are filled. */
    var satisfied: nat
    /** Whether a reply is still owed. */
    var context: bool
    ghost var arrived: map<MediaType, Stream>

    ghost predicate Valid()
      reads this, streams
    {
      Match(types, streams[..], arrived) && satisfied == Filled(streams[..])
    }

    ghost function Value(): Request
      reads this
    {
      Request(id, types, arrived)
    }

    constructor (id: nat, types: seq<MediaType>)
      ensures Valid() && context && Value() == Request(id, types, map[]) && fresh(streams)
    {
      this.id, this.types := id, types;
      streams := new Option<Stream>[|types|](_ => None);
      satisfied, context, arrived := 0, true, map[];
      new;
      assert forall i | 0 <= i < |types| :: streams[..][i] == None;
      FilledNone(streams[..]);
    }

    /** Fills the slots of a type; if that completes the request, replies. */
    method MaybeSatisfy(t: MediaType, stream: Stream) returns (reply: Option<Reply>)
      requires Valid() && context && !Value().Complete()
      requires t in types ==> t !in arrived
      modifies this, streams
      ensures Valid() && Value() == old(Value()).With(t, stream)
      ensures reply.Some? <==> Value().Complete()
      ensures context <==> reply.None?
      ensures reply.Some? ==> reply.value == Succeeded(id, Value().Streams())
    {
      ghost var before := arrived;
      arrived := arrived[t := stream];
      NotComplete(types, streams[..], before);
      var i := 0;
      while i < |types|
        invariant 0 <= i <= |types| == streams.Length && context
        invariant arrived == before[t := stream]
        invariant MatchUpTo(types, streams[..], i, before, arrived)
        invariant satisfied == Filled(streams[..]) < |types|
      {
        MatchOneMore(types, streams[..], i, before, t, stream);
        if types[i] == t {
          Fill(i, stream);
          if satisfied == |types| && context {
            MatchAll(types, streams[..], i + 1, before, t, stream);
            var all := Succeed();
            return Some(all);
          }
        }
        i := i + 1;
      }
      NotComplete(types, streams[..], arrived);
      reply := None;
    }

    /** Replies with the streams of a request whose slots are all filled. */
    method Succeed() returns (reply: Reply)
      requires Match(types, streams[..], arrived) && forall i | 0 <= i < |types| :: streams[i].Some?
      modifies this`context
      ensures !context && Value().Complete() && reply == Succeeded(id, Value().Streams())
    {
      context := false;
      SlotsComplete(types, streams[..], arrived);
      var list := StreamList();
      assert list == Value().Streams();
      reply := Succeeded(id, list);
    }

    method Fill(i: nat, stream: Stream)
      requires i < streams.Length && streams[i].None? && satisfied == Filled(streams[..])
      modifies this`satisfied, streams
      ensures streams[..] == old(streams[..])[i := Some(stream)] && satisfied == Filled(streams[..])
      ensures satisfied == old(satisfied) + 1 <= streams.Length
      ensures satisfied == streams.Length <==> forall j | 0 <= j < streams.Length :: streams[j].Some?
    {
      FilledUpdate(streams[..], i, stream);
      ghost var slots := streams[..];
      streams[i] := Some(stream);
      assert streams[..] == slots[i := Some(stream)];
      satisfied := satisfied + 1;
      FilledAll(streams[..]);
    }

    /** make_stream_list, for a request whose slots are all filled. */
    method StreamList() returns (list: seq<Stream>)
      requires streams.Length == |types| && forall i | 0 <= i < |types| :: streams[i].Some?
      ensures |list| == |types| && forall i | 0 <= i < |types| :: streams[i] == Some(list[i])
    {
      list := [];
      for i := 0 to |types|
        invariant |list| == i && forall j | 0 <= j < i :: streams[j] == Some(list[j])
      {
        list := list + [streams[i].value];
      }
    }

    /** pending_stream_request_free */
    method Free() returns (reply: Option<Reply>)
      ensures reply == if context then Some(Cancelled(id)) else None
    {
      reply := if context then Some(Cancelled(id)) else None;
    }
  }

  // ----- The code: the channel's list of requests -----

  ghost function Values(pending: seq<PendingStreamRequest>): seq<Request>
    reads pending
  {
    seq(|pending|, i requires 0 <= i < |pending| reads pending => pending[i].Value())
  }

  /** A request that still waits. */
  ghost predicate Waits(p: PendingStreamRequest)
    reads p, p.streams
  {
    p.Valid() && p.context && !p.Value().Complete()
  }

  /** The requests are different objects, each with its own slots. */
  ghost predicate Separate(pending: seq<PendingStreamRequest>) {
    forall i, j | 0 <= i < j < |pending| :: pending[i] != pending[j] && pending[i].streams != pending[j].streams
  }

  /** A list stays one of waiting requests when one that need not be is taken out. */
  lemma WithoutOne(list: seq<PendingStreamRequest>, i: nat)
    requires i < |list| && Separate(list)
    requires forall p | p in list && p != list[i] :: Waits(p)
    ensures var rest := list[..i] + list[i + 1..];
            && Separate(rest) && (forall p | p in rest :: p in list && Waits(p))
            && Values(rest) == Values(list)[..i] + Values(list)[i + 1..]
  {
    var rest := list[..i] + list[i + 1..];
    forall j | 0 <= j < |rest|
      ensures rest[j] == (if j < i then list[j] else list[j + 1]) && rest[j] in list && rest[j] != list[i]
    {
    }
  }

  /** The list when the stream has been offered to the first k of the open requests. */
  ghost function OfferedTo(open: seq<Request>, k: nat, t: MediaType, stream: Stream): seq<Request>
    requires k <= |open|
  {
    StillOpen(open[..k], t, stream) + open[k..]
  }

  lemma OneMoreOffered(open: seq<Request>, k: nat, t: MediaType, stream: Stream)
    requires k < |open|
    ensures var r := open[k].With(t, stream);
            var i := |StillOpen(open[..k], t, stream)|;
            var values := OfferedTo(open, k, t, stream);
            && i < |values| && values[i] == open[k]
            && OfferedTo(open, k + 1, t, stream) == values[..i] + (if r.Complete() then [] else [r]) + values[i + 1..]
            && |StillOpen(open[..k + 1], t, stream)| == i + (if r.Complete() then 0 else 1)
            && Successes(open[..k + 1], t, stream) ==
               Successes(open[..k], t, stream) + (if r.Complete() then [Succeeded(r.id, r.Streams())] else [])
  {
    assert open[..k + 1][..k] == open[..k];
  }

  class RequestQueue {
    var pending: seq<PendingStreamRequest>
    var replies: seq<Reply>
    var nextId: nat
    /** The requests and their slots. */
    ghost var repr: set<object>

    ghost predicate Valid()
      reads this, repr
    {
      && this !in repr && Separate(pending)
      && forall p | p in pending :: p in repr && p.streams in repr && Waits(p)
    }

    /** All is well but that request i need not wait. */
    ghost predicate ValidBut(i: nat)
      reads this, repr
    {
      && this !in repr && Separate(pending) && i < |pending|
      && (forall p | p in pending :: p in repr && p.streams in repr)
      && (forall p | p in pending && p != pending[i] :: Waits(p))
    }

    ghost function Abs(): State
      reads this, pending
    {
      State(Values(pending), replies, nextId)
    }

    constructor ()
      ensures Valid() && Abs() == Initial && fresh(repr)
    {
      pending, replies, nextId, repr := [], [], 0, {};
    }

    /** media_channel_request_streams, for a request that libpurple does not refuse. */
    method RequestStreams(types: seq<MediaType>)
      requires Valid()
      modifies this
      ensures Valid() && fresh(repr - old(repr)) && Abs() == Step(old(Abs()), Ask(types))
    {
      if types == [] {
        replies := replies + [Succeeded(nextId, [])];
      } else {
        AddRequest(types);
      }
      nextId := nextId + 1;
    }

    method AddRequest(types: seq<MediaType>)
      requires Valid() && types != []
      modifies this`pending, this`repr
      ensures Valid() && fresh(repr - old(repr))
      ensures Values(pending) == [Request(nextId, types, map[])] + old(Values(pending))
    {
      ghost var open := Values(pending);
      var p := new PendingStreamRequest(nextId, types);
      assert types[0] in types;
      pending, repr := [p] + pending, repr + {p, p.streams};
      assert Values(pending) == [Request(nextId, types, map[])] + open;
    }

    /** The loop of media_state_changed_cb over the requests, for a new stream. */
    method OnNewStream(t: MediaType, stream: Stream)
      requires Valid() && Legal(Abs(), NewStream(t, stream))
      modifies this, repr
      ensures Valid() && repr == old(repr) && Abs() == Step(old(Abs()), NewStream(t, stream))
    {
      ghost var open, before := Values(pending), replies;
      ghost var k := 0;
      var i := 0;
      while i < |pending|
        invariant 0 <= i <= |pending| && 0 <= k <= |open|
        invariant Valid() && repr == old(repr) && nextId == old(nextId)
        invariant Values(pending) == OfferedTo(open, k, t, stream)
        invariant i == |StillOpen(open[..k], t, stream)|
        invariant replies == before + Successes(open[..k], t, stream)
        decreases |pending| - i
      {
        i := OfferNext(i, t, stream, open, k, before);
        k := k + 1;
      }
      assert |Values(pending)| == |OfferedTo(open, k, t, stream)|;
      assert open[..k] == open;
    }

    method OfferNext(i: nat, t: MediaType, stream: Stream,
                     ghost open: seq<Request>, ghost k: nat, ghost before: seq<Reply>)
      returns (next: nat)
      requires Valid() && i < |pending| && k < |open|
      requires t in open[k].types ==> t !in open[k].arrived
      requires Values(pending) == OfferedTo(open, k, t, stream) && i == |StillOpen(open[..k], t, stream)|
      requires replies == before + Successes(open[..k], t, stream)
      modifies this`pending, this`replies, repr
      ensures Valid()
      ensures Values(pending) == OfferedTo(open, k + 1, t, stream) && next == |StillOpen(open[..k + 1], t, stream)|
      ensures replies == before + Successes(open[..k + 1], t, stream)
      ensures |pending| - next < |old(pending)| - i
    {
      OneMoreOffered(open, k, t, stream);
      assert pending[i].Value() == Values(pending)[i] == open[k];
      var satisfied := Offer(i, t, stream);
      assert |Values(pending)| == |pending|;
      next := if satisfied then i else i + 1;
    }

    /** Offers the stream to one request, which leaves the list if that completes it. */
    method Offer(i: nat, t: MediaType, stream: Stream) returns (satisfied: bool)
      requires Valid() && i < |pending|
      requires t in pending[i].types ==> t !in pending[i].arrived
      modifies this`pending, this`replies, repr
      ensures Valid()
      ensures var values := old(Values(pending));
              var r := values[i].With(t, stream);
              && satisfied == r.Complete()
              && Values(pending) == values[..i] + (if satisfied then [] else [r]) + values[i + 1..]
              && replies == old(replies) + if satisfied then [Succeeded(r.id, r.Streams())] else []
    {
      ghost var values := Values(pending);
      var reply := Satisfy(i, t, stream);
      satisfied := reply.Some?;
      if satisfied {
        replies := replies + [reply.value];
        RemoveRequest(i);
      }
    }

    method RemoveRequest(i: nat)
      requires ValidBut(i)
      modifies this`pending
      ensures Valid() && Values(pending) == old(Values(pending))[..i] + old(Values(pending))[i + 1..]
    {
      WithoutOne(pending, i);
      pending := pending[..i] + pending[i + 1..];
    }

    /** Passes the stream to one request, which stays in the list. */
    method Satisfy(i: nat, t: MediaType, stream: Stream) returns (reply: Option<Reply>)
      requires Valid() && i < |pending|
      requires t in pending[i].types ==> t !in pending[i].arrived
      modifies repr
      ensures ValidBut(i)
      ensures var values := old(Values(pending));
              var r := values[i].With(t, stream);
              && Values(pending) == values[i := r]
              && reply == (if r.Complete() then Some(Succeeded(r.id, r.Streams())) else None)
              && (reply.None? ==> Waits(pending[i]))
    {
      ghost var values := Values(pending);
      assert pending[i] in pending;
      reply := pending[i].MaybeSatisfy(t, stream);
      assert Values(pending) == values[i := values[i].With(t, stream)];
    }

    /** The end of the session: what was still waited for has been lost. */
    method OnSessionEnd()
      requires Valid()
      modifies this
      ensures Valid() && Abs() == Step(old(Abs()), SessionEnd)
    {
      ghost var open := Values(pending);
      for i := 0 to |pending|
        invariant Valid() && pending == old(pending) && nextId == old(nextId)
        invariant replies == old(replies) + Cancellations(open)[..i]
      {
        assert pending[i] in pending;
        var reply := pending[i].Free();
        assert reply == Some(Cancellations(open)[i]);
        replies := replies + [reply.value];
      }
      assert Cancellations(open)[..|open|] == Cancellations(open);
      pending := [];
    }
  }
}
