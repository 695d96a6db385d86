/**
 * The life of text channels: src/im-channel-factory.c keeps a table with a channel for each contact, and
 * src/im-channel.c closes channels, which may only respawn them.
 *
 * The factory announces each channel with NewChannel and ChannelClosed. Over every run the two alternate
 * for each contact, a contact is announced exactly while the table has a channel for it, at most one
 * channel object per contact is alive, every request is answered once, and no unread message is lost while connected.
 */
module ImChannels {
  import opened Wrappers

  type Handle = nat
  type Token = nat
  type MessageId = nat

  datatype Message = Message(id: MessageId, rescued: bool)

  datatype Channel = Channel(initiator: Handle, pending: seq<Message>)

  /** What the channel manager tells the connection. A new channel may be the answer to a request; other answers are
      told apart from it. */
  datatype Signal =
    | NewChannel(h: Handle, request: Option<Token>)
    | ChannelClosed(h: Handle)
    | AlreadySatisfied(h: Handle, token: Token)
    | RequestFailed(token: Token)

  datatype State = State(
    open: bool,
    channels: map<Handle, Channel>,
    trace: seq<Signal>,
    received: nat,
    fates: map<MessageId, Fate>)

  /** How a message stopped being pending. */
  datatype Fate = Acknowledged | Destroyed | Lost

  const Initial := State(true, map[], [], 0, map[])

  /** What libpurple passes to write_im: only received messages and errors become pending messages. */
  datatype Kind = Received | Error | Sent | Other

  datatype Event =
    | Request(h: Handle, token: Token, requireNew: bool, unknownProperties: bool)
    | Write(h: Handle, kind: Kind)
    | TypingUpdate(h: Handle)
    | Close(h: Handle)
    | Destroy(h: Handle)
    | Acknowledge(h: Handle, ids: set<MessageId>)
    | Disconnect(order: seq<Handle>)

  // ----- One event -----

  ghost function Ids(pending: seq<Message>): set<MessageId> {
    set i | 0 <= i < |pending| :: pending[i].id
  }

  function Rescue(pending: seq<Message>): (r: seq<Message>)
    ensures |r| == |pending| && forall i | 0 <= i < |r| :: r[i] == Message(pending[i].id, true)
  {
    if pending == [] then [] else [Message(pending[0].id, true)] + Rescue(pending[1..])
  }

  function Without(pending: seq<Message>, ids: set<MessageId>): (r: seq<Message>)
    ensures forall m :: m in r <==> m in pending && m.id !in ids
  {
    if pending == [] then []
    else if pending[0].id in ids then Without(pending[1..], ids)
    else [pending[0]] + Without(pending[1..], ids)
  }

  ghost predicate Enumerates(order: seq<Handle>, handles: set<Handle>) {
    && (forall i, j | 0 <= i < j < |order| :: order[i] != order[j])
    && (forall h :: h in handles <==> h in order)
  }

  /** Clients see a channel only while it is in the table; once disconnected, there is nothing left to happen
      but a further disposal. Disconnecting closes the channels in the table's own order. */
  ghost predicate Legal(s: State, e: Event) {
    match e
    case Disconnect(order) => Enumerates(order, s.channels.Keys)
    case Close(h) => s.open && h in s.channels
    case Destroy(h) => s.open && h in s.channels
    case Acknowledge(h, ids) => s.open && h in s.channels && ids <= Ids(s.channels[h].pending)
    case _ => s.open
  }

  ghost function Ensure(s: State, h: Handle, initiator: Handle, token: Option<Token>): State {
    if h in s.channels then s
    else s.(channels := s.channels[h := Channel(initiator, [])], trace := s.trace + [NewChannel(h, token)])
  }

  /** The handle of the local user. */
  const SELF: Handle := 0

  ghost function StepRequest(s: State, h: Handle, token: Token, requireNew: bool, unknownProperties: bool): State {
    if unknownProperties then s.(trace := s.trace + [RequestFailed(token)])
    else if h !in s.channels then Ensure(s, h, SELF, Some(token))
    else s.(trace := s.trace + [if requireNew then RequestFailed(token) else AlreadySatisfied(h, token)])
  }

  ghost function StepWrite(s: State, h: Handle, kind: Kind): State {
    var t := Ensure(s, h, h, None);
    if kind.Received? || kind.Error? then Arrival(t, h) else t
  }

  ghost function Arrival(s: State, h: Handle): State
    requires h in s.channels
  {
    var c := s.channels[h];
    s.(channels := s.channels[h := c.(pending := c.pending + [Message(s.received, false)])], received := s.received + 1)
  }

  /** A channel with unread messages is not closed but passed off as one that the contact has just opened. */
  ghost function StepClose(s: State, h: Handle): State
    requires h in s.channels
  {
    var c := s.channels[h];
    if c.pending == [] then
      s.(channels := s.channels - {h}, trace := s.trace + [ChannelClosed(h)])
    else
      s.(channels := s.channels[h := Channel(h, Rescue(c.pending))],
         trace := s.trace + [ChannelClosed(h), NewChannel(h, None)])
  }

  /** Some of a channel's messages stop being pending. */
  ghost function Release(s: State, h: Handle, ids: set<MessageId>, fate: Fate): State
    requires h in s.channels
  {
    var c := s.channels[h];
    s.(channels := s.channels[h := c.(pending := Without(c.pending, ids))],
       fates := s.fates + map id | id in ids :: fate)
  }

  ghost function StepDestroy(s: State, h: Handle): State
    requires h in s.channels
  {
    StepClose(Release(s, h, Ids(s.channels[h].pending), Destroyed), h)
  }

  ghost function Closings(order: seq<Handle>): seq<Signal> {
    seq(|order|, i requires 0 <= i < |order| => ChannelClosed(order[i]))
  }

  ghost function AllPending(channels: map<Handle, Channel>): set<MessageId> {
    set h, id | h in channels && id in Ids(channels[h].pending) :: id
  }

  ghost function StepDisconnect(s: State, order: seq<Handle>): State {
    s.(open := false, channels := map[], trace := s.trace + Closings(order),
       fates := s.fates + map id | id in AllPending(s.channels) :: Lost)
  }

  ghost function Step(s: State, e: Event): State
    requires Legal(s, e)
  {
    match e
    case Request(h, token, requireNew, unknownProperties) => StepRequest(s, h, token, requireNew, unknownProperties)
    case Write(h, kind) => StepWrite(s, h, kind)
    case TypingUpdate(h) => Ensure(s, h, h, None)
    case Close(h) => StepClose(s, h)
    case Destroy(h) => StepDestroy(s, h)
    case Acknowledge(h, ids) => Release(s, h, ids, Acknowledged)
    case Disconnect(order) => StepDisconnect(s, order)
  }

  // ----- Runs -----

  ghost predicate LegalFrom(s: State, es: seq<Event>)
    decreases |es|
  {
    es != [] ==> Legal(s, es[0]) && LegalFrom(Step(s, es[0]), es[1..])
  }

  ghost function Run(s: State, es: seq<Event>): State
    requires LegalFrom(s, es)
    decreases |es|
  {
    if es == [] then s else Run(Step(s, es[0]), es[1..])
  }

  // ----- Announcements -----

  /** The signal announces the contact's channel or its closing. */
  ghost predicate Turns(signal: Signal, h: Handle) {
    (signal.NewChannel? || signal.ChannelClosed?) && signal.h == h
  }

  /** Whether the last of these signals about the contact announced a channel. */
  ghost predicate Announced(trace: seq<Signal>, h: Handle) {
    trace != [] &&
    var last := trace[|trace| - 1];
    if Turns(last, h) then last.NewChannel? else Announced(trace[..|trace| - 1], h)
  }

  /** A signal that may follow: channels are announced when they are not yet, and closed or named in an answer when
      they are. */
  ghost predicate Follows(before: seq<Signal>, signal: Signal) {
    match signal
    case NewChannel(h, _) => !Announced(before, h)
    case ChannelClosed(h) => Announced(before, h)
    case AlreadySatisfied(h, _) => Announced(before, h)
    case RequestFailed(_) => true
  }

  /** For each contact, NewChannel and ChannelClosed take turns, NewChannel first. */
  ghost predicate Alternates(trace: seq<Signal>) {
    trace != [] ==>
      var before, last := trace[..|trace| - 1], trace[|trace| - 1];
      Alternates(before) && Follows(before, last)
  }

  ghost predicate TableIsAnnounced(s: State) {
    Alternates(s.trace) && forall h :: Announced(s.trace, h) <==> h in s.channels
  }

  lemma OneMore(trace: seq<Signal>, last: Signal)
    ensures forall h :: Announced(trace + [last], h) <==>
                        if Turns(last, h) then last.NewChannel? else Announced(trace, h)
    ensures Alternates(trace + [last]) <==> Alternates(trace) && Follows(trace, last)
  {
    assert (trace + [last])[..|trace|] == trace;
  }

  lemma ClosingsFirst(trace: seq<Signal>, order: seq<Handle>)
    requires order != []
    ensures trace + Closings(order) == trace + [ChannelClosed(order[0])] + Closings(order[1..])
  {
    assert Closings(order) == [ChannelClosed(order[0])] + Closings(order[1..]);
  }

  lemma {:induction false} ClosingsAlternate(trace: seq<Signal>, order: seq<Handle>)
    requires Alternates(trace)
    requires forall i, j | 0 <= i < j < |order| :: order[i] != order[j]
    requires forall h | h in order :: Announced(trace, h)
    ensures Alternates(trace + Closings(order))
    ensures forall h :: Announced(trace + Closings(order), h) <==> Announced(trace, h) && h !in order
    decreases |order|
  {
    if order == [] {
      assert trace + Closings(order) == trace;
    } else {
      OneMore(trace, ChannelClosed(order[0]));
      ClosingsAlternate(trace + [ChannelClosed(order[0])], order[1..]);
      ClosingsFirst(trace, order);
    }
  }

  /** The answer to a request, from what clients have been told so far. */
  ghost function AnswerTo(trace: seq<Signal>, h: Handle, token: Token,
                          requireNew: bool, unknownProperties: bool): Signal
  {
    if unknownProperties then RequestFailed(token)
    else if !Announced(trace, h) then NewChannel(h, Some(token))
    else if requireNew then RequestFailed(token)
    else AlreadySatisfied(h, token)
  }

  lemma StepAnnounces(s: State, e: Event)
    requires Legal(s, e) && TableIsAnnounced(s)
    ensures TableIsAnnounced(Step(s, e))
  {
    match e {
      case Request(h, token, requireNew, unknownProperties) =>
        OneMore(s.trace, AnswerTo(s.trace, h, token, requireNew, unknownProperties));
      case Write(h, _) => OneMore(s.trace, NewChannel(h, None));
      case TypingUpdate(h) => OneMore(s.trace, NewChannel(h, None));
      case Close(h) => CloseAnnounces(s, h);
      case Destroy(h) =>
        CloseAnnounces(Release(s, h, Ids(s.channels[h].pending), Destroyed), h);
      case Acknowledge(_, _) =>
      case Disconnect(order) => ClosingsAlternate(s.trace, order);
    }
  }

  lemma CloseAnnounces(s: State, h: Handle)
    requires h in s.channels && TableIsAnnounced(s)
    ensures TableIsAnnounced(StepClose(s, h))
  {
    OneMore(s.trace, ChannelClosed(h));
    OneMore(s.trace + [ChannelClosed(h)], NewChannel(h, None));
    assert s.trace + [ChannelClosed(h), NewChannel(h, None)] == s.trace + [ChannelClosed(h)] + [NewChannel(h, None)];
  }

  /** Over every run: the signals alternate, and at rest a contact is announced exactly if the table has its channel. */
  lemma {:induction false} RunAnnounces(s: State, es: seq<Event>)
    requires LegalFrom(s, es) && TableIsAnnounced(s)
    ensures TableIsAnnounced(Run(s, es))
    decreases |es|
  {
    if es != [] {
      StepAnnounces(s, es[0]);
      RunAnnounces(Step(s, es[0]), es[1..]);
    }
  }

  // ----- Requests -----

  ghost function Tokens(es: seq<Event>): seq<Token> {
    if es == [] then []
    else (if es[0].Request? then [es[0].token] else []) + Tokens(es[1..])
  }

  /** The request that a signal answers. */
  ghost function Answered(signal: Signal): seq<Token> {
    match signal
    case NewChannel(_, Some(token)) => [token]
    case AlreadySatisfied(_, token) => [token]
    case RequestFailed(token) => [token]
    case _ => []
  }

  ghost function AnsweredTokens(trace: seq<Signal>): seq<Token> {
    if trace == [] then [] else AnsweredTokens(trace[..|trace| - 1]) + Answered(trace[|trace| - 1])
  }

  lemma AnsweredOneMore(trace: seq<Signal>, last: Signal)
    ensures AnsweredTokens(trace + [last]) == AnsweredTokens(trace) + Answered(last)
  {
    assert (trace + [last])[..|trace|] == trace;
  }

  lemma {:induction false} ClosingsAnswerNothing(trace: seq<Signal>, order: seq<Handle>)
    ensures AnsweredTokens(trace + Closings(order)) == AnsweredTokens(trace)
    decreases |order|
  {
    if order == [] {
      assert trace + Closings(order) == trace;
    } else {
      AnsweredOneMore(trace, ChannelClosed(order[0]));
      ClosingsAnswerNothing(trace + [ChannelClosed(order[0])], order[1..]);
      ClosingsFirst(trace, order);
    }
  }

  lemma CloseAnswersNothing(s: State, h: Handle)
    requires h in s.channels
    ensures AnsweredTokens(StepClose(s, h).trace) == AnsweredTokens(s.trace)
  {
    AnsweredOneMore(s.trace, ChannelClosed(h));
    AnsweredOneMore(s.trace + [ChannelClosed(h)], NewChannel(h, None));
    assert s.trace + [ChannelClosed(h), NewChannel(h, None)] == s.trace + [ChannelClosed(h)] + [NewChannel(h, None)];
  }

  /** A request adds one signal, its answer: the new channel that carries its token, the channel announced already, or
      an error. */
  lemma RequestAddsItsAnswer(s: State, h: Handle, token: Token, requireNew: bool, unknownProperties: bool)
    requires s.open && TableIsAnnounced(s)
    ensures var answer := AnswerTo(s.trace, h, token, requireNew, unknownProperties);
            && Step(s, Request(h, token, requireNew, unknownProperties)).trace == s.trace + [answer]
            && Answered(answer) == [token]
  {
  }

  lemma StepAnswers(s: State, e: Event)
    requires Legal(s, e) && TableIsAnnounced(s)
    ensures AnsweredTokens(Step(s, e).trace) ==
            AnsweredTokens(s.trace) + if e.Request? then [e.token] else []
  {
    match e {
      case Request(h, token, requireNew, unknownProperties) =>
        RequestAddsItsAnswer(s, h, token, requireNew, unknownProperties);
        AnsweredOneMore(s.trace, AnswerTo(s.trace, h, token, requireNew, unknownProperties));
      case Write(h, _) => AnsweredOneMore(s.trace, NewChannel(h, None));
      case TypingUpdate(h) => AnsweredOneMore(s.trace, NewChannel(h, None));
      case Close(h) => CloseAnswersNothing(s, h);
      case Destroy(h) => CloseAnswersNothing(Release(s, h, Ids(s.channels[h].pending), Destroyed), h);
      case Acknowledge(_, _) =>
      case Disconnect(order) => ClosingsAnswerNothing(s.trace, order);
    }
  }

  lemma Regroup(a: seq<Token>, b: seq<Token>, c: seq<Token>)
    ensures a + b + c == a + (b + c)
  {
  }

  /** The signals that answer requests, new channels among them, answer each once, in order, and nothing else. */
  lemma {:induction false} EveryRequestIsAnsweredOnce(s: State, es: seq<Event>)
    requires LegalFrom(s, es) && TableIsAnnounced(s)
    ensures AnsweredTokens(Run(s, es).trace) == AnsweredTokens(s.trace) + Tokens(es)
    decreases |es|
  {
    if es != [] {
      StepAnnounces(s, es[0]);
      StepAnswers(s, es[0]);
      EveryRequestIsAnsweredOnce(Step(s, es[0]), es[1..]);
      var first := if es[0].Request? then [es[0].token] else [];
      Regroup(AnsweredTokens(s.trace), first, Tokens(es[1..]));
      assert Tokens(es) == first + Tokens(es[1..]);
    }
  }

  // ----- Messages -----

  ghost predicate PendingWith(s: State, h: Handle, id: MessageId) {
    h in s.channels && id in Ids(s.channels[h].pending)
  }

  ghost predicate Somewhere(s: State, id: MessageId) {
    exists h :: PendingWith(s, h, id)
  }

  ghost predicate NoRepeats(pending: seq<Message>) {
    forall i, j | 0 <= i < j < |pending| :: pending[i].id != pending[j].id
  }

  /** Every message received is pending with exactly one contact or has exactly one fate; while open, none is lost. */
  ghost predicate MessagesAccounted(s: State) {
    && (forall h: Handle, id: MessageId | PendingWith(s, h, id) :: id < s.received && id !in s.fates)
    && (forall h: Handle, k: Handle, id: MessageId | PendingWith(s, h, id) && PendingWith(s, k, id) :: h == k)
    && (forall h | h in s.channels :: NoRepeats(s.channels[h].pending))
    && (forall id | id in s.fates :: id < s.received)
    && (forall id: MessageId | id < s.received && id !in s.fates :: Somewhere(s, id))
    && (s.open ==> forall id | id in s.fates :: s.fates[id] != Lost)
  }

  lemma ConsIds(m: Message, rest: seq<Message>)
    ensures Ids([m] + rest) == {m.id} + Ids(rest)
    ensures NoRepeats([m] + rest) <==> NoRepeats(rest) && m.id !in Ids(rest)
  {
    var all := [m] + rest;
    assert all[0] == m && forall i | 0 <= i < |rest| :: all[i + 1] == rest[i];
    forall id | id in {m.id} + Ids(rest)
      ensures id in Ids(all)
    {
      if id != m.id {
        var i :| 0 <= i < |rest| && rest[i].id == id;
        assert all[i + 1].id == id;
      } else {
        assert all[0].id == id;
      }
    }
  }

  lemma {:induction false} WithoutIds(pending: seq<Message>, ids: set<MessageId>)
    ensures Ids(Without(pending, ids)) == Ids(pending) - ids
    ensures NoRepeats(pending) ==> NoRepeats(Without(pending, ids))
  {
    if pending != [] {
      var rest := Without(pending[1..], ids);
      WithoutIds(pending[1..], ids);
      ConsIds(pending[0], pending[1..]);
      ConsIds(pending[0], rest);
      assert pending == [pending[0]] + pending[1..];
    }
  }

  lemma ReleaseAccounts(s: State, h: Handle, ids: set<MessageId>, fate: Fate)
    requires MessagesAccounted(s) && h in s.channels && ids <= Ids(s.channels[h].pending) && fate != Lost
    ensures MessagesAccounted(Release(s, h, ids, fate))
  {
    var s' := Release(s, h, ids, fate);
    WithoutIds(s.channels[h].pending, ids);
    forall k: Handle, id: MessageId
      ensures PendingWith(s', k, id) <==> PendingWith(s, k, id) && !(k == h && id in ids)
    {
    }
    forall id: MessageId | id < s'.received && id !in s'.fates
      ensures Somewhere(s', id)
    {
      var k :| PendingWith(s, k, id);
      assert PendingWith(s', k, id);
    }
    forall id | id in ids
      ensures PendingWith(s, h, id)
    {
    }
  }

  lemma ArrivalAccounts(s: State, h: Handle)
    requires MessagesAccounted(s) && h in s.channels
    ensures MessagesAccounted(Arrival(s, h))
  {
    var c := s.channels[h];
    var m := Message(s.received, false);
    var s' := Arrival(s, h);
    forall k: Handle, id: MessageId
      ensures PendingWith(s', k, id) <==> PendingWith(s, k, id) || (k == h && id == s.received)
    {
      if k == h {
        SnocIds(c.pending, m);
      }
    }
    SnocIds(c.pending, m);
    assert s.received !in Ids(c.pending) by {
      assert PendingWith(s, h, s.received) ==> s.received < s.received;
    }
    forall id: MessageId | id < s'.received && id !in s'.fates
      ensures Somewhere(s', id)
    {
      if id == s.received {
        assert PendingWith(s', h, id);
      } else {
        var k :| PendingWith(s, k, id);
        assert PendingWith(s', k, id);
      }
    }
  }

  lemma SnocIds(pending: seq<Message>, m: Message)
    ensures Ids(pending + [m]) == Ids(pending) + {m.id}
    ensures NoRepeats(pending) && m.id !in Ids(pending) ==> NoRepeats(pending + [m])
  {
    var all := pending + [m];
    assert all[|pending|] == m && forall i | 0 <= i < |pending| :: all[i] == pending[i];
  }

  /** A change of table in which every contact keeps the messages it has pending. */
  lemma SamePending(s: State, t: State)
    requires MessagesAccounted(s) && s.received == t.received && s.fates == t.fates && s.open == t.open
    requires forall h: Handle, id: MessageId :: PendingWith(s, h, id) <==> PendingWith(t, h, id)
    requires forall h | h in t.channels :: NoRepeats(t.channels[h].pending)
    ensures MessagesAccounted(t)
  {
    forall id: MessageId | id < t.received && id !in t.fates
      ensures Somewhere(t, id)
    {
      var k :| PendingWith(s, k, id);
      assert PendingWith(t, k, id);
    }
  }

  lemma EnsureAccounts(s: State, h: Handle, initiator: Handle, token: Option<Token>)
    requires MessagesAccounted(s)
    ensures MessagesAccounted(Ensure(s, h, initiator, token))
  {
    SamePending(s, Ensure(s, h, initiator, token));
  }

  lemma RequestAccounts(s: State, h: Handle, token: Token, requireNew: bool, unknownProperties: bool)
    requires MessagesAccounted(s)
    ensures MessagesAccounted(StepRequest(s, h, token, requireNew, unknownProperties))
  {
    EnsureAccounts(s, h, SELF, Some(token));
    var t := if unknownProperties then s else Ensure(s, h, SELF, Some(token));
    SamePending(t, StepRequest(s, h, token, requireNew, unknownProperties));
  }

  lemma WriteAccounts(s: State, h: Handle, kind: Kind)
    requires MessagesAccounted(s)
    ensures MessagesAccounted(StepWrite(s, h, kind))
  {
    EnsureAccounts(s, h, h, None);
    ArrivalAccounts(Ensure(s, h, h, None), h);
  }

  lemma CloseAccounts(s: State, h: Handle)
    requires MessagesAccounted(s) && h in s.channels
    ensures MessagesAccounted(StepClose(s, h))
  {
    var pending := s.channels[h].pending;
    assert Ids(Rescue(pending)) == Ids(pending) by {
      assert forall i | 0 <= i < |pending| :: Rescue(pending)[i].id == pending[i].id;
    }
    SamePending(s, StepClose(s, h));
  }

  lemma DisconnectAccounts(s: State, order: seq<Handle>)
    requires MessagesAccounted(s)
    ensures MessagesAccounted(StepDisconnect(s, order))
  {
    var s' := StepDisconnect(s, order);
    forall id: MessageId | id < s'.received
      ensures id in s'.fates
    {
      if id !in s.fates {
        var k :| PendingWith(s, k, id);
        assert id in AllPending(s.channels);
      }
    }
    forall id | id in AllPending(s.channels)
      ensures id < s.received
    {
      var k :| k in s.channels && id in Ids(s.channels[k].pending);
      assert PendingWith(s, k, id);
    }
  }

  lemma StepAccounts(s: State, e: Event)
    requires Legal(s, e) && MessagesAccounted(s)
    ensures MessagesAccounted(Step(s, e))
  {
    match e {
      case Request(h, token, requireNew, unknownProperties) =>
        RequestAccounts(s, h, token, requireNew, unknownProperties);
      case Write(h, kind) => WriteAccounts(s, h, kind);
      case TypingUpdate(h) => EnsureAccounts(s, h, h, None);
      case Close(h) => CloseAccounts(s, h);
      case Destroy(h) =>
        ReleaseAccounts(s, h, Ids(s.channels[h].pending), Destroyed);
        CloseAccounts(Release(s, h, Ids(s.channels[h].pending), Destroyed), h);
      case Acknowledge(h, ids) => ReleaseAccounts(s, h, ids, Acknowledged);
      case Disconnect(order) => DisconnectAccounts(s, order);
    }
  }

  /** Over every run: no message is in two places, none disappears, and none is lost before the disconnection. */
  lemma {:induction false} RunAccounts(s: State, es: seq<Event>)
    requires LegalFrom(s, es) && MessagesAccounted(s)
    ensures MessagesAccounted(Run(s, es))
    decreases |es|
  {
    if es != [] {
      StepAccounts(s, es[0]);
      RunAccounts(Step(s, es[0]), es[1..]);
    }
  }

  /** While connected, a message leaves a contact's channel by being acknowledged or destroyed and in no other way. */
  lemma UnreadMessagesStay(s: State, e: Event, h: Handle, id: MessageId)
    requires Legal(s, e) && !e.Disconnect? && PendingWith(s, h, id)
    ensures !PendingWith(Step(s, e), h, id) <==> e == Destroy(h) || (e.Acknowledge? && e.h == h && id in e.ids)
  {
    match e {
      case Write(k, _) =>
        if k == h {
          SnocIds(s.channels[h].pending, Message(s.received, false));
        }
      case Close(k) =>
        if k == h {
          var pending := s.channels[h].pending;
          assert forall i | 0 <= i < |pending| :: Rescue(pending)[i].id == pending[i].id;
        }
      case Destroy(k) =>
        if k == h {
          WithoutIds(s.channels[h].pending, Ids(s.channels[h].pending));
          DestroyEmpties(s, h);
        }
      case Acknowledge(k, ids) =>
        if k == h {
          WithoutIds(s.channels[h].pending, ids);
        }
      case _ =>
    }
  }

  /** Destroying a channel leaves nothing that would make it respawn. */
  lemma DestroyEmpties(s: State, h: Handle)
    requires h in s.channels
    ensures Without(s.channels[h].pending, Ids(s.channels[h].pending)) == []
    ensures h !in StepDestroy(s, h).channels
  {
    WithoutAll(s.channels[h].pending, Ids(s.channels[h].pending));
  }

  lemma {:induction false} WithoutAll(pending: seq<Message>, ids: set<MessageId>)
    requires Ids(pending) <= ids
    ensures Without(pending, ids) == []
  {
    if pending != [] {
      ConsIds(pending[0], pending[1..]);
      assert pending == [pending[0]] + pending[1..];
      WithoutAll(pending[1..], ids);
    }
  }

  // ----- Arrivals -----

  /** The event brings the contact a message: one received from the contact, or a report of an error. */
  ghost predicate Brings(e: Event, h: Handle) {
    e == Write(h, Received) || e == Write(h, Error)
  }

  /** A message becomes pending with a contact by arriving and in no other way, and each that arrives does. */
  lemma ArrivalsBecomePending(s: State, e: Event, h: Handle, id: MessageId)
    requires Legal(s, e) && !PendingWith(s, h, id)
    ensures PendingWith(Step(s, e), h, id) <==> Brings(e, h) && id == s.received
  {
    match e {
      case Write(k, _) =>
        if h in s.channels {
          SnocIds(s.channels[h].pending, Message(s.received, false));
        } else {
          SnocIds([], Message(s.received, false));
        }
      case Close(k) =>
        if k == h {
          var pending := s.channels[h].pending;
          assert forall i | 0 <= i < |pending| :: Rescue(pending)[i].id == pending[i].id;
        }
      case Destroy(k) => DestroyEmpties(s, k);
      case Acknowledge(k, ids) => WithoutIds(s.channels[k].pending, ids);
      case _ =>
    }
  }

  ghost function Arrivals(es: seq<Event>): nat
    decreases |es|
  {
    if es == [] then 0 else Arrivals(es[1..]) + if exists h :: Brings(es[0], h) then 1 else 0
  }

  lemma StepReceives(s: State, e: Event)
    requires Legal(s, e)
    ensures Step(s, e).received == s.received + if exists h :: Brings(e, h) then 1 else 0
  {
    if e.Write? {
      assert Brings(e, e.h) <==> e.kind.Received? || e.kind.Error?;
    }
  }

  /** Over every run each message that arrives is counted, so that RunAccounts speaks of all of them. */
  lemma {:induction false} ReceivedAreArrivals(s: State, es: seq<Event>)
    requires LegalFrom(s, es)
    ensures Run(s, es).received == s.received + Arrivals(es)
    decreases |es|
  {
    if es != [] {
      StepReceives(s, es[0]);
      ReceivedAreArrivals(Step(s, es[0]), es[1..]);
    }
  }

  // ----- Order -----

  /** In the order of arrival, all among the first so many. */
  ghost predicate InOrder(pending: seq<Message>, received: nat) {
    && (forall i, j | 0 <= i < j < |pending| :: pending[i].id < pending[j].id)
    && (forall m | m in pending :: m.id < received)
  }

  ghost predicate AllInOrder(s: State) {
    forall h | h in s.channels :: InOrder(s.channels[h].pending, s.received)
  }

  lemma {:induction false} WithoutKeepsOrder(pending: seq<Message>, ids: set<MessageId>, received: nat)
    requires InOrder(pending, received)
    ensures InOrder(Without(pending, ids), received)
  {
    if pending != [] {
      var rest := Without(pending[1..], ids);
      WithoutKeepsOrder(pending[1..], ids, received);
      forall i | 0 <= i < |rest|
        ensures pending[0].id < rest[i].id
      {
        assert rest[i] in pending[1..];
      }
    }
  }

  lemma RescueKeepsOrder(pending: seq<Message>, received: nat)
    requires InOrder(pending, received)
    ensures InOrder(Rescue(pending), received)
  {
    forall i | 0 <= i < |pending|
      ensures Rescue(pending)[i].id == pending[i].id < received
    {
      assert pending[i] in pending;
    }
  }

  lemma NextKeepsOrder(pending: seq<Message>, received: nat)
    requires InOrder(pending, received)
    ensures InOrder(pending, received + 1) && InOrder(pending + [Message(received, false)], received + 1)
  {
    forall i | 0 <= i < |pending|
      ensures pending[i].id < received
    {
      assert pending[i] in pending;
    }
  }

  lemma WriteKeepsOrder(s: State, h: Handle, kind: Kind)
    requires AllInOrder(s)
    ensures AllInOrder(StepWrite(s, h, kind))
  {
    var t, s' := Ensure(s, h, h, None), StepWrite(s, h, kind);
    forall k | k in s'.channels
      ensures InOrder(s'.channels[k].pending, s'.received)
    {
      NextKeepsOrder(t.channels[k].pending, s.received);
    }
  }

  lemma StepKeepsOrder(s: State, e: Event)
    requires Legal(s, e) && AllInOrder(s)
    ensures AllInOrder(Step(s, e))
  {
    match e {
      case Write(h, kind) => WriteKeepsOrder(s, h, kind);
      case Close(h) => RescueKeepsOrder(s.channels[h].pending, s.received);
      case Destroy(h) => DestroyEmpties(s, h);
      case Acknowledge(h, ids) => WithoutKeepsOrder(s.channels[h].pending, ids, s.received);
      case _ =>
    }
  }

  /** Over every run each contact's messages are pending in the order in which they arrived. */
  lemma {:induction false} RunKeepsOrder(s: State, es: seq<Event>)
    requires LegalFrom(s, es) && AllInOrder(s)
    ensures AllInOrder(Run(s, es))
    decreases |es|
  {
    if es != [] {
      StepKeepsOrder(s, es[0]);
      RunKeepsOrder(Step(s, es[0]), es[1..]);
    }
  }

  // ----- What happens to channels and messages -----

  /** A channel comes into being with a request, whose initiator is the user, or with something from the contact. */
  lemma ChannelsOpen(s: State, e: Event, h: Handle)
    requires Legal(s, e) && h !in s.channels
    ensures h in Step(s, e).channels <==>
            (e.Write? || e.TypingUpdate? || (e.Request? && !e.unknownProperties)) && e.h == h
    ensures h in Step(s, e).channels ==> Step(s, e).channels[h].initiator == if e.Request? then SELF else h
  {
  }

  ghost predicate Unread(s: State, h: Handle) {
    exists id :: PendingWith(s, h, id)
  }

  /** While connected, a channel goes by being destroyed, or closed with nothing unread. Closed with something unread it
      comes back as one that the contact opened. Clients are told of either. */
  lemma ChannelsClose(s: State, e: Event, h: Handle)
    requires Legal(s, e) && !e.Disconnect? && h in s.channels
    ensures h !in Step(s, e).channels <==> e == Destroy(h) || (e == Close(h) && !Unread(s, h))
    ensures h in Step(s, e).channels ==>
              Step(s, e).channels[h].initiator == if e == Close(h) then h else s.channels[h].initiator
    ensures e == Destroy(h) || e == Close(h) ==>
              Step(s, e).trace ==
              s.trace + [ChannelClosed(h)] + if h in Step(s, e).channels then [NewChannel(h, None)] else []
  {
    if s.channels[h].pending != [] {
      assert PendingWith(s, h, s.channels[h].pending[0].id);
    }
    if e == Destroy(h) {
      DestroyEmpties(s, h);
    }
  }

  /** A pending message is marked as rescued exactly from when its channel comes back. */
  lemma RescuedWhenClosed(s: State, e: Event, h: Handle, m: Message)
    requires Legal(s, e) && h in s.channels && m in s.channels[h].pending
    ensures PendingWith(Step(s, e), h, m.id) ==>
              Message(m.id, m.rescued || e == Close(h)) in Step(s, e).channels[h].pending
  {
    var pending := s.channels[h].pending;
    var i :| 0 <= i < |pending| && pending[i] == m;
    match e {
      case Close(k) =>
        if k == h {
          assert Rescue(pending)[i] == Message(m.id, true);
        }
      case Destroy(k) => DestroyEmpties(s, k);
      case Acknowledge(k, ids) => WithoutIds(s.channels[k].pending, ids);
      case _ =>
    }
  }

  /** The fate of a message that stops being pending, from what made it stop; fates are final. */
  lemma FatesAre(s: State, e: Event, h: Handle, id: MessageId)
    requires Legal(s, e)
    ensures PendingWith(s, h, id) && !PendingWith(Step(s, e), h, id) ==>
              id in Step(s, e).fates &&
              Step(s, e).fates[id] == if e.Disconnect? then Lost else if e.Destroy? then Destroyed else Acknowledged
    ensures MessagesAccounted(s) && id in s.fates ==> id in Step(s, e).fates && Step(s, e).fates[id] == s.fates[id]
  {
    if e.Disconnect? {
      assert PendingWith(s, h, id) ==> id in AllPending(s.channels);
      assert forall k | k in AllPending(s.channels) :: Somewhere(s, k) by {
        forall k | k in AllPending(s.channels)
          ensures Somewhere(s, k)
        {
          var g :| g in s.channels && k in Ids(s.channels[g].pending);
          assert PendingWith(s, g, k);
        }
      }
    } else if PendingWith(s, h, id) {
      UnreadMessagesStay(s, e, h, id);
    }
    if e.Destroy? || e.Acknowledge? {
      assert forall k | k in Ids(s.channels[e.h].pending) :: PendingWith(s, e.h, k);
    }
  }

  // ----- The code -----

  class HazeIMChannel {
    const handle: Handle
    var initiator: Handle
    /** Whether the channel has its libpurple conversation. */
    var conv: bool
    var closed: bool
    /** The message mixin's pending messages. */
    var pending: seq<Message>

    ghost function Value(): Channel
      reads this
    {
      Channel(initiator, pending)
    }

    constructor (handle: Handle, initiator: Handle)
      ensures this.handle == handle && Value() == Channel(initiator, []) && !closed && !conv
    {
      this.handle, this.initiator := handle, initiator;
      conv, closed, pending := false, false, [];
    }

    method Start()
      modifies this`conv
      ensures conv
    {
      conv := true;
    }

    method Close(factory: HazeImChannelFactory)
      requires factory.Valid() && this in factory.created
      modifies this, factory
      ensures factory.Valid() && factory.created == old(factory.created)
      ensures factory.Abs() == if old(closed) then old(factory.Abs()) else StepClose(old(factory.Abs()), handle)
    {
      if closed {
        return;
      }
      if pending != [] {
        Respawn(factory);
      } else {
        ShutDown(factory);
      }
    }

    /** The branch of Close for a channel with unread messages. */
    method Respawn(factory: HazeImChannelFactory)
      requires factory.Valid() && this in factory.created && !closed && pending != []
      modifies this, factory
      ensures factory.Valid() && factory.created == old(factory.created)
      ensures factory.Abs() == StepClose(old(factory.Abs()), handle)
    {
      SetRescued(factory);
      ghost var table := factory.Table();
      factory.ChannelClosedCb(this);
      assert factory.Table() == table;
    }

    method SetRescued(factory: HazeImChannelFactory)
      requires factory.Valid() && this in factory.created && !closed
      modifies this`initiator, this`pending
      ensures factory.Valid()
      ensures var was := old(factory.Table());
              && handle in was && was[handle] == old(Value())
              && factory.Table() == was[handle := Channel(handle, Rescue(was[handle].pending))]
    {
      if initiator != handle {
        initiator := handle;
      }
      pending := Rescue(pending);
    }

    /** The branch of Close for a channel with none. */
    method ShutDown(factory: HazeImChannelFactory)
      requires factory.Valid() && this in factory.created && !closed && pending == []
      modifies this, factory
      ensures factory.Valid() && factory.created == old(factory.created)
      ensures factory.Abs() == StepClose(old(factory.Abs()), handle)
    {
      ghost var was := factory.Abs();
      conv := false;
      closed := true;
      factory.ChannelClosedCb(this);
      assert factory.Abs().channels == was.channels - {handle};
    }

    method Destroy(factory: HazeImChannelFactory)
      requires factory.Valid() && this in factory.created
      modifies this, factory
      ensures factory.Valid() && factory.created == old(factory.created)
      ensures factory.Abs() == if old(closed) then old(factory.Abs()) else StepDestroy(old(factory.Abs()), handle)
    {
      if closed {
        pending := [];
      } else {
        Clear(factory);
      }
      Close(factory);
    }

    /** tp_message_mixin_clear, on a live channel. */
    method Clear(factory: HazeImChannelFactory)
      requires factory.Valid() && this in factory.created && !closed
      modifies this`pending, factory`fates
      ensures factory.Valid()
      ensures var was := old(factory.Abs());
              && handle in was.channels
              && factory.Abs() == Release(was, handle, Ids(was.channels[handle].pending), Destroyed)
    {
      DestroyEmpties(factory.Abs(), handle);
      factory.fates := factory.fates + map id | id in Ids(pending) :: Destroyed;
      factory.SetPending(this, []);
    }
  }

  class HazeImChannelFactory {
    /** Once the table has been given up, `open` is false. */
    var open: bool
    var channels: map<Handle, HazeIMChannel>
    /** What the factory has told the channel manager. */
    var trace: seq<Signal>
    /** The messages received so far, and what became of those that are no longer pending. */
    var received: nat
    ghost var fates: map<MessageId, Fate>
    /** Every channel object there has been. */
    ghost var created: set<HazeIMChannel>

    /** The live channel objects are exactly those in the table, each under its own contact. */
    ghost predicate Valid()
      reads this, created
    {
      && channels.Values <= created
      && (forall h | h in channels :: channels[h].handle == h && !channels[h].closed && channels[h].conv)
      && (forall c | c in created && !c.closed :: c.handle in channels && channels[c.handle] == c)
      && (!open ==> channels == map[])
    }

    ghost function Table(): map<Handle, Channel>
      reads this`channels, channels.Values
    {
      map h | h in channels :: channels[h].Value()
    }

    ghost function Abs(): State
      reads this, channels.Values
    {
      State(open, Table(), trace, received, fates)
    }

    constructor ()
      ensures Valid() && Abs() == Initial && created == {}
    {
      open, channels, trace, received := true, map[], [], 0;
      fates, created := map[], {};
    }

    /** im_channel_closed_cb, called while the channel is still in the table. */
    method ChannelClosedCb(chan: HazeIMChannel)
      modifies this`channels, this`trace
      ensures channels == if open && chan.closed then old(channels) - {chan.handle} else old(channels)
      ensures trace == old(trace) + [ChannelClosed(chan.handle)]
                     + if open && !chan.closed then [NewChannel(chan.handle, None)] else []
    {
      trace := trace + [ChannelClosed(chan.handle)];
      if open {
        if chan.closed {
          channels := channels - {chan.handle};
        } else {
          trace := trace + [NewChannel(chan.handle, None)];
        }
      }
    }

    /** The message mixin of a live channel. */
    method SetPending(chan: HazeIMChannel, pending: seq<Message>)
      requires Valid() && chan in created && !chan.closed
      modifies chan`pending
      ensures Valid()
      ensures var was := old(Table());
              && chan.handle in was && was[chan.handle] == old(chan.Value())
              && Table() == was[chan.handle := was[chan.handle].(pending := pending)]
    {
      chan.pending := pending;
    }

    method NewImChannel(h: Handle, initiator: Handle, token: Option<Token>) returns (chan: HazeIMChannel)
      requires Valid() && open && h !in channels
      modifies this
      ensures Valid() && h in channels && channels[h] == chan && fresh(chan)
      ensures Abs() == Ensure(old(Abs()), h, initiator, token)
      ensures created == old(created) + {chan}
    {
      chan := InsertChannel(h, initiator);
      trace := trace + [NewChannel(h, token)];
    }

    /** A new channel in the table, with its conversation. */
    method InsertChannel(h: Handle, initiator: Handle) returns (chan: HazeIMChannel)
      requires Valid() && open && h !in channels
      modifies this`created, this`channels
      ensures Valid() && h in channels && channels[h] == chan && fresh(chan)
      ensures Table() == old(Table())[h := Channel(initiator, [])]
      ensures created == old(created) + {chan}
    {
      ghost var was := Table();
      chan := new HazeIMChannel(h, initiator);
      created := created + {chan};
      channels := channels[h := chan];
      chan.Start();
      assert Table() == was[h := Channel(initiator, [])];
    }

    method GetImChannel(h: Handle, initiator: Handle, token: Option<Token>)
      returns (chan: HazeIMChannel, isNew: bool)
      requires Valid() && open
      modifies this
      ensures Valid() && h in channels && channels[h] == chan
      ensures isNew <==> h !in old(channels)
      ensures Abs() == Ensure(old(Abs()), h, initiator, token)
      ensures isNew ==> fresh(chan)
      ensures !isNew ==> unchanged(this)
    {
      if h in channels {
        chan, isNew := channels[h], false;
      } else {
        chan := NewImChannel(h, initiator, token);
        isNew := true;
      }
    }

    /** The request method, for a request of the text channel class. */
    method RequestChannel(h: Handle, token: Token, requireNew: bool, unknownProperties: bool)
      requires Valid() && open
      modifies this
      ensures Valid()
      ensures Abs() == Step(old(Abs()), Request(h, token, requireNew, unknownProperties))
    {
      if unknownProperties {
        trace := trace + [RequestFailed(token)];
        return;
      }
      var chan, isNew := GetImChannel(h, SELF, Some(token));
      if !isNew {
        if requireNew {
          trace := trace + [RequestFailed(token)];
        } else {
          trace := trace + [AlreadySatisfied(h, token)];
        }
      }
    }

    method WriteIm(h: Handle, kind: Kind)
      requires Valid() && open
      modifies this, created
      ensures Valid()
      ensures Abs() == Step(old(Abs()), Write(h, kind))
    {
      var chan, isNew := GetImChannel(h, h, None);
      Receive(chan, kind);
    }

    /** haze_im_channel_receive */
    method Receive(chan: HazeIMChannel, kind: Kind)
      requires Valid() && chan in created && !chan.closed
      modifies chan`pending, this`received
      ensures Valid()
      ensures Abs() == if kind == Received || kind == Error then Arrival(old(Abs()), chan.handle) else old(Abs())
    {
      if kind == Received || kind == Error {
        SetPending(chan, chan.pending + [Message(received, false)]);
        received := received + 1;
      }
    }

    method ConversationUpdated(h: Handle)
      requires Valid() && open
      modifies this
      ensures Valid()
      ensures Abs() == Step(old(Abs()), TypingUpdate(h))
    {
      var chan, isNew := GetImChannel(h, h, None);
    }

    /** The message mixin drops messages that the user has seen. */
    method AcknowledgeMessages(chan: HazeIMChannel, ids: set<MessageId>)
      requires Valid() && open && chan in created && !chan.closed && ids <= Ids(chan.pending)
      modifies chan`pending, this`fates
      ensures Valid()
      ensures Abs() == Step(old(Abs()), Acknowledge(chan.handle, ids))
    {
      ReleaseMessages(chan, ids);
    }

    method ReleaseMessages(chan: HazeIMChannel, ids: set<MessageId>)
      requires Valid() && chan in created && !chan.closed
      modifies chan`pending, this`fates
      ensures Valid()
      ensures chan.handle in old(Table()) && old(Table())[chan.handle] == old(chan.Value())
      ensures Abs() == Release(old(Abs()), chan.handle, ids, Acknowledged)
    {
      SetPending(chan, Without(chan.pending, ids));
      fates := fates + map id | id in ids :: Acknowledged;
    }

    /** close_all: the table is given up first, then its channels are disposed of, each emitting Closed. */
    method CloseAll() returns (ghost order: seq<Handle>)
      requires Valid()
      modifies this, created
      ensures Valid() && !open
      ensures Enumerates(order, old(channels).Keys)
      ensures Abs() == Step(old(Abs()), Disconnect(order))
    {
      ghost var was := Abs();
      fates := fates + map id | id in AllPending(was.channels) :: Lost;
      order := [];
      if open {
        order := GiveUpTable();
      }
      assert Table() == map[] && trace == was.trace + Closings(order);
    }

    method GiveUpTable() returns (ghost order: seq<Handle>)
      requires Valid() && open
      modifies this`channels, this`open, this`trace, created
      ensures Valid() && !open && channels == map[]
      ensures Enumerates(order, old(channels).Keys) && trace == old(trace) + Closings(order)
    {
      var tmp := channels;
      channels, open := map[], false;
      order := DestroyTable(tmp);
    }

    /** The destruction of the hash table disposes of the channels in it, in the table's own order. */
    method DestroyTable(table: map<Handle, HazeIMChannel>) returns (ghost order: seq<Handle>)
      requires !open && forall h | h in table :: table[h].handle == h && !table[h].closed
      modifies table.Values, this`trace, this`channels
      ensures channels == old(channels)
      ensures Enumerates(order, table.Keys) && trace == old(trace) + Closings(order)
      ensures forall h | h in table :: table[h].closed
    {
      order := [];
      var keys := table.Keys;
      while keys != {}
        invariant keys <= table.Keys && Enumerates(order, table.Keys - keys)
        invariant channels == old(channels) && trace == old(trace) + Closings(order)
        invariant forall h | h in table :: table[h].closed <==> h !in keys
        decreases keys
      {
        var h :| h in keys;
        Dispose(table[h]);
        assert Closings(order + [h]) == Closings(order) + [ChannelClosed(h)];
        assert table.Keys - (keys - {h}) == table.Keys - keys + {h};
        keys, order := keys - {h}, order + [h];
      }
      assert table.Keys - keys == table.Keys;
    }

    /** haze_im_channel_dispose, for a channel that is no longer in the table. */
    method Dispose(chan: HazeIMChannel)
      requires !open
      modifies chan, this`trace, this`channels
      ensures chan.closed && channels == old(channels)
      ensures trace == old(trace) + if old(chan.closed) then [] else [ChannelClosed(chan.handle)]
    {
      if !chan.closed {
        chan.conv := false;
        ChannelClosedCb(chan);
        chan.closed := true;
      }
    }
  }
}
