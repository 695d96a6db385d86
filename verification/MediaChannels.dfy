/**
 * The end of calls: src/media-channel.c closes channels and hears of ended sessions, src/media-manager.c keeps the
 * list of live channels.
 *
 * Closing hangs up, and libpurple may report the end of the session while it is still being told to hang up; a reported
 * end closes the channel in turn. The two call each other, yet terminate, and over every run a channel emits Closed
 * once, Close hangs up at most once and never after the session has ended, and closing everything empties the list.
 */
module MediaChannels {
  import opened Wrappers

  type Handle = nat

  /** What a channel does that can be seen from outside. UserHangup: the user left the call, see RemoveSelf. */
  datatype Entry = Hangup | UserHangup | SessionEnded | ClosedEmitted

  /** Why the user leaves a call. */
  datatype Reason = Unstated | Offline | Busy | Error | NoAnswer | Other

  datatype Channel = Channel(media: bool, mediaEnded: bool, closed: bool, log: seq<Entry>)

  /** All channels there have been, and those whose closing was signalled. */
  datatype State = State(channels: seq<Channel>, signals: seq<nat>)

  /** `ends` is how often libpurple reports the end of the session before a hang-up returns. */
  datatype Event =
    | Create(media: bool)
    | MediaArrives(i: nat)
    | Close(i: nat, ends: nat)
    | SessionEnd(i: nat)
    | RemoveSelf(i: nat, ends: nat)
    | CloseAll(order: seq<nat>, endsEach: seq<nat>)

  // ----- One channel, without the re-entrancy -----

  ghost function Ends(n: nat): seq<Entry> {
    seq(n, _ => SessionEnded)
  }

  /** What a close with a hang-up adds. */
  ghost function HangupLog(log: seq<Entry>, ends: nat): seq<Entry> {
    log + [Hangup] + Ends(ends) + [ClosedEmitted]
  }

  ghost function ClosedOf(c: Channel, ends: nat): Channel {
    if c.closed then c
    else if c.media && !c.mediaEnded then
      c.(mediaEnded := true, closed := true, log := HangupLog(c.log, ends))
    else c.(closed := true, log := c.log + [ClosedEmitted])
  }

  ghost function EndedOf(c: Channel): Channel {
    if c.closed then c.(mediaEnded := true, log := c.log + [SessionEnded])
    else c.(mediaEnded := true, closed := true, log := c.log + [SessionEnded, ClosedEmitted])
  }

  ghost function EndedTimes(c: Channel, n: nat): Channel {
    if n == 0 then c else EndedOf(EndedTimes(c, n - 1))
  }

  ghost function RemovedOf(c: Channel, ends: nat): Channel {
    if !c.media then ClosedOf(c, ends) else EndedTimes(c.(log := c.log + [UserHangup]), ends)
  }

  // ----- One event -----

  ghost predicate Enumerates(order: seq<nat>, s: State) {
    && (forall a, b | 0 <= a < b < |order| :: order[a] != order[b])
    && (forall k | 0 <= k < |order| :: order[k] < |s.channels|)
    && (forall i: nat :: i in order <==> i < |s.channels| && !s.channels[i].closed)
  }

  ghost predicate Legal(s: State, e: Event) {
    match e
    case Create(_) => true
    case MediaArrives(i) => i < |s.channels| && !s.channels[i].media
    case Close(i, _) => i < |s.channels|
    case SessionEnd(i) => i < |s.channels| && s.channels[i].media
    case RemoveSelf(i, _) => i < |s.channels|
    case CloseAll(order, ends) => Enumerates(order, s) && |ends| == |order|
  }

  /** Channel i becomes c; its closing is signalled if that is what happened to it. */
  ghost function Become(s: State, i: nat, c: Channel): State
    requires i < |s.channels|
  {
    State(s.channels[i := c], s.signals + if c.closed && !s.channels[i].closed then [i] else [])
  }

  ghost function CloseEach(s: State, order: seq<nat>, ends: seq<nat>): (s': State)
    requires |ends| == |order| && forall k | 0 <= k < |order| :: order[k] < |s.channels|
    ensures |s'.channels| == |s.channels|
  {
    if order == [] then s
    else
      var n := |order| - 1;
      var t := CloseEach(s, order[..n], ends[..n]);
      Become(t, order[n], ClosedOf(t.channels[order[n]], ends[n]))
  }

  lemma CloseOneMore(s: State, order: seq<nat>, ends: seq<nat>, n: nat)
    requires |ends| == |order| && n < |order| && forall k | 0 <= k < |order| :: order[k] < |s.channels|
    ensures var t := CloseEach(s, order[..n], ends[..n]);
            CloseEach(s, order[..n + 1], ends[..n + 1]) == Become(t, order[n], ClosedOf(t.channels[order[n]], ends[n]))
  {
    assert order[..n + 1][..n] == order[..n] && ends[..n + 1][..n] == ends[..n];
  }

  ghost function Step(s: State, e: Event): State
    requires Legal(s, e)
  {
    match e
    case Create(media) => s.(channels := s.channels + [Channel(media, false, false, [])])
    case MediaArrives(i) => Become(s, i, s.channels[i].(media := true))
    case Close(i, ends) => Become(s, i, ClosedOf(s.channels[i], ends))
    case SessionEnd(i) => Become(s, i, EndedOf(s.channels[i]))
    case RemoveSelf(i, ends) => Become(s, i, RemovedOf(s.channels[i], ends))
    case CloseAll(order, ends) => CloseEach(s, order, ends)
  }

  // ----- The code -----

  class HazeMediaChannel {
    const index: nat
    const peer: Handle
    var media: bool
    var mediaEnded: bool
    var closed: bool
    var log: seq<Entry>

    ghost function Value(): Channel
      reads this
    {
      Channel(media, mediaEnded, closed, log)
    }

    constructor (index: nat, peer: Handle, media: bool)
      ensures this.index == index && this.peer == peer && Value() == Channel(media, false, false, [])
    {
      this.index, this.peer, this.media := index, peer, media;
      mediaEnded, closed, log := false, false, [];
    }

    /** haze_media_channel_close */
    method Close(manager: HazeMediaManager, ends: nat)
      requires closed || (manager.Valid() && this in manager.created)
      modifies this, manager`channels, manager`signals
      ensures Value() == ClosedOf(old(Value()), ends)
      ensures manager.signals == old(manager.signals) + if old(closed) then [] else [index]
      ensures if old(closed) then manager.channels == old(manager.channels) else manager.Valid()
      decreases !closed, 0
    {
      if !closed {
        closed := true;
        if media && !mediaEnded {
          mediaEnded := true;
          log := log + [Hangup];
          EndedWhenClosed(Value(), ends);
          LibpurpleHangsUp(manager, ends);
        }
        log := log + [ClosedEmitted];
        manager.ChannelClosedCb(this);
      }
    }

    /** purple_media_stream_info with HANGUP: libpurple may report the end of the session before it returns. */
    method LibpurpleHangsUp(manager: HazeMediaManager, ends: nat)
      requires media && (closed || (manager.Valid() && this in manager.created))
      modifies this, manager`channels, manager`signals
      ensures Value() == EndedTimes(old(Value()), ends)
      ensures manager.signals == old(manager.signals) + if closed && !old(closed) then [index] else []
      ensures if old(closed) then manager.channels == old(manager.channels) else manager.Valid()
      decreases !closed, 2
    {
      for n := 0 to ends
        invariant Value() == EndedTimes(old(Value()), n) && media
        invariant closed <==> old(closed) || n > 0
        invariant manager.signals == old(manager.signals) + if closed && !old(closed) then [index] else []
        invariant if old(closed) then manager.channels == old(manager.channels) else manager.Valid()
      {
        SessionEnd(manager);
      }
    }

    /** media_state_changed_cb, for the end of the whole session. */
    method SessionEnd(manager: HazeMediaManager)
      requires media && (closed || (manager.Valid() && this in manager.created))
      modifies this, manager`channels, manager`signals
      ensures Value() == EndedOf(old(Value()))
      ensures manager.signals == old(manager.signals) + if old(closed) then [] else [index]
      ensures if old(closed) then manager.channels == old(manager.channels) else manager.Valid()
      decreases !closed, 1
    {
      mediaEnded := true;
      log := log + [SessionEnded];
      if !closed {
        Close(manager, 0);
      }
    }

    /** remove_member: the user leaves the call, unless it is for a reason that makes no sense for a call under way.
        Unlike Close this hangs up through libpurple alone. */
    method RemoveSelf(manager: HazeMediaManager, reason: Reason, ends: nat) returns (ok: bool)
      requires closed || (manager.Valid() && this in manager.created)
      modifies this, manager`channels, manager`signals
      ensures ok <==> !old(media) || !reason.Other?
      ensures Value() == if ok then RemovedOf(old(Value()), ends) else old(Value())
      ensures manager.signals == old(manager.signals) + if closed && !old(closed) then [index] else []
      ensures if old(closed) then manager.channels == old(manager.channels) else manager.Valid()
    {
      ok := true;
      if !media {
        Close(manager, ends);
      } else {
        match reason {
          case Other =>
            ok := false;
          case _ =>
            log := log + [UserHangup];
            LibpurpleHangsUp(manager, ends);
        }
      }
    }
  }

  /** Once a channel is closed, further reports of the end do nothing but leave their mark. */
  lemma {:induction false} EndedWhenClosed(c: Channel, n: nat)
    requires c.closed && c.mediaEnded
    ensures EndedTimes(c, n) == c.(log := c.log + Ends(n))
  {
    if n == 0 {
      assert c.log + Ends(0) == c.log;
    } else {
      EndedWhenClosed(c, n - 1);
      assert Ends(n) == Ends(n - 1) + [SessionEnded];
    }
  }

  lemma FirstIsIn(channels: seq<HazeMediaChannel>)
    ensures channels != [] ==> channels[0] in channels
  {
  }

  ghost function Indices(channels: seq<HazeMediaChannel>): seq<nat> {
    seq(|channels|, i requires 0 <= i < |channels| => channels[i].index)
  }

  class HazeMediaManager {
    /** The live channels. */
    var channels: seq<HazeMediaChannel>
    var channelIndex: nat
    /** The channels whose closing the channel manager was told of. */
    var signals: seq<nat>
    /** Every channel there has been. */
    ghost var created: seq<HazeMediaChannel>

    ghost predicate Valid()
      reads this, created
    {
      && channelIndex == |created|
      && (forall i | 0 <= i < |created| :: created[i].index == i)
      && (forall a, b | 0 <= a < b < |channels| :: channels[a] != channels[b])
      && (forall c | c in channels :: c in created)
      && (forall c | c in created :: c in channels <==> !c.closed)
    }

    ghost function Abs(): State
      reads this, created
    {
      State(seq(|created|, i requires 0 <= i < |created| reads this, created => created[i].Value()), signals)
    }

    constructor ()
      ensures Valid() && Abs() == State([], [])
    {
      channels, channelIndex, signals, created := [], 0, [], [];
    }

    /** media_channel_closed_cb */
    method ChannelClosedCb(chan: HazeMediaChannel)
      requires chan in channels
      modifies this`channels, this`signals
      ensures signals == old(signals) + [chan.index]
      ensures exists k :: 0 <= k < |old(channels)| && old(channels)[k] == chan && chan !in old(channels)[..k]
                       && channels == old(channels)[..k] + old(channels)[k + 1..]
    {
      signals := signals + [chan.index];
      var k := 0;
      while channels[k] != chan
        invariant 0 <= k < |channels| && chan !in channels[..k] && chan in channels[k..]
        decreases |channels| - k
      {
        k := k + 1;
      }
      channels := channels[..k] + channels[k + 1..];
    }

    method NewMediaChannel(peer: Handle, media: bool) returns (chan: HazeMediaChannel)
      requires Valid()
      modifies this
      ensures Valid() && fresh(chan) && chan.peer == peer && chan in channels
      ensures chan.Value() == Channel(media, false, false, [])
      ensures created == old(created) + [chan]
      ensures Abs() == Step(old(Abs()), Create(media))
    {
      chan := new HazeMediaChannel(channelIndex, peer, media);
      channelIndex := channelIndex + 1;
      created := created + [chan];
      channels := channels + [chan];
      assert forall i | 0 <= i < |old(created)| :: created[i] == old(created)[i];
    }

    /** A change to one channel, seen from the manager. */
    lemma BecomeAbs(was: State, chan: HazeMediaChannel)
      requires Valid() && chan in created
      requires |was.channels| == |created|
      requires forall i | 0 <= i < |created| && created[i] != chan :: was.channels[i] == created[i].Value()
      requires signals == was.signals + if chan.closed && !was.channels[chan.index].closed then [chan.index] else []
      ensures Abs() == Become(was, chan.index, chan.Value())
    {
      var k :| 0 <= k < |created| && created[k] == chan;
      assert Abs().channels == was.channels[k := chan.Value()];
    }

    method CloseChannel(chan: HazeMediaChannel, ends: nat)
      requires Valid() && chan in created
      modifies chan, this`channels, this`signals
      ensures Valid() && chan.closed && Abs() == Step(old(Abs()), Close(chan.index, ends))
    {
      ghost var was := Abs();
      chan.Close(this, ends);
      BecomeAbs(was, chan);
    }

    method ReportSessionEnd(chan: HazeMediaChannel)
      requires Valid() && chan in created && chan.media
      modifies chan, this`channels, this`signals
      ensures Valid() && Abs() == Step(old(Abs()), SessionEnd(chan.index))
    {
      ghost var was := Abs();
      chan.SessionEnd(this);
      BecomeAbs(was, chan);
    }

    method RemoveSelfFrom(chan: HazeMediaChannel, reason: Reason, ends: nat) returns (ok: bool)
      requires Valid() && chan in created
      modifies chan, this`channels, this`signals
      ensures Valid() && (ok <==> !old(chan.media) || !reason.Other?)
      ensures Abs() == if ok then Step(old(Abs()), RemoveSelf(chan.index, ends)) else old(Abs())
    {
      ghost var was := Abs();
      ok := chan.RemoveSelf(this, reason, ends);
      BecomeAbs(was, chan);
      assert was.channels[chan.index := was.channels[chan.index]] == was.channels;
    }

    /** init_media_cb of an outgoing call: the session it was waiting for. */
    method MediaArrives(chan: HazeMediaChannel)
      requires Valid() && chan in created && !chan.media
      modifies chan`media
      ensures Valid() && chan.media && Abs() == Step(old(Abs()), Event.MediaArrives(chan.index))
    {
      ghost var was := Abs();
      chan.media := true;
      BecomeAbs(was, chan);
    }

    /** haze_media_manager_close_all: walks a copy, since closing a channel takes it out of the list. */
    method CloseAllChannels(endsEach: seq<nat>) returns (ghost order: seq<nat>)
      requires Valid() && |endsEach| == |channels|
      modifies this`channels, this`signals, created
      ensures Valid() && channels == []
      ensures Enumerates(order, old(Abs())) && |order| == |endsEach|
      ensures Abs() == Step(old(Abs()), CloseAll(order, endsEach))
    {
      var tmp := channels;
      order := Indices(tmp);
      ListEnumerates();
      CloseListed(tmp, endsEach);
      FirstIsIn(channels);
      assert forall c | c in tmp :: c.closed;
    }

    /** The first k of a copy of the list have been closed. */
    ghost predicate ClosedUpTo(tmp: seq<HazeMediaChannel>, k: nat)
      reads this, created
    {
      && k <= |tmp| && (forall c | c in channels :: c in tmp)
      && (forall j | 0 <= j < |tmp| :: tmp[j] in created)
      && (forall j | 0 <= j < k :: tmp[j].closed)
    }

    /** The loop over the copy. */
    method CloseListed(tmp: seq<HazeMediaChannel>, endsEach: seq<nat>)
      requires Valid() && tmp == channels && |endsEach| == |tmp|
      requires forall i | i in Indices(tmp) :: i < |created|
      modifies this`channels, this`signals, created
      ensures Valid() && ClosedUpTo(tmp, |tmp|)
      ensures Abs() == CloseEach(old(Abs()), Indices(tmp), endsEach)
    {
      ghost var was, order := Abs(), Indices(tmp);
      for k := 0 to |tmp|
        invariant Valid() && created == old(created) && ClosedUpTo(tmp, k)
        invariant Abs() == CloseEach(was, order[..k], endsEach[..k])
      {
        CloseOneMore(was, order, endsEach, k);
        CloseNext(tmp, k, endsEach[k]);
      }
      assert order[..|tmp|] == order && endsEach[..|tmp|] == endsEach;
    }

    method CloseNext(tmp: seq<HazeMediaChannel>, k: nat, ends: nat)
      requires Valid() && k < |tmp| && ClosedUpTo(tmp, k)
      modifies this`channels, this`signals, created
      ensures Valid() && created == old(created) && ClosedUpTo(tmp, k + 1)
      ensures tmp[k].index < |old(Abs()).channels|
      ensures var was := old(Abs());
              Abs() == Become(was, tmp[k].index, ClosedOf(was.channels[tmp[k].index], ends))
    {
      CloseChannel(tmp[k], ends);
    }

    lemma ListEnumerates()
      requires Valid()
      ensures Enumerates(Indices(channels), Abs())
    {
      var order := Indices(channels);
      forall k | 0 <= k < |order|
        ensures order[k] < |created|
      {
        assert channels[k] in channels;
      }
      forall a, b | 0 <= a < b < |order|
        ensures order[a] != order[b]
      {
        assert channels[a] in created && channels[b] in created;
      }
      forall i: nat
        ensures i in order <==> i < |created| && !created[i].closed
      {
        if i in order {
          var a :| 0 <= a < |order| && order[a] == i;
          assert channels[a] in channels;
        }
        if i < |created| && !created[i].closed {
          assert created[i] in channels;
          var a :| 0 <= a < |channels| && channels[a] == created[i];
          assert order[a] == i;
        }
      }
    }

    /** The search that EnsureChannel makes: the first listed channel with that peer, which is a live one if there is
        one. */
    method FindChannel(peer: Handle) returns (found: Option<HazeMediaChannel>)
      requires Valid()
      ensures found.Some? ==> found.value in created && !found.value.closed && found.value.peer == peer
      ensures found.Some? ==> exists k ::
                0 <= k < |channels| && channels[k] == found.value && forall j | 0 <= j < k :: channels[j].peer != peer
      ensures found.None? ==> forall c | c in created && !c.closed :: c.peer != peer
    {
      for i := 0 to |channels|
        invariant forall j | 0 <= j < i :: channels[j].peer != peer
      {
        if channels[i].peer == peer {
          assert channels[i] in channels;
          return Some(channels[i]);
        }
      }
      found := None;
    }
  }

  // ----- Runs -----

  ghost predicate LegalFrom(s: State, es: seq<Event>)
    decreases |es|
  {
    es != [] ==> Legal(s, es[0]) && LegalFrom(Step(s, es[0]), es[1..])
  }

  ghost function Run(s: State, es: seq<Event>): State
    requires LegalFrom(s, es)
    decreases |es|
  {
    if es == [] then s else Run(Step(s, es[0]), es[1..])
  }

  /** How often an entry occurs. */
  ghost function Count(log: seq<Entry>, e: Entry): nat {
    if log == [] then 0 else Count(log[..|log| - 1], e) + if log[|log| - 1] == e then 1 else 0
  }

  /** Closed has been emitted exactly if the channel is closed, and then once; Close has hung up at most once, and
      never after the session had ended or Closed was emitted. */
  ghost predicate Orderly(c: Channel) {
    && Count(c.log, ClosedEmitted) == (if c.closed then 1 else 0)
    && Count(c.log, Hangup) <= 1
    && (!c.mediaEnded ==> Hangup !in c.log && SessionEnded !in c.log)
    && (forall i, j | 0 <= i < j < |c.log| && c.log[j] == Hangup ::
          c.log[i] != SessionEnded && c.log[i] != ClosedEmitted)
    && (ClosedEmitted in c.log <==> c.closed)
    && (Hangup in c.log ==> c.closed)
  }

  lemma {:induction false} CountConcat(a: seq<Entry>, b: seq<Entry>, e: Entry)
    ensures Count(a + b, e) == Count(a, e) + Count(b, e)
  {
    if b == [] {
      assert a + b == a;
    } else {
      assert (a + b)[..|a + b| - 1] == a + b[..|b| - 1];
      CountConcat(a, b[..|b| - 1], e);
    }
  }

  lemma {:induction false} CountNone(log: seq<Entry>, e: Entry)
    requires e !in log
    ensures Count(log, e) == 0
  {
    if log != [] {
      CountNone(log[..|log| - 1], e);
    }
  }

  lemma HangupCounts(log: seq<Entry>, ends: nat)
    requires Hangup !in log
    ensures Count(HangupLog(log, ends), Hangup) == 1
    ensures Count(HangupLog(log, ends), ClosedEmitted) == Count(log, ClosedEmitted) + 1
  {
    CountNone(log, Hangup);
    CountNone(Ends(ends), Hangup);
    CountNone(Ends(ends), ClosedEmitted);
    CountHangupLog(log, ends, Hangup);
    CountHangupLog(log, ends, ClosedEmitted);
  }

  lemma CountOne(e: Entry, f: Entry)
    ensures Count([e], f) == if e == f then 1 else 0
  {
    assert [e][..0] == [];
  }

  lemma CountHangupLog(log: seq<Entry>, ends: nat, e: Entry)
    ensures Count(HangupLog(log, ends), e) ==
            Count(log, e) + (if e == Hangup then 1 else 0) + Count(Ends(ends), e) + if e == ClosedEmitted then 1 else 0
  {
    CountConcat(log + [Hangup] + Ends(ends), [ClosedEmitted], e);
    CountConcat(log + [Hangup], Ends(ends), e);
    CountConcat(log, [Hangup], e);
    CountOne(Hangup, e);
    CountOne(ClosedEmitted, e);
  }

  lemma HangingUpIsOrderly(c: Channel, ends: nat)
    requires Orderly(c) && c.media && !c.mediaEnded && !c.closed
    ensures Orderly(c.(mediaEnded := true, closed := true, log := HangupLog(c.log, ends)))
  {
    HangupCounts(c.log, ends);
    var log := HangupLog(c.log, ends);
    forall i, j | 0 <= i < j < |log| && log[j] == Hangup
      ensures log[i] != SessionEnded && log[i] != ClosedEmitted
    {
      OneHangup(c.log, ends, j);
    }
  }

  lemma HangupLogAt(log: seq<Entry>, ends: nat, j: nat)
    requires j < |HangupLog(log, ends)|
    ensures HangupLog(log, ends)[j] ==
            if j < |log| then log[j]
            else if j == |log| then Hangup
            else if j <= |log| + ends then SessionEnded
            else ClosedEmitted
  {
  }

  lemma OneHangup(log: seq<Entry>, ends: nat, j: nat)
    requires Hangup !in log && j < |HangupLog(log, ends)| && HangupLog(log, ends)[j] == Hangup
    ensures j == |log| && HangupLog(log, ends)[..j] == log
  {
    HangupLogAt(log, ends, j);
    assert forall i | 0 <= i < |log| :: log[i] != Hangup;
  }

  lemma EmittingIsOrderly(c: Channel)
    requires Orderly(c) && !c.closed
    ensures Orderly(c.(closed := true, log := c.log + [ClosedEmitted]))
  {
    CountConcat(c.log, [ClosedEmitted], Hangup);
    CountConcat(c.log, [ClosedEmitted], ClosedEmitted);
    CountOne(ClosedEmitted, Hangup);
    CountOne(ClosedEmitted, ClosedEmitted);
  }

  lemma ClosingIsOrderly(c: Channel, ends: nat)
    requires Orderly(c)
    ensures Orderly(ClosedOf(c, ends))
  {
    if !c.closed {
      if c.media && !c.mediaEnded {
        HangingUpIsOrderly(c, ends);
      } else {
        EmittingIsOrderly(c);
      }
    }
  }

  lemma MarkIsOrderly(c: Channel, e: Entry)
    requires Orderly(c) && (e == UserHangup || e == SessionEnded)
    ensures Orderly(c.(mediaEnded := c.mediaEnded || e == SessionEnded, log := c.log + [e]))
  {
    CountConcat(c.log, [e], Hangup);
    CountConcat(c.log, [e], ClosedEmitted);
  }

  lemma EndingIsOrderly(c: Channel)
    requires Orderly(c)
    ensures Orderly(EndedOf(c))
  {
    var marked := c.(mediaEnded := true, log := c.log + [SessionEnded]);
    MarkIsOrderly(c, SessionEnded);
    ClosingIsOrderly(marked, 0);
    assert c.log + [SessionEnded] + [ClosedEmitted] == c.log + [SessionEnded, ClosedEmitted];
    assert EndedOf(c) == ClosedOf(marked, 0);
  }

  lemma {:induction false} EndingsAreOrderly(c: Channel, n: nat)
    requires Orderly(c)
    ensures Orderly(EndedTimes(c, n))
  {
    if n > 0 {
      EndingsAreOrderly(c, n - 1);
      EndingIsOrderly(EndedTimes(c, n - 1));
    }
  }

  lemma RemovalIsOrderly(c: Channel, ends: nat)
    requires Orderly(c)
    ensures Orderly(RemovedOf(c, ends))
  {
    if !c.media {
      ClosingIsOrderly(c, ends);
    } else {
      MarkIsOrderly(c, UserHangup);
      EndingsAreOrderly(c.(log := c.log + [UserHangup]), ends);
    }
  }

  /** The manager was told of each closed channel once, and of no other. */
  ghost predicate SignalsMatch(s: State) {
    && (forall i | i in s.signals :: i < |s.channels| && s.channels[i].closed)
    && (forall i: nat | i < |s.channels| && s.channels[i].closed :: i in s.signals)
    && (forall a, b | 0 <= a < b < |s.signals| :: s.signals[a] != s.signals[b])
  }

  ghost predicate AllOrderly(s: State) {
    SignalsMatch(s) && forall i | 0 <= i < |s.channels| :: Orderly(s.channels[i])
  }

  lemma BecomeIsOrderly(s: State, i: nat, c: Channel)
    requires AllOrderly(s) && i < |s.channels| && Orderly(c) && (s.channels[i].closed ==> c.closed)
    ensures AllOrderly(Become(s, i, c))
  {
  }

  lemma {:induction false} CloseEachIsOrderly(s: State, order: seq<nat>, ends: seq<nat>)
    requires AllOrderly(s) && |ends| == |order| && forall k | 0 <= k < |order| :: order[k] < |s.channels|
    ensures var s' := CloseEach(s, order, ends);
            && AllOrderly(s')
            && (forall i | 0 <= i < |s.channels| :: s.channels[i].closed ==> s'.channels[i].closed)
            && (forall i | i in order :: s'.channels[i].closed)
  {
    if order != [] {
      var n := |order| - 1;
      var t := CloseEach(s, order[..n], ends[..n]);
      CloseEachIsOrderly(s, order[..n], ends[..n]);
      ClosingIsOrderly(t.channels[order[n]], ends[n]);
      BecomeIsOrderly(t, order[n], ClosedOf(t.channels[order[n]], ends[n]));
      forall i | i in order
        ensures i in order[..n] || i == order[n]
      {
      }
    }
  }

  lemma {:induction false} EndedStaysClosed(c: Channel, n: nat)
    ensures c.closed ==> EndedTimes(c, n).closed
  {
    if n > 0 {
      EndedStaysClosed(c, n - 1);
    }
  }

  lemma StepIsOrderly(s: State, e: Event)
    requires Legal(s, e) && AllOrderly(s)
    ensures AllOrderly(Step(s, e))
  {
    match e {
      case Create(_) =>
      case MediaArrives(i) => BecomeIsOrderly(s, i, s.channels[i].(media := true));
      case Close(i, ends) =>
        ClosingIsOrderly(s.channels[i], ends);
        BecomeIsOrderly(s, i, ClosedOf(s.channels[i], ends));
      case SessionEnd(i) =>
        EndingIsOrderly(s.channels[i]);
        BecomeIsOrderly(s, i, EndedOf(s.channels[i]));
      case RemoveSelf(i, ends) =>
        RemovalIsOrderly(s.channels[i], ends);
        EndedStaysClosed(s.channels[i].(log := s.channels[i].log + [UserHangup]), ends);
        BecomeIsOrderly(s, i, RemovedOf(s.channels[i], ends));
      case CloseAll(order, endsEach) => CloseEachIsOrderly(s, order, endsEach);
    }
  }

  /** Over every run, every channel is orderly and the manager is told of each closing once. */
  lemma {:induction false} RunIsOrderly(s: State, es: seq<Event>)
    requires LegalFrom(s, es) && AllOrderly(s)
    ensures AllOrderly(Run(s, es))
    decreases |es|
  {
    if es != [] {
      StepIsOrderly(s, es[0]);
      RunIsOrderly(Step(s, es[0]), es[1..]);
    }
  }

  /** Closing everything leaves no live channel. */
  lemma CloseAllCloses(s: State, order: seq<nat>, endsEach: seq<nat>)
    requires AllOrderly(s) && Legal(s, CloseAll(order, endsEach))
    ensures forall i | 0 <= i < |s.channels| :: Step(s, CloseAll(order, endsEach)).channels[i].closed
  {
    CloseEachIsOrderly(s, order, endsEach);
    forall i: nat | i < |s.channels|
      ensures CloseEach(s, order, endsEach).channels[i].closed
    {
      assert i in order <==> !s.channels[i].closed;
    }
  }

  // ----- Who is told what -----

  /** There is a call to hang up. */
  ghost predicate Live(c: Channel) {
    !c.closed && c.media && !c.mediaEnded
  }

  ghost function Times(b: bool, n: nat): nat {
    if b then n else 0
  }

  lemma {:induction false} CountEnds(n: nat)
    ensures Count(Ends(n), SessionEnded) == n && Count(Ends(n), UserHangup) == 0
  {
    if n > 0 {
      assert Ends(n)[..n - 1] == Ends(n - 1);
      CountEnds(n - 1);
    }
  }

  lemma CountTwo(log: seq<Entry>, a: Entry, b: Entry, e: Entry)
    ensures Count(log + [a, b], e) == Count(log, e) + Times(a == e, 1) + Times(b == e, 1)
  {
    CountConcat(log, [a, b], e);
    CountConcat([a], [b], e);
    CountOne(a, e);
    CountOne(b, e);
    assert [a] + [b] == [a, b];
  }

  /** What closing adds to a channel's log: one hang-up exactly if there is a call, the session's ends that libpurple
      reports because of it, and one Closed if the channel was open. */
  lemma ClosedCounts(c: Channel, ends: nat)
    ensures var c' := ClosedOf(c, ends);
            && c'.closed && (c'.mediaEnded <==> c.mediaEnded || Live(c)) && c'.media == c.media && c.log <= c'.log
            && Count(c'.log, Hangup) == Count(c.log, Hangup) + Times(Live(c), 1)
            && Count(c'.log, SessionEnded) == Count(c.log, SessionEnded) + Times(Live(c), ends)
            && Count(c'.log, ClosedEmitted) == Count(c.log, ClosedEmitted) + Times(!c.closed, 1)
            && Count(c'.log, UserHangup) == Count(c.log, UserHangup)
  {
    forall e: Entry
      ensures !c.closed && !Live(c) ==>
                Count(c.log + [ClosedEmitted], e) == Count(c.log, e) + Times(e == ClosedEmitted, 1)
    {
      CountConcat(c.log, [ClosedEmitted], e);
      CountOne(ClosedEmitted, e);
    }
    CountEnds(ends);
    CountNone(Ends(ends), Hangup);
    CountNone(Ends(ends), ClosedEmitted);
    forall e: Entry
      ensures Count(HangupLog(c.log, ends), e) ==
              Count(c.log, e) + Times(e == Hangup, 1) + Count(Ends(ends), e) + Times(e == ClosedEmitted, 1)
    {
      CountHangupLog(c.log, ends, e);
    }
  }

  lemma EndedCounts(c: Channel)
    ensures var c' := EndedOf(c);
            && c'.closed && c'.mediaEnded && c'.media == c.media && c.log <= c'.log
            && Count(c'.log, Hangup) == Count(c.log, Hangup)
            && Count(c'.log, SessionEnded) == Count(c.log, SessionEnded) + 1
            && Count(c'.log, ClosedEmitted) == Count(c.log, ClosedEmitted) + Times(!c.closed, 1)
            && Count(c'.log, UserHangup) == Count(c.log, UserHangup)
  {
    forall e: Entry
      ensures Count(c.log + [SessionEnded], e) == Count(c.log, e) + Times(e == SessionEnded, 1)
      ensures Count(c.log + [SessionEnded, ClosedEmitted], e) ==
              Count(c.log, e) + Times(e == SessionEnded, 1) + Times(e == ClosedEmitted, 1)
    {
      CountConcat(c.log, [SessionEnded], e);
      CountOne(SessionEnded, e);
      CountTwo(c.log, SessionEnded, ClosedEmitted, e);
    }
  }

  lemma {:induction false} EndedTimesCounts(c: Channel, n: nat)
    ensures var c' := EndedTimes(c, n);
            && (c'.closed <==> c.closed || n > 0) && (c'.mediaEnded <==> c.mediaEnded || n > 0)
            && c'.media == c.media && c.log <= c'.log
            && Count(c'.log, Hangup) == Count(c.log, Hangup)
            && Count(c'.log, SessionEnded) == Count(c.log, SessionEnded) + n
            && Count(c'.log, ClosedEmitted) == Count(c.log, ClosedEmitted) + Times(!c.closed && n > 0, 1)
            && Count(c'.log, UserHangup) == Count(c.log, UserHangup)
  {
    if n > 0 {
      EndedTimesCounts(c, n - 1);
      EndedCounts(EndedTimes(c, n - 1));
    }
  }

  /** Channel i is the only one that may be another than before. */
  ghost predicate OnlyChanges(s: State, s': State, i: nat) {
    && |s'.channels| == |s.channels|
    && forall j | 0 <= j < |s.channels| && j != i :: s'.channels[j] == s.channels[j]
  }

  /** Closing hangs up exactly if there is a call, and touches no other channel. */
  lemma CloseHangsUp(s: State, i: nat, ends: nat)
    requires Legal(s, Close(i, ends))
    ensures var s' := Step(s, Close(i, ends));
            && OnlyChanges(s, s', i)
            && var c, c' := s.channels[i], s'.channels[i];
               && c'.closed && c.log <= c'.log
               && Count(c'.log, Hangup) == Count(c.log, Hangup) + Times(!c.closed && c.media && !c.mediaEnded, 1)
               && Count(c'.log, ClosedEmitted) == Count(c.log, ClosedEmitted) + Times(!c.closed, 1)
               && Count(c'.log, UserHangup) == Count(c.log, UserHangup)
  {
    ClosedCounts(s.channels[i], ends);
  }

  /** The user who leaves a call hangs up through libpurple, once, and the channel is closed if that ends the session;
      without a call it is just closed. */
  lemma RemoveSelfHangsUp(s: State, i: nat, ends: nat)
    requires Legal(s, RemoveSelf(i, ends))
    ensures var s' := Step(s, RemoveSelf(i, ends));
            && OnlyChanges(s, s', i)
            && var c, c' := s.channels[i], s'.channels[i];
               && (c'.closed <==> c.closed || !c.media || ends > 0) && c.log <= c'.log
               && Count(c'.log, UserHangup) == Count(c.log, UserHangup) + Times(c.media, 1)
               && Count(c'.log, Hangup) == Count(c.log, Hangup)
               && Count(c'.log, SessionEnded) == Count(c.log, SessionEnded) + Times(c.media, ends)
  {
    var c := s.channels[i];
    ClosedCounts(c, ends);
    var marked := c.(log := c.log + [UserHangup]);
    EndedTimesCounts(marked, ends);
    forall e: Entry
      ensures Count(marked.log, e) == Count(c.log, e) + Times(e == UserHangup, 1)
    {
      CountConcat(c.log, [UserHangup], e);
      CountOne(UserHangup, e);
    }
  }

  /** The end of a session is noted and closes the channel, without a hang-up. */
  lemma SessionEndCloses(s: State, i: nat)
    requires Legal(s, SessionEnd(i))
    ensures var s' := Step(s, SessionEnd(i));
            && OnlyChanges(s, s', i)
            && var c, c' := s.channels[i], s'.channels[i];
               && c'.closed && c'.mediaEnded && c.log <= c'.log
               && Count(c'.log, SessionEnded) == Count(c.log, SessionEnded) + 1
               && Count(c'.log, Hangup) == Count(c.log, Hangup)
               && Count(c'.log, UserHangup) == Count(c.log, UserHangup)
  {
    EndedCounts(s.channels[i]);
  }

  /** Closing several different channels does to each what closing it alone would. */
  lemma {:induction false} CloseEachOnce(s: State, order: seq<nat>, ends: seq<nat>, i: nat)
    requires |ends| == |order| && forall k | 0 <= k < |order| :: order[k] < |s.channels|
    requires forall a, b | 0 <= a < b < |order| :: order[a] != order[b]
    requires i < |s.channels|
    ensures i !in order ==> CloseEach(s, order, ends).channels[i] == s.channels[i]
    ensures forall k | 0 <= k < |order| && order[k] == i ::
              CloseEach(s, order, ends).channels[i] == ClosedOf(s.channels[i], ends[k])
  {
    if order != [] {
      var n := |order| - 1;
      CloseEachOnce(s, order[..n], ends[..n], i);
      if order[n] == i {
        assert i !in order[..n];
      }
    }
  }

  /** So closing everything hangs up every call there is, once each. */
  lemma CloseAllHangsUp(s: State, order: seq<nat>, endsEach: seq<nat>, i: nat)
    requires Legal(s, CloseAll(order, endsEach)) && i < |s.channels|
    ensures var c, c' := s.channels[i], Step(s, CloseAll(order, endsEach)).channels[i];
            && c'.closed && c.log <= c'.log
            && Count(c'.log, Hangup) == Count(c.log, Hangup) + Times(!c.closed && c.media && !c.mediaEnded, 1)
            && Count(c'.log, ClosedEmitted) == Count(c.log, ClosedEmitted) + Times(!c.closed, 1)
            && Count(c'.log, UserHangup) == Count(c.log, UserHangup)
  {
    CloseEachOnce(s, order, endsEach, i);
    if k: nat :| k < |order| && order[k] == i {
      ClosedCounts(s.channels[i], endsEach[k]);
    } else {
      assert i !in order;
    }
  }
}
