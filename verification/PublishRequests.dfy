/**
 * Requests by other contacts to see our presence: the part of src/contact-list.c that keeps them in
 * one table and two overlapping sets.
 *
 * The sets never lose a contact except in one direction: an accepted contact is in both. The state that clients read
 * is nevertheless that of one small automaton per contact, and every request that arrives is answered,
 * cancelled, superseded or still waiting, never two of these.
 *
 * libpurple is the source of events. Requests are numbered in order of arrival; a number stands for
 * the callbacks and their argument.
 */
module PublishRequests {
  import opened Wrappers

  type Handle = nat

  datatype Request = Request(serial: nat, message: string)

  /** How the life of a request ended. Superseded: its record was overwritten, no callback was made. */
  datatype Fate = Allowed | Denied | Cancelled | Superseded
  datatype Outcome = Outcome(serial: nat, fate: Fate)

  datatype Publish = Unknown | Asked | Yes | No

  datatype Event =
    | Arrive(h: Handle, message: string)
    | Accept(h: Handle)
    | Reject(h: Handle)
    | Cancel(h: Handle, serial: nat)

  datatype State = State(
    pending: map<Handle, Request>,
    publishingTo: set<Handle>,
    notPublishingTo: set<Handle>,
    received: nat,
    outcomes: seq<Outcome>,
    changed: seq<Handle>)

  const Initial := State(map[], {}, {}, 0, [], [])

  // ----- One event -----

  /** libpurple cancels a request through its record, which exists only while the request is in the table. */
  ghost predicate Legal(s: State, e: Event) {
    e.Cancel? ==> e.h in s.pending && s.pending[e.h].serial == e.serial
  }

  ghost function Step(s: State, e: Event): State
    requires Legal(s, e)
  {
    match e
    case Arrive(h, message) =>
      s.(pending := s.pending[h := Request(s.received, message)],
         publishingTo := s.publishingTo - {h},
         notPublishingTo := s.notPublishingTo + {h},
         received := s.received + 1,
         outcomes := s.outcomes + if h in s.pending then [Outcome(s.pending[h].serial, Superseded)] else [],
         changed := s.changed + [h])
    case Accept(h) =>
      if h !in s.pending then s
      else Settle(s.(publishingTo := s.publishingTo + {h}), h, Outcome(s.pending[h].serial, Allowed))
    case Reject(h) =>
      if h !in s.pending then s
      else Settle(s.(notPublishingTo := s.notPublishingTo + {h}), h, Outcome(s.pending[h].serial, Denied))
    case Cancel(h, serial) =>
      Settle(s.(notPublishingTo := s.notPublishingTo + {h}), h, Outcome(serial, Cancelled))
  }

  ghost function Settle(s: State, h: Handle, o: Outcome): State {
    s.(pending := s.pending - {h}, outcomes := s.outcomes + [o], changed := s.changed + [h])
  }

  /** dup_states: the three collections, looked at in this order. */
  ghost function PublishOf(s: State, h: Handle): Publish {
    if h in s.pending then Asked
    else if h in s.publishingTo then Yes
    else if h in s.notPublishingTo then No
    else Unknown
  }

  // ----- The code -----

  class PublishList {
    var pending: map<Handle, Request>
    var publishingTo: set<Handle>
    var notPublishingTo: set<Handle>
    /** Arrivals so far, what became of them, and the contacts whose change was signalled. */
    var received: nat
    var outcomes: seq<Outcome>
    var changed: seq<Handle>

    ghost function Abs(): State
      reads this
    {
      State(pending, publishingTo, notPublishingTo, received, outcomes, changed)
    }

    constructor ()
      ensures Abs() == Initial
    {
      pending, publishingTo, notPublishingTo := map[], {}, {};
      received, outcomes, changed := 0, [], [];
    }

    method RemovePending(h: Handle)
      requires h in pending
      modifies this`pending
      ensures pending == old(pending) - {h}
    {
      pending := pending - {h};
    }

    method AcceptPublishRequest(h: Handle)
      modifies this
      ensures Abs() == Step(old(Abs()), Accept(h))
    {
      if h !in pending {
        return;
      }
      outcomes := outcomes + [Outcome(pending[h].serial, Allowed)];
      publishingTo := publishingTo + {h};
      RemovePending(h);
      changed := changed + [h];
    }

    method RejectPublishRequest(h: Handle)
      modifies this
      ensures Abs() == Step(old(Abs()), Reject(h))
    {
      if h !in pending {
        return;
      }
      outcomes := outcomes + [Outcome(pending[h].serial, Denied)];
      notPublishingTo := notPublishingTo + {h};
      RemovePending(h);
      changed := changed + [h];
    }

    method RequestAuthorize(h: Handle, message: string)
      modifies this
      ensures Abs() == Step(old(Abs()), Arrive(h, message))
    {
      var request := Request(received, message);
      received := received + 1;
      if h in pending {
        outcomes := outcomes + [Outcome(pending[h].serial, Superseded)];
      }
      pending := pending[h := request];
      publishingTo := publishingTo - {h};
      notPublishingTo := notPublishingTo + {h};
      changed := changed + [h];
    }

    method CloseAccountRequest(h: Handle, request: Request)
      requires h in pending && pending[h] == request
      modifies this
      ensures Abs() == Step(old(Abs()), Cancel(h, request.serial))
    {
      outcomes := outcomes + [Outcome(request.serial, Cancelled)];
      notPublishingTo := notPublishingTo + {h};
      RemovePending(h);
      changed := changed + [h];
    }

    /** Accepts a set of contacts in whatever order it is walked; AcceptAllEffect says what that amounts to. */
    method AuthorizePublication(contacts: set<Handle>) returns (ghost order: seq<Handle>)
      modifies this
      ensures Enumerates(order, contacts)
      ensures Abs() == AcceptAll(old(Abs()), order)
    {
      order := [];
      var todo := contacts;
      while todo != {}
        invariant todo <= contacts && Enumerates(order, contacts - todo)
        invariant Abs() == AcceptAll(old(Abs()), order)
        decreases todo
      {
        var h :| h in todo;
        EnumeratesOneMore(order, contacts, todo, h);
        AcceptOneMore(old(Abs()), order, h);
        AcceptPublishRequest(h);
        order, todo := order + [h], todo - {h};
      }
      assert contacts - todo == contacts;
    }

    method DupContacts(buddies: seq<Handle>) returns (handles: set<Handle>)
      ensures forall h :: h in handles <==>
                h in buddies || PublishOf(Abs(), h) == Yes || PublishOf(Abs(), h) == Asked
    {
      handles := publishingTo;
      var i := 0;
      while i < |buddies|
        invariant 0 <= i <= |buddies|
        invariant handles == publishingTo + (set j | 0 <= j < i :: buddies[j])
      {
        handles := handles + {buddies[i]};
        i := i + 1;
      }
      var keys := pending.Keys;
      ghost var seen: set<Handle> := {};
      while keys != {}
        invariant seen + keys == pending.Keys
        invariant handles == publishingTo + (set j | 0 <= j < |buddies| :: buddies[j]) + seen
        decreases keys
      {
        var k :| k in keys;
        handles := handles + {k};
        keys, seen := keys - {k}, seen + {k};
      }
    }

    method DupStates(h: Handle, hasBuddy: bool) returns (subscribed: bool, publish: Publish, message: Option<string>)
      ensures subscribed == hasBuddy
      ensures publish == PublishOf(Abs(), h)
      ensures message == if h in pending then Some(pending[h].message) else None
    {
      subscribed, message := hasBuddy, None;
      if h in pending {
        publish, message := Asked, Some(pending[h].message);
      } else if h in publishingTo {
        publish := Yes;
      } else if h in notPublishingTo {
        publish := No;
      } else {
        publish := Unknown;
      }
    }
  }

  // ----- Accepting several contacts -----

  ghost predicate Enumerates(order: seq<Handle>, contacts: set<Handle>) {
    && (forall i, j | 0 <= i < j < |order| :: order[i] != order[j])
    && (forall h :: h in contacts <==> h in order)
  }

  ghost function AcceptAll(s: State, order: seq<Handle>): State {
    if order == [] then s else Step(AcceptAll(s, order[..|order| - 1]), Accept(order[|order| - 1]))
  }

  lemma AcceptOneMore(s: State, order: seq<Handle>, h: Handle)
    ensures AcceptAll(s, order + [h]) == Step(AcceptAll(s, order), Accept(h))
  {
    assert (order + [h])[..|order|] == order;
  }

  lemma EnumeratesOneMore(order: seq<Handle>, contacts: set<Handle>, todo: set<Handle>, h: Handle)
    requires todo <= contacts && h in todo && Enumerates(order, contacts - todo)
    ensures Enumerates(order + [h], contacts - (todo - {h}))
  {
  }

  /** The outcomes of accepting the contacts in this order. */
  ghost function Allowances(pending: map<Handle, Request>, order: seq<Handle>): seq<Outcome> {
    if order == [] then []
    else
      var h := order[|order| - 1];
      Allowances(pending, order[..|order| - 1]) + if h in pending then [Outcome(pending[h].serial, Allowed)] else []
  }

  /** Only the order of the callbacks depends on the order of the walk: those that asked are accepted, once each. */
  lemma {:induction false} AcceptAllEffect(s: State, order: seq<Handle>, contacts: set<Handle>)
    requires Enumerates(order, contacts)
    ensures var s' := AcceptAll(s, order);
            && s'.pending == s.pending - contacts
            && s'.publishingTo == s.publishingTo + contacts * s.pending.Keys
            && s'.notPublishingTo == s.notPublishingTo
            && s'.outcomes == s.outcomes + Allowances(s.pending, order)
  {
    if order != [] {
      var h := order[|order| - 1];
      AcceptAllEffect(s, order[..|order| - 1], contacts - {h});
    }
  }

  // ----- Runs -----

  ghost predicate LegalFrom(s: State, es: seq<Event>)
    decreases |es|
  {
    es != [] ==> Legal(s, es[0]) && LegalFrom(Step(s, es[0]), es[1..])
  }

  ghost function Run(s: State, es: seq<Event>): State
    requires LegalFrom(s, es)
    decreases |es|
  {
    if es == [] then s else Run(Step(s, es[0]), es[1..])
  }

  // ----- The automaton of one contact -----

  ghost function Next(p: Publish, e: Event): Publish {
    match e
    case Arrive(_, _) => Asked
    case Accept(_) => if p == Asked then Yes else p
    case Reject(_) => if p == Asked then No else p
    case Cancel(_, _) => No
  }

  /** What the automaton of contact h makes of a run: it sees only the events about h. */
  ghost function Automaton(p: Publish, es: seq<Event>, h: Handle): Publish
    decreases |es|
  {
    if es == [] then p else Automaton(if es[0].h == h then Next(p, es[0]) else p, es[1..], h)
  }

  /** A contact that is asking is not one we publish to. */
  ghost predicate Disjoint(s: State) {
    s.pending.Keys !! s.publishingTo
  }

  /** The three collections implement one automaton per contact, over every run. */
  lemma {:induction false} ReadsAsAutomaton(s: State, es: seq<Event>, h: Handle)
    requires LegalFrom(s, es) && Disjoint(s)
    ensures PublishOf(Run(s, es), h) == Automaton(PublishOf(s, h), es, h)
    ensures Disjoint(Run(s, es))
    decreases |es|
  {
    if es != [] {
      ReadsAsAutomaton(Step(s, es[0]), es[1..], h);
    }
  }

  /** Acceptance does not take a contact out of the other set: whoever asked and was accepted is in both. */
  lemma AcceptedIsInBothSets(s: State, h: Handle, message: string)
    ensures var asked := Step(s, Arrive(h, message));
            var s' := Step(asked, Accept(h));
            h in s'.publishingTo && h in s'.notPublishingTo && PublishOf(s', h) == Yes
  {
  }

  // ----- Signals -----

  /** h is published to as before, and is asking as before or not at all as before. */
  ghost predicate Unaltered(s: State, t: State, h: Handle) {
    && PublishOf(s, h) == PublishOf(t, h)
    && (h in s.pending <==> h in t.pending)
    && (h in s.pending ==> s.pending[h] == t.pending[h])
  }

  /** The event is a request, or decides one. */
  ghost predicate Stirs(s: State, e: Event) {
    e.Arrive? || PublishOf(s, e.h) == Asked
  }

  /** Such an event signals its contact, once; other events change nothing, and no event changes another contact. */
  lemma ChangesAreSignalled(s: State, e: Event, h: Handle)
    requires Legal(s, e)
    ensures Step(s, e).changed == s.changed + if Stirs(s, e) then [e.h] else []
    ensures h != e.h || !Stirs(s, e) ==> Unaltered(s, Step(s, e), h)
  {
    assert s.changed + [] == s.changed;
  }

  /** Over every run, whoever has another state, or another request, than before was signalled meanwhile. */
  lemma {:induction false} RunChangesAreSignalled(s: State, es: seq<Event>, h: Handle)
    requires LegalFrom(s, es)
    ensures s.changed <= Run(s, es).changed
    ensures !Unaltered(s, Run(s, es), h) ==> h in Run(s, es).changed[|s.changed|..]
    decreases |es|
  {
    if es != [] {
      var next := Step(s, es[0]);
      ChangesAreSignalled(s, es[0], h);
      RunChangesAreSignalled(next, es[1..], h);
      var after := Run(next, es[1..]);
      assert after.changed[|s.changed|..] == next.changed[|s.changed|..] + after.changed[|next.changed|..];
    }
  }

  // ----- Conservation -----

  ghost predicate Ended(outcomes: seq<Outcome>, serial: nat) {
    exists i :: 0 <= i < |outcomes| && outcomes[i].serial == serial
  }

  ghost predicate Waiting(pending: Table, serial: nat) {
    exists h :: h in pending && pending[h].serial == serial
  }

  type Table = map<Handle, Request>

  /** No serial number occurs twice, as an outcome or in the table, and only those of received requests occur. */
  ghost predicate SerialsOnce(pending: Table, outcomes: seq<Outcome>, received: nat) {
    && (forall h | h in pending :: pending[h].serial < received)
    && (forall i | 0 <= i < |outcomes| :: outcomes[i].serial < received)
    && (forall h, k | h in pending && k in pending && h != k :: pending[h].serial != pending[k].serial)
    && (forall i, j | 0 <= i < j < |outcomes| :: outcomes[i].serial != outcomes[j].serial)
    && (forall i, h | 0 <= i < |outcomes| && h in pending :: outcomes[i].serial != pending[h].serial)
  }

  ghost predicate AllAccounted(pending: Table, outcomes: seq<Outcome>, received: nat) {
    && (forall serial | 0 <= serial < received :: Ended(outcomes, serial) || Waiting(pending, serial))
    && |outcomes| + |pending| == received
  }

  ghost predicate Balanced(s: State) {
    SerialsOnce(s.pending, s.outcomes, s.received) && AllAccounted(s.pending, s.outcomes, s.received)
  }

  lemma EndKeepsSerials(pending: Table, outcomes: seq<Outcome>, received: nat, h: Handle, fate: Fate)
    requires h in pending && SerialsOnce(pending, outcomes, received)
    ensures SerialsOnce(pending - {h}, outcomes + [Outcome(pending[h].serial, fate)], received)
  {
  }

  lemma EndKeepsAccounts(pending: Table, outcomes: seq<Outcome>, received: nat, h: Handle, fate: Fate)
    requires h in pending
    requires SerialsOnce(pending, outcomes, received) && AllAccounted(pending, outcomes, received)
    ensures var outcomes' := outcomes + [Outcome(pending[h].serial, fate)];
            SerialsOnce(pending - {h}, outcomes', received) && AllAccounted(pending - {h}, outcomes', received)
  {
    var pending', outcomes' := pending - {h}, outcomes + [Outcome(pending[h].serial, fate)];
    EndKeepsSerials(pending, outcomes, received, h, fate);
    assert pending'.Keys == pending.Keys - {h};
    forall serial | 0 <= serial < received
      ensures Ended(outcomes', serial) || Waiting(pending', serial)
    {
      if Ended(outcomes, serial) {
        var i :| 0 <= i < |outcomes| && outcomes[i].serial == serial;
        assert outcomes'[i] == outcomes[i];
      } else {
        var k :| k in pending && pending[k].serial == serial;
        assert if k == h then outcomes'[|outcomes|].serial == serial else k in pending';
      }
    }
  }

  lemma ArrivalKeepsAccounts(pending: Table, outcomes: seq<Outcome>, received: nat, h: Handle, message: string)
    requires h !in pending
    requires SerialsOnce(pending, outcomes, received) && AllAccounted(pending, outcomes, received)
    ensures var later := pending[h := Request(received, message)];
            SerialsOnce(later, outcomes, received + 1) && AllAccounted(later, outcomes, received + 1)
  {
    var pending' := pending[h := Request(received, message)];
    assert pending'.Keys == pending.Keys + {h};
    forall serial | 0 <= serial < received + 1
      ensures Ended(outcomes, serial) || Waiting(pending', serial)
    {
      if serial == received {
        assert pending'[h].serial == serial;
      } else if Waiting(pending, serial) {
        var k :| k in pending && pending[k].serial == serial;
        assert k in pending' && pending'[k] == pending[k];
      }
    }
  }

  lemma ReplacementKeepsAccounts(pending: Table, outcomes: seq<Outcome>, received: nat, h: Handle, message: string)
    requires h in pending
    requires SerialsOnce(pending, outcomes, received) && AllAccounted(pending, outcomes, received)
    ensures var later := pending[h := Request(received, message)];
            var ends := outcomes + [Outcome(pending[h].serial, Superseded)];
            SerialsOnce(later, ends, received + 1) && AllAccounted(later, ends, received + 1)
  {
    EndKeepsAccounts(pending, outcomes, received, h, Superseded);
    ArrivalKeepsAccounts(pending - {h}, outcomes + [Outcome(pending[h].serial, Superseded)], received, h, message);
    assert (pending - {h})[h := Request(received, message)] == pending[h := Request(received, message)];
  }

  /** Each request received has exactly one fate: one outcome, or it is still waiting. */
  lemma EveryRequestHasOneFate(es: seq<Event>, serial: nat)
    requires LegalFrom(Initial, es)
    ensures var s := Run(Initial, es);
            && (serial < s.received <==> Ended(s.outcomes, serial) || Waiting(s.pending, serial))
            && !(Ended(s.outcomes, serial) && Waiting(s.pending, serial))
  {
    RunConserves(Initial, es);
  }

  ghost function Count(outcomes: seq<Outcome>, fate: Fate): nat {
    if outcomes == [] then 0 else Count(outcomes[1..], fate) + if outcomes[0].fate == fate then 1 else 0
  }

  ghost function CountAll(outcomes: seq<Outcome>): nat {
    Count(outcomes, Allowed) + Count(outcomes, Denied) + Count(outcomes, Cancelled) + Count(outcomes, Superseded)
  }

  lemma {:induction false} FatesAddUp(outcomes: seq<Outcome>)
    ensures CountAll(outcomes) == |outcomes|
  {
    if outcomes != [] {
      FatesAddUp(outcomes[1..]);
    }
  }

  /** received = allowed + denied + cancelled + superseded + pending */
  lemma RequestsAddUp(es: seq<Event>)
    requires LegalFrom(Initial, es)
    ensures var s := Run(Initial, es); CountAll(s.outcomes) + |s.pending| == s.received
  {
    RunConserves(Initial, es);
    FatesAddUp(Run(Initial, es).outcomes);
  }

  /** No request has two callbacks made for it, and none that is still waiting has had one. */
  lemma CallbacksOnce(es: seq<Event>, i: nat, j: nat)
    requires LegalFrom(Initial, es)
    requires i < |Run(Initial, es).outcomes| && j < |Run(Initial, es).outcomes| && i != j
    ensures var s := Run(Initial, es);
            s.outcomes[i].serial != s.outcomes[j].serial && !Waiting(s.pending, s.outcomes[i].serial)
  {
    RunConserves(Initial, es);
  }

  // ----- Which fate -----

  /** The fate that an event brings to the pending request of its contact. */
  ghost function FateBy(e: Event): Fate {
    match e
    case Arrive(_, _) => Superseded
    case Accept(_) => Allowed
    case Reject(_) => Denied
    case Cancel(_, _) => Cancelled
  }

  /** The first of the events that is about the contact. */
  ghost function FirstAbout(es: seq<Event>, h: Handle): Option<Event>
    decreases |es|
  {
    if es == [] then None else if es[0].h == h then Some(es[0]) else FirstAbout(es[1..], h)
  }

  lemma {:induction false} OutcomesStay(s: State, es: seq<Event>, o: Outcome)
    requires LegalFrom(s, es) && o in s.outcomes
    ensures o in Run(s, es).outcomes
    decreases |es|
  {
    if es != [] {
      OutcomesStay(Step(s, es[0]), es[1..], o);
    }
  }

  /** Over every run, the next event about its contact decides a pending request: accepting it has the allowing callback
      made, rejecting it the denying one. Until then it waits as it is. */
  lemma {:induction false} NextEventDecides(s: State, es: seq<Event>, h: Handle)
    requires LegalFrom(s, es) && h in s.pending
    ensures match FirstAbout(es, h)
            case None => h in Run(s, es).pending && Run(s, es).pending[h] == s.pending[h]
            case Some(e) => Outcome(s.pending[h].serial, FateBy(e)) in Run(s, es).outcomes
    decreases |es|
  {
    if es != [] {
      var next := Step(s, es[0]);
      if es[0].h == h {
        OutcomesStay(next, es[1..], Outcome(s.pending[h].serial, FateBy(es[0])));
      } else {
        NextEventDecides(next, es[1..], h);
      }
    }
  }

  ghost function LastAbout(es: seq<Event>, h: Handle): Option<Event> {
    if es == [] then None
    else if es[|es| - 1].h == h then Some(es[|es| - 1])
    else LastAbout(es[..|es| - 1], h)
  }

  lemma {:induction false} RunLast(s: State, es: seq<Event>, e: Event)
    ensures LegalFrom(s, es + [e]) <==> LegalFrom(s, es) && Legal(Run(s, es), e)
    ensures LegalFrom(s, es + [e]) ==> Run(s, es + [e]) == Step(Run(s, es), e)
    decreases |es|
  {
    if es == [] {
      assert es + [e] == [e];
    } else {
      assert (es + [e])[1..] == es[1..] + [e];
      if Legal(s, es[0]) {
        RunLast(Step(s, es[0]), es[1..], e);
      }
    }
  }

  /** A contact is asking exactly if the last that was heard of it is a request, and with that request's message. */
  lemma {:induction false} AskingIff(es: seq<Event>, h: Handle)
    requires LegalFrom(Initial, es)
    ensures match LastAbout(es, h)
            case Some(Arrive(_, message)) =>
              h in Run(Initial, es).pending && Run(Initial, es).pending[h].message == message
            case _ => h !in Run(Initial, es).pending
  {
    if es != [] {
      var n := |es| - 1;
      assert es == es[..n] + [es[n]];
      RunLast(Initial, es[..n], es[n]);
      AskingIff(es[..n], h);
    }
  }

  /** How often in a run an event brings this fate to a contact's request; only one that is asking has one. */
  ghost function Brought(s: State, es: seq<Event>, fate: Fate): nat
    requires LegalFrom(s, es)
    decreases |es|
  {
    if es == [] then 0
    else
      Brought(Step(s, es[0]), es[1..], fate)
      + if FateBy(es[0]) == fate && PublishOf(s, es[0].h) == Asked then 1 else 0
  }

  lemma {:induction false} CountOneMore(outcomes: seq<Outcome>, o: Outcome, fate: Fate)
    ensures Count(outcomes + [o], fate) == Count(outcomes, fate) + if o.fate == fate then 1 else 0
  {
    if outcomes != [] {
      assert (outcomes + [o])[1..] == outcomes[1..] + [o];
      CountOneMore(outcomes[1..], o, fate);
    }
  }

  lemma StepBrings(s: State, e: Event, fate: Fate)
    requires Legal(s, e)
    ensures Count(Step(s, e).outcomes, fate) ==
            Count(s.outcomes, fate) + if FateBy(e) == fate && PublishOf(s, e.h) == Asked then 1 else 0
  {
    if PublishOf(s, e.h) == Asked {
      CountOneMore(s.outcomes, Outcome(s.pending[e.h].serial, FateBy(e)), fate);
    } else {
      assert s.outcomes + [] == s.outcomes;
    }
  }

  /** Over every run: as many allowing callbacks as acceptances of contacts that were asking, as many denying ones as
      rejections, and so on; nothing else brings a request to its end. */
  lemma {:induction false} FatesAreBrought(s: State, es: seq<Event>, fate: Fate)
    requires LegalFrom(s, es)
    ensures Count(Run(s, es).outcomes, fate) == Count(s.outcomes, fate) + Brought(s, es, fate)
    decreases |es|
  {
    if es != [] {
      StepBrings(s, es[0], fate);
      FatesAreBrought(Step(s, es[0]), es[1..], fate);
    }
  }

  // ----- Every step keeps the balance -----

  lemma StepConserves(s: State, e: Event)
    requires Legal(s, e) && Balanced(s)
    ensures Balanced(Step(s, e))
  {
    match e {
      case Arrive(h, message) =>
        ArriveConserves(s, h, message);
      case Accept(h) =>
        if h in s.pending {
          EndKeepsAccounts(s.pending, s.outcomes, s.received, h, Allowed);
        }
      case Reject(h) =>
        if h in s.pending {
          EndKeepsAccounts(s.pending, s.outcomes, s.received, h, Denied);
        }
      case Cancel(h, _) =>
        EndKeepsAccounts(s.pending, s.outcomes, s.received, h, Cancelled);
    }
  }

  /** A repeated request arrives after the one it replaces has ended. */
  lemma ArriveConserves(s: State, h: Handle, message: string)
    requires Balanced(s)
    ensures Balanced(Step(s, Arrive(h, message)))
  {
    if h in s.pending {
      ReplacementKeepsAccounts(s.pending, s.outcomes, s.received, h, message);
    } else {
      ArrivalKeepsAccounts(s.pending, s.outcomes, s.received, h, message);
      assert s.outcomes + [] == s.outcomes;
    }
  }

  lemma {:induction false} RunConserves(s: State, es: seq<Event>)
    requires LegalFrom(s, es) && Balanced(s)
    ensures Balanced(Run(s, es))
    decreases |es|
  {
    if es != [] {
      StepConserves(s, es[0]);
      RunConserves(Step(s, es[0]), es[1..]);
    }
  }
}
