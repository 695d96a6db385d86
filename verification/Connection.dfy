/**
 * Connecting and shutting down (src/connection.c). Three flags decide who ends the account's libpurple connection and
 * when telepathy-glib is told that shutting down has finished; telepathy-glib and libpurple call back into haze while
 * haze is calling them.
 *
 * purple_account_connect is taken as two steps, its start and its return, so that what libpurple does in between is
 * an event like any other.
 */
module Connection {
  datatype Status = New | Connecting | Connected | Disconnected

  /**
   * libpurple's connection: none has been made; it is up; an error was reported on it, so that libpurple takes it
   * down as soon as it is idle; it has been taken down.
   */
  datatype Gc = NoGc | Up | Dying | Gone

  datatype State = State(
    status: Status,
    disconnecting: bool,
    connectCalled: bool,
    passwordRequest: bool,
    /** The environment: libpurple's connection, whether purple_account_connect is running, password prompts being
        shown. */
    gc: Gc,
    inConnect: bool,
    prompts: nat,
    /** What was done: purple_account_disconnect by haze, finish_shutdown and idle calls of it to come, errors
        reported. */
    disconnects: nat,
    finishes: nat,
    idles: nat,
    errors: nat,
    /** Whether libpurple reported an error or went down before purple_account_connect returned. */
    early: bool,
    /** How libpurple's requests for a password were answered: with one, or with none. */
    answers: seq<Answer>)

  datatype Answer = Password | NoPassword

  const Initial := State(New, false, false, false, NoGc, false, 0, 0, 0, 0, 0, false, [])

  datatype Event =
    | Connect(handleOk: bool, needsPassword: bool)
    | ConnectReturns
    | PromptFails
    | PromptSucceeds
    | RequestPassword
    | CancelPassword
    | SignedOn
    | Error
    | UserDisconnect
    | PurpleDisconnects
    | RunIdle

  /** What telepathy-glib, libpurple and the main loop do. */
  ghost predicate Legal(s: State, e: Event) {
    match e
    case Connect(_, _) => s.status.New?
    case ConnectReturns => s.inConnect
    case PromptFails => s.prompts > 0 && !s.inConnect
    case PromptSucceeds => s.prompts > 0 && !s.inConnect && !s.status.Disconnected?
    case RequestPassword => s.gc.Up?
    case CancelPassword => true
    case SignedOn => s.gc.Up? && s.status.Connecting?
    case Error => s.gc.Up?
    case UserDisconnect => !s.inConnect
    case PurpleDisconnects => s.gc.Up? || (s.gc.Dying? && !s.inConnect)
    case RunIdle => s.idles > 0 && !s.inConnect
  }

  /** What has come of shut_down by the time it returns, the status being DISCONNECTED already. */
  ghost function AfterShutDown(s: State): State {
    if !s.disconnecting && s.connectCalled then
      s.(disconnecting := true, disconnects := s.disconnects + 1, gc := Gone, idles := s.idles + 1)
    else if !s.connectCalled then s.(finishes := s.finishes + 1)
    else s
  }

  /** What has come of a change to DISCONNECTED; from NEW, telepathy-glib finishes by itself. */
  ghost function Down(s: State): State {
    match s.status
    case Disconnected => s
    case New => s.(status := Disconnected, finishes := s.finishes + 1)
    case _ => AfterShutDown(s.(status := Disconnected))
  }

  /** libpurple's request has its answer and is closed. */
  ghost function Answered(s: State, answer: Answer): State {
    s.(passwordRequest := false, answers := s.answers + [answer])
  }

  ghost function CallConnect(s: State): State {
    if s.gc.NoGc? || s.gc.Gone? then s.(gc := Up, inConnect := true) else s.(connectCalled := true)
  }

  ghost function Step(s: State, e: Event): State {
    match e
    case Connect(handleOk, needsPassword) =>
      if !handleOk then Down(s)
      else if needsPassword then s.(status := Connecting, prompts := s.prompts + 1)
      else CallConnect(s.(status := Connecting))
    case ConnectReturns => s.(inConnect := false, connectCalled := true)
    case PromptFails =>
      var s' := if s.prompts > 0 then s.(prompts := s.prompts - 1) else s;
      if s.passwordRequest then Answered(s', NoPassword) else Down(s')
    case PromptSucceeds =>
      var s' := if s.prompts > 0 then s.(prompts := s.prompts - 1) else s;
      if s.passwordRequest then Answered(s', Password) else CallConnect(s')
    case RequestPassword => s.(passwordRequest := true, prompts := s.prompts + 1)
    case CancelPassword => s.(passwordRequest := false)
    case SignedOn => s.(status := Connected)
    case Error => Down(s.(gc := Dying, errors := s.errors + 1, early := s.early || s.inConnect, disconnecting := true))
    case UserDisconnect => Down(s)
    case PurpleDisconnects =>
      var s' := Down(s.(gc := Gone, early := s.early || s.inConnect, disconnecting := true));
      s'.(idles := s'.idles + 1)
    case RunIdle =>
      if s.idles > 0 then s.(idles := s.idles - 1, finishes := s.finishes + 1) else s
  }

  ghost predicate LegalFrom(s: State, es: seq<Event>)
    decreases |es|
  {
    es == [] || (Legal(s, es[0]) && LegalFrom(Step(s, es[0]), es[1..]))
  }

  ghost function Run(s: State, es: seq<Event>): State
    decreases |es|
  {
    if es == [] then s else Run(Step(s, es[0]), es[1..])
  }

  // ----- What every run keeps -----

  ghost predicate Consistent(s: State) {
    && (s.status.New? ==> s.gc.NoGc? && s.prompts == 0)
    && (s.gc.NoGc? ==> !s.passwordRequest)
    && (s.gc.NoGc? <==> !s.connectCalled && !s.inConnect)
    && (s.inConnect ==> !s.connectCalled)
    && (s.gc.Up? ==> s.status.Connecting? || s.status.Connected?)
    && (s.gc.Dying? || s.gc.Gone? ==> s.status.Disconnected?)
    && (s.disconnecting <==> s.gc.Dying? || s.gc.Gone?)
    && (s.early ==> s.disconnecting)
    && (s.disconnecting && s.inConnect ==> s.early)
    && s.disconnects + s.errors <= 1
    && (!s.disconnecting ==> s.disconnects == s.errors == 0)
    && (s.gc.Dying? ==> s.errors == 1)
    && s.finishes + s.idles == FinishesDue(s) + (if s.gc.Gone? then 1 else 0)
    && (!s.gc.Gone? ==> s.idles == 0)
  }

  /** Calls of finish_shutdown that do not come from libpurple's going down. */
  ghost function FinishesDue(s: State): nat {
    if s.early || (s.gc.NoGc? && s.status.Disconnected?) then 1 else 0
  }

  lemma DownKeepsConsistent(s: State)
    requires Consistent(s) && !s.inConnect
    ensures Consistent(Down(s))
  {
  }

  lemma CallConnectKeepsConsistent(s: State)
    requires Consistent(s) && !s.inConnect && (s.status.Connecting? || s.status.Connected?)
    ensures Consistent(CallConnect(s))
  {
  }

  lemma ErrorKeepsConsistent(s: State)
    requires Consistent(s) && s.gc.Up?
    ensures Consistent(Step(s, Error))
  {
    assert !s.disconnecting;
  }

  lemma PurpleDisconnectsKeepsConsistent(s: State)
    requires Consistent(s) && Legal(s, PurpleDisconnects)
    ensures Consistent(Step(s, PurpleDisconnects))
  {
    if s.gc.Up? {
      assert !s.disconnecting;
    }
  }

  lemma ReturnKeepsConsistent(s: State)
    requires Consistent(s) && Legal(s, ConnectReturns)
    ensures Consistent(Step(s, ConnectReturns))
  {
  }

  lemma IdleKeepsConsistent(s: State)
    requires Consistent(s) && Legal(s, RunIdle)
    ensures Consistent(Step(s, RunIdle))
  {
  }

  lemma ConnectKeepsConsistent(s: State, handleOk: bool, needsPassword: bool)
    requires Consistent(s)
    ensures s.status.New? ==> Consistent(Step(s, Connect(handleOk, needsPassword)))
  {
    if s.status.New? {
      if !handleOk {
        DownKeepsConsistent(s);
      } else if !needsPassword {
        CallConnectKeepsConsistent(s.(status := Connecting));
      }
    }
  }

  lemma PromptKeepsConsistent(s: State, e: Event)
    requires Consistent(s) && Legal(s, e) && (e.PromptFails? || e.PromptSucceeds?)
    ensures Consistent(Step(s, e))
  {
    if !s.passwordRequest {
      if e.PromptFails? {
        DownKeepsConsistent(s.(prompts := s.prompts - 1));
      } else {
        CallConnectKeepsConsistent(s.(prompts := s.prompts - 1));
      }
    }
  }

  lemma RequestKeepsConsistent(s: State, e: Event)
    requires Consistent(s) && Legal(s, e) && (e.RequestPassword? || e.CancelPassword? || e.SignedOn?)
    ensures Consistent(Step(s, e))
  {
  }

  lemma StepKeepsConsistent(s: State, e: Event)
    requires Consistent(s) && Legal(s, e)
    ensures Consistent(Step(s, e))
  {
    match e
    case Connect(handleOk, needsPassword) => ConnectKeepsConsistent(s, handleOk, needsPassword);
    case ConnectReturns => ReturnKeepsConsistent(s);
    case PromptFails => PromptKeepsConsistent(s, e);
    case PromptSucceeds => PromptKeepsConsistent(s, e);
    case RequestPassword => RequestKeepsConsistent(s, e);
    case CancelPassword => RequestKeepsConsistent(s, e);
    case SignedOn => RequestKeepsConsistent(s, e);
    case Error => ErrorKeepsConsistent(s);
    case UserDisconnect => DownKeepsConsistent(s);
    case PurpleDisconnects => PurpleDisconnectsKeepsConsistent(s);
    case RunIdle => IdleKeepsConsistent(s);
  }

  lemma {:induction false} RunKeepsConsistent(s: State, es: seq<Event>)
    requires Consistent(s) && LegalFrom(s, es)
    ensures Consistent(Run(s, es))
    decreases |es|
  {
    if es != [] {
      StepKeepsConsistent(s, es[0]);
      RunKeepsConsistent(Step(s, es[0]), es[1..]);
    }
  }

  /** Disconnected, and nothing is left to happen. */
  ghost predicate Settled(s: State) {
    s.status.Disconnected? && s.idles == 0 && !s.inConnect && !s.gc.Dying? && !s.gc.Up?
  }

  ghost predicate Sound(s: State) {
    && s.disconnects <= 1
    && (s.errors > 0 ==> s.disconnects == 0)
    && (Settled(s) ==> s.finishes == if s.early then 2 else 1)
    && (!s.status.Disconnected? ==> s.finishes == 0 && s.idles == 0)
    && (!s.early ==> s.finishes + s.idles <= 1)
    && (!s.early && (s.gc.Up? || s.gc.Dying?) ==> s.finishes == 0)
  }

  lemma ConsistentIsSound(s: State)
    requires Consistent(s)
    ensures Sound(s)
  {
  }

  lemma RunIsSound(es: seq<Event>)
    requires LegalFrom(Initial, es)
    ensures Sound(Run(Initial, es))
  {
    RunKeepsConsistent(Initial, es);
    ConsistentIsSound(Run(Initial, es));
  }

  /** When the early flag is up: an error or a going down came while purple_account_connect was running. */
  ghost predicate CalledBackEarly(s: State, es: seq<Event>)
    decreases |es|
  {
    es != [] &&
    ((s.inConnect && (es[0].Error? || es[0].PurpleDisconnects?)) || CalledBackEarly(Step(s, es[0]), es[1..]))
  }

  lemma DownKeepsEarly(s: State)
    ensures Down(s).early == s.early
  {
  }

  lemma ErrorMarksEarly(s: State)
    ensures Step(s, Error).early <==> s.early || s.inConnect
  {
    DownKeepsEarly(s.(gc := Dying, errors := s.errors + 1, early := s.early || s.inConnect, disconnecting := true));
  }

  lemma PurpleDisconnectsMarksEarly(s: State)
    ensures Step(s, PurpleDisconnects).early <==> s.early || s.inConnect
  {
    DownKeepsEarly(s.(gc := Gone, early := s.early || s.inConnect, disconnecting := true));
  }

  lemma EarlyStep(s: State, e: Event)
    requires Legal(s, e)
    ensures Step(s, e).early <==> s.early || (s.inConnect && (e.Error? || e.PurpleDisconnects?))
  {
    match e
    case Connect(_, _) => DownKeepsEarly(s);
    case UserDisconnect => DownKeepsEarly(s);
    case Error => ErrorMarksEarly(s);
    case PurpleDisconnects => PurpleDisconnectsMarksEarly(s);
    case PromptFails => DownKeepsEarly(s.(prompts := s.prompts - 1));
    case _ =>
  }

  lemma {:induction false} EarlyMeans(s: State, es: seq<Event>)
    requires LegalFrom(s, es)
    ensures Run(s, es).early <==> s.early || CalledBackEarly(s, es)
    decreases |es|
  {
    if es != [] {
      EarlyStep(s, es[0]);
      EarlyMeans(Step(s, es[0]), es[1..]);
    }
  }

  /** haze starts at most one disconnection, and none once an error has been reported. */
  lemma DisconnectsAtMostOnce(es: seq<Event>, s: State)
    requires LegalFrom(Initial, es) && s == Run(Initial, es)
    ensures s.disconnects <= 1 && (s.errors > 0 ==> s.disconnects == 0)
  {
    RunIsSound(es);
  }

  /**
   * A run that has settled has finished exactly once, provided libpurple neither reported an error nor went down before
   * purple_account_connect returned; if it did, shut_down finishes too soon and the run finishes twice.
   */
  lemma FinishesOnceIff(es: seq<Event>, s: State)
    requires LegalFrom(Initial, es) && s == Run(Initial, es) && Settled(s)
    ensures s.finishes == 1 <==> !CalledBackEarly(Initial, es)
    ensures s.finishes == 2 <==> CalledBackEarly(Initial, es)
  {
    RunIsSound(es);
    EarlyMeans(Initial, es);
  }

  /** Before it has settled, a run has not finished more than once either, and never before it is disconnected. */
  lemma NeverFinishesTooSoon(es: seq<Event>, s: State)
    requires LegalFrom(Initial, es) && s == Run(Initial, es)
    ensures !s.status.Disconnected? ==> s.finishes == 0 && s.idles == 0
    ensures !CalledBackEarly(Initial, es) ==> s.finishes + s.idles <= 1
    ensures !CalledBackEarly(Initial, es) && (s.gc.Up? || s.gc.Dying?) ==> s.finishes == 0
  {
    RunIsSound(es);
    EarlyMeans(Initial, es);
  }

  /** What is under way when a connection is disconnected: returns, libpurple's going down, calls that wait for the
      main loop. */
  ghost predicate UnderWay(e: Event) {
    e.ConnectReturns? || e.PurpleDisconnects? || e.RunIdle?
  }

  ghost function Pending(s: State): nat {
    (if s.inConnect then 1 else 0) + (if s.gc.Dying? then 2 else 0) + s.idles
  }

  ghost function CountUnderWay(es: seq<Event>): nat
    decreases |es|
  {
    if es == [] then 0 else CountUnderWay(es[1..]) + if UnderWay(es[0]) then 1 else 0
  }

  /** Once disconnected, such an event brings the end nearer by one, and no other event puts it off. */
  lemma StepNearsEnd(s: State, e: Event)
    requires Consistent(s) && s.status.Disconnected? && Legal(s, e)
    ensures Step(s, e).status.Disconnected?
    ensures Pending(Step(s, e)) + (if UnderWay(e) then 1 else 0) == Pending(s)
  {
  }

  /** A disconnected state is settled exactly when nothing is under way. */
  lemma SettledIff(s: State)
    requires Consistent(s) && s.status.Disconnected?
    ensures Settled(s) <==> Pending(s) == 0
    ensures Settled(s) <==> forall e | UnderWay(e) :: !Legal(s, e)
  {
    if Pending(s) > 0 {
      assert Legal(s, if s.inConnect then ConnectReturns else if s.gc.Dying? then PurpleDisconnects else RunIdle);
    }
  }

  /**
   * However a run goes on once it is disconnected, it has settled exactly when as many events have come as were under
   * way, and then no more of them can come; so every continuation that is not cut short settles.
   */
  lemma {:induction false} EveryContinuationSettles(s: State, es: seq<Event>)
    requires Consistent(s) && s.status.Disconnected? && LegalFrom(s, es)
    ensures Consistent(Run(s, es)) && Run(s, es).status.Disconnected?
    ensures CountUnderWay(es) <= Pending(s)
    ensures Settled(Run(s, es)) <==> CountUnderWay(es) == Pending(s)
    ensures Settled(Run(s, es)) <==> forall e | UnderWay(e) :: !Legal(Run(s, es), e)
    decreases |es|
  {
    if es == [] {
      SettledIff(s);
    } else {
      StepNearsEnd(s, es[0]);
      StepKeepsConsistent(s, es[0]);
      EveryContinuationSettles(Step(s, es[0]), es[1..]);
    }
  }

  /** From every disconnected state that a run reaches, the calls already under way lead to a settled one. */
  lemma {:induction false} DisconnectedSettles(s: State) returns (es: seq<Event>)
    requires Consistent(s) && s.status.Disconnected?
    ensures LegalFrom(s, es) && Settled(Run(s, es))
    ensures forall e | e in es :: UnderWay(e)
    decreases s.inConnect, s.gc.Dying?, s.idles
  {
    if Settled(s) {
      es := [];
    } else {
      var e := if s.inConnect then ConnectReturns else if s.gc.Dying? then PurpleDisconnects else RunIdle;
      StepKeepsConsistent(s, e);
      var rest := DisconnectedSettles(Step(s, e));
      es := [e] + rest;
      assert es[1..] == rest;
    }
  }

  lemma RunFirst(s: State, e: Event, es: seq<Event>)
    ensures Run(s, [e] + es) == Run(Step(s, e), es)
    ensures LegalFrom(s, [e] + es) <==> Legal(s, e) && LegalFrom(Step(s, e), es)
  {
    assert ([e] + es)[1..] == es;
  }

  lemma FinishFrom(s: State) returns (after: seq<Event>)
    requires Consistent(s) && !s.inConnect
    ensures LegalFrom(s, [UserDisconnect] + after)
    ensures Settled(Run(s, [UserDisconnect] + after)) && Run(s, [UserDisconnect] + after).finishes > 0
  {
    StepKeepsConsistent(s, UserDisconnect);
    after := DisconnectedSettles(Step(s, UserDisconnect));
    RunFirst(s, UserDisconnect, after);
    RunKeepsConsistent(Step(s, UserDisconnect), after);
    ConsistentIsSound(Run(s, [UserDisconnect] + after));
  }

  /** Every run can be brought to an end: a request to disconnect leads to finish_shutdown. */
  lemma UserCanFinish(before: seq<Event>) returns (after: seq<Event>)
    requires LegalFrom(Initial, before) && !Run(Initial, before).inConnect
    ensures var s := Run(Initial, before);
            && LegalFrom(s, [UserDisconnect] + after)
            && Settled(Run(s, [UserDisconnect] + after)) && Run(s, [UserDisconnect] + after).finishes > 0
  {
    RunKeepsConsistent(Initial, before);
    after := FinishFrom(Run(Initial, before));
  }

  lemma FinishesInTheEnd(s: State, es: seq<Event>, end: State)
    requires Consistent(s) && s.status.Disconnected? && LegalFrom(s, es) && end == Run(s, es)
    requires forall e | UnderWay(e) :: !Legal(end, e)
    ensures Settled(end) && end.finishes == if end.early then 2 else 1
  {
    EveryContinuationSettles(s, es);
    ConsistentIsSound(end);
  }

  /** And it does so however things go on, once nothing is under way any more. The state s is any that a run reaches. */
  lemma UserWillFinish(s: State, down: State, after: seq<Event>, end: State)
    requires Consistent(s) && Legal(s, UserDisconnect) && down == Step(s, UserDisconnect)
    requires LegalFrom(down, after) && end == Run(down, after)
    requires forall e | UnderWay(e) :: !Legal(end, e)
    ensures Settled(end) && end.finishes == if end.early then 2 else 1
  {
    DownKeepsConsistent(s);
    FinishesInTheEnd(down, after, end);
  }

  /**
   * Why a prompt must not succeed once the connection is disconnected (telepathy-glib closes its channel by then,
   * which fails it): the connection would be made after all, and finished a second time.
   */
  lemma LatePasswordFinishesTwice(s: State) returns (es: seq<Event>)
    requires Consistent(s) && s.status.Disconnected? && s.gc.NoGc? && s.prompts > 0
    ensures Settled(s) && s.finishes == 1 && !Legal(s, PromptSucceeds)
    ensures LegalFrom(Step(s, PromptSucceeds), es)
    ensures var end := Run(Step(s, PromptSucceeds), es);
            Settled(end) && end.finishes == 2 && !end.early
  {
    var s1 := Step(s, PromptSucceeds);
    var s2 := Step(s1, ConnectReturns);
    assert s2 == s.(prompts := s.prompts - 1, gc := Up, connectCalled := true);
    var s3 := Step(s2, PurpleDisconnects);
    assert s3 == s2.(gc := Gone, disconnecting := true, idles := 1);
    RunFirst(s3, RunIdle, []);
    RunFirst(s2, PurpleDisconnects, [RunIdle] + []);
    RunFirst(s1, ConnectReturns, [PurpleDisconnects] + ([RunIdle] + []));
    es := [ConnectReturns] + ([PurpleDisconnects] + ([RunIdle] + []));
  }

  /** There are such states: the user disconnects while the first prompt is shown. */
  lemma PromptLeftShowing()
    ensures var es := [Connect(true, true)] + [UserDisconnect];
            && LegalFrom(Initial, es)
            && Run(Initial, es).status.Disconnected? && Run(Initial, es).gc.NoGc? && Run(Initial, es).prompts == 1
  {
    RunFirst(Initial, Connect(true, true), [UserDisconnect]);
    RunFirst(Step(Initial, Connect(true, true)), UserDisconnect, []);
    assert [UserDisconnect] + [] == [UserDisconnect];
  }

  lemma ErrorFinishes(s: State) returns (s': State)
    requires s == Initial.(status := Connecting, gc := Up, inConnect := true)
    ensures s' == Step(s, Error)
    ensures s' == s.(gc := Dying, errors := 1, early := true, disconnecting := true,
                     status := Disconnected, finishes := 1)
  {
    s' := Step(s, Error);
    assert s' == Down(s.(gc := Dying, errors := 1, early := true, disconnecting := true));
  }

  /** What is left to happen after such an error. */
  lemma FinishesAgain(s: State) returns (es: seq<Event>)
    requires s.status.Disconnected? && s.gc.Dying? && s.inConnect && s.disconnecting && s.idles == 0
    ensures LegalFrom(s, es) && Settled(Run(s, es)) && Run(s, es).finishes == s.finishes + 1
  {
    var s1 := s.(inConnect := false, connectCalled := true);
    var s2 := s1.(gc := Gone, idles := 1);
    assert Step(s, ConnectReturns) == s1 && Step(s1, PurpleDisconnects) == s2;
    RunFirst(s2, RunIdle, []);
    RunFirst(s1, PurpleDisconnects, [RunIdle] + []);
    es := [ConnectReturns] + ([PurpleDisconnects] + ([RunIdle] + []));
    RunFirst(s, ConnectReturns, [PurpleDisconnects] + ([RunIdle] + []));
  }

  /** An error while purple_account_connect is running: shutting down finishes at once, and again when libpurple is
      down. */
  lemma EarlyErrorFinishesTwice() returns (es: seq<Event>)
    ensures LegalFrom(Initial, es) && CalledBackEarly(Initial, es)
    ensures Settled(Run(Initial, es)) && Run(Initial, es).finishes == 2
  {
    var s := Step(Initial, Connect(true, false));
    var failed := ErrorFinishes(s);
    var rest := FinishesAgain(failed);
    RunFirst(s, Error, rest);
    RunFirst(Initial, Connect(true, false), [Error] + rest);
    es := [Connect(true, false)] + ([Error] + rest);
    assert es[1..][0] == Error && CalledBackEarly(s, es[1..]);
  }

  /**
   * A prompt that fails without a request of libpurple's does not show that the connection was never begun: libpurple
   * may have taken its request back. It is the flags that tell, and then it is haze that disconnects the account.
   */
  lemma FailedPromptDisconnects(s: State)
    requires Consistent(s) && Legal(s, PromptFails) && !s.passwordRequest
    ensures var s' := Step(s, PromptFails);
            && s'.status.Disconnected?
            && (s'.disconnects == s.disconnects + 1 <==> s.connectCalled && !s.disconnecting)
            && (s'.finishes == s.finishes + 1 <==> !s.connectCalled && !s.status.Disconnected?)
  {
    var s' := s.(prompts := s.prompts - 1);
    assert Step(s, PromptFails) == Down(s');
  }

  /** There are such states: libpurple asks for a password once connected, and then does not want it any more. */
  lemma FailedPromptAfterConnecting() returns (es: seq<Event>)
    ensures LegalFrom(Initial, es)
    ensures var s := Run(Initial, es);
            Legal(s, PromptFails) && !s.passwordRequest && s.connectCalled && !s.disconnecting
  {
    var s1 := Step(Initial, Connect(true, false));
    var s2 := Step(s1, ConnectReturns);
    var s3 := Step(s2, RequestPassword);
    RunFirst(s3, CancelPassword, []);
    RunFirst(s2, RequestPassword, [CancelPassword] + []);
    RunFirst(s1, ConnectReturns, [RequestPassword] + ([CancelPassword] + []));
    var rest := [ConnectReturns] + ([RequestPassword] + ([CancelPassword] + []));
    RunFirst(Initial, Connect(true, false), rest);
    es := [Connect(true, false)] + rest;
  }

  // ----- What each event does to each part of the state -----

  /** The event takes the connection to DISCONNECTED, if it is not there yet. */
  ghost predicate TakesDown(s: State, e: Event) {
    || e.Error? || e.UserDisconnect? || e.PurpleDisconnects?
    || (e.PromptFails? && !s.passwordRequest) || (e.Connect? && !e.handleOk)
  }

  /** haze disconnects the account: the user, or a prompt that no request was waiting for, takes down a connection that
      was begun and is not being ended. */
  ghost predicate Disconnects(s: State, e: Event) {
    (e.UserDisconnect? || (e.PromptFails? && !s.passwordRequest)) && s.connectCalled && !s.disconnecting
  }

  /** haze connects the account, at first or as soon as it has the password. */
  ghost predicate Connects(s: State, e: Event) {
    e == Connect(true, false) || (e.PromptSucceeds? && !s.passwordRequest && s.gc.NoGc?)
  }

  ghost function If(b: bool): nat {
    if b then 1 else 0
  }

  lemma StatusIs(s: State, e: Event)
    requires Consistent(s) && Legal(s, e)
    ensures Step(s, e).status ==
            if TakesDown(s, e) then Disconnected
            else if e.Connect? then Connecting
            else if e.SignedOn? then Connected
            else s.status
  {
  }

  /** Only a disconnection by haze counts as one, and each has the account's connection down at once. */
  lemma DisconnectsWhen(s: State, e: Event)
    requires Consistent(s) && Legal(s, e)
    ensures Step(s, e).disconnects == s.disconnects + If(Disconnects(s, e))
    ensures Step(s, e).gc.Gone? <==> s.gc.Gone? || e.PurpleDisconnects? || Disconnects(s, e)
    ensures Step(s, e).gc.Dying? <==> e.Error? || (s.gc.Dying? && !e.PurpleDisconnects?)
    ensures Step(s, e).errors == s.errors + If(e.Error?)
  {
  }

  lemma ConnectsWhen(s: State, e: Event)
    requires Consistent(s) && Legal(s, e)
    ensures s.gc.NoGc? && Step(s, e).gc.Up? <==> Connects(s, e)
    ensures Step(s, e).inConnect <==> Connects(s, e) || (s.inConnect && !e.ConnectReturns?)
    ensures Step(s, e).connectCalled <==>
            s.connectCalled || e.ConnectReturns? || (e.PromptSucceeds? && !s.passwordRequest && !s.gc.NoGc?)
  {
  }

  /** finish_shutdown is called at once where nothing was begun, and otherwise from the main loop, after libpurple's
      going down. */
  lemma FinishesWhen(s: State, e: Event)
    requires Consistent(s) && Legal(s, e)
    ensures Step(s, e).finishes ==
            s.finishes + If(e.RunIdle?) + If(TakesDown(s, e) && !s.status.Disconnected? && !s.connectCalled)
    ensures Step(s, e).idles + If(e.RunIdle?) == s.idles + If(e.PurpleDisconnects?) + If(Disconnects(s, e))
  {
  }

  /** A prompt that libpurple's request is waiting for answers it, with the password or without, and does nothing else:
      the connection is libpurple's to end. */
  lemma PromptAnswersRequest(s: State, e: Event)
    requires Legal(s, e) && (e.PromptFails? || e.PromptSucceeds?) && s.passwordRequest
    ensures Step(s, e) ==
            s.(prompts := s.prompts - 1, passwordRequest := false,
               answers := s.answers + [if e.PromptFails? then NoPassword else Password])
  {
  }

  /** Going down leaves prompts and requests alone. */
  lemma DownKeepsPrompts(s: State)
    ensures var s' := Down(s);
            s'.prompts == s.prompts && s'.passwordRequest == s.passwordRequest && s'.answers == s.answers
  {
  }

  /** The prompts, the request and the answers, as an event leaves them. */
  ghost predicate PromptsAre(s: State, e: Event, s': State) {
    && s'.prompts + If(e.PromptFails? || e.PromptSucceeds?) ==
       s.prompts + If(e.RequestPassword? || e == Connect(true, true))
    && (s'.passwordRequest <==>
          e.RequestPassword? || (s.passwordRequest && !e.CancelPassword? && !e.PromptFails? && !e.PromptSucceeds?))
    && s.answers <= s'.answers
    && |s'.answers| == |s.answers| + If((e.PromptFails? || e.PromptSucceeds?) && s.passwordRequest)
  }

  lemma LibpurplePrompts(s: State, e: Event)
    requires e.Error? || e.PurpleDisconnects?
    ensures PromptsAre(s, e, Step(s, e))
  {
    var early := s.early || s.inConnect;
    if e.Error? {
      DownKeepsPrompts(s.(gc := Dying, errors := s.errors + 1, early := early, disconnecting := true));
    } else {
      DownKeepsPrompts(s.(gc := Gone, early := early, disconnecting := true));
    }
  }

  lemma PromptEnds(s: State, e: Event)
    requires Legal(s, e) && (e.PromptFails? || e.PromptSucceeds?)
    ensures PromptsAre(s, e, Step(s, e))
  {
    if s.passwordRequest {
      PromptAnswersRequest(s, e);
    } else if e.PromptFails? {
      DownKeepsPrompts(s.(prompts := s.prompts - 1));
    }
  }

  lemma PromptsWhen(s: State, e: Event)
    requires Legal(s, e)
    ensures PromptsAre(s, e, Step(s, e))
  {
    match e
    case Error => LibpurplePrompts(s, e);
    case PurpleDisconnects => LibpurplePrompts(s, e);
    case PromptFails => PromptEnds(s, e);
    case PromptSucceeds => PromptEnds(s, e);
    case _ => DownKeepsPrompts(s);
  }

  ghost function Requests(es: seq<Event>): nat
    decreases |es|
  {
    if es == [] then 0 else Requests(es[1..]) + If(es[0].RequestPassword?)
  }

  /** Over every run there are no more answers than requests: none is answered twice, and one still open is not. */
  lemma {:induction false} RequestsAreAnsweredOnce(s: State, es: seq<Event>)
    requires LegalFrom(s, es)
    ensures |Run(s, es).answers| + If(Run(s, es).passwordRequest) <=
            |s.answers| + If(s.passwordRequest) + Requests(es)
    decreases |es|
  {
    if es != [] {
      PromptsWhen(s, es[0]);
      RequestsAreAnsweredOnce(Step(s, es[0]), es[1..]);
    }
  }

  // ----- The code -----

  class HazeConnection {
    var status: Status
    var disconnecting: bool
    var connectCalled: bool
    var passwordRequest: bool
    var gc: Gc
    var inConnect: bool
    var prompts: nat
    var disconnects: nat
    var finishes: nat
    var idles: nat
    var answers: seq<Answer>
    ghost var errors: nat
    ghost var early: bool

    ghost function Abs(): State
      reads this
    {
      State(status, disconnecting, connectCalled, passwordRequest, gc, inConnect, prompts, disconnects, finishes, idles,
            errors, early, answers)
    }

    constructor ()
      ensures Abs() == Initial
    {
      status, disconnecting, connectCalled, passwordRequest := New, false, false, false;
      gc, inConnect, prompts, disconnects, finishes, idles, answers := NoGc, false, 0, 0, 0, 0, [];
      errors, early := 0, false;
    }

    /** tp_base_connection_change_status to DISCONNECTED, which calls back to shut down. */
    method ChangeStatusDisconnected()
      modifies this
      ensures Abs() == Down(old(Abs()))
      decreases if status.Disconnected? then 0 else 1, 3
    {
      if status.Disconnected? {
        return;
      }
      var never := status.New?;
      status := Disconnected;
      if never {
        FinishShutdown();
      } else {
        ShutDown();
      }
    }

    /** _haze_connection_shut_down */
    method ShutDown()
      requires status.Disconnected?
      modifies this
      ensures Abs() == AfterShutDown(old(Abs()))
      decreases 0, 2
    {
      if !disconnecting && connectCalled {
        disconnecting := true;
        PurpleAccountDisconnect();
      } else if !connectCalled {
        FinishShutdown();
      }
    }

    /** purple_account_disconnect, which tells haze that the connection is down before it returns. */
    method PurpleAccountDisconnect()
      requires status.Disconnected? && disconnecting
      modifies this
      ensures Abs() == old(Abs()).(gc := Gone, disconnects := old(disconnects) + 1, idles := old(idles) + 1)
      decreases 0, 1
    {
      disconnects := disconnects + 1;
      gc := Gone;
      DisconnectedCb();
    }

    /** disconnected_cb */
    method DisconnectedCb()
      modifies this
      ensures var s := Down(old(Abs()).(disconnecting := true));
              Abs() == s.(idles := s.idles + 1)
      decreases if status.Disconnected? then 0 else 1, if status.Disconnected? then 0 else 4
    {
      disconnecting := true;
      if !status.Disconnected? {
        ChangeStatusDisconnected();
      }
      idles := idles + 1;
    }

    /** tp_base_connection_finish_shutdown */
    method FinishShutdown()
      modifies this`finishes
      ensures finishes == old(finishes) + 1
    {
      finishes := finishes + 1;
    }

    /** idle_finish_shutdown */
    method IdleFinishShutdown()
      requires idles > 0
      modifies this
      ensures Abs() == Step(old(Abs()), RunIdle)
    {
      idles := idles - 1;
      FinishShutdown();
    }

    /** libpurple takes its connection down. */
    method PurpleGoesDown()
      requires Legal(Abs(), PurpleDisconnects)
      modifies this
      ensures Abs() == Step(old(Abs()), PurpleDisconnects)
    {
      early := early || inConnect;
      gc := Gone;
      DisconnectedCb();
    }

    /** haze_report_disconnect_reason */
    method ReportDisconnectReason()
      requires Legal(Abs(), Error)
      modifies this
      ensures Abs() == Step(old(Abs()), Error)
    {
      early, errors, gc := early || inConnect, errors + 1, Dying;
      disconnecting := true;
      ChangeStatusDisconnected();
    }

    /** The user's Disconnect. */
    method Disconnect()
      requires Legal(Abs(), UserDisconnect)
      modifies this
      ensures Abs() == Step(old(Abs()), UserDisconnect)
    {
      ChangeStatusDisconnected();
    }

    /** purple_account_connect, as far as its start; a connection that exists already is left alone. */
    method PurpleAccountConnect()
      modifies this
      ensures Abs() == CallConnect(old(Abs()))
    {
      if gc.NoGc? || gc.Gone? {
        gc, inConnect := Up, true;
      } else {
        connectCalled := true;
      }
    }

    /** What follows the return of purple_account_connect. */
    method ConnectReturned()
      requires Legal(Abs(), ConnectReturns)
      modifies this
      ensures Abs() == Step(old(Abs()), ConnectReturns)
    {
      inConnect := false;
      connectCalled := true;
    }

    /** _haze_connection_start_connecting, and what telepathy-glib does when it fails. */
    method StartConnecting(handleOk: bool, needsPassword: bool)
      requires Legal(Abs(), Connect(handleOk, needsPassword))
      modifies this
      ensures Abs() == Step(old(Abs()), Connect(handleOk, needsPassword))
    {
      if !handleOk {
        ChangeStatusDisconnected();
        return;
      }
      status := Connecting;
      if needsPassword {
        prompts := prompts + 1;
      } else {
        PurpleAccountConnect();
      }
    }

    /** _haze_connection_password_manager_prompt_cb */
    method PromptCb(failed: bool)
      requires prompts > 0 && !inConnect
      modifies this
      ensures Abs() == Step(old(Abs()), if failed then PromptFails else PromptSucceeds)
    {
      prompts := prompts - 1;
      if failed {
        if passwordRequest {
          RequestPasswordCb(NoPassword);
        } else if !status.Disconnected? {
          ChangeStatusDisconnected();
        }
        return;
      }
      if passwordRequest {
        RequestPasswordCb(Password);
      } else {
        PurpleAccountConnect();
      }
    }

    /** haze_request_password_cb, which calls libpurple back and closes the request. */
    method RequestPasswordCb(answer: Answer)
      modifies this`passwordRequest, this`answers
      ensures !passwordRequest && answers == old(answers) + [answer]
    {
      answers := answers + [answer];
      CancelPasswordRequest();
    }

    /** haze_connection_cancel_password_request */
    method CancelPasswordRequest()
      modifies this`passwordRequest
      ensures Abs() == Step(old(Abs()), CancelPassword)
    {
      passwordRequest := false;
    }

    /** haze_connection_request_password */
    method PurpleRequestsPassword()
      requires Legal(Abs(), RequestPassword)
      modifies this
      ensures Abs() == Step(old(Abs()), RequestPassword)
    {
      passwordRequest := true;
      prompts := prompts + 1;
    }

    /** The end of connected_cb. */
    method ConnectedCb()
      requires Legal(Abs(), SignedOn)
      modifies this
      ensures Abs() == Step(old(Abs()), SignedOn)
    {
      status := Connected;
    }
  }
}
