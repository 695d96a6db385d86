/**
 * Typing notifications of one conversation: SetChatState, the timer that resends the state, and the destruction of the
 * conversation (src/im-channel.c, src/im-channel-factory.c).
 *
 * The timer is the main loop's; what is proved over all runs is that it never outlives what started
 * it: a resent state is always the one the user set last, and never "not typing".
 */
module Typing {

  datatype Typing = NotTyping | Typing | Typed
  datatype ChatState = Gone | Inactive | Active | Paused | Composing | Invalid

  /** What goes out to the contact, and the calls that were refused. */
  datatype Entry = Sent(t: Typing) | Resent(t: Typing) | Refused

  datatype State = State(
    alive: bool,
    activeState: Typing,
    timeoutId: nat,
    timers: set<nat>,
    nextTimer: nat,
    log: seq<Entry>)

  const Initial := State(true, NotTyping, 0, {}, 1, [])

  /** `seconds` is what serv_send_typing returns: after how long the state times out, or 0. */
  datatype Event =
    | SetChatState(state: ChatState, seconds: nat)
    | Fire(timer: nat, seconds: nat)
    | DestroyConversation

  function TypingOf(state: ChatState): Typing
    requires !state.Gone? && !state.Invalid?
  {
    if state.Paused? then Typed else if state.Composing? then Typing else NotTyping
  }

  /** The main loop runs a timer only while the timer exists. */
  ghost predicate Legal(s: State, e: Event) {
    s.alive && (e.Fire? ==> e.timer in s.timers)
  }

  ghost function Step(s: State, e: Event): State
    requires Legal(s, e)
  {
    match e
    case SetChatState(state, seconds) =>
      var cleared := s.(timers := if s.timeoutId != 0 then s.timers - {s.timeoutId} else s.timers, timeoutId := 0);
      if state.Gone? || state.Invalid? then cleared.(log := s.log + [Refused])
      else
        var t := TypingOf(state);
        var sent := cleared.(activeState := t, log := s.log + [Sent(t)]);
        if seconds != 0 && t != NotTyping then
          sent.(timeoutId := s.nextTimer, timers := sent.timers + {s.nextTimer}, nextTimer := s.nextTimer + 1)
        else sent
    case Fire(timer, seconds) =>
      var sent := s.(log := s.log + [Resent(s.activeState)]);
      if seconds != 0 then sent else sent.(timeoutId := 0, timers := s.timers - {timer})
    case DestroyConversation =>
      s.(alive := false, timers := if s.timeoutId != 0 then s.timers - {s.timeoutId} else s.timers)
  }

  class Conversation {
    var activeState: Typing
    var resendTypingTimeoutId: nat
    var alive: bool
    /** The main loop's timers for this conversation. */
    var timers: set<nat>
    var nextTimer: nat
    var log: seq<Entry>

    ghost function Abs(): State
      reads this
    {
      State(alive, activeState, resendTypingTimeoutId, timers, nextTimer, log)
    }

    constructor ()
      ensures Abs() == Initial
    {
      alive, activeState, resendTypingTimeoutId, timers, nextTimer, log := true, NotTyping, 0, {}, 1, [];
    }

    method SetChatState(state: ChatState, seconds: nat) returns (ok: bool)
      requires alive
      modifies this
      ensures Abs() == Step(old(Abs()), Event.SetChatState(state, seconds))
      ensures ok <==> !state.Gone? && !state.Invalid?
    {
      if resendTypingTimeoutId != 0 {
        timers := timers - {resendTypingTimeoutId};
        resendTypingTimeoutId := 0;
      }
      var typing := NotTyping;
      match state {
        case Gone =>
          log := log + [Refused];
          return false;
        case Inactive => typing := NotTyping;
        case Active => typing := NotTyping;
        case Paused => typing := Typed;
        case Composing => typing := Typing.Typing;
        case Invalid =>
          log := log + [Refused];
          return false;
      }
      activeState := typing;
      log := log + [Sent(typing)];
      if seconds != 0 && typing != NotTyping {
        resendTypingTimeoutId := nextTimer;
        timers := timers + {nextTimer};
        nextTimer := nextTimer + 1;
      }
      ok := true;
    }

    /** resend_typing_cb; the main loop drops a timer whose callback returns false. */
    method ResendTyping(timer: nat, seconds: nat) returns (again: bool)
      requires alive && timer in timers
      modifies this
      ensures Abs() == Step(old(Abs()), Fire(timer, seconds))
      ensures again <==> timer in timers
    {
      log := log + [Resent(activeState)];
      if seconds != 0 {
        again := true;
      } else {
        resendTypingTimeoutId := 0;
        timers := timers - {timer};
        again := false;
      }
    }

    /** haze_destroy_conversation */
    method Destroy()
      requires alive
      modifies this
      ensures Abs() == Step(old(Abs()), DestroyConversation)
    {
      if resendTypingTimeoutId != 0 {
        timers := timers - {resendTypingTimeoutId};
      }
      alive := false;
    }
  }

  // ----- Runs -----

  ghost predicate LegalFrom(s: State, es: seq<Event>)
    decreases |es|
  {
    es != [] ==> Legal(s, es[0]) && LegalFrom(Step(s, es[0]), es[1..])
  }

  ghost function Run(s: State, es: seq<Event>): State
    requires LegalFrom(s, es)
    decreases |es|
  {
    if es == [] then s else Run(Step(s, es[0]), es[1..])
  }

  /** What the user's last SetChatState came to, whatever was resent since. */
  ghost function LastSet(log: seq<Entry>): Entry {
    if log == [] then Refused
    else if log[|log| - 1].Resent? then LastSet(log[..|log| - 1])
    else log[|log| - 1]
  }

  /** Each resent state repeats the last one set, which was not refused and was not "not typing". */
  ghost predicate ResentFaithfully(log: seq<Entry>) {
    forall i | 0 <= i < |log| && log[i].Resent? :: log[i].t != NotTyping && LastSet(log[..i]) == Sent(log[i].t)
  }

  /** There is at most one timer, it is the one on record, and it stands for the last state set. */
  ghost predicate TimerOnRecord(s: State) {
    && s.timeoutId < s.nextTimer
    && (s.alive ==> s.timers == if s.timeoutId == 0 then {} else {s.timeoutId})
    && (!s.alive ==> s.timers == {})
    && (s.timeoutId != 0 ==> s.activeState != NotTyping && LastSet(s.log) == Sent(s.activeState))
    && ResentFaithfully(s.log)
  }

  lemma OneMore(log: seq<Entry>, e: Entry)
    requires ResentFaithfully(log)
    requires e.Resent? ==> e.t != NotTyping && LastSet(log) == Sent(e.t)
    ensures ResentFaithfully(log + [e])
    ensures LastSet(log + [e]) == if e.Resent? then LastSet(log) else e
  {
    var longer := log + [e];
    assert longer[..|log|] == log;
    forall i | 0 <= i < |longer| && longer[i].Resent?
      ensures longer[i].t != NotTyping && LastSet(longer[..i]) == Sent(longer[i].t)
    {
      if i < |log| {
        assert longer[..i] == log[..i] && longer[i] == log[i];
      }
    }
  }

  lemma SettingKeepsTimer(s: State, state: ChatState, seconds: nat)
    requires s.alive && TimerOnRecord(s)
    ensures TimerOnRecord(Step(s, SetChatState(state, seconds)))
  {
    OneMore(s.log, if state.Gone? || state.Invalid? then Refused else Sent(TypingOf(state)));
    assert s.timers - {s.timeoutId} == {};
  }

  lemma FiringKeepsTimer(s: State, timer: nat, seconds: nat)
    requires s.alive && timer in s.timers && TimerOnRecord(s)
    ensures TimerOnRecord(Step(s, Fire(timer, seconds)))
  {
    OneMore(s.log, Resent(s.activeState));
    assert s.timers == {timer} && timer == s.timeoutId;
  }

  lemma StepKeepsTimer(s: State, e: Event)
    requires Legal(s, e) && TimerOnRecord(s)
    ensures TimerOnRecord(Step(s, e))
  {
    match e {
      case SetChatState(state, seconds) => SettingKeepsTimer(s, state, seconds);
      case Fire(timer, seconds) => FiringKeepsTimer(s, timer, seconds);
      case DestroyConversation =>
    }
  }

  /** Over every run the timer is the one on record, whatever is resent is what was set last, and a destroyed
      conversation has no timer left. */
  lemma {:induction false} RunKeepsTimer(s: State, es: seq<Event>)
    requires LegalFrom(s, es) && TimerOnRecord(s)
    ensures TimerOnRecord(Run(s, es))
    decreases |es|
  {
    if es != [] {
      StepKeepsTimer(s, es[0]);
      RunKeepsTimer(Step(s, es[0]), es[1..]);
    }
  }

  /** What each event says to the contact: composing is typing, a pause is having typed, the other states are neither; a
      timer repeats a state once. */
  lemma EventsSay(s: State, e: Event)
    requires Legal(s, e)
    ensures var said := Step(s, e).log;
            match e
            case SetChatState(Composing, _) => said == s.log + [Sent(Typing.Typing)]
            case SetChatState(Paused, _) => said == s.log + [Sent(Typed)]
            case SetChatState(Active, _) => said == s.log + [Sent(NotTyping)]
            case SetChatState(Inactive, _) => said == s.log + [Sent(NotTyping)]
            case SetChatState(Gone, _) => said == s.log + [Refused]
            case SetChatState(Invalid, _) => said == s.log + [Refused]
            case Fire(_, _) => exists t :: said == s.log + [Resent(t)]
            case DestroyConversation => said == s.log
  {
    if e.Fire? {
      assert Step(s, e).log == s.log + [Resent(s.activeState)];
    }
  }

  /** Whether the last of the events leaves a state that is to be repeated: one that is set as typing or as having typed
      and that times out, or one repeated that will time out again. */
  ghost predicate Repeating(es: seq<Event>) {
    es != [] &&
    match es[|es| - 1]
    case SetChatState(state, seconds) => (state.Composing? || state.Paused?) && seconds > 0
    case Fire(_, seconds) => seconds > 0
    case DestroyConversation => false
  }

  lemma {:induction false} RunLast(s: State, es: seq<Event>, e: Event)
    ensures LegalFrom(s, es + [e]) <==> LegalFrom(s, es) && Legal(Run(s, es), e)
    ensures LegalFrom(s, es + [e]) ==> Run(s, es + [e]) == Step(Run(s, es), e)
    decreases |es|
  {
    if es == [] {
      assert es + [e] == [e];
    } else {
      assert (es + [e])[1..] == es[1..] + [e];
      if Legal(s, es[0]) {
        RunLast(Step(s, es[0]), es[1..], e);
      }
    }
  }

  /** A timer runs exactly while there is something to repeat. */
  lemma TimerRunsIff(es: seq<Event>)
    requires LegalFrom(Initial, es)
    ensures Run(Initial, es).timers != {} <==> Repeating(es)
  {
    if es != [] {
      var n := |es| - 1;
      assert es == es[..n] + [es[n]];
      RunLast(Initial, es[..n], es[n]);
      RunKeepsTimer(Initial, es[..n]);
      RunKeepsTimer(Initial, es);
      StepRepeats(Run(Initial, es[..n]), es[n]);
    }
  }

  lemma StepRepeats(s: State, e: Event)
    requires Legal(s, e) && TimerOnRecord(s)
    ensures Step(s, e).timers != {} <==> Repeating([e])
  {
    if e.Fire? {
      assert s.timers == {e.timer};
    }
  }
}
