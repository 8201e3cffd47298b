/**
 * The delayed-command pipeline with the contents of its messages: what the processing thread takes off the queue goes to
 * the handlers, and what they delay comes back. The lock regions are those of the alarm system.
 */
module DelayedSystem {
  import opened Bytes
  import opened Header
  import opened AlarmSpec
  import opened MsgQueue
  import opened AlarmSystem
  import opened DelayedCommand

  /** One message handled: where it lay, in which environment, what became of it, and what was answered. */
  datatype Event = Event(m: Msg, env: Environment, outcome: Option<Outcome>, replies: seq<Reply>)

  /**
   * `store` is the memory of the messages and `hand` the one that the processing thread is at. `delayed` and `log` record
   * the past: the addresses that a handler has armed, and all that was handled.
   */
  datatype Pipeline = Pipeline(sys: System, hand: Option<Msg>, store: map<Msg, Message>, delayed: set<Msg>, log: seq<Event>)

  datatype Act =
    | Receive(m: Msg, msg: Message)
    | Fetch                          // the processing thread takes the next message off the queue
    | Process(env: Environment, m: Msg)  // and handles it; m is where a message that it delays will lie
    | Cancel(opcode: nat)
    | AlarmTick                      // a lock region of the alarm thread

  function Start(maxLength: int): Pipeline {
    Pipeline(Init(maxLength), None, map[], {}, [])
  }

  predicate Ready(p: Pipeline) {
    p.hand.Some? && p.hand.value in p.store && WellFormed(p.store[p.hand.value])
  }

  /** What handling the message in hand comes to. */
  function Found(p: Pipeline, env: Environment): Option<Outcome>
    requires Ready(p)
  {
    Dispatch(env, p.store[p.hand.value])
  }

  function Handling(p: Pipeline, env: Environment): Event
    requires Ready(p)
  {
    Event(p.hand.value, env, Found(p, env), Answers(env, p.store[p.hand.value]))
  }

  function OpcodeInHand(p: Pipeline): nat
    requires Ready(p)
  {
    Parse(p.store[p.hand.value].payload).opcode
  }

  /** The lock region of the alarm system that an act goes through, if it does. */
  function StepOf(p: Pipeline, act: Act): Option<Step> {
    match act
    case Receive(m, _) => Some(StepReceive(m))
    case Fetch => if p.hand == None then Some(StepProcess) else None
    case Process(env, m) =>
      if Ready(p) && Found(p, env).Some? && Found(p, env).value.Arm? then
        Some(StepAdd(OpcodeInHand(p), Found(p, env).value.delay, m))
      else None
    case Cancel(opcode) => Some(StepDelete(opcode))
    case AlarmTick => Some(StepAlarm)
  }

  function Front(q: seq<Msg>): Option<Msg> {
    if q == [] then None else Some(q[0])
  }

  /** A message that comes in, or that a handler delays, is stored at its address. */
  function StoreAfter(p: Pipeline, act: Act): map<Msg, Message> {
    if act.Receive? then p.store[act.m := act.msg]
    else if act.Process? && StepOf(p, act).Some? then p.store[act.m := Found(p, act.env).value.msg]
    else p.store
  }

  function Do(p: Pipeline, act: Act): Pipeline {
    var step := StepOf(p, act);
    var q := p.(sys := if step.Some? then Next(p.sys, step.value) else p.sys, store := StoreAfter(p, act));
    match act
    case Receive(_, _) => q
    case Fetch => if p.hand == None then q.(hand := Front(p.sys.queue.contents)) else q
    case Process(env, m) =>
      if !Ready(p) then q
      else q.(hand := None, log := p.log + [Handling(p, env)],
              delayed := if step.Some? then p.delayed + {m} else p.delayed)
    case Cancel(_) => q
    case AlarmTick => q
  }

  /** Messages come in well formed, and a new one lies at an address nobody holds. */
  predicate Allowed(p: Pipeline, act: Act) {
    && (StepOf(p, act).Some? ==> Enabled(p.sys, StepOf(p, act).value))
    && (act.Receive? ==> WellFormed(act.msg))
  }

  ghost predicate AllAllowed(p: Pipeline, acts: seq<Act>)
    decreases |acts|
  {
    acts != [] ==> (Allowed(p, acts[0]) && AllAllowed(Do(p, acts[0]), acts[1..]))
  }

  function Exec(p: Pipeline, acts: seq<Act>): Pipeline
    decreases |acts|
  {
    if acts == [] then p else Exec(Do(p, acts[0]), acts[1..])
  }

  /** The lock regions that a run of the pipeline goes through. */
  function StepsOf(p: Pipeline, acts: seq<Act>): seq<Step>
    decreases |acts|
  {
    if acts == [] then []
    else (if StepOf(p, acts[0]).Some? then [StepOf(p, acts[0]).value] else []) + StepsOf(Do(p, acts[0]), acts[1..])
  }

  /** The pipeline runs the alarm system. */
  lemma {:induction false} RunsSystem(p: Pipeline, acts: seq<Act>)
    ensures Exec(p, acts).sys == Run(p.sys, StepsOf(p, acts))
    ensures AllAllowed(p, acts) ==> Possible(p.sys, StepsOf(p, acts))
    decreases |acts|
  {
    if acts != [] {
      var t, rest := Do(p, acts[0]), StepsOf(Do(p, acts[0]), acts[1..]);
      RunsSystem(t, acts[1..]);
      if StepOf(p, acts[0]).Some? {
        var step := StepOf(p, acts[0]).value;
        assert ([step] + rest)[1..] == rest;
      } else {
        assert [] + rest == rest;
      }
    }
  }

  // ---------------------------------------------------------------------------------------------------------------
  // Invariant
  // ---------------------------------------------------------------------------------------------------------------

  function Handled(log: seq<Event>): (r: seq<Msg>)
    ensures |r| == |log|
  {
    seq(|log|, i requires 0 <= i < |log| => log[i].m)
  }

  /** What is stored is well formed, and what a handler has delayed is spent. */
  ghost predicate Stored(store: map<Msg, Message>, delayed: set<Msg>) {
    && delayed <= store.Keys
    && (forall m :: m in store ==> WellFormed(store[m]))
    && (forall m :: m in delayed ==> Spent(store[m]))
  }

  /** Every message that was handled is still known, and was handled by what it says. */
  ghost predicate Logged(log: seq<Event>, store: map<Msg, Message>) {
    forall e :: e in log ==>
      && e.m in store && WellFormed(store[e.m])
      && e.outcome == Dispatch(e.env, store[e.m]) && e.replies == Answers(e.env, store[e.m])
  }

  ghost predicate Inv(p: Pipeline) {
    && Conserved(p.sys)
    && p.sys.issued == p.store.Keys
    && Stored(p.store, p.delayed)
    && Logged(p.log, p.store)
    && p.sys.delivered == Handled(p.log) + Opt(p.hand)
    && (p.hand.Some? ==> p.hand.value in p.store)
  }

  lemma StoredAdds(store: map<Msg, Message>, delayed: set<Msg>, m: Msg, msg: Message)
    requires Stored(store, delayed) && m !in store && WellFormed(msg)
    ensures Stored(store[m := msg], delayed)
    ensures Spent(msg) ==> Stored(store[m := msg], delayed + {m})
    ensures store[m := msg].Keys == store.Keys + {m}
  {
  }

  lemma StartInv(maxLength: int)
    ensures Inv(Start(maxLength))
  {
    InitConserved(maxLength);
  }

  /** Only the processing thread's lock region delivers. */
  lemma StepDelivers(s: System, step: Step)
    ensures Next(s, step).delivered == s.delivered + if step.StepProcess? then Opt(Front(s.queue.contents)) else []
  {
  }

  lemma StepIssues(s: System, step: Step)
    ensures step.StepReceive? ==> Next(s, step).issued == s.issued + {step.msg}
    ensures step.StepAdd? && ToIndex(step.opcode) >= 0 && step.interval > 0 ==> Next(s, step).issued == s.issued + {step.msg}
    ensures !step.StepReceive? && !step.StepAdd? ==> Next(s, step).issued == s.issued
  {
  }

  /** What has been delivered was once handed in. */
  lemma DeliveredIssued(s: System, m: Msg)
    requires Conserved(s) && m in s.delivered
    ensures m in s.issued
  {
    assert Places(s, m) > 0;
  }

  lemma HandledAppend(log: seq<Event>, e: Event)
    ensures Handled(log + [e]) == Handled(log) + [e.m]
  {
  }

  lemma ReceiveKeepsInv(p: Pipeline, m: Msg, msg: Message)
    requires Inv(p) && Allowed(p, Receive(m, msg))
    ensures Inv(Do(p, Receive(m, msg)))
  {
    StepConserves(p.sys, StepReceive(m));
    StepDelivers(p.sys, StepReceive(m));
    StepIssues(p.sys, StepReceive(m));
    StoredAdds(p.store, p.delayed, m, msg);
    LogStays(p.log, p.store, m, msg);
  }

  lemma FetchKeepsInv(p: Pipeline)
    requires Inv(p)
    ensures Inv(Do(p, Fetch))
  {
    if p.hand == None {
      var t := Do(p, Fetch);
      StepConserves(p.sys, StepProcess);
      StepDelivers(p.sys, StepProcess);
      assert Handled(p.log) + [] == Handled(p.log);
      if t.hand.Some? {
        assert t.hand.value in t.sys.delivered;
        DeliveredIssued(t.sys, t.hand.value);
      }
    }
  }

  lemma QuietActKeepsInv(p: Pipeline, act: Act)
    requires Inv(p) && (act.Cancel? || act.AlarmTick?)
    ensures Inv(Do(p, act))
  {
    var step := StepOf(p, act).value;
    StepConserves(p.sys, step);
    StepDelivers(p.sys, step);
    StepIssues(p.sys, step);
    SystemKeepsInv(p, Next(p.sys, step));
  }

  /** What the invariant asks of the alarm system. */
  lemma SystemKeepsInv(p: Pipeline, s: System)
    requires Inv(p) && Conserved(s) && s.issued == p.sys.issued && s.delivered == p.sys.delivered
    ensures Inv(p.(sys := s))
  {
  }

  /** Handling keeps the invariant on what is stored, and what it delays is spent. */
  lemma FoundIsSpent(p: Pipeline, env: Environment)
    requires Ready(p) && Found(p, env).Some? && Found(p, env).value.Arm?
    ensures var Arm(d, msg) := Found(p, env).value;
            d > 0 && Spent(msg) && ToIndex(OpcodeInHand(p)) >= 0 && Parse(msg.payload).opcode == OpcodeInHand(p)
  {
    var msg := p.store[p.hand.value];
    ArmLeavesSpent(env, msg.ifindex, Parse(msg.payload), msg.payload);
  }

  lemma LogGrows(p: Pipeline, env: Environment)
    requires Inv(p) && p.hand.Some?
    ensures Logged(p.log + [Handling(p, env)], p.store)
    ensures Handled(p.log + [Handling(p, env)]) == p.sys.delivered
  {
    HandledAppend(p.log, Handling(p, env));
  }

  lemma LogStays(log: seq<Event>, store: map<Msg, Message>, m: Msg, msg: Message)
    requires Logged(log, store) && m !in store
    ensures Logged(log, store[m := msg])
  {
  }

  lemma ProcessKeepsInv(p: Pipeline, env: Environment, m: Msg)
    requires Inv(p) && Allowed(p, Process(env, m))
    ensures Inv(Do(p, Process(env, m)))
  {
    if p.hand.Some? {
      var log := p.log + [Handling(p, env)];
      LogGrows(p, env);
      if StepOf(p, Process(env, m)).Some? {
        DelayKeepsInv(p, env, m, log);
      }
    }
  }

  lemma DelayKeepsInv(p: Pipeline, env: Environment, m: Msg, log: seq<Event>)
    requires Inv(p) && p.hand.Some? && Found(p, env).Some? && Found(p, env).value.Arm? && m !in p.sys.issued
    requires Handled(log) == p.sys.delivered && Logged(log, p.store)
    ensures var step := StepAdd(OpcodeInHand(p), Found(p, env).value.delay, m);
            Inv(Pipeline(Next(p.sys, step), None, p.store[m := Found(p, env).value.msg], p.delayed + {m}, log))
  {
    var Arm(d, msg) := Found(p, env).value;
    var step := StepAdd(OpcodeInHand(p), d, m);
    FoundIsSpent(p, env);
    StepConserves(p.sys, step);
    StepDelivers(p.sys, step);
    StepIssues(p.sys, step);
    StoredAdds(p.store, p.delayed, m, msg);
    LogStays(log, p.store, m, msg);
  }

  lemma ActKeepsInv(p: Pipeline, act: Act)
    requires Inv(p) && Allowed(p, act)
    ensures Inv(Do(p, act))
  {
    match act
    case Receive(m, msg) => ReceiveKeepsInv(p, m, msg);
    case Fetch => FetchKeepsInv(p);
    case Process(env, m) => ProcessKeepsInv(p, env, m);
    case Cancel(_) => QuietActKeepsInv(p, act);
    case AlarmTick => QuietActKeepsInv(p, act);
  }

  lemma {:induction false} ExecKeepsInv(p: Pipeline, acts: seq<Act>)
    requires Inv(p) && AllAllowed(p, acts)
    ensures Inv(Exec(p, acts))
    decreases |acts|
  {
    if acts != [] {
      ActKeepsInv(p, acts[0]);
      ExecKeepsInv(Do(p, acts[0]), acts[1..]);
    }
  }

  // ---------------------------------------------------------------------------------------------------------------
  // Results
  // ---------------------------------------------------------------------------------------------------------------

  /** No message is handled twice. */
  lemma HandledOnce(p: Pipeline)
    requires Inv(p)
    ensures forall i, j :: 0 <= i < j < |p.log| ==> p.log[i].m != p.log[j].m
  {
    AcceptedOnce(p.sys);
    forall i, j | 0 <= i < j < |p.log|
      ensures p.log[i].m != p.log[j].m
    {
      assert p.sys.accepted[i] == Handled(p.log)[i] && p.sys.accepted[j] == Handled(p.log)[j];
    }
  }

  /**
   * In every reachable state: no message has been handled twice, and what a handler has delayed was answered to nobody when
   * it was handled, and not delayed again if authentication was on.
   */
  lemma NeverDelayedTwice(maxLength: int, acts: seq<Act>)
    requires AllAllowed(Start(maxLength), acts)
    ensures var p := Exec(Start(maxLength), acts);
            && (forall i, j :: 0 <= i < j < |p.log| ==> p.log[i].m != p.log[j].m)
            && (forall e :: e in p.log && e.m in p.delayed ==> e.replies == [])
            && (forall e :: e in p.log && e.m in p.delayed && e.env.authenOn ==> e.outcome == None || !e.outcome.value.Arm?)
  {
    var p := Exec(Start(maxLength), acts);
    StartInv(maxLength);
    ExecKeepsInv(Start(maxLength), acts);
    HandledOnce(p);
    forall e | e in p.log && e.m in p.delayed
      ensures e.replies == [] && (e.env.authenOn ==> e.outcome == None || !e.outcome.value.Arm?)
    {
      DelayedIsSilent(p, e);
    }
  }

  lemma DelayedIsSilent(p: Pipeline, e: Event)
    requires Inv(p) && e in p.log && e.m in p.delayed
    ensures e.replies == [] && (e.env.authenOn ==> e.outcome == None || !e.outcome.value.Arm?)
  {
    SpentIsSilent(e.env, p.store[e.m]);
    if e.env.authenOn {
      SpentNeverArms(e.env, p.store[e.m]);
    }
  }

  lemma ActKeepsStore(p: Pipeline, act: Act, m: Msg)
    requires p.sys.issued == p.store.Keys && Allowed(p, act) && m in p.store
    ensures m in Do(p, act).store && Do(p, act).store[m] == p.store[m]
  {
    assert Do(p, act).store == StoreAfter(p, act);
    assert act.Receive? || (act.Process? && StepOf(p, act).Some?) ==> act.m !in p.store;
  }

  lemma {:induction false} ExecKeepsStore(p: Pipeline, acts: seq<Act>, m: Msg)
    requires Inv(p) && AllAllowed(p, acts) && m in p.store
    ensures m in Exec(p, acts).store && Exec(p, acts).store[m] == p.store[m]
    decreases |acts|
  {
    if acts != [] {
      ActKeepsInv(p, acts[0]);
      ActKeepsStore(p, acts[0], m);
      ExecKeepsStore(Do(p, acts[0]), acts[1..], m);
    }
  }

  /** What has been handled has been sent. */
  lemma LoggedSent(p: Pipeline, e: Event)
    requires Inv(p) && e in p.log
    ensures Sent(p.sys, e.m)
  {
    var i :| 0 <= i < |p.log| && p.log[i] == e;
    assert p.sys.accepted[i] == Handled(p.log)[i];
  }

  /** The message in hand asks for a delay of d; msg is what will come back, and i the slot that it waits in. */
  predicate Delays(p: Pipeline, env: Environment, i: Index, d: nat, msg: Message) {
    Ready(p) && Found(p, env) == Some(Arm(d, msg)) && ToIndex(OpcodeInHand(p)) == i
  }

  /** The handler's act arms the slot of the operation. */
  lemma ProcessArms(p: Pipeline, env: Environment, m: Msg, i: Index, d: nat, msg: Message)
    requires Delays(p, env, i, d, msg)
    ensures Handling(p, env).replies == Sendout(ReplyTo(Parse(p.store[p.hand.value].payload), p.store[p.hand.value].sender), 0)
    ensures var t := Do(p, Process(env, m));
            && t.log == p.log + [Handling(p, env)] && t.sys.pc == p.sys.pc && t.sys.slots[i] == Slot(true, d, Some(m)) && d > 0
            && m in t.store && t.store[m] == msg && m in t.delayed
  {
    FoundIsSpent(p, env);
  }

  /** In the environment in which it was delayed, the message is executed; in no other is it delayed again. */
  lemma DelayedRuns(p: Pipeline, env: Environment, i: Index, d: nat, msg: Message, later: Environment)
    requires Delays(p, env, i, d, msg) && env.authenOn
    ensures WellFormed(msg) && Dispatch(env, msg) == Some(Execute(false)) && Answers(later, msg) == []
    ensures later.authenOn ==> Dispatch(later, msg) == None || !Dispatch(later, msg).value.Arm?
  {
    var request := p.store[p.hand.value];
    var h := Parse(request.payload);
    ArmLeavesSpent(env, request.ifindex, h, request.payload);
    SecondPass(env, request.ifindex, h, request.payload);
    if later.authenOn {
      SpentNeverArms(later, msg);
    }
  }

  /** What the log says of a message that was delayed. */
  lemma DelayedIsLogged(p: Pipeline, env: Environment, i: Index, d: nat, msg: Message, u: Pipeline, m: Msg)
    requires Delays(p, env, i, d, msg) && env.authenOn && Inv(u) && m in u.store && u.store[m] == msg
    ensures forall e :: e in u.log && e.m == m && e.env.authenOn ==> e.outcome == None || !e.outcome.value.Arm?
    ensures forall e :: e in u.log && e.m == m && e.env == env ==> e.outcome == Some(Execute(false))
    ensures forall e :: e in u.log && e.m == m ==> e.replies == []
    ensures (exists e :: e in u.log && e.m == m) ==> Sent(u.sys, m)
  {
    forall e | e in u.log && e.m == m
      ensures Sent(u.sys, m) && e.replies == []
      ensures e.env.authenOn ==> e.outcome == None || !e.outcome.value.Arm?
      ensures e.env == env ==> e.outcome == Some(Execute(false))
    {
      LoggedSent(u, e);
      DelayedRuns(p, env, i, d, msg, e.env);
    }
  }

  /**
   * End to end. The processing thread handles a request that asks for a delay of d, while the alarm thread is not between a
   * countdown of that operation's slot and the taking of it. Then over every run that leaves the slot alone, the command is
   * neither sent nor handled before the d-th countdown, is on its way with it and sent by the next one; and when it is
   * handled with authentication on it is, in the same environment, executed, and in no environment delayed again. Whoever
   * sent the request has one reply from it, and gets no other from its second pass.
   */
  lemma DelayedEndToEnd(p: Pipeline, env: Environment, m: Msg, i: Index, d: nat, msg: Message, acts: seq<Act>)
    requires Inv(p) && Allowed(p, Process(env, m)) && Delays(p, env, i, d, msg) && env.authenOn
    requires p.sys.pc != Ringing(i)
    requires AllAllowed(Do(p, Process(env, m)), acts) && Quiet(StepsOf(Do(p, Process(env, m)), acts), i)
    ensures var t := Do(p, Process(env, m));
            var u, n := Exec(t, acts), Countdowns(t.sys, StepsOf(t, acts), i);
            && |t.log| == |p.log| + 1
            && t.log[|p.log|].replies == Sendout(ReplyTo(Parse(p.store[p.hand.value].payload), p.store[p.hand.value].sender), 0)
            && (forall e :: e in u.log && e.m == m ==> e.replies == [])
            && (n < d ==> !Sent(u.sys, m) && forall e :: e in u.log ==> e.m != m)
            && (n >= d ==> Fired(u.sys, i, m))
            && (n > d ==> Sent(u.sys, m))
            && (forall e :: e in u.log && e.m == m && e.env == env ==> e.outcome == Some(Execute(false)))
            && (forall e :: e in u.log && e.m == m && e.env.authenOn ==> e.outcome == None || !e.outcome.value.Arm?)
  {
    var t := Do(p, Process(env, m));
    ProcessArms(p, env, m, i, d, msg);
    ActKeepsInv(p, Process(env, m));
    RunsSystem(t, acts);
    ExecKeepsInv(t, acts);
    ExecKeepsStore(t, acts, m);
    ExactDelay(t.sys, StepsOf(t, acts), i, m, d);
    if Countdowns(t.sys, StepsOf(t, acts), i) < d {
      WaitingNotSent(Exec(t, acts).sys, i, m);
    }
    DelayedIsLogged(p, env, i, d, msg, Exec(t, acts), m);
  }

  /** The processing thread takes the message at the front. */
  lemma FrontIsFetched(p: Pipeline)
    requires p.hand == None && p.sys.queue.contents != []
    ensures var q, first := Do(p, Fetch), p.sys.queue.contents[0];
            && q.hand == Some(first) && q.sys.queue.contents == p.sys.queue.contents[1..]
            && q.store == p.store && q.log == p.log
  {
  }

  /** It gives it to its handler. */
  lemma InHandIsHandled(q: Pipeline, env: Environment, m: Msg)
    requires Ready(q)
    ensures var t, first := Do(q, Process(env, m)), q.hand.value;
            && t.hand == None
            && t.log == q.log + [Event(first, env, Dispatch(env, q.store[first]), Answers(env, q.store[first]))]
  {
  }

  lemma NextIsHandled(p: Pipeline, env: Environment, m: Msg)
    requires Inv(p) && p.hand == None && p.sys.queue.contents != []
    ensures var first, t := p.sys.queue.contents[0], Do(Do(p, Fetch), Process(env, m));
            && first in p.store && WellFormed(p.store[first])
            && t.hand == None
            && t.log == p.log + [Event(first, env, Dispatch(env, p.store[first]), Answers(env, p.store[first]))]
  {
    FrontIsFetched(p);
    FetchKeepsInv(p);
    InHandIsHandled(Do(p, Fetch), env, m);
  }

  /** What comes in lies at its address and goes to the queue; the other acts are the alarm system's own steps. */
  lemma OtherActs(p: Pipeline, m: Msg, msg: Message, opcode: nat)
    ensures var t := Do(p, Receive(m, msg));
            t.store == p.store[m := msg] && t.sys == Next(p.sys, StepReceive(m)) && t.hand == p.hand && t.log == p.log
    ensures Do(p, AlarmTick) == p.(sys := Next(p.sys, StepAlarm))
    ensures Do(p, Cancel(opcode)) == p.(sys := Next(p.sys, StepDelete(opcode)))
  {
  }
}
