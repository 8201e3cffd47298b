/**
 * The delayed-command pipeline as a step system. A step is one lock region: the handlers add and delete alarms, the
 * receivers enqueue, the processing thread dequeues, and the alarm thread counts down, takes and enqueues, in between
 * which anyone else may run. A message is named by its address.
 */
module AlarmSystem {
  import opened Bytes
  import opened AlarmSpec
  import opened MsgQueue

  type Msg = nat

  /** Where the alarm thread is: before a countdown, after one that returned "up", or with a message in hand. */
  datatype Pc = At(idx: Index) | Ringing(idx: Index) | Holding(idx: Index, obj: Msg)

  /** The last five components only record the past. */
  datatype System = System(
    slots: Slots<Msg>, pc: Pc, queue: QState<Msg>,
    issued: set<Msg>, accepted: seq<Msg>, delivered: seq<Msg>, freed: seq<Msg>, leaked: seq<Msg>)

  datatype Step =
    | StepAdd(opcode: nat, interval: nat, msg: Msg)
    | StepDelete(opcode: nat)
    | StepReceive(msg: Msg)
    | StepProcess
    | StepAlarm

  function Init(maxLength: int): System {
    System(seq(SIZE, _ => Slot(false, 0, None)), At(0), QState([], maxLength), {}, [], [], [], [])
  }

  function Opt(m: Option<Msg>): seq<Msg> {
    if m == None then [] else [m.value]
  }

  /** Puts a message into the queue, which refuses it when it is full. */
  function Enqueue(s: System, m: Msg): (System, int) {
    var (q, r) := QInsert(s.queue, Some(m));
    (if r == 0 then s.(queue := q, accepted := s.accepted + [m]) else s, r)
  }

  /** The alarm thread does not look at the result, and nobody frees a message that was refused. */
  function EnqueueAlarm(s: System, m: Msg): System {
    var (t, r) := Enqueue(s, m);
    if r == 0 then t else t.(leaked := t.leaked + [m])
  }

  /** A receiver frees a message that was refused, though not its payload. */
  function EnqueueReceived(s: System, m: Msg): System {
    var (t, r) := Enqueue(s, m);
    if r == 0 then t else t.(freed := t.freed + [m])
  }

  function Advance(idx: Index): Pc {
    At(if idx + 1 < SIZE then idx + 1 else 0)
  }

  function AlarmStep(s: System): System
  {
    match s.pc
    case At(i) =>
      var (slots, up) := Countdown(s.slots, i);
      s.(slots := slots, pc := if up then Ringing(i) else Advance(i))
    case Ringing(i) =>
      var (slots, obj) := Take(s.slots, i);
      s.(slots := slots, pc := if obj.Some? then Holding(i, obj.value) else Advance(i))
    case Holding(i, m) =>
      EnqueueAlarm(s, m).(pc := Advance(i))
  }

  function Next(s: System, step: Step): System
  {
    match step
    case StepAdd(opcode, interval, m) =>
      var (slots, r) := Add(s.slots, opcode, interval, m);
      if r != 0 then s
      else s.(slots := slots, issued := s.issued + {m}, freed := s.freed + Opt(s.slots[ToIndex(opcode)].msg))
    case StepDelete(opcode) =>
      var (slots, r) := Delete(s.slots, opcode);
      if r != 0 then s else s.(slots := slots, freed := s.freed + Opt(s.slots[ToIndex(opcode)].msg))
    case StepReceive(m) =>
      EnqueueReceived(s, m).(issued := s.issued + {m})
    case StepProcess =>
      var (q, r) := QRemove(s.queue);
      s.(queue := q, delivered := s.delivered + Opt(r))
    case StepAlarm =>
      AlarmStep(s)
  }

  /** A new message lies at an address nobody holds. */
  predicate Enabled(s: System, step: Step) {
    && (step.StepAdd? ==> step.msg !in s.issued)
    && (step.StepReceive? ==> step.msg !in s.issued)
  }

  ghost predicate Possible(s: System, steps: seq<Step>)
    decreases |steps|
  {
    steps != [] ==> (Enabled(s, steps[0]) && Possible(Next(s, steps[0]), steps[1..]))
  }

  function Run(s: System, steps: seq<Step>): System
    decreases |steps|
  {
    if steps == [] then s else Run(Next(s, steps[0]), steps[1..])
  }

  // ---------------------------------------------------------------------------------------------------------------
  // Conservation
  // ---------------------------------------------------------------------------------------------------------------

  ghost function Copies(q: seq<Msg>, m: Msg): nat {
    multiset(q)[m]
  }

  ghost function InSlot(slot: Slot<Msg>, m: Msg): nat {
    if slot.msg == Some(m) then 1 else 0
  }

  ghost function InSlots(slots: Slots<Msg>, m: Msg): nat {
    InSlot(slots[0], m) + InSlot(slots[1], m) + InSlot(slots[2], m)
  }

  ghost function InHand(pc: Pc, m: Msg): nat {
    if pc.Holding? && pc.obj == m then 1 else 0
  }

  /**
   * How many copies of a message there are: in a slot, in the alarm thread's hand, queued, delivered, freed by whoever
   * overwrites or deletes it or cannot enqueue it, or leaked by the alarm thread at a full queue.
   */
  ghost function Places(s: System, m: Msg): nat {
    InSlots(s.slots, m) + InHand(s.pc, m)
    + Copies(s.queue.contents, m) + Copies(s.delivered, m) + Copies(s.freed, m) + Copies(s.leaked, m)
  }

  /** Every message handed in is in exactly one place, no other message is anywhere, and the queue is first in, first out. */
  ghost predicate Conserved(s: System) {
    && (forall m :: Places(s, m) == if m in s.issued then 1 else 0)
    && s.accepted == s.delivered + s.queue.contents
    && (s.queue.maxLength == UNLIMITED ==> s.leaked == [])
  }

  lemma CopiesAppend(a: seq<Msg>, b: seq<Msg>, m: Msg)
    ensures Copies(a + b, m) == Copies(a, m) + Copies(b, m)
  {
  }

  lemma CopiesOpt(x: Option<Msg>, m: Msg)
    ensures Copies(Opt(x), m) == if x == Some(m) then 1 else 0
  {
  }

  lemma InSlotsUpdate(slots: Slots<Msg>, i: Index, x: Slot<Msg>, m: Msg)
    ensures InSlots(slots[i := x], m) + InSlot(slots[i], m) == InSlots(slots, m) + InSlot(x, m)
  {
  }

  /** Overwriting a slot frees what it held. */
  lemma OverwritePlaces(s: System, i: Index, x: Slot<Msg>, m: Msg)
    ensures Places(s.(slots := s.slots[i := x], freed := s.freed + Opt(s.slots[i].msg)), m) == Places(s, m) + InSlot(x, m)
  {
    InSlotsUpdate(s.slots, i, x, m);
    CopiesAppend(s.freed, Opt(s.slots[i].msg), m);
    CopiesOpt(s.slots[i].msg, m);
  }

  lemma ProcessPlaces(s: System, m: Msg)
    ensures Places(Next(s, StepProcess), m) == Places(s, m)
  {
    if s.queue.contents != [] {
      var first, rest := [s.queue.contents[0]], s.queue.contents[1..];
      assert s.queue.contents == first + rest;
      CopiesAppend(first, rest, m);
      CopiesAppend(s.delivered, first, m);
    } else {
      assert s.delivered + [] == s.delivered;
    }
  }

  lemma AddPlaces(s: System, opcode: nat, interval: nat, x: Msg, m: Msg)
    ensures var t := Next(s, StepAdd(opcode, interval, x));
            || t == s
            || (Places(t, m) == Places(s, m) + (if x == m then 1 else 0) && t.issued == s.issued + {x})
  {
    var i := ToIndex(opcode);
    if i >= 0 && interval > 0 {
      OverwritePlaces(s, i, Slot(true, interval, Some(x)), m);
    }
  }

  lemma DeletePlaces(s: System, opcode: nat, m: Msg)
    ensures Places(Next(s, StepDelete(opcode)), m) == Places(s, m) && Next(s, StepDelete(opcode)).issued == s.issued
  {
    var i := ToIndex(opcode);
    if i >= 0 {
      OverwritePlaces(s, i, Slot(false, 0, None), m);
    }
  }

  lemma ReceivePlaces(s: System, x: Msg, m: Msg)
    ensures Places(Next(s, StepReceive(x)), m) == Places(s, m) + if x == m then 1 else 0
    ensures Next(s, StepReceive(x)).issued == s.issued + {x}
  {
    var _, u := EnqueuePlaces(s, x, m);
    assert Next(s, StepReceive(x)) == u.(issued := s.issued + {x});
  }

  /** A step changes the number of copies of a message only when it hands that message in. */
  lemma StepPlaces(s: System, step: Step, m: Msg)
    requires Enabled(s, step)
    ensures Places(Next(s, step), m) ==
              Places(s, m) + if m in Next(s, step).issued && m !in s.issued then 1 else 0
    ensures s.issued <= Next(s, step).issued
  {
    match step
    case StepAdd(opcode, interval, x) => AddPlaces(s, opcode, interval, x, m);
    case StepDelete(opcode) => DeletePlaces(s, opcode, m);
    case StepReceive(x) => ReceivePlaces(s, x, m);
    case StepProcess => ProcessPlaces(s, m);
    case StepAlarm => AlarmPlaces(s, m);
  }

  /** The queue's answer, as whoever inserts deals with it. */
  lemma EnqueuePlaces(s: System, x: Msg, m: Msg) returns (t: System, u: System)
    ensures t == EnqueueAlarm(s, x) && u == EnqueueReceived(s, x)
    ensures t.pc == s.pc && t.issued == s.issued && u.issued == s.issued
    ensures Places(t, m) == Places(s, m) + if x == m then 1 else 0
    ensures Places(u, m) == Places(s, m) + if x == m then 1 else 0
  {
    t, u := EnqueueAlarm(s, x), EnqueueReceived(s, x);
    CopiesAppend(s.queue.contents, [x], m);
    CopiesAppend(s.leaked, [x], m);
    CopiesAppend(s.freed, [x], m);
  }

  lemma PcPlaces(s: System, pc: Pc, m: Msg)
    ensures Places(s.(pc := pc), m) + InHand(s.pc, m) == Places(s, m) + InHand(pc, m)
  {
  }

  lemma CountdownPlaces(s: System, i: Index, m: Msg)
    requires s.pc == At(i)
    ensures Places(AlarmStep(s), m) == Places(s, m) && AlarmStep(s).issued == s.issued
  {
    InSlotsUpdate(s.slots, i, Countdown(s.slots, i).0[i], m);
  }

  lemma TakePlaces(s: System, i: Index, m: Msg)
    requires s.pc == Ringing(i)
    ensures Places(AlarmStep(s), m) == Places(s, m) && AlarmStep(s).issued == s.issued
  {
    InSlotsUpdate(s.slots, i, Take(s.slots, i).0[i], m);
  }

  lemma HandPlaces(s: System, i: Index, x: Msg, m: Msg)
    requires s.pc == Holding(i, x)
    ensures Places(AlarmStep(s), m) == Places(s, m) && AlarmStep(s).issued == s.issued
  {
    var t, _ := EnqueuePlaces(s, x, m);
    PcPlaces(t, Advance(i), m);
  }

  lemma AlarmPlaces(s: System, m: Msg)
    ensures Places(AlarmStep(s), m) == Places(s, m) && AlarmStep(s).issued == s.issued
  {
    match s.pc
    case At(i) => CountdownPlaces(s, i, m);
    case Ringing(i) => TakePlaces(s, i, m);
    case Holding(i, x) => HandPlaces(s, i, x, m);
  }

  lemma StepKeepsOrder(s: System, step: Step)
    requires s.accepted == s.delivered + s.queue.contents && (s.queue.maxLength == UNLIMITED ==> s.leaked == [])
    ensures var t := Next(s, step);
            && t.accepted == t.delivered + t.queue.contents
            && t.queue.maxLength == s.queue.maxLength && (t.queue.maxLength == UNLIMITED ==> t.leaked == [])
            && s.accepted <= t.accepted && s.leaked <= t.leaked
  {
    if step.StepProcess? {
      if s.queue.contents != [] {
        assert s.queue.contents == [s.queue.contents[0]] + s.queue.contents[1..];
      } else {
        assert s.delivered + [] == s.delivered;
      }
    }
  }

  lemma StepConserves(s: System, step: Step)
    requires Conserved(s) && Enabled(s, step)
    ensures Conserved(Next(s, step))
  {
    StepKeepsOrder(s, step);
    forall m
      ensures Places(Next(s, step), m) == if m in Next(s, step).issued then 1 else 0
    {
      StepPlaces(s, step, m);
    }
  }

  /**
   * Over every interleaving of the lock regions each message that was handed in is in exactly one place, and so it is
   * enqueued at most once; with the default unlimited queue none is ever leaked.
   */
  lemma {:induction false} RunConserves(s: System, steps: seq<Step>)
    requires Conserved(s) && Possible(s, steps)
    ensures Conserved(Run(s, steps))
    decreases |steps|
  {
    if steps != [] {
      StepConserves(s, steps[0]);
      RunConserves(Next(s, steps[0]), steps[1..]);
    }
  }

  lemma InitConserved(maxLength: int)
    ensures Conserved(Init(maxLength))
  {
  }

  lemma AcceptedOnce(s: System)
    requires Conserved(s)
    ensures forall i, j :: 0 <= i < j < |s.accepted| ==> s.accepted[i] != s.accepted[j]
  {
    forall i, j | 0 <= i < j < |s.accepted|
      ensures s.accepted[i] != s.accepted[j]
    {
      var m := s.accepted[i];
      CopiesAppend(s.delivered, s.queue.contents, m);
      CopiesAppend(s.accepted[..j], s.accepted[j..], m);
      assert s.accepted == s.accepted[..j] + s.accepted[j..];
      assert Places(s, m) <= 1;
      assert m in s.accepted[..j] by {
        assert s.accepted[..j][i] == m;
      }
      assert s.accepted[j..][0] == s.accepted[j];
    }
  }

  // ---------------------------------------------------------------------------------------------------------------
  // Exact delay
  // ---------------------------------------------------------------------------------------------------------------

  /** Nobody adds or deletes an alarm in slot i. */
  ghost predicate Quiet(steps: seq<Step>, i: Index) {
    forall step :: step in steps ==> !(step.StepAdd? && ToIndex(step.opcode) == i) && !(step.StepDelete? && ToIndex(step.opcode) == i)
  }

  /** How often a run counts slot i down. */
  function Countdowns(s: System, steps: seq<Step>, i: Index): nat
    decreases |steps|
  {
    if steps == [] then 0
    else (if steps[0].StepAlarm? && s.pc == At(i) then 1 else 0) + Countdowns(Next(s, steps[0]), steps[1..], i)
  }

  /** The message waits in slot i for `left` more countdowns. */
  ghost predicate Waiting(s: System, i: Index, m: Msg, left: nat) {
    left > 0 && s.slots[i] == Slot(true, left, Some(m)) && s.pc != Ringing(i)
  }

  /** The message has been handed to the queue. */
  ghost predicate Sent(s: System, m: Msg) {
    m in s.accepted || m in s.leaked
  }

  /** The message is on its way: until the alarm thread is back at a countdown, it has it or is about to take it. */
  ghost predicate Fired(s: System, i: Index, m: Msg) {
    || (s.pc == Ringing(i) && s.slots[i] == Slot(true, 0, Some(m)))
    || s.pc == Holding(i, m)
    || Sent(s, m)
  }

  lemma WaitingStep(s: System, step: Step, i: Index, m: Msg, left: nat)
    requires Waiting(s, i, m, left) && Quiet([step], i)
    ensures if step.StepAlarm? && s.pc == At(i) then
              if left == 1 then Fired(Next(s, step), i, m) else Waiting(Next(s, step), i, m, left - 1)
            else Waiting(Next(s, step), i, m, left)
  {
    assert step in [step];
  }

  lemma FiredStep(s: System, step: Step, i: Index, m: Msg)
    requires Fired(s, i, m) && Quiet([step], i)
    ensures Fired(Next(s, step), i, m)
    ensures s.pc == At(i) ==> Sent(s, m)
    ensures Sent(s, m) ==> Sent(Next(s, step), m)
  {
    assert step in [step];
  }

  /**
   * An alarm armed for d countdowns waits through the first d - 1 of them and fires with the d-th, for every
   * interleaving in which nobody touches its slot; once the alarm thread counts that slot down again, it is sent.
   */
  lemma {:induction false} ExactDelay(s: System, steps: seq<Step>, i: Index, m: Msg, d: nat)
    requires Waiting(s, i, m, d) && Quiet(steps, i)
    ensures var n, t := Countdowns(s, steps, i), Run(s, steps);
            && (n < d ==> Waiting(t, i, m, d - n))
            && (n >= d ==> Fired(t, i, m))
            && (n > d ==> Sent(t, m))
    decreases |steps|
  {
    if steps != [] {
      var t := Next(s, steps[0]);
      assert steps[0] in steps;
      WaitingStep(s, steps[0], i, m, d);
      if steps[0].StepAlarm? && s.pc == At(i) {
        if d == 1 {
          FiredRun(t, steps[1..], i, m);
        } else {
          ExactDelay(t, steps[1..], i, m, d - 1);
        }
      } else {
        ExactDelay(t, steps[1..], i, m, d);
      }
    }
  }

  lemma {:induction false} FiredRun(s: System, steps: seq<Step>, i: Index, m: Msg)
    requires Fired(s, i, m) && Quiet(steps, i)
    ensures Fired(Run(s, steps), i, m)
    ensures Countdowns(s, steps, i) > 0 || Sent(s, m) ==> Sent(Run(s, steps), m)
    decreases |steps|
  {
    if steps != [] {
      assert steps[0] in steps;
      FiredStep(s, steps[0], i, m);
      FiredRun(Next(s, steps[0]), steps[1..], i, m);
    }
  }

  /** No run that leaves the slot alone and counts it down fewer than d times sends the message. */
  ghost predicate NeverEarly(s: System, i: Index, m: Msg, d: nat) {
    forall steps :: Possible(s, steps) && Quiet(steps, i) && Countdowns(s, steps, i) < d ==> !Sent(Run(s, steps), m)
  }

  /**
   * A new alarm keeps its delay exactly when the alarm thread is not between a countdown of that slot that found an
   * older alarm due and the lock region that takes it: in that window the thread takes the new message at once.
   */
  lemma AddKeepsDelay(s: System, opcode: nat, d: nat, m: Msg)
    requires Conserved(s) && m !in s.issued && ToIndex(opcode) >= 0 && d > 0
    ensures NeverEarly(Next(s, StepAdd(opcode, d, m)), ToIndex(opcode), m, d) <==> s.pc != Ringing(ToIndex(opcode))
  {
    var i := ToIndex(opcode);
    var t := Next(s, StepAdd(opcode, d, m));
    if s.pc != Ringing(i) {
      forall steps | Possible(t, steps) && Quiet(steps, i) && Countdowns(t, steps, i) < d
        ensures !Sent(Run(t, steps), m)
      {
        StepConserves(s, StepAdd(opcode, d, m));
        ExactDelay(t, steps, i, m, d);
        RunConserves(t, steps);
        WaitingNotSent(Run(t, steps), i, m);
      }
    } else {
      var u := Next(t, StepAlarm);
      var v := Next(u, StepAlarm);
      var steps := [StepAlarm, StepAlarm];
      assert u.pc == Holding(i, m) && Sent(v, m);
      assert steps[1..] == [StepAlarm] && [StepAlarm][1..] == [];
      assert Run(u, [StepAlarm]) == v && Run(t, steps) == v;
      assert Countdowns(u, [StepAlarm], i) == 0 && Countdowns(t, steps, i) == 0;
      assert Possible(v, []) && Possible(u, [StepAlarm]) && Possible(t, steps);
    }
  }

  /** The window exists: after a reboot armed for one countdown and that countdown, a new one is sent early. */
  lemma WindowOpens(older: Msg, newer: Msg, d: nat)
    requires d > 0 && older != newer
    ensures var steps := [StepAdd(OP_REBOOT, 1, older), StepAlarm];
            var s := Run(Init(UNLIMITED), steps);
            && Possible(Init(UNLIMITED), steps) && Conserved(s) && s.pc == Ringing(ToIndex(OP_REBOOT))
            && !NeverEarly(Next(s, StepAdd(OP_REBOOT, d, newer)), ToIndex(OP_REBOOT), newer, d)
  {
    var start, steps := Init(UNLIMITED), [StepAdd(OP_REBOOT, 1, older), StepAlarm];
    var s1 := Next(start, steps[0]);
    var s2 := Next(s1, StepAlarm);
    assert steps[1..] == [StepAlarm] && [StepAlarm][1..] == [];
    assert Run(s2, []) == s2 && Run(s1, [StepAlarm]) == s2;
    assert Possible(s2, []) && Possible(s1, [StepAlarm]);
    InitConserved(UNLIMITED);
    RunConserves(start, steps);
    AddKeepsDelay(s2, OP_REBOOT, d, newer);
  }

  /** A message that is still in its slot is nowhere else. */
  lemma WaitingNotSent(s: System, i: Index, m: Msg)
    requires Conserved(s) && s.slots[i].msg == Some(m)
    ensures !Sent(s, m)
  {
    CopiesAppend(s.delivered, s.queue.contents, m);
    assert Places(s, m) <= 1;
  }

  // ---------------------------------------------------------------------------------------------------------------
  // The alarm thread's loop
  // ---------------------------------------------------------------------------------------------------------------

  /** How many lock regions of the alarm thread a run goes through. */
  function AlarmSteps(steps: seq<Step>): nat {
    if steps == [] then 0 else (if steps[0].StepAlarm? then 1 else 0) + AlarmSteps(steps[1..])
  }

  /** The lock regions of a round, three a slot at most, up to where the thread is. */
  function Progress(pc: Pc): nat {
    match pc
    case At(j) => 3 * j
    case Ringing(j) => 3 * j + 1
    case Holding(j, _) => 3 * j + 2
  }

  /** Whether the thread has counted slot i down in this round. */
  function Done(pc: Pc, i: Index): int {
    if 3 * i < Progress(pc) then 1 else 0
  }

  function Counted(s: System, step: Step, i: Index): int {
    if step.StepAlarm? && s.pc == At(i) then 1 else 0
  }

  /** A step takes all three counts on alike, but for the place in the round. */
  lemma RoundStep(s: System, step: Step, i: Index)
    ensures var pc := Next(s, step).pc;
            Counted(s, step, i) - Done(pc, i) + Done(s.pc, i) == Counted(s, step, 0) - Done(pc, 0) + Done(s.pc, 0)
  {
  }

  lemma {:induction false} RoundRun(s: System, steps: seq<Step>, i: Index)
    ensures var pc := Run(s, steps).pc;
            Countdowns(s, steps, i) - Done(pc, i) + Done(s.pc, i) == Countdowns(s, steps, 0) - Done(pc, 0) + Done(s.pc, 0)
    decreases |steps|
  {
    if steps != [] {
      RoundStep(s, steps[0], i);
      RoundRun(Next(s, steps[0]), steps[1..], i);
    }
  }

  /**
   * The thread goes round: in any run from the beginning of a round, slot 0 is counted down first, then slot 1, then slot 2,
   * and none more than once ahead of the others; when it is back, all three have been counted down equally often.
   */
  lemma RoundsAreEven(s: System, steps: seq<Step>)
    requires s.pc == At(0)
    ensures var n0, n1, n2 := Countdowns(s, steps, 0), Countdowns(s, steps, 1), Countdowns(s, steps, 2);
            n0 >= n1 >= n2 >= n0 - 1 && (Run(s, steps).pc == At(0) ==> n0 == n1 == n2)
  {
    RoundRun(s, steps, 1);
    RoundRun(s, steps, 2);
  }

  /** How far the thread has come since it last counted slot i down: from 0 right behind it to 8 in front of it. */
  function Since(pc: Pc, i: Index): nat {
    (Progress(pc) + 8 - 3 * i) % 9
  }

  /** The thread stays at its slot or goes on to the next one. */
  lemma PcStep(s: System, step: Step) returns (pc: Pc)
    ensures pc == Next(s, step).pc
    ensures !step.StepAlarm? ==> pc == s.pc
    ensures step.StepAlarm? ==> Progress(s.pc) < Progress(pc) <= Progress(s.pc) / 3 * 3 + 3 || (Progress(s.pc) >= 6 && Progress(pc) == 0)
  {
    pc := Next(s, step).pc;
  }

  lemma SinceProgress(a: nat, b: nat, i: Index)
    requires a < 9 && b < 9 && (a < b <= a / 3 * 3 + 3 || (a >= 6 && b == 0))
    ensures 9 * (if a == 3 * i then 1 else 0) + (b + 8 - 3 * i) % 9 >= (a + 8 - 3 * i) % 9 + 1
  {
  }

  lemma SinceStep(s: System, step: Step, i: Index)
    ensures 9 * Counted(s, step, i) + Since(Next(s, step).pc, i) >= Since(s.pc, i) + if step.StepAlarm? then 1 else 0
  {
    var pc := PcStep(s, step);
    if step.StepAlarm? {
      SinceProgress(Progress(s.pc), Progress(pc), i);
    }
  }

  lemma {:induction false} SinceRun(s: System, steps: seq<Step>, i: Index)
    ensures 9 * Countdowns(s, steps, i) + Since(Run(s, steps).pc, i) >= Since(s.pc, i) + AlarmSteps(steps)
    decreases |steps|
  {
    if steps != [] {
      SinceStep(s, steps[0], i);
      SinceRun(Next(s, steps[0]), steps[1..], i);
    }
  }

  /** Whatever the others do and wherever the thread is, nine of its steps count every slot down, and so k times nine k times. */
  lemma ThreadCounts(s: System, steps: seq<Step>, i: Index, k: nat)
    requires AlarmSteps(steps) >= 9 * k
    ensures Countdowns(s, steps, i) >= k
  {
    SinceRun(s, steps, i);
  }

  /** An alarm outside its window, in a slot that is left alone, is sent before the thread has taken 9(d + 1) steps. */
  lemma AlarmIsSent(s: System, opcode: nat, d: nat, m: Msg, steps: seq<Step>)
    requires ToIndex(opcode) >= 0 && d > 0 && s.pc != Ringing(ToIndex(opcode))
    requires Quiet(steps, ToIndex(opcode)) && AlarmSteps(steps) >= 9 * (d + 1)
    ensures Sent(Run(Next(s, StepAdd(opcode, d, m)), steps), m)
  {
    var t := Next(s, StepAdd(opcode, d, m));
    ThreadCounts(t, steps, ToIndex(opcode), d + 1);
    ExactDelay(t, steps, ToIndex(opcode), m, d);
  }

  /** A deleted alarm is freed, and never sent, however the run goes on. */
  lemma DeletedIsFreed(s: System, opcode: nat, m: Msg, steps: seq<Step>)
    requires Conserved(s) && ToIndex(opcode) >= 0 && s.slots[ToIndex(opcode)].msg == Some(m)
    requires Possible(Next(s, StepDelete(opcode)), steps)
    ensures var t := Run(Next(s, StepDelete(opcode)), steps); m in t.freed && !Sent(t, m)
  {
    var t := Next(s, StepDelete(opcode));
    StepConserves(s, StepDelete(opcode));
    RunConserves(t, steps);
    FreedStays(t, steps, m);
    FreedNotSent(Run(t, steps), m);
  }

  lemma {:induction false} FreedStays(s: System, steps: seq<Step>, m: Msg)
    requires m in s.freed
    ensures m in Run(s, steps).freed
    decreases |steps|
  {
    if steps != [] {
      FreedStays(Next(s, steps[0]), steps[1..], m);
    }
  }

  lemma FreedNotSent(s: System, m: Msg)
    requires Conserved(s) && m in s.freed
    ensures !Sent(s, m)
  {
    CopiesAppend(s.delivered, s.queue.contents, m);
    assert Places(s, m) <= 1;
  }

  /** The processing thread takes the message at the front, if there is one. */
  lemma ProcessTakes(s: System)
    ensures var t := Next(s, StepProcess);
            if s.queue.contents == [] then t.delivered == s.delivered && t.queue == s.queue
            else t.delivered == s.delivered + [s.queue.contents[0]] && t.queue.contents == s.queue.contents[1..]
  {
  }

  /** What comes in is queued when there is room, and freed when not; what the alarm thread holds is queued, or leaked. */
  lemma RoomDecides(s: System, m: Msg, i: Index)
    ensures var room := s.queue.maxLength == -1 || |s.queue.contents| < s.queue.maxLength;
            var t, u := Next(s, StepReceive(m)), Next(s.(pc := Holding(i, m)), StepAlarm);
            && t.queue.contents == u.queue.contents == (if room then s.queue.contents + [m] else s.queue.contents)
            && t.accepted == u.accepted == (if room then s.accepted + [m] else s.accepted)
            && t.freed == (if room then s.freed else s.freed + [m]) && t.leaked == s.leaked
            && u.leaked == (if room then s.leaked else s.leaked + [m]) && u.freed == s.freed
  {
  }
}
