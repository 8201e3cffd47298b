/**
 * One transfer at a time: the upgrade flag, the block that the firmware upgrade, backup and restore handlers share to start
 * a transfer, and the worker threads, as a step system over all interleavings.
 */
module UpgradeFlag {
  const GET := 1
  const PUT := 2
  const FAIL := 1

  /** A transfer to be made; status is what the worker reports while it makes it. */
  datatype Config = Config(action: int, hasMode: bool, server: string, remote: string, local: string)
  datatype Info = Info(config: Config, status: int)

  /** The same transfer, perhaps from or to another address. */
  predicate SameTransfer(a: Config, b: Config) {
    a.(server := b.server) == b
  }

  const CLEARED := Info(Config(0, false, "", "", ""), 0)

  /** What tftp_cli checks before it creates a thread. */
  predicate Acceptable(c: Config) {
    GET <= c.action <= PUT && c.hasMode && c.remote != ""
  }

  /** The new value of the flag and the return code. */
  function Set(flag: int, to: int): (r: (int, int))
    ensures r.1 == 0 <==> r.0 != flag
  {
    if flag == 1 && to == 0 then (0, 0)
    else if flag == 0 && to == 1 then (1, 0)
    else (flag, 1)
  }

  // ---------------------------------------------------------------------------------------------------------------
  // The system
  // ---------------------------------------------------------------------------------------------------------------

  /** Where a handler is with the transfer it wants to start, or the code that its last request ended with. */
  datatype Pc =
    | Done(ret: int)
    | Wants(c: Config)
    | SawFree(c: Config)
    | Owns(c: Config)
    | HasCleared(c: Config)
    | HasWritten(c: Config)
    | NoThread(c: Config)

  /** Live workers, by number, with what they were started for; `started` counts them. */
  datatype System = System(flag: int, info: Info, handlers: map<nat, Pc>, workers: map<nat, Config>, started: nat)

  datatype Step =
    | Ask(h: nat, c: Config)       // a request comes in
    | Go(h: nat, created: bool)    // a handler takes its next step; creating a thread may fail
    | Report(w: nat, status: int)  // a worker updates its status
    | Redirect(w: nat, server: string)  // a worker of the built-in client receives a datagram from this address
    | Finish(w: nat)               // a worker takes the flag down and ends

  const INIT := System(0, CLEARED, map[], map[], 0)

  function PcOf(s: System, h: nat): Pc {
    if h in s.handlers then s.handlers[h] else Done(0)
  }

  function At(s: System, h: nat, pc: Pc): System {
    s.(handlers := s.handlers[h := pc])
  }

  /** The shared block, one access to the flag, the shared info or the thread library at a time. */
  function Handle(s: System, h: nat, created: bool): System {
    match PcOf(s, h)
    case Done(_) => s
    case Wants(c) => At(s, h, if s.flag == 0 then SawFree(c) else Done(0))
    case SawFree(c) =>
      var (flag, r) := Set(s.flag, 1);
      At(s.(flag := flag), h, if r == 0 then Owns(c) else Done(-7))
    case Owns(c) => At(s.(info := CLEARED), h, HasCleared(c))
    case HasCleared(c) => At(s.(info := Info(c, 0)), h, HasWritten(c))
    case HasWritten(c) =>
      if !Acceptable(s.info.config) then At(s.(info := s.info.(status := FAIL)), h, Done(-8))
      else if created then At(s.(workers := s.workers[s.started := s.info.config], started := s.started + 1), h, Done(0))
      else At(s.(info := s.info.(status := FAIL)), h, NoThread(c))
    case NoThread(_) => At(s.(flag := Set(s.flag, 0).0), h, Done(-8))
  }

  function Do(s: System, step: Step): System {
    match step
    case Ask(h, c) => if PcOf(s, h).Done? then At(s, h, Wants(c)) else s
    case Go(h, created) => Handle(s, h, created)
    case Report(w, status) => if w in s.workers then s.(info := s.info.(status := status)) else s
    case Redirect(w, server) =>
      if w in s.workers then s.(info := s.info.(config := s.info.config.(server := server))) else s
    case Finish(w) => if w in s.workers then s.(flag := Set(s.flag, 0).0, workers := s.workers - {w}) else s
  }

  function Exec(s: System, steps: seq<Step>): System
    decreases |steps|
  {
    if steps == [] then s else Do(Exec(s, steps[..|steps| - 1]), steps[|steps| - 1])
  }

  // ---------------------------------------------------------------------------------------------------------------
  // Safety
  // ---------------------------------------------------------------------------------------------------------------

  predicate Critical(pc: Pc) {
    pc.Owns? || pc.HasCleared? || pc.HasWritten? || pc.NoThread?
  }

  ghost predicate Quiet(s: System) {
    forall h :: h in s.handlers ==> !Critical(s.handlers[h])
  }

  ghost predicate Inv(s: System) {
    && (s.flag == 0 || s.flag == 1)
    && (forall h, k :: h in s.handlers && k in s.handlers && Critical(s.handlers[h]) && Critical(s.handlers[k]) ==> h == k)
    && (forall h :: h in s.handlers && Critical(s.handlers[h]) ==> s.flag == 1 && s.workers == map[])
    && (forall h :: h in s.handlers && (s.handlers[h].HasWritten? || s.handlers[h].NoThread?) ==> s.info.config == s.handlers[h].c)
    && (forall w, v :: w in s.workers && v in s.workers ==> w == v)
    && (forall w :: w in s.workers ==> w < s.started && s.flag == 1 && SameTransfer(s.workers[w], s.info.config) && Acceptable(s.info.config))
  }

  lemma OutsideKeepsInv(s: System, h: nat, created: bool)
    requires Inv(s) && !Critical(PcOf(s, h))
    ensures Inv(Handle(s, h, created))
  {
  }

  lemma OwnerKeepsInv(s: System, h: nat, created: bool)
    requires Inv(s) && Critical(PcOf(s, h))
    ensures Inv(Handle(s, h, created))
  {
    assert s.workers == map[];
  }

  lemma HandleKeepsInv(s: System, h: nat, created: bool)
    requires Inv(s)
    ensures Inv(Handle(s, h, created))
  {
    if Critical(PcOf(s, h)) {
      OwnerKeepsInv(s, h, created);
    } else {
      OutsideKeepsInv(s, h, created);
    }
  }

  lemma StepKeepsInv(s: System, step: Step)
    requires Inv(s)
    ensures Inv(Do(s, step))
  {
    if step.Go? {
      HandleKeepsInv(s, step.h, step.created);
    }
  }

  lemma {:induction false} ExecKeepsInv(s: System, steps: seq<Step>)
    requires Inv(s)
    ensures Inv(Exec(s, steps))
    decreases |steps|
  {
    if steps != [] {
      ExecKeepsInv(s, steps[..|steps| - 1]);
      StepKeepsInv(Exec(s, steps[..|steps| - 1]), steps[|steps| - 1]);
    }
  }

  /** Over all interleavings, at most one worker is live; the flag is up while it is, and it has the shared info to itself. */
  lemma AtMostOneTransfer(steps: seq<Step>)
    ensures var s := Exec(INIT, steps);
            |s.workers| <= 1
            && (forall w :: w in s.workers ==> s.flag == 1 && SameTransfer(s.workers[w], s.info.config) && Quiet(s))
  {
    ExecKeepsInv(INIT, steps);
    var ws := Exec(INIT, steps).workers.Keys;
    if w :| w in ws {
      assert ws == {w};
    }
  }

  /** Worker numbers are not used again, and what a worker was started for stays. */
  lemma {:induction false} WorkersPersist(s: System, steps: seq<Step>, w: nat)
    requires Inv(s) && w < s.started && w in Exec(s, steps).workers
    ensures s.started <= Exec(s, steps).started && w in s.workers && Exec(s, steps).workers[w] == s.workers[w]
    decreases |steps|
  {
    if steps != [] {
      var before := steps[..|steps| - 1];
      StartedGrows(s, before);
      WorkersPersist(s, before, w);
    }
  }

  lemma {:induction false} StartedGrows(s: System, steps: seq<Step>)
    ensures s.started <= Exec(s, steps).started
    decreases |steps|
  {
    if steps != [] {
      StartedGrows(s, steps[..|steps| - 1]);
    }
  }

  /** What a step of worker w makes of the shared info. */
  function Written(info: Info, step: Step, w: nat): Info {
    match step
    case Report(v, status) => if v == w then info.(status := status) else info
    case Redirect(v, server) => if v == w then info.(config := info.config.(server := server)) else info
    case _ => info
  }

  function AllWritten(info: Info, steps: seq<Step>, w: nat): Info
    decreases |steps|
  {
    if steps == [] then info else Written(AllWritten(info, steps[..|steps| - 1], w), steps[|steps| - 1], w)
  }

  lemma LiveStep(s: System, step: Step, w: nat)
    requires Inv(s) && w < s.started && w in Do(s, step).workers
    ensures w in s.workers && Do(s, step).info == Written(s.info, step, w)
    ensures !step.Redirect? ==> Do(s, step).info.config == s.info.config
  {
  }

  /**
   * The shared info is never reset under a worker: from its start to its end nobody but this worker writes to it, and it
   * describes the transfer that the worker was started for, though the built-in client writes the addresses of the datagrams
   * that it receives over the server's.
   */
  lemma {:induction false} LiveInfoUntouched(s: System, steps: seq<Step>, w: nat)
    requires Inv(s) && w in s.workers && w in Exec(s, steps).workers
    ensures Exec(s, steps).info == AllWritten(s.info, steps, w)
    ensures SameTransfer(s.workers[w], Exec(s, steps).info.config)
    ensures (forall step :: step in steps ==> !step.Redirect?) ==> Exec(s, steps).info.config == s.info.config
    decreases |steps|
  {
    ExecKeepsInv(s, steps);
    WorkersPersist(s, steps, w);
    if steps != [] {
      var before, step := steps[..|steps| - 1], steps[|steps| - 1];
      StartedGrows(s, before);
      ExecKeepsInv(s, before);
      LiveStep(Exec(s, before), step, w);
      LiveInfoUntouched(s, before, w);
    }
  }

  /** Of two handlers that have both seen the flag down, the first to set it owns the transfer and the other is refused. */
  lemma RaceHasOneWinner(s: System, h: nat, k: nat, a: bool, b: bool)
    requires Inv(s) && s.flag == 0 && h != k && PcOf(s, h).SawFree? && PcOf(s, k).SawFree?
    ensures var t := Exec(s, [Go(h, a), Go(k, b)]);
            PcOf(t, h) == Owns(PcOf(s, h).c) && PcOf(t, k) == Done(-7) && t.info == s.info && t.workers == s.workers
  {
    var steps := [Go(h, a), Go(k, b)];
    assert steps[..1] == [Go(h, a)] && [Go(h, a)][..0] == [];
    assert Exec(s, []) == s;
    assert Exec(s, [Go(h, a)]) == Do(s, Go(h, a));
  }

  // ---------------------------------------------------------------------------------------------------------------
  // The flag that stays up
  // ---------------------------------------------------------------------------------------------------------------

  /** Someone is there to take the flag down. */
  ghost predicate Busy(s: System) {
    !Quiet(s) || s.workers != map[]
  }

  ghost predicate Stuck(s: System) {
    s.flag == 1 && !Busy(s)
  }

  /** A step in which tftp_cli refuses the transfer; that exit leaves the flag up. */
  predicate Rejects(s: System, step: Step) {
    step.Go? && PcOf(s, step.h).HasWritten? && !Acceptable(s.info.config)
  }

  lemma StuckOther(s: System, step: Step)
    requires Inv(s) && (s.flag == 1 ==> Busy(s)) && !step.Go?
    ensures Do(s, step).flag == 1 ==> Busy(Do(s, step))
  {
    if !Quiet(s) {
      var k :| k in s.handlers && Critical(s.handlers[k]);
      assert k in Do(s, step).handlers;
    }
  }

  /** A handler's step, when another one owns the transfer. */
  lemma StuckGoes(s: System, h: nat, created: bool, k: nat)
    requires Inv(s) && k in s.handlers && Critical(s.handlers[k])
    ensures Stuck(Handle(s, h, created)) <==> Rejects(s, Go(h, created))
    ensures !Rejects(s, Go(h, created)) ==> (Handle(s, h, created).flag == 1 ==> Busy(Handle(s, h, created)))
  {
    var t := Handle(s, h, created);
    assert k in t.handlers;
    assert h == k && created && s.handlers[k].HasWritten? && !Rejects(s, Go(h, created)) ==> s.started in t.workers;
  }

  lemma StuckStep(s: System, step: Step)
    requires Inv(s) && (s.flag == 1 ==> Busy(s))
    ensures Stuck(Do(s, step)) <==> Rejects(s, step)
    ensures !Rejects(s, step) ==> (Do(s, step).flag == 1 ==> Busy(Do(s, step)))
  {
    if !step.Go? {
      StuckOther(s, step);
    } else if !Quiet(s) {
      var k :| k in s.handlers && Critical(s.handlers[k]);
      StuckGoes(s, step.h, step.created, k);
    } else if PcOf(s, step.h).SawFree? {
      assert step.h in Do(s, step).handlers;
    }
  }

  lemma StuckStepStays(s: System, step: Step)
    requires Stuck(s)
    ensures Stuck(Do(s, step)) && Do(s, step).info == s.info && Do(s, step).started == s.started
  {
  }

  /** Once stuck, no interleaving starts a transfer ever again. */
  lemma {:induction false} StuckStays(s: System, steps: seq<Step>)
    requires Stuck(s)
    ensures var t := Exec(s, steps); Stuck(t) && t.info == s.info && t.started == s.started
    decreases |steps|
  {
    if steps != [] {
      StuckStays(s, steps[..|steps| - 1]);
      StuckStepStays(Exec(s, steps[..|steps| - 1]), steps[|steps| - 1]);
    }
  }

  ghost predicate EverRejects(steps: seq<Step>) {
    exists i :: 0 <= i < |steps| && Rejects(Exec(INIT, steps[..i]), steps[i])
  }

  /** The flag is up without a transfer exactly when some request has been refused by tftp_cli's own checks. */
  lemma {:induction false} StuckExactly(steps: seq<Step>)
    ensures var s := Exec(INIT, steps);
            (Stuck(s) <==> EverRejects(steps)) && (!EverRejects(steps) ==> (s.flag == 1 <==> Busy(s)))
    decreases |steps|
  {
    ExecKeepsInv(INIT, steps);
    if steps != [] {
      var before, step := steps[..|steps| - 1], steps[|steps| - 1];
      var s := Exec(INIT, before);
      StuckExactly(before);
      ExecKeepsInv(INIT, before);
      EverRejectsStep(steps);
      if EverRejects(before) {
        StuckStepStays(s, step);
      } else {
        StuckStep(s, step);
      }
    }
  }

  lemma EverRejectsStep(steps: seq<Step>)
    requires steps != []
    ensures var before := steps[..|steps| - 1];
            EverRejects(steps) <==> EverRejects(before) || Rejects(Exec(INIT, before), steps[|steps| - 1])
  {
    var before := steps[..|steps| - 1];
    assert forall i :: 0 <= i < |before| ==> before[..i] == steps[..i] && before[i] == steps[i];
  }

  // ---------------------------------------------------------------------------------------------------------------
  // A request that nobody interferes with
  // ---------------------------------------------------------------------------------------------------------------

  /** A handler that gets through the whole block by itself. */
  function Alone(s: System, h: nat, c: Config, created: bool): System {
    var s1 := Handle(At(s, h, Wants(c)), h, created);
    var s3 := Handle(Handle(s1, h, created), h, created);
    Handle(Handle(Handle(s3, h, created), h, created), h, created)
  }

  /** The flag, the shared info and the return code after the block, when nobody interferes. */
  function Block(flag: int, info: Info, c: Config, created: bool): (int, Info, int) {
    if flag != 0 then (flag, info, 0)
    else if !Acceptable(c) then (1, Info(c, FAIL), -8)
    else if created then (1, Info(c, 0), 0)
    else (0, Info(c, FAIL), -8)
  }

  /** Up to the test-and-set. */
  lemma AloneSets(s: System, h: nat, c: Config, created: bool)
    ensures var t := Handle(Handle(At(s, h, Wants(c)), h, created), h, created);
            t == if s.flag == 0 then At(s.(flag := 1), h, Owns(c)) else At(s, h, Done(0))
  {
    var s1 := Handle(At(s, h, Wants(c)), h, created);
    if s.flag == 0 {
      assert s1 == At(s, h, SawFree(c));
      assert Handle(s1, h, created) == At(s.(flag := 1), h, Owns(c));
    } else {
      assert s1 == At(s, h, Done(0));
    }
  }

  /** From there to the launch. */
  lemma AloneWrites(s: System, h: nat, c: Config, created: bool)
    ensures var t := Handle(Handle(At(s, h, Owns(c)), h, created), h, created);
            t == At(s.(info := Info(c, 0)), h, HasWritten(c))
  {
    assert Handle(At(s, h, Owns(c)), h, created) == At(s.(info := CLEARED), h, HasCleared(c));
  }

  lemma AloneIsBlock(s: System, h: nat, c: Config, created: bool)
    ensures var t := Alone(s, h, c, created);
            var (flag, info, ret) := Block(s.flag, s.info, c, created);
            t.flag == flag && t.info == info && PcOf(t, h) == Done(ret)
  {
    AloneSets(s, h, c, created);
    AloneWrites(s.(flag := 1), h, c, created);
  }

  /** The step from s to t has started a worker for c. */
  predicate Launched(s: System, t: System, c: Config) {
    && t.started == s.started + 1 && t.info == Info(c, 0)
    && s.started in t.workers && t.workers[s.started] == c
  }

  /**
   * It starts a worker exactly when the flag is down, the transfer is acceptable and the thread is created. It reports
   * success in these cases and also, without starting anything, whenever the flag is up.
   */
  lemma AloneStarts(s: System, h: nat, c: Config, created: bool)
    requires Inv(s) && !Critical(PcOf(s, h))
    ensures var t := Alone(s, h, c, created);
            (Launched(s, t, c) <==> s.flag == 0 && Acceptable(c) && created)
            && (PcOf(t, h) == Done(0) || PcOf(t, h) == Done(-8))
            && (PcOf(t, h) == Done(0) <==> s.flag == 1 || (Acceptable(c) && created))
            && (s.flag == 1 ==> t == At(s, h, Done(0)))
            && (s.flag == 0 ==> (Stuck(t) <==> !Acceptable(c)))
  {
    AloneSets(s, h, c, created);
    AloneWrites(s.(flag := 1), h, c, created);
  }

  /**
   * The same with the conditions written out: a transfer is launched for a download or an upload, with a mode and a remote
   * file, when the flag is down and the thread is created; without one of the first three it is refused and the flag stays
   * up; without the thread it fails and the flag is taken down again.
   */
  lemma AloneComesTo(s: System, h: nat, c: Config, created: bool)
    requires Inv(s) && !Critical(PcOf(s, h))
    ensures var t, good := Alone(s, h, c, created), (c.action == 1 || c.action == 2) && c.hasMode && |c.remote| > 0;
            && (s.flag == 1 ==> PcOf(t, h) == Done(0) && t.flag == 1 && t.info == s.info && t.workers == s.workers)
            && (s.flag == 0 && good && created ==>
                  && PcOf(t, h) == Done(0) && t.flag == 1 && t.info == Info(c, 0) && t.started == s.started + 1
                  && t.workers == s.workers[s.started := c])
            && (s.flag == 0 && good && !created ==>
                  PcOf(t, h) == Done(-8) && t.flag == 0 && t.info == Info(c, 1) && t.workers == s.workers && !Stuck(t))
            && (s.flag == 0 && !good ==>
                  PcOf(t, h) == Done(-8) && t.flag == 1 && t.info == Info(c, 1) && t.workers == s.workers && Stuck(t))
  {
    AloneSets(s, h, c, created);
    AloneWrites(s.(flag := 1), h, c, created);
  }

  /** A request makes an idle handler want its transfer; a worker that ends takes the flag down and is gone. */
  lemma AsksAndEnds(s: System, h: nat, c: Config, w: nat)
    requires Inv(s)
    ensures PcOf(s, h).Done? ==> Do(s, Ask(h, c)) == s.(handlers := s.handlers[h := Wants(c)])
    ensures !PcOf(s, h).Done? ==> Do(s, Ask(h, c)) == s
    ensures w in s.workers ==> Do(s, Finish(w)) == s.(flag := 0, workers := map[])
  {
    if w in s.workers {
      assert s.workers - {w} == map[];
    }
  }

  /** The undisturbed block, with the conditions written out. */
  lemma BlockComesTo(flag: int, info: Info, c: Config, created: bool)
    requires flag == 0 || flag == 1
    ensures var good := (c.action == 1 || c.action == 2) && c.hasMode && |c.remote| > 0;
            Block(flag, info, c, created) == if flag == 1 then (1, info, 0)
                                             else if good && created then (1, Info(c, 0), 0)
                                             else if good then (0, Info(c, 1), -8)
                                             else (1, Info(c, 1), -8)
  {
  }

  /** The four cases of the flag's setter. */
  lemma SetCases(flag: int, to: int)
    ensures Set(0, 1) == (1, 0) && Set(1, 0) == (0, 0)
    ensures !(flag == 0 && to == 1) && !(flag == 1 && to == 0) ==> Set(flag, to) == (flag, 1)
  {
  }

  /** The refusal that leaves the flag up, with the condition written out. */
  lemma StuckByRefusal(steps: seq<Step>)
    ensures Stuck(Exec(INIT, steps)) <==>
              exists i :: 0 <= i < |steps| && steps[i].Go?
                          && var s := Exec(INIT, steps[..i]);
                             steps[i].h in s.handlers && s.handlers[steps[i].h].HasWritten?
                             && var c := s.handlers[steps[i].h].c;
                                !((c.action == 1 || c.action == 2) && c.hasMode && |c.remote| > 0)
  {
    StuckExactly(steps);
    forall i | 0 <= i < |steps|
      ensures Inv(Exec(INIT, steps[..i]))
    {
      ExecKeepsInv(INIT, steps[..i]);
    }
  }

  /** The flag and the shared info as the daemon keeps them. */
  class Upgrade {
    var flag: int
    var info: Info

    constructor ()
      ensures flag == INIT.flag && info == INIT.info
    {
      flag, info := 0, CLEARED;
    }

    method GetFlag() returns (r: int)
      ensures r == flag
    {
      r := flag;
    }

    method SetFlag(to: int) returns (r: int)
      modifies `flag
      ensures (flag, r) == Set(old(flag), to)
    {
      r := 1;
      if flag == 1 && to == 0 {
        flag := 0;
        r := 0;
      } else if flag == 0 && to == 1 {
        flag := 1;
        r := 0;
      }
    }

    /** The launch function: its own checks, then the thread. */
    method TftpCli(created: bool) returns (ret: int)
      modifies this
      ensures var c := old(info).config;
              ret == if !((c.action == 1 || c.action == 2) && c.hasMode && |c.remote| > 0) then -2 else if created then 0 else -3
      ensures info == if ret == 0 then old(info) else old(info).(status := FAIL)
      ensures flag == if ret == -3 then Set(old(flag), 0).0 else old(flag)
    {
      var c := info.config;
      if c.action < GET || PUT < c.action || !c.hasMode || |c.remote| == 0 {
        info := info.(status := FAIL);
        return -2;
      }
      ret := 0;
      if !created {
        info := info.(status := FAIL);
        ret := -3;
        var r := SetFlag(0);
      }
    }

    /** The block that the three handlers share. */
    method StartTransfer(c: Config, created: bool) returns (ret: int)
      requires flag == 0 || flag == 1
      modifies this
      ensures (flag, info, ret) == Block(old(flag), old(info), c, created)
    {
      ret := 0;
      var f := GetFlag();
      if f == 0 {
        var r := SetFlag(1);
        if r == 0 {
          info := CLEARED;
          info := Info(c, 0);
          var launched := TftpCli(created);
          if launched != 0 {
            ret := -8;
          }
        } else {
          ret := -7;
        }
      }
    }
  }
}
