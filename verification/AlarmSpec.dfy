/** The alarm slots for delayed reboot, reset and factory reset, as values. */
module AlarmSpec {
  import opened Bytes

  const SIZE := 3
  type Index = i: nat | i < SIZE

  const OP_REBOOT := 0x0103
  const OP_RESET := 0x00AA
  const OP_FACTORY_RESET := 0x00AB

  /** `armed` is the slot's state, `interval` the countdowns still to come. */
  datatype Slot<M> = Slot(armed: bool, interval: nat, msg: Option<M>)

  type Slots<M> = s: seq<Slot<M>> | |s| == SIZE witness seq(SIZE, _ => Slot(false, 0, None))

  function ToIndex(opcode: nat): int {
    if opcode == OP_REBOOT then 0
    else if opcode == OP_RESET then 1
    else if opcode == OP_FACTORY_RESET then 2
    else -1
  }

  function ToOpcode(idx: int): nat {
    if idx == 0 then OP_REBOOT
    else if idx == 1 then OP_RESET
    else if idx == 2 then OP_FACTORY_RESET
    else 0
  }

  /** The two maps are inverse to each other on the slots, and name nothing else. */
  lemma IndexOpcodeInverse(idx: int, opcode: nat)
    ensures (ToIndex(opcode) == idx && idx >= 0) <==> (ToOpcode(idx) == opcode && opcode != 0)
    ensures -1 <= ToIndex(opcode) < SIZE
  {
  }

  /** Reboot, reset and factory reset, in the order of their slots; every other operation has none. */
  lemma SlotOfOpcode(opcode: nat)
    ensures ToIndex(0x0103) == 0 && ToIndex(0x00AA) == 1 && ToIndex(0x00AB) == 2
    ensures opcode != 0x0103 && opcode != 0x00AA && opcode != 0x00AB ==> ToIndex(opcode) == -1
  {
  }

  function Add<M>(s: Slots<M>, opcode: nat, interval: nat, msg: M): (Slots<M>, int) {
    var i := ToIndex(opcode);
    if i < 0 then (s, -1) else if interval == 0 then (s, -2) else (s[i := Slot(true, interval, Some(msg))], 0)
  }

  function Delete<M>(s: Slots<M>, opcode: nat): (Slots<M>, int) {
    var i := ToIndex(opcode);
    if i < 0 then (s, -1) else (s[i := Slot(false, 0, None)], 0)
  }

  function Countdown<M>(s: Slots<M>, i: Index): (Slots<M>, bool)
  {
    var left := if s[i].interval > 0 then s[i].interval - 1 else 0;
    (s[i := s[i].(interval := left)], s[i].armed && left == 0)
  }

  function Take<M>(s: Slots<M>, i: Index): (Slots<M>, Option<M>)
  {
    if s[i].armed && s[i].msg.Some? then (s[i := s[i].(armed := false, msg := None)], s[i].msg) else (s, None)
  }

  /** What adding an alarm comes to: the operation's own slot is armed, and the others stay. */
  lemma AddComesTo<M>(s: Slots<M>, opcode: nat, interval: nat, msg: M, i: Index)
    ensures var (after, r) := Add(s, opcode, interval, msg);
            && r == (if opcode != 0x0103 && opcode != 0x00AA && opcode != 0x00AB then -1 else if interval == 0 then -2 else 0)
            && (r != 0 ==> after == s)
            && (r == 0 ==> after[i] == if (opcode == 0x0103 && i == 0) || (opcode == 0x00AA && i == 1) || (opcode == 0x00AB && i == 2)
                                       then Slot(true, interval, Some(msg)) else s[i])
  {
  }

  /** And deleting one. */
  lemma DeleteComesTo<M>(s: Slots<M>, opcode: nat, i: Index)
    ensures var (after, r) := Delete(s, opcode);
            && r == (if opcode != 0x0103 && opcode != 0x00AA && opcode != 0x00AB then -1 else 0)
            && (r != 0 ==> after == s)
            && (r == 0 ==> after[i] == if (opcode == 0x0103 && i == 0) || (opcode == 0x00AA && i == 1) || (opcode == 0x00AB && i == 2)
                                       then Slot(false, 0, None) else s[i])
  {
  }
}
