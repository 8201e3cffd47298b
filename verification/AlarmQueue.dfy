/** The array of alarm slots. One call is one lock region. */
module AlarmQueue {
  import opened Bytes
  import Spec = AlarmSpec
  import opened AlarmSpec

  class AlarmSlots<M> {
    const slots: array<Slot<M>>

    ghost predicate Valid()
      reads this
    {
      slots.Length == SIZE
    }

    ghost function Value(): Slots<M>
      reads this, slots
      requires Valid()
    {
      slots[..]
    }

    constructor ()
      ensures Valid() && fresh(slots)
      ensures forall i :: 0 <= i < SIZE ==> Value()[i] == Slot(false, 0, None)
    {
      slots := new Slot<M>[SIZE](_ => Slot(false, 0, None));
    }

    /** `freed` is the message that a replaced alarm held. */
    method Add(opcode: nat, interval: nat, msg: M) returns (r: int, freed: Option<M>)
      requires Valid()
      modifies slots
      ensures (Value(), r) == Spec.Add(old(Value()), opcode, interval, msg)
      ensures freed == if r == 0 then old(Value())[ToIndex(opcode)].msg else None
    {
      freed := None;
      var idx := ToIndex(opcode);
      if idx < 0 {
        return -1, freed;
      }
      if interval <= 0 {
        return -2, freed;
      }
      if slots[idx].msg.Some? {
        freed := slots[idx].msg;
        slots[idx] := slots[idx].(msg := None);
      }
      slots[idx] := slots[idx].(armed := true);
      slots[idx] := slots[idx].(interval := interval);
      slots[idx] := slots[idx].(msg := Some(msg));
      assert slots[..] == old(slots[..])[idx := Slot(true, interval, Some(msg))];
      r := 0;
    }

    method Delete(opcode: nat) returns (r: int, freed: Option<M>)
      requires Valid()
      modifies slots
      ensures (Value(), r) == Spec.Delete(old(Value()), opcode)
      ensures freed == if r == 0 then old(Value())[ToIndex(opcode)].msg else None
    {
      freed := None;
      var idx := ToIndex(opcode);
      if idx < 0 {
        return -1, freed;
      }
      slots[idx] := slots[idx].(armed := false);
      slots[idx] := slots[idx].(interval := 0);
      if slots[idx].msg.Some? {
        freed := slots[idx].msg;
        slots[idx] := slots[idx].(msg := None);
      }
      assert slots[..] == old(slots[..])[idx := Slot(false, 0, None)];
      r := 0;
    }

    /** The lock region of the alarm's `up`: the message leaves the slot. */
    method Take(idx: Index) returns (obj: Option<M>)
      requires Valid()
      modifies slots
      ensures (Value(), obj) == Spec.Take(old(Value()), idx)
    {
      obj := None;
      if slots[idx].armed && slots[idx].msg.Some? {
        obj := slots[idx].msg;
        slots[idx] := slots[idx].(msg := None);
        slots[idx] := slots[idx].(armed := false);
      }
      assert slots[..] == Spec.Take(old(Value()), idx).0;
    }

    method Countdown(idx: Index) returns (up: bool)
      requires Valid()
      modifies slots
      ensures (Value(), up) == Spec.Countdown(old(Value()), idx)
    {
      up := false;
      if slots[idx].interval > 0 {
        slots[idx] := slots[idx].(interval := slots[idx].interval - 1);
      }
      if slots[idx].armed && slots[idx].interval == 0 {
        up := true;
      }
      assert slots[..] == Spec.Countdown(old(Value()), idx).0;
    }
  }
}
