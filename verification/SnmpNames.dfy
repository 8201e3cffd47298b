/** The platform's four SNMP name tables: ten slots of 32 bytes each, in one block of memory. */
module SnmpNames {
  import opened Bytes

  const NAME_LEN := 32
  const NAMES_MAX := 10

  datatype SetResult = SetOk | NoData | ViewNameLost | TableFull

  /** A C string's characters: no zero among them. */
  predicate CString(s: seq<byte>) {
    forall i :: 0 <= i < |s| ==> s[i] != 0
  }

  /** A name that a slot can hold, if need be without a terminating zero. */
  predicate IsName(s: seq<byte>) {
    CString(s) && 0 < |s| <= NAME_LEN
  }

  function Pad(name: seq<byte>): (r: seq<byte>)
    ensures |name| <= NAME_LEN ==> |r| == NAME_LEN
  {
    name + Zeros(if |name| <= NAME_LEN then NAME_LEN - |name| else 0)
  }

  /** A name, and zeros up to 32. */
  lemma PadBytes(name: seq<byte>, i: nat)
    requires |name| <= 32
    ensures |Pad(name)| == 32 && (i < |name| ==> Pad(name)[i] == name[i]) && (|name| <= i < 32 ==> Pad(name)[i] == 0)
  {
  }

  /** The slots that hold these names. */
  function Image(names: seq<seq<byte>>): (r: seq<byte>) {
    if names == [] then [] else Image(names[..|names| - 1]) + Pad(names[|names| - 1])
  }

  ghost predicate AllNames(names: seq<seq<byte>>) {
    forall i :: 0 <= i < |names| ==> IsName(names[i])
  }

  lemma {:induction false} ImageLength(names: seq<seq<byte>>)
    requires AllNames(names)
    ensures |Image(names)| == NAME_LEN * |names|
  {
    if names != [] {
      ImageLength(names[..|names| - 1]);
    }
  }

  lemma {:induction false} ImageBlock(names: seq<seq<byte>>, i: nat)
    requires AllNames(names) && i < |names|
    ensures |Image(names)| == NAME_LEN * |names|
    ensures Image(names)[NAME_LEN * i..NAME_LEN * (i + 1)] == Pad(names[i])
  {
    var front := names[..|names| - 1];
    ImageLength(names);
    ImageLength(front);
    if i < |front| {
      ImageBlock(front, i);
      assert Image(names)[NAME_LEN * i..NAME_LEN * (i + 1)] == Image(front)[NAME_LEN * i..NAME_LEN * (i + 1)];
    }
  }

  /** A slot's first byte tells whether it is used. */
  lemma ImageAt(names: seq<seq<byte>>, i: nat, j: nat)
    requires AllNames(names) && i < |names| && j < NAME_LEN
    ensures |Image(names)| == NAME_LEN * |names|
    ensures Image(names)[NAME_LEN * i + j] == Pad(names[i])[j]
    ensures Image(names)[NAME_LEN * i] != 0
  {
    ImageBlock(names, i);
    var block := Image(names)[NAME_LEN * i..NAME_LEN * (i + 1)];
    assert block[j] == Pad(names[i])[j] && block[0] == names[i][0];
  }

  /** What a getter hands to the protocol engine: so many blocks of 32 bytes. */
  datatype Container = Container(number: nat, list: seq<byte>) {
    predicate Valid() {
      |list| == NAME_LEN * number
    }

    function Block(i: nat): (r: seq<byte>)
      requires Valid() && i < number
      ensures |r| == NAME_LEN
    {
      list[NAME_LEN * i..NAME_LEN * (i + 1)]
    }
  }

  class NameTable {
    const bytes: array<byte>            // the slots one behind the other
    const viewNames: bool               // the view tables refuse empty names
    ghost var names: seq<seq<byte>>     // the names in the used slots, which form a prefix

    ghost predicate Valid()
      reads this, bytes
    {
      && bytes.Length == NAME_LEN * NAMES_MAX
      && |names| <= NAMES_MAX && AllNames(names)
      && bytes[..] == Image(names) + Zeros(NAME_LEN * (NAMES_MAX - |names|))
    }

    constructor (viewNames: bool)
      ensures Valid() && names == [] && fresh(bytes)
    {
      bytes := new byte[NAME_LEN * NAMES_MAX](_ => 0);
      this.viewNames := viewNames;
      names := [];
    }

    lemma SlotUsed(i: nat)
      requires Valid() && i < NAMES_MAX
      ensures bytes[NAME_LEN * i] != 0 <==> i < |names|
    {
      ImageLength(names);
      assert bytes[NAME_LEN * i] == bytes[..][NAME_LEN * i];
      if i < |names| {
        ImageAt(names, i, 0);
      }
    }

    /** strlen(slot) > 0 */
    predicate Used(i: nat)
      reads this, bytes
      requires Valid() && i < NAMES_MAX
      ensures Used(i) <==> i < |names|
    {
      SlotUsed(i);
      bytes[NAME_LEN * i] != 0
    }

    /** Fills the first free slot. `data` is a C string, of which `dataLen` characters count, and at most 32. */
    method Set(data: seq<byte>, dataLen: nat) returns (r: SetResult)
      requires Valid() && CString(data)
      modifies this, bytes
      ensures Valid()
      ensures r == if dataLen == 0 then NoData
                   else if viewNames && data == [] then ViewNameLost
                   else if |old(names)| == 10 then TableFull
                   else SetOk
      ensures names == if r == SetOk && data != [] then old(names) + [data[..Min(|data|, Min(dataLen, 32))]] else old(names)
    {
      if dataLen == 0 {
        return NoData;
      }
      if viewNames && data == [] {
        return ViewNameLost;
      }
      var len := dataLen;
      if len >= NAME_LEN {
        len := NAME_LEN;
      }
      for i := 0 to NAMES_MAX
        invariant Valid() && names == old(names) && i <= |names|
      {
        if !Used(i) {
          Copy(i, data, len);
          return SetOk;
        }
      }
      r := TableFull;
    }

    /** strncpy into the free slot i: the characters, and zeros up to `len`. */
    method Copy(i: nat, data: seq<byte>, len: nat)
      requires Valid() && CString(data) && i == |names| < NAMES_MAX
      requires 0 < len <= NAME_LEN
      modifies this, bytes
      ensures Valid()
      ensures names == if data != [] then old(names) + [data[..Min(|data|, len)]] else old(names)
    {
      ImageLength(names);
      ghost var was, name := bytes[..], data[..Min(|data|, len)];
      forall j | 0 <= j < len {
        bytes[NAME_LEN * i + j] := if j < |data| then data[j] else 0;
      }
      assert bytes[..NAME_LEN * i] == was[..NAME_LEN * i] == Image(names);
      assert bytes[NAME_LEN * i..NAME_LEN * (i + 1)] == Pad(name);
      assert bytes[NAME_LEN * (i + 1)..] == Zeros(NAME_LEN * (NAMES_MAX - (i + 1)));
      assert bytes[..] == bytes[..NAME_LEN * i] + bytes[NAME_LEN * i..NAME_LEN * (i + 1)] + bytes[NAME_LEN * (i + 1)..];
      if data != [] {
        names := names + [name];
        assert names[..i] == old(names);
      } else {
        assert bytes[..] == was;
      }
    }

    /** Every string that the getter copies ends inside the blocks that it has allocated. */
    ghost predicate Terminated()
      reads this
    {
      names == [] || |names[|names| - 1]| < NAME_LEN
    }

    lemma BytesAreImage()
      requires Valid()
      ensures |Image(names)| == NAME_LEN * |names|
      ensures forall k :: 0 <= k < |Image(names)| ==> bytes[k] == Image(names)[k]
    {
      ImageLength(names);
      forall k | 0 <= k < |Image(names)|
        ensures bytes[k] == Image(names)[k]
      {
        assert bytes[k] == bytes[..][k];
      }
    }

    /**
     * strcpy of the string in slot i to block i. Slots and blocks lie one behind the other, so a name of 32 characters runs
     * on into the next; `inside` says that the terminating zero came before the end of the blocks.
     */
    method CopyOut(i: nat, arr: array<byte>) returns (inside: bool)
      requires Valid() && i < |names| && arr != bytes && arr.Length == |Image(names)|
      modifies arr
      ensures inside <==> exists k :: NAME_LEN * i <= k < |Image(names)| && Image(names)[k] == 0
      ensures forall k :: 0 <= k < arr.Length ==> arr[k] == old(arr[k]) || (k >= NAME_LEN * i && arr[k] == Image(names)[k])
      ensures inside ==> forall k :: NAME_LEN * i <= k < NAME_LEN * i + |names[i]| && k < arr.Length ==> arr[k] == Image(names)[k]
    {
      ghost var image := Image(names);
      BytesAreImage();
      inside := CopyString(NAME_LEN * i, arr, image);
      if inside {
        forall k | NAME_LEN * i <= k < NAME_LEN * i + |names[i]| && k < arr.Length
          ensures image[k] != 0
        {
          ImageAt(names, i, k - NAME_LEN * i);
        }
      }
    }

    /** strcpy from and to the same position of the two blocks of memory, of which the first starts like the image. */
    method CopyString(from: nat, arr: array<byte>, ghost image: seq<byte>) returns (inside: bool)
      requires arr != bytes && from <= arr.Length == |image| <= bytes.Length
      requires forall k :: 0 <= k < |image| ==> bytes[k] == image[k]
      modifies arr
      ensures inside <==> exists k :: from <= k < |image| && image[k] == 0
      ensures forall k :: 0 <= k < arr.Length ==> arr[k] == old(arr[k]) || (k >= from && arr[k] == image[k])
      ensures inside ==>
                forall k :: from <= k < arr.Length && (forall j :: from <= j <= k ==> image[j] != 0) ==> arr[k] == image[k]
    {
      var p := from;
      while true
        invariant from <= p <= arr.Length
        invariant forall k :: from <= k < p ==> arr[k] == image[k] && image[k] != 0
        invariant forall k :: 0 <= k < arr.Length && !(from <= k < p) ==> arr[k] == old(arr[k])
        decreases arr.Length - p
      {
        if p == arr.Length {
          return false;
        }
        arr[p] := bytes[p];
        if bytes[p] == 0 {
          assert image[p] == 0;
          return true;
        }
        p := p + 1;
      }
    }

    /** The string that starts in slot i ends inside the blocks, unless none of the names from there on does. */
    lemma StringEnds(i: nat)
      requires Valid() && i < |names|
      ensures |Image(names)| == NAME_LEN * |names|
      ensures Terminated() ==> exists k :: NAME_LEN * i <= k < |Image(names)| && Image(names)[k] == 0
      ensures !Terminated() && i == |names| - 1 ==> !exists k :: NAME_LEN * i <= k < |Image(names)| && Image(names)[k] == 0
    {
      var n := |names|;
      ImageBlock(names, n - 1);
      ImageAt(names, n - 1, NAME_LEN - 1);
      if Terminated() {
        assert Image(names)[NAME_LEN * (n - 1) + NAME_LEN - 1] == 0;
      } else if i == n - 1 {
        forall k | NAME_LEN * i <= k < |Image(names)|
          ensures Image(names)[k] != 0
        {
          ImageAt(names, i, k - NAME_LEN * i);
        }
      }
    }

    /**
     * Counts the used slots, allocates one block for each, and copies the string of slot i to block i. The copies stay
     * inside the blocks exactly when the name set last has its terminating zero; nothing is returned when they do not.
     */
    method Get() returns (c: Option<Container>)
      requires Valid()
      ensures c.Some? <==> Terminated()
      ensures c.Some? ==> c.value.Valid() && c.value.number == |names|
      ensures c.Some? ==> forall i :: 0 <= i < |names| ==> c.value.Block(i) == Pad(names[i])
    {
      var count := 0;
      for i := 0 to NAMES_MAX
        invariant count == Min(i, |names|)
      {
        if Used(i) {
          count := count + 1;
        }
      }
      var arr := new byte[count * NAME_LEN](_ => 0);
      ghost var image := Image(names);
      ImageLength(names);
      for i := 0 to NAMES_MAX
        invariant forall k :: 0 <= k < arr.Length ==> arr[k] == image[k] || (k >= NAME_LEN * i && arr[k] == 0)
        invariant 0 < |names| <= i ==> Terminated()
      {
        if Used(i) {
          StringEnds(i);
          var inside := CopyOut(i, arr);
          if !inside {
            return None;
          }
          BlockCopied(i, arr);
        }
      }
      assert arr[..] == image;
      forall i | 0 <= i < |names|
        ensures Container(count, arr[..]).Block(i) == Pad(names[i])
      {
        ImageBlock(names, i);
      }
      c := Some(Container(count, arr[..]));
    }

    /** Behind its name a block is zero in the table too. */
    lemma BlockCopied(i: nat, arr: array<byte>)
      requires Valid() && i < |names| && arr.Length == |Image(names)|
      requires forall k :: 0 <= k < arr.Length ==> arr[k] == Image(names)[k] || (k >= NAME_LEN * i && arr[k] == 0)
      requires forall k :: NAME_LEN * i <= k < NAME_LEN * i + |names[i]| && k < arr.Length ==> arr[k] == Image(names)[k]
      ensures forall k :: 0 <= k < arr.Length ==> arr[k] == Image(names)[k] || (k >= NAME_LEN * (i + 1) && arr[k] == 0)
    {
      forall k | NAME_LEN * i <= k < NAME_LEN * (i + 1)
        ensures k < arr.Length && arr[k] == Image(names)[k]
      {
        ImageAt(names, i, k - NAME_LEN * i);
      }
    }
  }
}
