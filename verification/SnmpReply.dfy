/** The reply to an SNMP query: four name lists spread over packets of at most 32 records. */
module SnmpReply {
  import opened Bytes
  import opened SnmpNames

  const RECORD_LEN := 33          // a tag and a name
  const MAX_NUMBER := 32          // records in a packet
  const TRAILER_LEN := 4
  const BODY_LEN := 1061          // 1 + 32 * 33 + 4, what is allocated for a body

  datatype Record = Record(tag: byte, name: seq<byte>)

  // ---------------------------------------------------------------------------------------------------------------
  // What should be sent
  // ---------------------------------------------------------------------------------------------------------------

  /** The last `n` blocks still to send, last one first. */
  function Records(tag: byte, c: Container, n: nat): (r: seq<Record>)
    requires c.Valid() && n <= c.number
    ensures |r| == n
    ensures forall i :: 0 <= i < n ==> r[i] == Record(tag, c.Block(n - 1 - i))
  {
    if n == 0 then [] else [Record(tag, c.Block(n - 1))] + Records(tag, c, n - 1)
  }

  function RecordBytes(rs: seq<Record>): (r: seq<byte>)
  {
    if rs == [] then [] else [rs[0].tag] + rs[0].name + RecordBytes(rs[1..])
  }

  function Trailer(more: bool): seq<byte> {
    if more then [0x00, 0x00, 0xFF, 0xFF] else [0x00, 0x00, 0x00, 0x00]
  }

  function Packet(state: byte, rs: seq<Record>, more: bool): seq<byte> {
    [state] + RecordBytes(rs) + Trailer(more)
  }

  /** Full packets with the continuation trailer, and one last packet. */
  function Packets(state: byte, rs: seq<Record>): seq<seq<byte>> {
    if |rs| <= MAX_NUMBER then [Packet(state, rs, false)]
    else [Packet(state, rs[..MAX_NUMBER], true)] + Packets(state, rs[MAX_NUMBER..])
  }

  ghost predicate WellFormed(rs: seq<Record>) {
    forall r :: r in rs ==> |r.name| == NAME_LEN
  }

  lemma {:induction false} RecordBytesLength(rs: seq<Record>)
    requires WellFormed(rs)
    ensures |RecordBytes(rs)| == RECORD_LEN * |rs|
  {
    if rs != [] {
      assert rs[0] in rs;
      RecordBytesLength(rs[1..]);
    }
  }

  lemma {:induction false} RecordBytesAppend(a: seq<Record>, b: seq<Record>)
    ensures RecordBytes(a + b) == RecordBytes(a) + RecordBytes(b)
  {
    if a == [] {
      assert a + b == b;
    } else {
      assert (a + b)[1..] == a[1..] + b;
      RecordBytesAppend(a[1..], b);
    }
  }

  // ---------------------------------------------------------------------------------------------------------------
  // Filling and sending the packets
  // ---------------------------------------------------------------------------------------------------------------

  /** The part of a packet body that is filled so far. */
  ghost predicate Filled(out: seq<byte>, rs: seq<Record>) {
    WellFormed(rs) && |rs| <= MAX_NUMBER && |out| == BODY_LEN && out[1..1 + RECORD_LEN * |rs|] == RecordBytes(rs)
  }

  /** One record at its place. */
  method PutRecord(out: array<byte>, count: nat, tag: byte, name: seq<byte>, ghost rs: seq<Record>)
    requires Filled(out[..], rs) && count == |rs| < MAX_NUMBER && |name| == NAME_LEN
    modifies out
    ensures Filled(out[..], rs + [Record(tag, name)])
  {
    var pos := count * RECORD_LEN + 1;
    out[pos] := tag;
    pos := pos + 1;
    forall i | 0 <= i < NAME_LEN {
      out[pos + i] := name[i];
    }
    RecordBytesLength(rs);
    RecordBytesAppend(rs, [Record(tag, name)]);
    assert [Record(tag, name)][1..] == [];
    assert out[1..1 + RECORD_LEN * |rs|] == RecordBytes(rs);
  }

  /** One of the four inner loops: it runs until its list is empty or the packet is full. `tail` comes after its list. */
  method FillFrom(out: array<byte>, count0: nat, tag: byte, c: Container, number0: nat,
                  ghost rs0: seq<Record>, ghost tail: seq<Record>)
    returns (count: nat, number: nat, ghost rs: seq<Record>)
    requires Filled(out[..], rs0) && count0 == |rs0|
    requires c.Valid() && number0 <= c.number
    modifies out
    ensures number <= number0 && (number > 0 ==> count == MAX_NUMBER)
    ensures Filled(out[..], rs) && count == |rs|
    ensures rs + (Records(tag, c, number) + tail) == rs0 + (Records(tag, c, number0) + tail)
    ensures number == 0 ==> Records(tag, c, number) + tail == tail
  {
    count, number, rs := count0, number0, rs0;
    while number > 0 && count < MAX_NUMBER
      invariant number <= number0
      invariant Filled(out[..], rs) && count == |rs|
      invariant rs + Records(tag, c, number) == rs0 + Records(tag, c, number0)
    {
      PutRecord(out, count, tag, c.Block(number - 1), rs);
      rs := rs + [Record(tag, c.Block(number - 1))];
      count := count + 1;
      number := number - 1;
    }
    assert rs + (Records(tag, c, number) + tail) == (rs + Records(tag, c, number)) + tail;
  }

  datatype Lists = Lists(communityRO: Container, communityRW: Container, viewRO: Container, viewRW: Container) {
    predicate Valid() {
      communityRO.Valid() && communityRW.Valid() && viewRO.Valid() && viewRW.Valid()
    }
  }

  /** How many names of each list are still to send. */
  datatype Left = Left(communityRO: nat, communityRW: nat, viewRO: nat, viewRW: nat) {
    predicate Of(lists: Lists) {
      && communityRO <= lists.communityRO.number && communityRW <= lists.communityRW.number
      && viewRO <= lists.viewRO.number && viewRW <= lists.viewRW.number
    }

    predicate Nothing() {
      communityRO == 0 && communityRW == 0 && viewRO == 0 && viewRW == 0
    }
  }

  function All(lists: Lists): Left {
    Left(lists.communityRO.number, lists.communityRW.number, lists.viewRO.number, lists.viewRW.number)
  }

  /** The records still to send, in the order in which the loops take them. */
  function Pending(lists: Lists, left: Left): (r: seq<Record>)
    requires lists.Valid() && left.Of(lists)
    ensures |r| == left.communityRO + left.communityRW + left.viewRO + left.viewRW
  {
    Records(1, lists.communityRO, left.communityRO)
    + (Records(2, lists.communityRW, left.communityRW)
       + (Records(3, lists.viewRO, left.viewRO)
          + (Records(4, lists.viewRW, left.viewRW) + [])))
  }

  lemma PendingSkips(lists: Lists, left: Left)
    requires lists.Valid() && left.Of(lists)
    ensures var d := Records(4, lists.viewRW, left.viewRW) + [];
            var c := Records(3, lists.viewRO, left.viewRO) + d;
            var b := Records(2, lists.communityRW, left.communityRW) + c;
            && (left.communityRO == 0 ==> Pending(lists, left) == b)
            && (left.communityRO == left.communityRW == 0 ==> Pending(lists, left) == c)
            && (left.communityRO == left.communityRW == left.viewRO == 0 ==> Pending(lists, left) == d)
  {
  }

  /** The four inner loops; leaving early is the source's jump out of them. */
  method FillPacket(out: array<byte>, lists: Lists, left0: Left) returns (count: nat, left: Left, ghost rs: seq<Record>)
    requires out.Length == BODY_LEN && lists.Valid() && left0.Of(lists)
    modifies out
    ensures left.Of(lists) && Filled(out[..], rs) && count == |rs|
    ensures rs + Pending(lists, left) == Pending(lists, left0)
    ensures left.Nothing() || count == MAX_NUMBER
  {
    left := left0;
    ghost var all := Pending(lists, left);
    ghost var tail := Records(4, lists.viewRW, left.viewRW) + [];
    var n;
    count, n, rs := FillFrom(out, 0, 1, lists.communityRO, left.communityRO, [],
      Records(2, lists.communityRW, left.communityRW) + (Records(3, lists.viewRO, left.viewRO) + tail));
    left := left.(communityRO := n);
    assert rs + Pending(lists, left) == all;
    if n > 0 {
      return;
    }
    PendingSkips(lists, left);
    count, n, rs := FillFrom(out, count, 2, lists.communityRW, left.communityRW, rs,
      Records(3, lists.viewRO, left.viewRO) + tail);
    left := left.(communityRW := n);
    PendingSkips(lists, left);
    assert rs + Pending(lists, left) == all;
    if n > 0 {
      return;
    }
    count, n, rs := FillFrom(out, count, 3, lists.viewRO, left.viewRO, rs, tail);
    left := left.(viewRO := n);
    PendingSkips(lists, left);
    assert rs + Pending(lists, left) == all;
    if n > 0 {
      return;
    }
    count, n, rs := FillFrom(out, count, 4, lists.viewRW, left.viewRW, rs, []);
    left := left.(viewRW := n);
    PendingSkips(lists, left);
  }

  /** The packet loop. Every packet is built in the same buffer; `sent` is what went out. */
  method SnmpGet(state: byte, lists: Lists) returns (sent: seq<seq<byte>>)
    requires lists.Valid()
    ensures sent == Packets(state, Pending(lists, All(lists)))
  {
    var out := new byte[BODY_LEN](_ => 0);
    var left := All(lists);
    var finish := false;
    sent := [];
    ghost var all := Pending(lists, left);
    ghost var rest := all;      // what is still to be sent
    while !finish
      invariant left.Of(lists) && rest == Pending(lists, left)
      invariant sent + (if finish then [] else Packets(state, rest)) == Packets(state, all)
      decreases !finish, |rest|
    {
      var body;
      ghost var was := rest;
      body, left, finish, rest := OnePacket(out, state, lists, left);
      Sends(sent, body, if finish then [] else Packets(state, rest), Packets(state, was));
      sent := sent + [body];
    }
  }

  lemma Sends(sent: seq<seq<byte>>, body: seq<byte>, more: seq<seq<byte>>, all: seq<seq<byte>>)
    requires all == [body] + more
    ensures (sent + [body]) + more == sent + all
  {
  }

  /** One turn of the packet loop. */
  method OnePacket(out: array<byte>, state: byte, lists: Lists, left0: Left)
    returns (body: seq<byte>, left: Left, finish: bool, ghost rest: seq<Record>)
    requires out.Length == BODY_LEN && lists.Valid() && left0.Of(lists)
    modifies out
    ensures left.Of(lists) && rest == Pending(lists, left)
    ensures Packets(state, Pending(lists, left0)) == [body] + if finish then [] else Packets(state, rest)
    ensures !finish ==> |rest| < |Pending(lists, left0)|
  {
    var count;
    ghost var rs;
    count, left, rs := FillPacket(out, lists, left0);
    finish := left.Nothing();
    rest := Pending(lists, left);
    Chunk(state, Pending(lists, left0), rs, rest);
    body := SendPacket(out, state, count, !finish, rs);
  }

  /** What one packet takes off the front of the pending records. */
  lemma Chunk(state: byte, pending: seq<Record>, rs: seq<Record>, rest: seq<Record>)
    requires pending == rs + rest && |rs| <= MAX_NUMBER && (rest != [] ==> |rs| == MAX_NUMBER)
    ensures Packets(state, pending)
            == [Packet(state, rs, rest != [])] + if rest == [] then [] else Packets(state, rest)
  {
    if rest == [] {
      assert pending == rs;
    } else {
      assert pending[..MAX_NUMBER] == rs && pending[MAX_NUMBER..] == rest;
    }
  }

  method PutTrailer(out: array<byte>, pos: nat, more: bool)
    requires pos + TRAILER_LEN <= out.Length
    modifies out
    ensures out[pos..pos + TRAILER_LEN] == Trailer(more)
    ensures forall i :: 0 <= i < pos ==> out[i] == old(out[i])
  {
    if more {
      out[pos], out[pos + 1] := 0x00, 0x00;
      out[pos + 2], out[pos + 3] := 0xFF, 0xFF;
    } else {
      out[pos], out[pos + 1] := 0x00, 0x00;
      out[pos + 2], out[pos + 3] := 0x00, 0x00;
    }
  }

  /** State byte, trailer and length of a filled packet. */
  method SendPacket(out: array<byte>, state: byte, count: nat, more: bool, ghost rs: seq<Record>) returns (body: seq<byte>)
    requires Filled(out[..], rs) && count == |rs|
    modifies out
    ensures body == Packet(state, rs, more) && |body| == RECORD_LEN * count + 5 <= BODY_LEN
  {
    RecordBytesLength(rs);
    var pos := count * RECORD_LEN + 1;
    assert out[1..pos] == RecordBytes(rs);
    out[0] := state;
    PutTrailer(out, pos, more);
    body := out[..pos + TRAILER_LEN];
    assert forall i :: 1 <= i < pos ==> out[i] == old(out[i]);
    assert body[1..pos] == out[1..pos] == RecordBytes(rs);
    assert body[pos..] == out[pos..pos + TRAILER_LEN];
    assert body == [state] + body[1..pos] + body[pos..];
  }

  // ---------------------------------------------------------------------------------------------------------------
  // Reading a reply back
  // ---------------------------------------------------------------------------------------------------------------

  datatype Received = Received(state: byte, records: seq<Record>, more: bool)

  function RecordAt(b: seq<byte>, i: nat): Record
    requires RECORD_LEN * (i + 1) <= |b|
  {
    Record(b[RECORD_LEN * i], b[RECORD_LEN * i + 1..RECORD_LEN * (i + 1)])
  }

  function ReadRecords(b: seq<byte>, n: nat): seq<Record>
    requires |b| == RECORD_LEN * n
  {
    seq(n, i requires 0 <= i < n => RecordAt(b, i))
  }

  function ReadPacket(b: seq<byte>): Option<Received> {
    if |b| < 5 || (|b| - 5) % RECORD_LEN != 0 then None
    else
      var n := (|b| - 5) / RECORD_LEN;
      var trailer := b[1 + RECORD_LEN * n..];
      if trailer != [0, 0, 0xFF, 0xFF] && trailer != [0, 0, 0, 0] then None
      else Some(Received(b[0], ReadRecords(b[1..1 + RECORD_LEN * n], n), trailer == [0, 0, 0xFF, 0xFF]))
  }

  /** Puts the records of a reply together; exactly its last packet must say that it is the last. */
  function ReadReply(sent: seq<seq<byte>>): Option<seq<Record>> {
    if sent == [] || ReadPacket(sent[0]) == None then None
    else
      var p := ReadPacket(sent[0]).value;
      if !p.more then (if |sent| == 1 then Some(p.records) else None)
      else
        var rest := ReadReply(sent[1..]);
        if rest == None then None else Some(p.records + rest.value)
  }

  lemma RecordBehind(head: seq<byte>, tail: seq<byte>, i: nat)
    requires |head| == RECORD_LEN && i > 0 && RECORD_LEN * i <= |tail|
    ensures RecordAt(head + tail, i) == RecordAt(tail, i - 1)
  {
    assert RECORD_LEN * i == RECORD_LEN * (i - 1) + RECORD_LEN;
  }

  lemma {:induction false} RecordAtIndex(rs: seq<Record>, i: nat)
    requires WellFormed(rs) && i < |rs|
    ensures |RecordBytes(rs)| == RECORD_LEN * |rs| && RecordAt(RecordBytes(rs), i) == rs[i]
  {
    RecordBytesLength(rs);
    assert rs[0] in rs;
    var head, tail := [rs[0].tag] + rs[0].name, RecordBytes(rs[1..]);
    assert RecordBytes(rs) == head + tail;
    if i > 0 {
      RecordAtIndex(rs[1..], i - 1);
      RecordBehind(head, tail, i);
    }
  }

  lemma ReadRecordsBack(rs: seq<Record>)
    requires WellFormed(rs)
    ensures |RecordBytes(rs)| == RECORD_LEN * |rs| && ReadRecords(RecordBytes(rs), |rs|) == rs
  {
    RecordBytesLength(rs);
    forall i | 0 <= i < |rs|
      ensures RecordAt(RecordBytes(rs), i) == rs[i]
    {
      RecordAtIndex(rs, i);
    }
  }

  lemma ReadPacketBack(state: byte, rs: seq<Record>, more: bool)
    requires WellFormed(rs)
    ensures ReadPacket(Packet(state, rs, more)) == Some(Received(state, rs, more))
    ensures |Packet(state, rs, more)| == RECORD_LEN * |rs| + 5
  {
    ReadRecordsBack(rs);
    var b, n := Packet(state, rs, more), |rs|;
    assert b[1..1 + RECORD_LEN * n] == RecordBytes(rs);
    assert b[1 + RECORD_LEN * n..] == Trailer(more);
    assert Trailer(true)[2] != Trailer(false)[2];
  }

  /** For any records, the packets carry every one of them once, in order, and nothing else. */
  lemma {:induction false} PacketsReadBack(state: byte, rs: seq<Record>)
    requires WellFormed(rs)
    ensures ReadReply(Packets(state, rs)) == Some(rs)
  {
    if |rs| <= MAX_NUMBER {
      ReadPacketBack(state, rs, false);
    } else {
      var front, back := rs[..MAX_NUMBER], rs[MAX_NUMBER..];
      ReadPacketBack(state, front, true);
      PacketsReadBack(state, back);
      assert Packets(state, rs)[1..] == Packets(state, back);
      assert front + back == rs;
    }
  }

  /** How many packets there are, how long each is, which trailer it has, and that none overruns the buffer. */
  lemma {:induction false} PacketsShape(state: byte, rs: seq<Record>, k: nat)
    requires WellFormed(rs) && k < |Packets(state, rs)|
    ensures |Packets(state, rs)| == if rs == [] then 1 else (|rs| + 31) / 32
    ensures var p, last := Packets(state, rs)[k], k == |Packets(state, rs)| - 1;
            var c := if last then |rs| - 32 * k else 32;
            && 0 <= c <= 32 && |p| == 33 * c + 5 <= 1061
            && p[0] == state && p[|p| - 4..] == if last then [0, 0, 0, 0] else [0, 0, 0xFF, 0xFF]
  {
    if |rs| <= MAX_NUMBER {
      RecordBytesLength(rs);
    } else {
      var front, back := rs[..MAX_NUMBER], rs[MAX_NUMBER..];
      RecordBytesLength(front);
      assert |Packets(state, back)| > 0;
      PacketsShape(state, back, if k == 0 then 0 else k - 1);
    }
  }

  /** The bytes of the j-th record of the k-th packet: its tag and its 32 characters. */
  lemma {:induction false} PacketsBytes(state: byte, rs: seq<Record>, k: nat, j: nat)
    requires WellFormed(rs) && j < 32 && 32 * k + j < |rs|
    ensures k < |Packets(state, rs)| && |Packets(state, rs)[k]| >= 1 + 33 * (j + 1)
    ensures Packets(state, rs)[k][1 + 33 * j] == rs[32 * k + j].tag
    ensures Packets(state, rs)[k][2 + 33 * j..34 + 33 * j] == rs[32 * k + j].name
  {
    if k == 0 {
      var front := if |rs| <= MAX_NUMBER then rs else rs[..MAX_NUMBER];
      PacketBytes(state, front, |rs| > MAX_NUMBER, j);
    } else {
      PacketsBytes(state, rs[MAX_NUMBER..], k - 1, j);
    }
  }

  lemma PacketBytes(state: byte, rs: seq<Record>, more: bool, j: nat)
    requires WellFormed(rs) && j < |rs|
    ensures var p := Packet(state, rs, more);
            |p| >= 1 + 33 * (j + 1) && p[1 + 33 * j] == rs[j].tag && p[2 + 33 * j..34 + 33 * j] == rs[j].name
  {
    var p, all := Packet(state, rs, more), RecordBytes(rs);
    RecordAtIndex(rs, j);
    assert RecordAt(all, j) == Record(all[33 * j], all[33 * j + 1..33 * (j + 1)]);
    assert p[1..1 + |all|] == all;
    assert p[1 + 33 * j] == all[33 * j] && p[2 + 33 * j..34 + 33 * j] == all[33 * j + 1..33 * (j + 1)];
  }

  // ---------------------------------------------------------------------------------------------------------------
  // From the tables to the wire and back
  // ---------------------------------------------------------------------------------------------------------------

  /** A table's names as they are sent: the one set last comes first. */
  function Tagged(tag: byte, names: seq<seq<byte>>): (r: seq<Record>) {
    seq(|names|, i requires 0 <= i < |names| => Record(tag, Pad(names[|names| - 1 - i])))
  }

  /** The first record is of the name set last, and the last one of the name set first. */
  lemma TaggedOrder(tag: byte, names: seq<seq<byte>>, j: nat)
    requires j < |names|
    ensures |Tagged(tag, names)| == |names| && Tagged(tag, names)[|names| - 1 - j] == Record(tag, Pad(names[j]))
  {
  }

  lemma RecordsTagged(tag: byte, c: Container, names: seq<seq<byte>>)
    requires c.Valid() && c.number == |names|
    requires forall i :: 0 <= i < |names| ==> c.Block(i) == Pad(names[i])
    ensures Records(tag, c, c.number) == Tagged(tag, names)
  {
  }

  /**
   * The query over the four tables: whoever reads the packets has every configured name once, under its tag. It comes to
   * nothing when a table's last name has no terminating zero, because the getter then writes behind its blocks.
   */
  method Query(state: byte, communityRO: NameTable, communityRW: NameTable, viewRO: NameTable, viewRW: NameTable)
    returns (sent: Option<seq<seq<byte>>>)
    requires communityRO.Valid() && communityRW.Valid() && viewRO.Valid() && viewRW.Valid()
    ensures sent.Some? <==> communityRO.Terminated() && communityRW.Terminated() && viewRO.Terminated() && viewRW.Terminated()
    ensures sent.Some? ==>
              ReadReply(sent.value) == Some(Tagged(1, communityRO.names) + Tagged(2, communityRW.names)
                                            + Tagged(3, viewRO.names) + Tagged(4, viewRW.names))
  {
    var c1 := communityRO.Get();
    var c2 := communityRW.Get();
    var c3 := viewRO.Get();
    var c4 := viewRW.Get();
    if c1 == None || c2 == None || c3 == None || c4 == None {
      return None;
    }
    var lists := Lists(c1.value, c2.value, c3.value, c4.value);
    var packets := SnmpGet(state, lists);
    RecordsTagged(1, c1.value, communityRO.names);
    RecordsTagged(2, c2.value, communityRW.names);
    RecordsTagged(3, c3.value, viewRO.names);
    RecordsTagged(4, c4.value, viewRW.names);
    AllTagged(lists, communityRO.names, communityRW.names, viewRO.names, viewRW.names);
    PacketsReadBack(state, Pending(lists, All(lists)));
    sent := Some(packets);
  }

  lemma AllTagged(lists: Lists, n1: seq<seq<byte>>, n2: seq<seq<byte>>, n3: seq<seq<byte>>, n4: seq<seq<byte>>)
    requires lists.Valid()
    requires Records(1, lists.communityRO, lists.communityRO.number) == Tagged(1, n1)
    requires Records(2, lists.communityRW, lists.communityRW.number) == Tagged(2, n2)
    requires Records(3, lists.viewRO, lists.viewRO.number) == Tagged(3, n3)
    requires Records(4, lists.viewRW, lists.viewRW.number) == Tagged(4, n4)
    ensures Pending(lists, All(lists)) == Tagged(1, n1) + Tagged(2, n2) + Tagged(3, n3) + Tagged(4, n4)
    ensures WellFormed(Pending(lists, All(lists)))
  {
    Nested(Tagged(1, n1), Tagged(2, n2), Tagged(3, n3), Tagged(4, n4));
    PendingWellFormed(lists, All(lists));
  }

  lemma Nested(a: seq<Record>, b: seq<Record>, c: seq<Record>, d: seq<Record>)
    ensures a + (b + (c + (d + []))) == a + b + c + d
  {
    assert d + [] == d;
    assert (a + b) + (c + d) == (a + b + c) + d;
  }

  /** Blocks are 32 bytes long. */
  lemma PendingWellFormed(lists: Lists, left: Left)
    requires lists.Valid() && left.Of(lists)
    ensures WellFormed(Pending(lists, left))
  {
    RecordsWellFormed(1, lists.communityRO, left.communityRO);
    RecordsWellFormed(2, lists.communityRW, left.communityRW);
    RecordsWellFormed(3, lists.viewRO, left.viewRO);
    RecordsWellFormed(4, lists.viewRW, left.viewRW);
  }

  lemma RecordsWellFormed(tag: byte, c: Container, n: nat)
    requires c.Valid() && n <= c.number
    ensures WellFormed(Records(tag, c, n))
  {
  }
}
