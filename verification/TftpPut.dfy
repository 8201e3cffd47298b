/** The sending half of the built-in TFTP client: what it sends for every sequence of replies. */
module TftpPut {
  import opened Bytes
  import opened TftpPackets
  import opened TftpWait

  /** What does not change over a transfer. */
  datatype Job = Job(little: bool, limit: nat, name: seq<byte>, mode: seq<byte>, file: seq<byte>)

  /** The packet that a round of the sender starts with. */
  function PutPacket(job: Job, blk: uint16): seq<byte> {
    if blk == 0 then Request(WRQ, job.name, job.mode) else DataPacket(blk, Segment(job.file, blk))
  }

  function PutPackets(job: Job, blks: seq<uint16>): (r: seq<seq<byte>>)
    ensures |r| == |blks|
  {
    seq(|blks|, i requires 0 <= i < |blks| => PutPacket(job, blks[i]))
  }

  /** `blk` after the packet is out: a data packet leaves it in network byte order. */
  function PutBlk(little: bool, blk: uint16): uint16 {
    if blk == 0 then 0 else Htons(little, blk)
  }

  function PutSize(len: nat, blk: uint16, size: nat): nat {
    if blk == 0 then size else BlockSize(len, blk)
  }

  /** `blk` after a reply; acknowledgements count up modulo 2 to the 16. */
  function AfterReply(data: seq<byte>, blk: uint16): uint16 {
    if OpOf(data) == ACK then (if BlockOf(data) == 0 then 1 else (BlockOf(data) + 1) % 0x1_0000) else blk
  }

  /** How a round ends: with the return code, or with the state that the next one starts in. */
  datatype PutStep = Stop(ret: int) | Go(blk: uint16, size: nat, run: bool, rest: Script)

  function PutOnce(little: bool, limit: nat, len: nat, blk: uint16, size: nat, run: bool, script: Script): (r: PutStep)
    ensures r.Go? ==> |r.rest| < |script|
  {
    var blk1, size1 := PutBlk(little, blk), PutSize(len, blk, size);
    var reply := Wait(limit, script, run, 0);
    if reply.TimedOut? then Stop(-7)
    else
      ArrivedConsumes(limit, script, run, 0);
      var blk2 := AfterReply(reply.data, blk1);
      if OpOf(reply.data) == ERROR then Stop(-6)
      else if reply.expired then Stop(-7)
      else if size1 == SEGSIZE || blk2 == 1 then Go(blk2, size1, reply.run, reply.rest)
      else Stop(0)
  }

  /** The values of `blk` that the packets from here on are built from, and the return code. */
  function PutFrom(little: bool, limit: nat, len: nat, blk: uint16, size: nat, run: bool, script: Script): (r: (seq<uint16>, int))
    ensures r.0 != [] && r.0[0] == blk
    decreases |script|
  {
    match PutOnce(little, limit, len, blk, size, run, script)
    case Stop(ret) => ([blk], ret)
    case Go(blk2, size2, run2, rest) => Before([blk], PutFrom(little, limit, len, blk2, size2, run2, rest))
  }

  /** Packets in front of what the rest of a transfer sends. */
  function Before(blks: seq<uint16>, r: (seq<uint16>, int)): (seq<uint16>, int) {
    (blks + r.0, r.1)
  }

  /** A whole transfer. */
  function Put(job: Job, script: Script): (r: (seq<seq<byte>>, int)) {
    var (blks, ret) := PutFrom(job.little, job.limit, |job.file|, 0, 0, true, script);
    (PutPackets(job, blks), ret)
  }

  /** lseek and read: at most n bytes from the position on, none behind the end. */
  function ReadAt(file: seq<byte>, pos: nat, n: nat): seq<byte> {
    file[Min(pos, |file|)..Min(pos + n, |file|)]
  }

  /** The first half of a round: the request or the next data packet goes out. */
  method SendNext(job: Job, blk: uint16, size: nat) returns (packet: seq<byte>, blk': uint16, size': nat)
    ensures packet == PutPacket(job, blk) && blk' == PutBlk(job.little, blk) && size' == PutSize(|job.file|, blk, size)
  {
    blk', size' := blk, size;
    if blk' == 0 {
      var op := Htons(job.little, WRQ);
      NetworkOrder(job.little, WRQ, [0, 0]);
      packet := Store16(job.little, op) + job.name + [0] + job.mode + [0];
    } else {
      var fpos := (blk' - 1) * SEGSIZE;
      if (|job.file| - fpos) % 0x1_0000_0000 < 0 {
        assert false;      // the difference is unsigned, so reading beyond the end is never refused
      }
      var op := Htons(job.little, DATA);
      NetworkOrder(job.little, DATA, [0, 0]);
      NetworkOrder(job.little, blk', [0, 0]);
      blk' := Htons(job.little, blk');
      var read := ReadAt(job.file, fpos, SEGSIZE);
      packet := Store16(job.little, op) + Store16(job.little, blk') + read;
      size' := |read|;
    }
  }

  /** The second half: the opcode of the reply, and what an acknowledgement makes of `blk`. */
  method TakeReply(little: bool, data: seq<byte>, blk: uint16) returns (op: uint16, blk': uint16)
    ensures op == OpOf(data) && blk' == AfterReply(data, blk)
  {
    var ack := Received(data, 100);
    op := Htons(little, Load16(little, ack[..2]));
    NetworkOrder(little, 0, ack[..2]);
    blk' := blk;
    if op == ACK {
      blk' := Htons(little, Load16(little, ack[2..4]));
      NetworkOrder(little, 0, ack[2..4]);
      blk' := if blk' == 0 then 1 else (blk' + 1) % 0x1_0000;
    }
  }

  lemma BeforeOnce(blks: seq<uint16>, blk: uint16)
    ensures forall r {:trigger Before([blk], r)} :: Before(blks, Before([blk], r)) == Before(blks + [blk], r)
  {
    forall r: seq<uint16>
      ensures blks + ([blk] + r) == blks + [blk] + r
    {
    }
  }

  lemma PutEnds(job: Job, script: Script, blks: seq<uint16>, ret: int)
    requires PutFrom(job.little, job.limit, |job.file|, 0, 0, true, script) == (blks, ret)
    ensures Put(job, script) == (PutPackets(job, blks), ret)
  {
  }

  lemma PutPacketsAppend(job: Job, blks: seq<uint16>, blk: uint16)
    ensures PutPackets(job, blks + [blk]) == PutPackets(job, blks) + [PutPacket(job, blk)]
  {
  }

  /** One turn of the outer loop. */
  method SendTurn(job: Job, blk: uint16, size: nat, run: bool, net: Script) returns (packet: seq<byte>, step: PutStep)
    ensures packet == PutPacket(job, blk)
    ensures step == PutOnce(job.little, job.limit, |job.file|, blk, size, run, net)
  {
    var blk', sizeReadFile, op;
    packet, blk', sizeReadFile := SendNext(job, blk, size);
    var reply := WaitReply(job.limit, net, run);
    if reply.TimedOut? {
      return packet, Stop(-7);
    }
    op, blk' := TakeReply(job.little, reply.data, blk');
    if op == ERROR {
      return packet, Stop(-6);
    }
    if reply.expired {
      return packet, Stop(-7);
    }
    step := if sizeReadFile == SEGSIZE || blk' == 1 then Go(blk', sizeReadFile, reply.run, reply.rest) else Stop(0);
  }

  method Send(job: Job, script: Script) returns (sent: seq<seq<byte>>, ret: int)
    ensures (sent, ret) == Put(job, script)
  {
    var blk: uint16, sizeReadFile: nat, run, net := 0, 0, true, script;
    ghost var all := PutFrom(job.little, job.limit, |job.file|, blk, sizeReadFile, run, net);
    ghost var blks: seq<uint16> := [];
    sent := [];
    assert blks + all.0 == all.0;
    while true
      invariant Before(blks, PutFrom(job.little, job.limit, |job.file|, blk, sizeReadFile, run, net)) == all
      invariant sent == PutPackets(job, blks)
      decreases |net|
    {
      var packet, step := SendTurn(job, blk, sizeReadFile, run, net);
      sent := sent + [packet];
      PutPacketsAppend(job, blks, blk);
      BeforeOnce(blks, blk);
      blks := blks + [blk];
      if step.Stop? {
        PutEnds(job, script, blks, step.ret);
        return sent, step.ret;
      }
      blk, sizeReadFile, run, net := step.blk, step.size, step.run, step.rest;
    }
  }

  // ---------------------------------------------------------------------------------------------------------------
  // Safety of sending
  // ---------------------------------------------------------------------------------------------------------------

  /** A data packet with a block number of at least 1 and exactly that block of the file. */
  ghost predicate CarriesBlock(file: seq<byte>, p: seq<byte>) {
    && |p| >= 4 && p[..2] == Be16(DATA)
    && FromBe16(p[2..4]) >= 1 && p[4..] == Segment(file, FromBe16(p[2..4]))
  }

  /**
   * Whatever the server answers, in whatever order, and on either kind of machine: every packet is the write request or
   * carries exactly the block it is numbered with.
   */
  lemma PutSafe(job: Job, script: Script)
    ensures forall p :: p in Put(job, script).0 ==> p == Request(WRQ, job.name, job.mode) || CarriesBlock(job.file, p)
  {
    var blks := PutFrom(job.little, job.limit, |job.file|, 0, 0, true, script).0;
    forall p | p in PutPackets(job, blks)
      ensures p == Request(WRQ, job.name, job.mode) || CarriesBlock(job.file, p)
    {
      var i :| 0 <= i < |blks| && PutPacket(job, blks[i]) == p;
      if blks[i] != 0 {
        DataPacketParts(blks[i], Segment(job.file, blks[i]));
      }
    }
  }

  // ---------------------------------------------------------------------------------------------------------------
  // What each reply does
  // ---------------------------------------------------------------------------------------------------------------

  /**
   * A transfer has taken k replies, one for each packet: none but the last is an error, each packet but the first is the
   * one that the reply before it asks for, and the return code tells an error from a timeout.
   */
  ghost predicate Answers(little: bool, r: (seq<uint16>, int), ds: seq<seq<byte>>, k: nat) {
    && k <= |ds| && r.0 != []
    && (k == |r.0| || (k == |r.0| - 1 && r.1 == -7))
    && (forall i {:trigger ds[i]} :: 0 <= i < |r.0| - 1 ==>
          OpOf(ds[i]) != ERROR && r.0[i + 1] == AfterReply(ds[i], PutBlk(little, r.0[i])))
    && (r.1 == 0 || r.1 == -6 || r.1 == -7)
    && (r.1 == -6 <==> k == |r.0| && OpOf(ds[k - 1]) == ERROR)
  }

  lemma AnswersBefore(little: bool, blk: uint16, r: (seq<uint16>, int), ds: seq<seq<byte>>, k: nat)
    requires ds != [] && OpOf(ds[0]) != ERROR && Answers(little, r, ds[1..], k)
    requires r.0[0] == AfterReply(ds[0], PutBlk(little, blk))
    ensures Answers(little, Before([blk], r), ds, k + 1)
  {
    var all := Before([blk], r);
    forall i {:trigger ds[i]} | 0 <= i < |all.0| - 1
      ensures OpOf(ds[i]) != ERROR && all.0[i + 1] == AfterReply(ds[i], PutBlk(little, all.0[i]))
    {
      if i > 0 {
        assert ds[1..][i - 1] == ds[i];
      }
    }
  }

  lemma OnceAnswered(little: bool, limit: nat, len: nat, blk: uint16, size: nat, run: bool, script: Script)
    returns (step: PutStep)
    ensures step == PutOnce(little, limit, len, blk, size, run, script)
    ensures var ds := Datagrams(script);
            if step.Go? then
              ds != [] && OpOf(ds[0]) != ERROR && step.blk == AfterReply(ds[0], PutBlk(little, blk)) && ds[1..] == Datagrams(step.rest)
            else
              Answers(little, ([blk], step.ret), ds, 1) || (step.ret == -7 && Answers(little, ([blk], step.ret), ds, 0))
  {
    WaitTakes(limit, script, run, 0);
    step := PutOnce(little, limit, len, blk, size, run, script);
  }

  lemma {:induction false} AnswersFrom(little: bool, limit: nat, len: nat, blk: uint16, size: nat, run: bool, script: Script)
    returns (k: nat)
    ensures Answers(little, PutFrom(little, limit, len, blk, size, run, script), Datagrams(script), k)
    decreases |script|
  {
    var ds := Datagrams(script);
    var step := OnceAnswered(little, limit, len, blk, size, run, script);
    if step.Go? {
      var m := AnswersFrom(little, limit, len, step.blk, step.size, step.run, step.rest);
      AnswersBefore(little, blk, PutFrom(little, limit, len, step.blk, step.size, step.run, step.rest), ds, m);
      k := m + 1;
    } else {
      k := if Answers(little, ([blk], step.ret), ds, 1) then 1 else 0;
    }
  }

  /** What is sent after a packet with the number b and a reply d that does not end the transfer. */
  function NextPacket(job: Job, b: uint16, d: seq<byte>): seq<byte> {
    if OpOf(d) == ACK then PutPacket(job, if BlockOf(d) == 0 then 1 else (BlockOf(d) + 1) % 0x1_0000)
    else PutPacket(job, if b == 0 then 0 else Htons(job.little, b))
  }

  /** A packet tells the number that it is built from. */
  lemma PacketNumber(job: Job, a: uint16, b: uint16)
    ensures PutPacket(job, a) == PutPacket(job, b) ==> a == b
  {
    if a != 0 {
      DataPacketParts(a, Segment(job.file, a));
    }
    if b != 0 {
      DataPacketParts(b, Segment(job.file, b));
    }
    assert PutPacket(job, a)[1] == if a == 0 then WRQ else DATA;
    assert PutPacket(job, b)[1] == if b == 0 then WRQ else DATA;
  }

  /**
   * Whatever the server answers: an acknowledgement of block a is answered with block a + 1, modulo 2 to the 16 and never
   * 0 for a = 0, and an unknown reply with the block whose number the machine's byte order makes of the last one; an
   * error, and nothing else, ends the transfer with -6; a timeout ends it with -7.
   */
  lemma PutAnswers(job: Job, script: Script) returns (k: nat)
    ensures var (sent, ret) := Put(job, script);
            var ds := Datagrams(script);
            && k <= |ds| && (k == |sent| || (k == |sent| - 1 && ret == -7))
            && (forall i, b: uint16 :: 0 <= i < |sent| - 1 && sent[i] == PutPacket(job, b) ==> sent[i + 1] == NextPacket(job, b, ds[i]))
            && (forall i {:trigger ds[i]} :: 0 <= i < |sent| - 1 ==> OpOf(ds[i]) != ERROR)
            && (ret == 0 || ret == -6 || ret == -7)
            && (ret == -6 <==> k == |sent| > 0 && OpOf(ds[k - 1]) == ERROR)
  {
    k := AnswersFrom(job.little, job.limit, |job.file|, 0, 0, true, script);
    var blks := PutFrom(job.little, job.limit, |job.file|, 0, 0, true, script).0;
    var sent, ds := Put(job, script).0, Datagrams(script);
    forall i, b: uint16 | 0 <= i < |sent| - 1 && sent[i] == PutPacket(job, b)
      ensures sent[i + 1] == NextPacket(job, b, ds[i])
    {
      PacketNumber(job, blks[i], b);
      assert blks[i + 1] == AfterReply(ds[i], PutBlk(job.little, blks[i]));
    }
  }

  /** The first reply: anything but an error or the acknowledgement of block 0 ends the transfer in success, nothing sent. */
  lemma FirstReplyDecides(job: Job, delay: nat, d: seq<byte>, rest: Script)
    requires d != [] && delay <= job.limit && OpOf(d) != ERROR
    ensures Put(job, Nothing(delay) + [d] + rest) == ([Request(WRQ, job.name, job.mode)], 0)
            <==> !(OpOf(d) == ACK && BlockOf(d) == 0)
  {
    var script := Nothing(delay) + [d] + rest;
    ArrivesInTime(job.limit, delay, d, rest, 0);
    var r := PutFrom(job.little, job.limit, |job.file|, 0, 0, true, script);
    if OpOf(d) == ACK && BlockOf(d) == 0 {
      assert |r.0| >= 2;
    } else {
      assert PutPackets(job, r.0) == [PutPacket(job, 0)];
    }
  }

  /**
   * In every transfer, a data packet that is answered by neither an acknowledgement nor an error, and not the last, is
   * followed by the block that its byte-swapped number names on a little-endian machine. It is sent again as it was if and
   * only if the machine is big-endian or the two bytes of its number agree.
   */
  lemma UnknownReplySwaps(job: Job, script: Script)
    ensures var sent, ds := Put(job, script).0, Datagrams(script);
            |sent| - 1 <= |ds|
            && forall i, b: uint16 :: 0 <= i < |sent| - 1 && OpOf(ds[i]) != ACK && b != 0 && sent[i] == PutPacket(job, b) ==>
                 && OpOf(ds[i]) != ERROR
                 && sent[i + 1] == PutPacket(job, if job.little then b % 256 * 256 + b / 256 else b)
                 && (sent[i + 1] == sent[i] <==> !job.little || b / 256 == b % 256)
  {
    var k := PutAnswers(job, script);
    var sent, ds := Put(job, script).0, Datagrams(script);
    forall i, b: uint16 | 0 <= i < |sent| - 1 && OpOf(ds[i]) != ACK && b != 0 && sent[i] == PutPacket(job, b)
      ensures sent[i + 1] == sent[i] <==> !job.little || b / 256 == b % 256
    {
      PacketNumber(job, Htons(job.little, b), b);
    }
  }

  /** Such transfers exist: on a little-endian machine an unknown reply to block 1 is answered with block 256. */
  lemma SwapHappens(job: Job, d: seq<byte>)
    requires job.little && |job.file| >= SEGSIZE
    requires d != [] && OpOf(d) != ACK && OpOf(d) != ERROR
    ensures Put(job, [AckPacket(0), d])
            == ([Request(WRQ, job.name, job.mode), DataPacket(1, Segment(job.file, 1)), DataPacket(256, Segment(job.file, 256))], -7)
  {
    var s1, s2: Script, len := [d], [], |job.file|;
    AckPacketParts(0);
    ArrivesInTime(job.limit, 0, AckPacket(0), s1, 0);
    ArrivesInTime(job.limit, 0, d, s2, 0);
    assert Nothing(0) + [AckPacket(0)] + s1 == [AckPacket(0), d];
    assert Nothing(0) + [d] + s2 == s1;
    TimesOutExactly(job.limit, s2, 0);
    assert [1 as uint16] + [256] == [1, 256] && [0 as uint16] + [1, 256] == [0, 1, 256];
    assert PutFrom(job.little, job.limit, len, 256, SEGSIZE, true, s2) == ([256], -7);
    assert PutOnce(job.little, job.limit, len, 1, 0, true, s1) == Go(256, SEGSIZE, true, s2);
    assert PutFrom(job.little, job.limit, len, 1, 0, true, s1) == ([1, 256], -7);
    assert PutOnce(job.little, job.limit, len, 0, 0, true, [AckPacket(0), d]) == Go(1, 0, true, s1);
    assert PutFrom(job.little, job.limit, len, 0, 0, true, [AckPacket(0), d]) == ([0, 1, 256], -7);
    PutEnds(job, [AckPacket(0), d], [0, 1, 256], -7);
    ThreePackets(job, 0, 1, 256);
  }

  // ---------------------------------------------------------------------------------------------------------------
  // Completeness of sending
  // ---------------------------------------------------------------------------------------------------------------

  /** A server that acknowledges b, b + 1, ... once each, with so many empty polls in front of each. */
  function AckScript(delays: seq<nat>, b: nat): Script {
    if delays == [] then [] else Nothing(delays[0]) + [AckPacket(b % 0x1_0000)] + AckScript(delays[1..], b + 1)
  }

  ghost predicate Prompt(limit: nat, delays: seq<nat>) {
    forall i :: 0 <= i < |delays| ==> delays[i] <= limit
  }

  lemma AckScriptSplit(delays: seq<nat>, b: nat, rest: Script)
    requires delays != []
    ensures AckScript(delays, b) + rest
            == Nothing(delays[0]) + [AckPacket(b % 0x1_0000)] + (AckScript(delays[1..], b + 1) + rest)
  {
  }

  type Rest = (uint16, nat, Script) -> (seq<uint16>, int)

  /** What a round with a prompt acknowledgement of block k does, in terms of the rest of the transfer. */
  function Round(rest: Rest, len: nat, blk: uint16, size: nat, k: uint16, script: Script): (seq<uint16>, int) {
    var next := if k == 0 then 1 else (k + 1) % 0x1_0000;
    var size1 := PutSize(len, blk, size);
    if size1 == SEGSIZE || next == 1 then Before([blk], rest(next, size1, script)) else ([blk], 0)
  }

  /** The transfer with its run flag up, as a function of its state and the script. */
  function Running(little: bool, limit: nat, len: nat): Rest {
    (blk: uint16, size: nat, script: Script) => PutFrom(little, limit, len, blk, size, true, script)
  }

  /** The first acknowledgement is in time; the other arguments say which round that is about. */
  ghost predicate InTime(limit: nat, blk: uint16, size: nat, delays: seq<nat>, k: uint16, script: Script) {
    delays != [] && delays[0] <= limit
  }

  ghost predicate Rounds(g: Rest, limit: nat, len: nat) {
    forall blk: uint16, size: nat, delays: seq<nat>, k: uint16, script: Script {:trigger InTime(limit, blk, size, delays, k, script)} ::
      InTime(limit, blk, size, delays, k, script) ==>
        g(blk, size, AckScript(delays, k) + script) == Round(g, len, blk, size, k, AckScript(delays[1..], k + 1) + script)
  }

  lemma OnceAcknowledged(little: bool, limit: nat, len: nat, blk: uint16, size: nat, k: uint16, script: Script, rest: Script)
    requires Wait(limit, script, true, 0).Arrived? && Wait(limit, script, true, 0).data == AckPacket(k)
    requires var w := Wait(limit, script, true, 0); !w.expired && w.run && w.rest == rest
    ensures PutOnce(little, limit, len, blk, size, true, script)
            == (var next := if k == 0 then 1 else (k + 1) % 0x1_0000;
                var size1 := PutSize(len, blk, size);
                if size1 == SEGSIZE || next == 1 then Go(next, size1, true, rest) else Stop(0))
  {
    AckPacketParts(k);
  }

  lemma PutRound(little: bool, limit: nat, len: nat, blk: uint16, size: nat, delays: seq<nat>, k: uint16, script: Script)
    requires delays != [] && delays[0] <= limit
    ensures var g := Running(little, limit, len);
            g(blk, size, AckScript(delays, k) + script) == Round(g, len, blk, size, k, AckScript(delays[1..], k + 1) + script)
  {
    var rest := AckScript(delays[1..], k + 1) + script;
    AckScriptSplit(delays, k, script);
    assert AckPacket(k) != [];
    ArrivesInTime(limit, delays[0], AckPacket(k), rest, 0);
    OnceAcknowledged(little, limit, len, blk, size, k, AckScript(delays, k) + script, rest);
  }

  lemma PutRounds(little: bool, limit: nat, len: nat)
    ensures Rounds(Running(little, limit, len), limit, len)
  {
    var g := Running(little, limit, len);
    forall blk: uint16, size: nat, delays: seq<nat>, k: uint16, script: Script | InTime(limit, blk, size, delays, k, script)
      ensures g(blk, size, AckScript(delays, k) + script) == Round(g, len, blk, size, k, AckScript(delays[1..], k + 1) + script)
    {
      PutRound(little, limit, len, blk, size, delays, k, script);
    }
  }

  /** m numbers from b on */
  function Count(b: nat, m: nat): (r: seq<uint16>)
    requires b + m <= 0x1_0000
    ensures |r| == m && forall i :: 0 <= i < m ==> r[i] == b + i
    decreases m
  {
    if m == 0 then [] else [b] + Count(b + 1, m - 1)
  }

  /** A block number in 16 bits. */
  function Wrap(b: nat): (r: uint16)
    ensures b < 0x1_0000 ==> r == b
    ensures b == 0x1_0000 ==> r == 0
  {
    b % 0x1_0000
  }

  lemma CountChain(b: nat, m: nat, r0: (seq<uint16>, int), r1: (seq<uint16>, int), r2: (seq<uint16>, int))
    requires 0 < m && b + m <= 0x1_0000
    requires r0 == Before([b], r1) && r1 == Before(Count(b + 1, m - 1), r2)
    ensures r0 == Before(Count(b, m), r2)
  {
    assert [b] + (Count(b + 1, m - 1) + r2.0) == ([b] + Count(b + 1, m - 1)) + r2.0;
  }

  /** One full block. */
  lemma FullRound(g: Rest, limit: nat, len: nat, b: uint16, size: nat, delays: seq<nat>, script: Script)
    requires Rounds(g, limit, len)
    requires 1 <= b && b * SEGSIZE <= len && delays != [] && delays[0] <= limit
    ensures g(b, size, AckScript(delays, b) + script)
            == Before([b], g(Wrap(b + 1), SEGSIZE, AckScript(delays[1..], b + 1) + script))
  {
    assert InTime(limit, b, size, delays, b, script);
  }

  /** A run of full blocks, acknowledged one by one. */
  lemma {:induction false} FullBlocks(g: Rest, limit: nat, len: nat, b: nat, size: nat, delays: seq<nat>, script: Script)
    requires Rounds(g, limit, len)
    requires 1 <= b && b + |delays| <= 0x1_0000
    requires delays != [] ==> (b + |delays| - 1) * SEGSIZE <= len
    requires Prompt(limit, delays)
    ensures g(Wrap(b), size, AckScript(delays, b) + script)
            == Before(Count(b, |delays|), g(Wrap(b + |delays|), if delays == [] then size else SEGSIZE, script))
    decreases |delays|
  {
    if delays == [] {
      assert AckScript(delays, b) + script == script;
      assert Count(b, 0) + g(Wrap(b), size, script).0 == g(Wrap(b), size, script).0;
    } else {
      var d := delays[1..];
      FullRound(g, limit, len, b, size, delays, script);
      FullBlocks(g, limit, len, b + 1, SEGSIZE, d, script);
      CountChain(b, |delays|, g(b, size, AckScript(delays, b) + script),
        g(Wrap(b + 1), SEGSIZE, AckScript(d, b + 1) + script),
        g(Wrap(b + |delays|), SEGSIZE, script));
    }
  }

  lemma {:induction false} AckScriptAppend(a: seq<nat>, b: seq<nat>, k: nat)
    ensures AckScript(a + b, k) == AckScript(a, k) + AckScript(b, k + |a|)
  {
    if a == [] {
      assert a + b == b;
    } else {
      assert (a + b)[1..] == a[1..] + b;
      AckScriptAppend(a[1..], b, k + 1);
    }
  }

  lemma FirstRound(g: Rest, limit: nat, len: nat, delays: seq<nat>, script: Script)
    requires Rounds(g, limit, len)
    requires delays != [] && Prompt(limit, delays)
    ensures g(0, 0, AckScript(delays, 0) + script) == Before([0], g(1, 0, AckScript(delays[1..], 1) + script))
  {
    assert InTime(limit, 0, 0, delays, 0, script);
  }

  lemma AckScriptParts(all: seq<nat>, full: seq<nat>, last: seq<nat>, b: nat, script: Script)
    requires all == full + last
    ensures AckScript(all, b) + script == AckScript(full, b) + (AckScript(last, b + |full|) + script)
  {
    AckScriptAppend(full, last, b);
  }

  /** The size of the block in front of block k; the request in front of block 1 has none. */
  function SizeBefore(k: nat): nat {
    if k == 1 then 0 else SEGSIZE
  }

  lemma FullRounds(g: Rest, limit: nat, len: nat, delays: seq<nat>, k: nat, script: Script)
    requires Rounds(g, limit, len)
    requires 1 <= k <= 0x1_0000 && (k - 1) * SEGSIZE <= len && k <= |delays| && Prompt(limit, delays)
    ensures g(1, 0, AckScript(delays[1..], 1) + script)
            == Before(Count(1, k - 1), g(Wrap(k), SizeBefore(k), AckScript(delays[k..], k) + script))
  {
    assert delays[1..k] + delays[k..] == delays[1..];
    AckScriptParts(delays[1..], delays[1..k], delays[k..], 1, script);
    FullBlocks(g, limit, len, 1, 0, delays[1..k], AckScript(delays[k..], k) + script);
  }

  /** The request and k - 1 full blocks, each acknowledged in time. */
  lemma StartAndFull(g: Rest, limit: nat, len: nat, delays: seq<nat>, k: nat, script: Script)
    requires Rounds(g, limit, len)
    requires 1 <= k <= 0x1_0000 && (k - 1) * SEGSIZE <= len && k <= |delays| && Prompt(limit, delays)
    ensures g(0, 0, AckScript(delays, 0) + script)
            == Before([0] + Count(1, k - 1), g(Wrap(k), SizeBefore(k), AckScript(delays[k..], k) + script))
  {
    FirstRound(g, limit, len, delays, script);
    FullRounds(g, limit, len, delays, k, script);
    StartChain(k, g(0, 0, AckScript(delays, 0) + script), g(1, 0, AckScript(delays[1..], 1) + script),
      g(Wrap(k), SizeBefore(k), AckScript(delays[k..], k) + script));
  }

  lemma StartChain(k: nat, r0: (seq<uint16>, int), r1: (seq<uint16>, int), r2: (seq<uint16>, int))
    requires 1 <= k <= 0x1_0000 && r0 == Before([0], r1) && r1 == Before(Count(1, k - 1), r2)
    ensures r0 == Before([0] + Count(1, k - 1), r2)
  {
    assert [0] + (Count(1, k - 1) + r2.0) == [0] + Count(1, k - 1) + r2.0;
  }

  lemma LastRound(g: Rest, limit: nat, len: nat, n: uint16, size: nat, delays: seq<nat>, script: Script)
    requires Rounds(g, limit, len)
    requires n == Blocks(len) && delays != [] && Prompt(limit, delays)
    ensures g(n, size, AckScript(delays, n) + script) == ([n], 0)
  {
    assert InTime(limit, n, size, delays, n, script);
  }

  /** Up to 65535 blocks, the sender counts 0, 1, ..., n and succeeds. */
  lemma CountsToEnd(g: Rest, limit: nat, len: nat, n: uint16, delays: seq<nat>, script: Script)
    requires Rounds(g, limit, len)
    requires Blocks(len) == n && |delays| == n + 1 && Prompt(limit, delays)
    ensures g(0, 0, AckScript(delays, 0) + script) == ([0] + Count(1, n), 0)
  {
    StartAndFull(g, limit, len, delays, n, script);
    LastRound(g, limit, len, n, SizeBefore(n), delays[n..], script);
    EndChain(n, g(0, 0, AckScript(delays, 0) + script));
  }

  lemma EndChain(n: nat, r0: (seq<uint16>, int))
    requires 0 < n <= 0xFFFF && r0 == Before([0] + Count(1, n - 1), ([n], 0))
    ensures r0 == ([0] + Count(1, n), 0)
  {
    assert [0] + Count(1, n - 1) + [n] == [0] + Count(1, n);
  }

  /** Beyond, the acknowledgement of block 65535 takes it back to the request. */
  lemma StartsOver(g: Rest, limit: nat, len: nat, delays: seq<nat>, script: Script)
    requires Rounds(g, limit, len)
    requires forall blk, size, s :: g(blk, size, s).0 != [] && g(blk, size, s).0[0] == blk
    requires Blocks(len) > 0xFFFF && |delays| == Blocks(len) + 1 && Prompt(limit, delays)
    ensures var blks := g(0, 0, AckScript(delays, 0) + script).0; |blks| > 0x1_0000 && blks[0x1_0000] == 0
  {
    StartAndFull(g, limit, len, delays, 0x1_0000, script);
  }

  /** What the standard asks for: the request, then the blocks in order, numbered modulo 2 to the 16. */
  function StandardPacket(job: Job, i: nat): seq<byte> {
    if i == 0 then Request(WRQ, job.name, job.mode) else DataPacket(i % 0x1_0000, Segment(job.file, i))
  }

  function Expected(job: Job): (r: seq<seq<byte>>) {
    seq(Blocks(|job.file|) + 1, i requires 0 <= i => StandardPacket(job, i))
  }

  lemma CountedPacket(job: Job, b: uint16)
    ensures PutPacket(job, b) == StandardPacket(job, b)
  {
    assert b % 0x1_0000 == b;
  }

  lemma CountedPackets(job: Job, blks: seq<uint16>)
    requires |blks| == Blocks(|job.file|) + 1 && forall i :: 0 <= i < |blks| ==> blks[i] == i
    ensures PutPackets(job, blks) == Expected(job)
  {
    var sent := PutPackets(job, blks);
    forall i | 0 <= i < |blks|
      ensures sent[i] == Expected(job)[i]
    {
      CountedPacket(job, blks[i]);
      assert sent[i] == PutPacket(job, blks[i]);
    }
  }

  lemma RequestIsNotData(job: Job, i: nat)
    requires i > 0
    ensures PutPacket(job, 0) != StandardPacket(job, i)
  {
    assert PutPacket(job, 0)[1] == WRQ && StandardPacket(job, i)[1] == DATA;
  }

  lemma StartedOver(job: Job, blks: seq<uint16>)
    requires Blocks(|job.file|) > 0xFFFF && |blks| > 0x1_0000 && blks[0x1_0000] == 0
    ensures PutPackets(job, blks) != Expected(job)
  {
    RequestIsNotData(job, 0x1_0000);
    assert PutPackets(job, blks)[0x1_0000] == PutPacket(job, 0);
    assert Expected(job)[0x1_0000] == StandardPacket(job, 0x1_0000);
  }

  /** 0, 1, ..., n */
  function FromZero(n: nat): (r: seq<uint16>)
    requires n <= 0xFFFF
    ensures |r| == n + 1 && forall i :: 0 <= i <= n ==> r[i] == i
  {
    [0] + Count(1, n)
  }

  lemma PutCounts(job: Job, delays: seq<nat>, rest: Script)
    requires Blocks(|job.file|) <= 0xFFFF && |delays| == Blocks(|job.file|) + 1 && Prompt(job.limit, delays)
    ensures PutFrom(job.little, job.limit, |job.file|, 0, 0, true, AckScript(delays, 0) + rest)
            == (FromZero(Blocks(|job.file|)), 0)
  {
    PutRounds(job.little, job.limit, |job.file|);
    CountsToEnd(Running(job.little, job.limit, |job.file|), job.limit, |job.file|, Blocks(|job.file|), delays, rest);
  }

  lemma PutShort(job: Job, delays: seq<nat>, rest: Script)
    requires Blocks(|job.file|) <= 0xFFFF && |delays| == Blocks(|job.file|) + 1 && Prompt(job.limit, delays)
    ensures Put(job, AckScript(delays, 0) + rest) == (Expected(job), 0)
  {
    var blks := FromZero(Blocks(|job.file|));
    PutCounts(job, delays, rest);
    PutEnds(job, AckScript(delays, 0) + rest, blks, 0);
    CountedPackets(job, blks);
  }

  lemma PutLong(job: Job, delays: seq<nat>, rest: Script)
    requires Blocks(|job.file|) > 0xFFFF && |delays| == Blocks(|job.file|) + 1 && Prompt(job.limit, delays)
    ensures Put(job, AckScript(delays, 0) + rest).0 != Expected(job)
  {
    PutRounds(job.little, job.limit, |job.file|);
    StartsOver(Running(job.little, job.limit, |job.file|), job.limit, |job.file|, delays, rest);
    StartedOver(job, Running(job.little, job.limit, |job.file|)(0, 0, AckScript(delays, 0) + rest).0);
  }

  /**
   * When every packet is acknowledged once and in time, the transfer sends exactly the request and the blocks of the file
   * and succeeds if and only if the file is shorter than 65535 * 512 bytes. A longer one makes it issue the request again.
   */
  lemma PutCompletes(job: Job, delays: seq<nat>, rest: Script)
    requires |delays| == Blocks(|job.file|) + 1 && Prompt(job.limit, delays)
    ensures Put(job, AckScript(delays, 0) + rest) == (Expected(job), 0) <==> |job.file| < 65535 * 512
  {
    if Blocks(|job.file|) <= 0xFFFF {
      PutShort(job, delays, rest);
    } else {
      PutLong(job, delays, rest);
    }
  }

  // ---------------------------------------------------------------------------------------------------------------
  // When sending is complete
  // ---------------------------------------------------------------------------------------------------------------

  predicate Acknowledges(d: seq<byte>, k: nat) {
    OpOf(d) == ACK && BlockOf(d) == k
  }

  /** A reply to block n that does not ask for block 1: no error, no acknowledgement of 0, no unknown reply that swaps n to 1. */
  predicate Ends(little: bool, d: seq<byte>, n: uint16) {
    OpOf(d) != ERROR && (if OpOf(d) == ACK then BlockOf(d) != 0 else Htons(little, n) != 1)
  }

  /** Acknowledgements of 0 up to n - 1 in order, and then whatever ends the transfer. */
  ghost predicate InOrder(little: bool, ds: seq<seq<byte>>, n: uint16) {
    |ds| == n + 1 && (forall i :: 0 <= i < n ==> Acknowledges(ds[i], i)) && Ends(little, ds[n], n)
  }

  /** No machine's byte order turns a number into the next one. */
  lemma SwapIsNoStep(little: bool, b: uint16)
    ensures Htons(little, b) != b + 1
  {
    var x: int, y: int := b / 256, b % 256;
    assert b == 256 * x + y;
  }

  /** The next block is asked for by the acknowledgement of this one, and by nothing else. */
  lemma NextAsked(little: bool, d: seq<byte>, b: nat)
    requires b < 0xFFFF
    ensures AfterReply(d, PutBlk(little, b)) == b + 1 <==> Acknowledges(d, b)
  {
    SwapIsNoStep(little, b);
  }

  lemma LastAsked(little: bool, d: seq<byte>, n: uint16)
    requires n != 0 && OpOf(d) != ERROR
    ensures AfterReply(d, PutBlk(little, n)) == 1 <==> !Ends(little, d, n)
  {
  }

  /**
   * A transfer that starts with `size` bytes read and hears hs: each packet but the first is the one that the reply before
   * it asks for, a round goes on behind a full block or with block 1, and success is any other end without an error.
   */
  ghost predicate Plays(little: bool, len: nat, size: nat, r: (seq<uint16>, int), hs: seq<seq<byte>>) {
    && r.0 != [] && |r.0| - 1 <= |hs| <= |r.0|
    && (forall i :: 0 <= i < |r.0| - 1 ==> OpOf(hs[i]) != ERROR && r.0[i + 1] == AfterReply(hs[i], PutBlk(little, r.0[i])))
    && (forall i :: 0 <= i < |r.0| - 1 && r.0[i] != 0 ==> BlockSize(len, r.0[i]) == SEGSIZE || r.0[i + 1] == 1)
    && (|r.0| > 1 && r.0[0] == 0 && size == 0 ==> r.0[1] == 1)
    && var last := |r.0| - 1;
       && (r.1 == 0 <==> |hs| == |r.0| && OpOf(hs[last]) != ERROR)
       && (r.1 == 0 ==> AfterReply(hs[last], PutBlk(little, r.0[last])) != 1)
       && (r.1 == 0 ==> if r.0[last] == 0 then last == 0 && size != SEGSIZE else BlockSize(len, r.0[last]) < SEGSIZE)
  }

  lemma PlaysBefore(little: bool, len: nat, blk: uint16, size: nat, r: (seq<uint16>, int), d: seq<byte>, hs: seq<seq<byte>>)
    requires Plays(little, len, PutSize(len, blk, size), r, hs)
    requires OpOf(d) != ERROR && r.0[0] == AfterReply(d, PutBlk(little, blk))
    requires PutSize(len, blk, size) == SEGSIZE || r.0[0] == 1
    ensures Plays(little, len, size, Before([blk], r), [d] + hs)
  {
    var all, ds := Before([blk], r), [d] + hs;
    forall i | 0 <= i < |all.0| - 1
      ensures OpOf(ds[i]) != ERROR && all.0[i + 1] == AfterReply(ds[i], PutBlk(little, all.0[i]))
      ensures all.0[i] != 0 ==> BlockSize(len, all.0[i]) == SEGSIZE || all.0[i + 1] == 1
    {
      if i > 0 {
        assert ds[i] == hs[i - 1] && all.0[i] == r.0[i - 1] && all.0[i + 1] == r.0[i];
      }
    }
  }

  /** The first round of a transfer: the last one too, or in front of others. */
  lemma FirstPlays(little: bool, limit: nat, len: nat, blk: uint16, size: nat, run: bool, script: Script)
    returns (step: PutStep, d: seq<byte>)
    ensures step == PutOnce(little, limit, len, blk, size, run, script)
    ensures step.Stop? ==> Plays(little, len, size, ([blk], step.ret), Heard(limit, script, run, 1))
    ensures step.Go? ==>
              && OpOf(d) != ERROR && step.blk == AfterReply(d, PutBlk(little, blk)) && step.size == PutSize(len, blk, size)
              && (step.size == SEGSIZE || step.blk == 1)
              && forall n: nat :: Heard(limit, script, run, n + 1) == [d] + Heard(limit, step.rest, step.run, n)
  {
    step := PutOnce(little, limit, len, blk, size, run, script);
    var w := Wait(limit, script, run, 0);
    d := if w.Arrived? then w.data else [];
    assert w.Arrived? && !w.expired ==> Heard(limit, script, run, 1) == [w.data];
  }

  lemma {:induction false} PlaysFrom(little: bool, limit: nat, len: nat, blk: uint16, size: nat, run: bool, script: Script)
    returns (r: (seq<uint16>, int))
    ensures r == PutFrom(little, limit, len, blk, size, run, script)
    ensures Plays(little, len, size, r, Heard(limit, script, run, |r.0|))
    decreases |script|
  {
    var step, d := FirstPlays(little, limit, len, blk, size, run, script);
    if step.Stop? {
      r := ([blk], step.ret);
    } else {
      var after := PlaysFrom(little, limit, len, step.blk, step.size, step.run, step.rest);
      PlaysBefore(little, len, blk, size, after, d, Heard(limit, step.rest, step.run, |after.0|));
      r := Before([blk], after);
    }
  }

  /** Fewer waits bring the same as far as they go. */
  lemma {:induction false} HeardPrefix(limit: nat, script: Script, run: bool, m: nat, n: nat)
    returns (hs: seq<seq<byte>>, ds: seq<seq<byte>>)
    requires m <= n
    ensures hs == Heard(limit, script, run, m) && ds == Heard(limit, script, run, n)
    ensures |hs| == Min(m, |ds|) && forall k :: 0 <= k < |hs| ==> hs[k] == ds[k]
    decreases m
  {
    var w := Wait(limit, script, run, 0);
    if m == 0 || w.TimedOut? || w.expired {
      hs, ds := Heard(limit, script, run, m), Heard(limit, script, run, n);
    } else {
      hs, ds := HeardPrefix(limit, w.rest, w.run, m - 1, n - 1);
      hs, ds := [w.data] + hs, [w.data] + ds;
    }
  }

  /** A transfer that counts to n and succeeds has heard acknowledgements in order. */
  lemma CountedHears(little: bool, len: nat, n: uint16, r: (seq<uint16>, int), hs: seq<seq<byte>>)
    requires n == Blocks(len) && Plays(little, len, 0, r, hs) && r == (FromZero(n), 0)
    ensures InOrder(little, hs, n)
  {
    forall i | 0 <= i < n
      ensures Acknowledges(hs[i], i)
    {
      assert r.0[i + 1] == AfterReply(hs[i], PutBlk(little, r.0[i]));
      NextAsked(little, hs[i], i);
    }
    assert r.0[n] == n;
    LastAsked(little, hs[n], n);
  }

  /** While acknowledgements in order are heard, a transfer counts. */
  lemma {:induction false} HearsCounts(little: bool, len: nat, n: uint16, r: (seq<uint16>, int), hs: seq<seq<byte>>, i: nat)
    requires Plays(little, len, 0, r, hs) && r.0[0] == 0
    requires forall k :: 0 <= k < n && k < |hs| ==> Acknowledges(hs[k], k)
    requires i < |r.0| && i <= n
    ensures r.0[i] == i
    decreases i
  {
    if i > 0 {
      HearsCounts(little, len, n, r, hs, i - 1);
      NextAsked(little, hs[i - 1], i - 1);
    }
  }

  /** And it does not stop before block n, nor go on behind it. */
  lemma HearsEnds(little: bool, len: nat, n: uint16, r: (seq<uint16>, int), hs: seq<seq<byte>>)
    requires n == Blocks(len) && Plays(little, len, 0, r, hs) && r.0[0] == 0
    requires forall k :: 0 <= k < n && k < |hs| ==> Acknowledges(hs[k], k)
    requires |hs| > n ==> Ends(little, hs[n], n)
    requires |r.0| <= n + 1 ==> |hs| == |r.0|
    ensures r == (FromZero(n), 0)
  {
    var last := |r.0| - 1;
    HearsCounts(little, len, n, r, hs, Min(last, n));
    assert BlockSize(len, n) < SEGSIZE;
    assert last >= n;
    if last > n {
      assert r.0[n + 1] == AfterReply(hs[n], PutBlk(little, r.0[n]));
      LastAsked(little, hs[n], n);
      assert false;
    }
    forall i | 0 <= i <= n
      ensures r.0[i] == i
    {
      HearsCounts(little, len, n, r, hs, i);
    }
    assert r.0 == FromZero(n);
  }

  /** The transfer sends the request and all blocks in order, and succeeds, exactly when what is heard acknowledges them. */
  lemma CountsExactly(little: bool, limit: nat, len: nat, n: uint16, script: Script)
    requires n == Blocks(len)
    ensures PutFrom(little, limit, len, 0, 0, true, script) == (FromZero(n), 0) <==> InOrder(little, Heard(limit, script, true, n + 1), n)
  {
    var r := PlaysFrom(little, limit, len, 0, 0, true, script);
    var hs, ds := HeardBoth(limit, script, |r.0|, n + 1);
    if r == (FromZero(n), 0) {
      CountedHears(little, len, n, r, hs);
      assert hs == ds;
    }
    if InOrder(little, ds, n) {
      forall k | 0 <= k < n && k < |hs|
        ensures Acknowledges(hs[k], k)
      {
        assert hs[k] == ds[k];
      }
      HearsEnds(little, len, n, r, hs);
    }
  }

  lemma HeardBoth(limit: nat, script: Script, m: nat, n: nat) returns (hs: seq<seq<byte>>, ds: seq<seq<byte>>)
    ensures hs == Heard(limit, script, true, m) && ds == Heard(limit, script, true, n)
    ensures m <= n ==> |hs| == Min(m, |ds|)
    ensures n <= m ==> |ds| == Min(n, |hs|)
    ensures forall k :: 0 <= k < |hs| && k < |ds| ==> hs[k] == ds[k]
  {
    if m <= n {
      hs, ds := HeardPrefix(limit, script, true, m, n);
    } else {
      ds, hs := HeardPrefix(limit, script, true, n, m);
    }
  }

  /** The packets asked for tell the numbers that they are built from. */
  lemma ExpectedNumbers(job: Job, blks: seq<uint16>)
    requires Blocks(|job.file|) <= 0xFFFF
    ensures PutPackets(job, blks) == Expected(job) <==> blks == FromZero(Blocks(|job.file|))
  {
    var n := Blocks(|job.file|);
    CountedPackets(job, FromZero(n));
    if PutPackets(job, blks) == Expected(job) {
      forall i | 0 <= i <= n
        ensures blks[i] == i
      {
        assert PutPackets(job, blks)[i] == PutPacket(job, blks[i]);
        CountedPacket(job, i);
        PacketNumber(job, blks[i], i);
      }
      assert blks == FromZero(n);
    }
  }

  /** No packet is block 65536: its number is 0, and 0 stands for the request. */
  lemma NeverBlock65536(job: Job, b: uint16)
    ensures PutPacket(job, b) != StandardPacket(job, 0x1_0000)
  {
    if b == 0 {
      RequestIsNotData(job, 0x1_0000);
    } else {
      DataPacketParts(b, Segment(job.file, b));
      DataPacketParts(0, Segment(job.file, 0x1_0000));
    }
  }

  /**
   * Over all scripts, the transfer sends the request and every block once and in order, and succeeds, if and only if the
   * file is shorter than 65535 * 512 bytes, what arrives in time acknowledges the request and each block but the last in
   * order, and is then anything that does not make the sender go on or fail.
   */
  lemma PutExactly(job: Job, script: Script)
    ensures var n := Blocks(|job.file|);
            Put(job, script) == (Expected(job), 0)
            <==> |job.file| < 65535 * 512 && InOrder(job.little, Heard(job.limit, script, true, n + 1), n)
  {
    var n := Blocks(|job.file|);
    var (blks, ret) := PutFrom(job.little, job.limit, |job.file|, 0, 0, true, script);
    PutEnds(job, script, blks, ret);
    if n <= 0xFFFF {
      ExpectedNumbers(job, blks);
      CountsExactly(job.little, job.limit, |job.file|, n, script);
    } else if PutPackets(job, blks) == Expected(job) {
      assert PutPackets(job, blks)[0x1_0000] == PutPacket(job, blks[0x1_0000]);
      assert Expected(job)[0x1_0000] == StandardPacket(job, 0x1_0000);
      NeverBlock65536(job, blks[0x1_0000]);
    }
  }

  /**
   * Success does not mean that the file was sent. A server that acknowledges the block before the last one without having
   * got it is sent the last one next, and the transfer succeeds.
   */
  lemma SkippingSucceeds(job: Job, n: uint16)
    requires n == Blocks(|job.file|) && n > 2
    ensures Put(job, [AckPacket(0), AckPacket(n - 1), AckPacket(n)])
            == ([Request(WRQ, job.name, job.mode), DataPacket(1, Segment(job.file, 1)), DataPacket(n, Segment(job.file, n))], 0)
  {
    var s2: Script := [AckPacket(n)];
    var s1: Script := [AckPacket(n - 1)] + s2;
    var script := [AckPacket(0)] + s1;
    SkipsFrom(job, n, s2, s1);
    AckGoes(job, 0, 0, 0, s1, ([1, n], 0));
    assert [0 as uint16] + [1, n] == [0, 1, n];
    assert script == [AckPacket(0), AckPacket(n - 1), AckPacket(n)];
    PutEnds(job, script, [0, 1, n], 0);
    ThreePackets(job, 0, 1, n);
  }

  /** From block 1 on. */
  lemma SkipsFrom(job: Job, n: uint16, s2: Script, s1: Script)
    requires n == Blocks(|job.file|) && n > 2 && s2 == [AckPacket(n)] && s1 == [AckPacket(n - 1)] + s2
    ensures PutFrom(job.little, job.limit, |job.file|, 1, 0, true, s1) == ([1, n], 0)
  {
    assert s2 == [AckPacket(n)] + [];
    AckEnds(job, n, SEGSIZE, n, []);
    AckGoes(job, 1, 0, n - 1, s2, ([n], 0));
    assert [1 as uint16] + [n] == [1, n];
  }

  lemma ThreePackets(job: Job, a: uint16, b: uint16, c: uint16)
    ensures PutPackets(job, [a, b, c]) == [PutPacket(job, a), PutPacket(job, b), PutPacket(job, c)]
  {
  }

  /** What an acknowledgement at the front of the script does. */
  lemma AckOnce(job: Job, blk: uint16, size: nat, k: uint16, rest: Script)
    ensures PutOnce(job.little, job.limit, |job.file|, blk, size, true, [AckPacket(k)] + rest)
            == (var next := if k == 0 then 1 else (k + 1) % 0x1_0000;
                var size1 := PutSize(|job.file|, blk, size);
                if size1 == SEGSIZE || next == 1 then Go(next, size1, true, rest) else Stop(0))
  {
    AckPacketParts(k);
    ArrivesInTime(job.limit, 0, AckPacket(k), rest, 0);
    assert Nothing(0) + [AckPacket(k)] + rest == [AckPacket(k)] + rest;
    OnceAcknowledged(job.little, job.limit, |job.file|, blk, size, k, [AckPacket(k)] + rest, rest);
  }

  lemma GoesFrom(little: bool, limit: nat, len: nat, blk: uint16, size: nat, script: Script, next: uint16, size': nat, rest: Script)
    requires PutOnce(little, limit, len, blk, size, true, script) == Go(next, size', true, rest)
    ensures PutFrom(little, limit, len, blk, size, true, script) == Before([blk], PutFrom(little, limit, len, next, size', true, rest))
  {
  }

  lemma AckGoes(job: Job, blk: uint16, size: nat, k: uint16, rest: Script, r: (seq<uint16>, int))
    requires k < 0xFFFF && (PutSize(|job.file|, blk, size) == SEGSIZE || k == 0)
    requires PutFrom(job.little, job.limit, |job.file|, k + 1, PutSize(|job.file|, blk, size), true, rest) == r
    ensures PutFrom(job.little, job.limit, |job.file|, blk, size, true, [AckPacket(k)] + rest) == Before([blk], r)
  {
    AckOnce(job, blk, size, k, rest);
    GoesFrom(job.little, job.limit, |job.file|, blk, size, [AckPacket(k)] + rest, k + 1, PutSize(|job.file|, blk, size), rest);
  }

  lemma AckEnds(job: Job, blk: uint16, size: nat, k: uint16, rest: Script)
    requires PutSize(|job.file|, blk, size) != SEGSIZE && k != 0
    ensures PutFrom(job.little, job.limit, |job.file|, blk, size, true, [AckPacket(k)] + rest) == ([blk], 0)
  {
    AckOnce(job, blk, size, k, rest);
  }

  /** Whatever the server answers, a success in which data was sent ends with a block of fewer than 512 bytes. */
  lemma SuccessEnds(job: Job, script: Script)
    ensures var (sent, ret) := Put(job, script);
            ret == 0 && |sent| > 1 ==> |Payload(sent[|sent| - 1])| < SEGSIZE
  {
    var r := PlaysFrom(job.little, job.limit, |job.file|, 0, 0, true, script);
    PutEnds(job, script, r.0, r.1);
    var last := r.0[|r.0| - 1];
    if r.1 == 0 && last != 0 {
      DataPacketParts(last, Segment(job.file, last));
    }
  }

  lemma ExpectedPayload(job: Job, i: nat)
    requires 0 < i <= Blocks(|job.file|)
    ensures Payload(Expected(job)[i]) == Segment(job.file, i)
  {
    DataPacketParts(i % 0x1_0000, Segment(job.file, i));
    assert Expected(job)[i] == StandardPacket(job, i);
  }

  /** The payloads of the data packets one after the other, the empty last one included, are the file. */
  lemma PayloadsAreFile(job: Job)
    ensures |Expected(job)| == |job.file| / SEGSIZE + 2 && Flatten(Payloads(Expected(job)[1..])) == job.file
  {
    var data := Expected(job)[1..];
    forall i | 0 <= i < |data|
      ensures Payloads(data)[i] == Segments(job.file, |data|)[i]
    {
      assert data[i] == Expected(job)[i + 1];
      ExpectedPayload(job, i + 1);
    }
    assert Payloads(data) == Segments(job.file, |data|);
    SegmentsArePrefix(job.file, |data|);
  }

  /** A reply that comes with the last poll fails, unless it is an error, which does so with its own code. */
  lemma LateReplyFails(job: Job, d: seq<byte>, rest: Script)
    requires d != []
    ensures Put(job, Nothing(job.limit + 2) + [d] + rest)
            == ([Request(WRQ, job.name, job.mode)], if OpOf(d) == ERROR then -6 else -7)
  {
    var script := Nothing(job.limit + 2) + [d] + rest;
    ArrivesExactly(job.limit, job.limit + 2, d, rest, 0);
    PutEnds(job, script, [0], if OpOf(d) == ERROR then -6 else -7);
    assert PutPackets(job, [0]) == [PutPacket(job, 0)];
  }

  lemma SilenceFails(job: Job)
    ensures Put(job, []) == ([Request(WRQ, job.name, job.mode)], -7)
  {
    TimesOutExactly(job.limit, [], 0);
    PutEnds(job, [], [0], -7);
    assert PutPackets(job, [0]) == [PutPacket(job, 0)];
  }
}
