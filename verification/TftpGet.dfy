/** The receiving half of the built-in TFTP client: what it stores and acknowledges for every sequence of datagrams. */
module TftpGet {
  import opened Bytes
  import opened TftpPackets
  import opened TftpWait

  /** What does not change over a transfer. */
  datatype Job = Job(little: bool, limit: nat, name: seq<byte>, mode: seq<byte>)

  /** The packet of a round: the request, or the acknowledgement of a block that is not 0. */
  function GetPacket(job: Job, b: uint16): seq<byte> {
    if b == 0 then Request(RRQ, job.name, job.mode) else AckPacket(b)
  }

  /** The number that a round's packet is built from. */
  function Number(first: bool, blk: uint16): uint16 {
    if first then 0 else blk
  }

  function GetPackets(job: Job, blks: seq<uint16>): (r: seq<seq<byte>>)
    ensures |r| == |blks|
  {
    seq(|blks|, i requires 0 <= i < |blks| => GetPacket(job, blks[i]))
  }

  /** The receive buffer, which held `under`, after a datagram. */
  function Overlay(data: seq<byte>, under: seq<byte>): (r: seq<byte>)
    requires |under| == PKTSIZE
    ensures |r| == PKTSIZE
    ensures forall i :: 0 <= i < PKTSIZE ==> r[i] == (if i < |data| then data[i] else under[i])
  {
    if |data| >= PKTSIZE then data[..PKTSIZE] else data + under[|data|..]
  }

  /** What a round leaves: the bytes written, the block counter and how it goes on. */
  datatype GetStep = GetStep(written: seq<byte>, blk: uint16, ret: Option<int>, run: bool, rest: Script)

  /** What a datagram of n bytes, in the buffer, adds to the file and what it makes of the block counter. */
  function Written(buf: seq<byte>, n: nat): seq<byte>
    requires n <= |buf|
  {
    if OpOf(buf) == DATA && n > 4 then buf[4..n] else []
  }

  function NextBlk(buf: seq<byte>, blk: uint16): uint16 {
    if OpOf(buf) == DATA && BlockOf(buf) == blk + 1 then BlockOf(buf) else blk
  }

  function GetOnce(limit: nat, under: seq<byte>, blk: uint16, run: bool, script: Script): (r: GetStep)
    requires |under| == PKTSIZE
    ensures r.ret.None? ==> |r.rest| < |script|
  {
    var reply := Wait(limit, script, run, 0);
    if reply.TimedOut? then GetStep([], blk, Some(-10), false, reply.rest)
    else
      ArrivedConsumes(limit, script, run, 0);
      var n := Min(|reply.data|, PKTSIZE);
      var buf := Overlay(reply.data, under);
      GetStep(Written(buf, n), NextBlk(buf, blk),
        if reply.expired then Some(-10) else if n == PKTSIZE then None else Some(0), reply.run, reply.rest)
  }

  /** The numbers that the packets are built from, everything written to the file, and the return code. */
  datatype Got = Got(blks: seq<uint16>, written: seq<byte>, ret: int)

  /** A round in front of the rest of a transfer. */
  function After(b: uint16, written: seq<byte>, r: Got): Got {
    Got([b] + r.blks, written + r.written, r.ret)
  }

  /** The request in the zeroed packet buffer. */
  function RequestBuffer(job: Job): (r: seq<byte>)
    ensures |r| == PKTSIZE
  {
    Overlay(Request(RRQ, job.name, job.mode), Zeros(PKTSIZE))
  }

  /** The packet buffer of a round when its datagram comes. */
  function Under(job: Job, first: bool): (r: seq<byte>)
    ensures |r| == PKTSIZE
  {
    if first then RequestBuffer(job) else Zeros(PKTSIZE)
  }

  function GetFrom(job: Job, first: bool, blk: uint16, run: bool, script: Script): (g: Got)
    ensures g.blks != []
    decreases |script|
  {
    var step := GetOnce(job.limit, Under(job, first), blk, run, script);
    var b := Number(first, blk);
    if step.ret.Some? then Got([b], step.written, step.ret.value)
    else After(b, step.written, GetFrom(job, false, step.blk, step.run, step.rest))
  }

  /** A whole transfer: the packets sent, the bytes written and the return code. */
  function Get(job: Job, script: Script): (r: (seq<seq<byte>>, seq<byte>, int)) {
    var g := GetFrom(job, true, 1, true, script);
    (GetPackets(job, g.blks), g.written, g.ret)
  }

  /** One turn of the outer loop. */
  method ReceiveTurn(job: Job, first: bool, blk: uint16, run: bool, net: Script) returns (packet: seq<byte>, step: GetStep)
    requires blk != 0
    ensures packet == GetPacket(job, Number(first, blk))
    ensures step == GetOnce(job.limit, Under(job, first), blk, run, net)
  {
    var buf := Zeros(PKTSIZE);
    if first {
      NetworkOrder(job.little, RRQ, [0, 0]);
      packet := Store16(job.little, Htons(job.little, RRQ)) + job.name + [0] + job.mode + [0];
      buf := Overlay(packet, buf);
    } else {
      NetworkOrder(job.little, ACK, [0, 0]);
      NetworkOrder(job.little, blk, [0, 0]);
      packet := Store16(job.little, Htons(job.little, ACK)) + Store16(job.little, Htons(job.little, blk));
    }
    var reply := WaitReply(job.limit, net, run);
    if reply.TimedOut? {
      return packet, GetStep([], blk, Some(-10), false, reply.rest);
    }
    buf := Overlay(reply.data, buf);
    var n := Min(|reply.data|, PKTSIZE);
    var written, blk' := StoreBlock(job.little, buf, n, blk);
    var ret := if reply.expired then Some(-10) else if n == PKTSIZE then None else Some(0);
    step := GetStep(written, blk', ret, reply.run, reply.rest);
  }

  /** What the datagram in the buffer adds to the file, and the block counter after it. */
  method StoreBlock(little: bool, buf: seq<byte>, n: nat, blk: uint16) returns (written: seq<byte>, blk': uint16)
    requires n <= |buf| == PKTSIZE
    ensures written == Written(buf, n) && blk' == NextBlk(buf, blk)
  {
    written, blk' := [], blk;
    NetworkOrder(little, 0, buf[..2]);
    var op := Htons(little, Load16(little, buf[..2]));
    if op == DATA {
      NetworkOrder(little, 0, buf[2..4]);
      var tmp := Htons(little, Load16(little, buf[2..4]));
      if n > 4 {
        written := buf[4..n];
      }
      if tmp == blk' + 1 {
        blk' := tmp;
      }
    }
  }

  lemma GetPacketsAppend(job: Job, blks: seq<uint16>, b: uint16)
    ensures GetPackets(job, blks + [b]) == GetPackets(job, blks) + [GetPacket(job, b)]
  {
  }

  /** What has been sent and written, in front of the rest of a transfer. */
  function Joined(blks: seq<uint16>, written: seq<byte>, r: Got): Got {
    Got(blks + r.blks, written + r.written, r.ret)
  }

  lemma JoinedOnce(blks: seq<uint16>, written: seq<byte>, b: uint16, more: seq<byte>)
    ensures forall r {:trigger After(b, more, r)} :: Joined(blks, written, After(b, more, r)) == Joined(blks + [b], written + more, r)
  {
    forall r: Got
      ensures blks + ([b] + r.blks) == blks + [b] + r.blks && written + (more + r.written) == written + more + r.written
    {
    }
  }

  method Receive(job: Job, script: Script) returns (sent: seq<seq<byte>>, file: seq<byte>, ret: int)
    ensures (sent, file, ret) == Get(job, script)
  {
    var first, blk: uint16, run, net := true, 1, true, script;
    ghost var all := GetFrom(job, first, blk, run, net);
    ghost var blks: seq<uint16> := [];
    sent, file := [], [];
    while true
      invariant blk != 0
      invariant Joined(blks, file, GetFrom(job, first, blk, run, net)) == all
      invariant sent == GetPackets(job, blks)
      decreases |net|
    {
      var packet, step := ReceiveTurn(job, first, blk, run, net);
      ghost var b := Number(first, blk);
      GetPacketsAppend(job, blks, b);
      JoinedOnce(blks, file, b, step.written);
      sent := sent + [packet];
      file := file + step.written;
      blks := blks + [b];
      if step.ret.Some? {
        return sent, file, step.ret.value;
      }
      first, blk, run, net := false, step.blk, step.run, step.rest;
    }
  }

  // ---------------------------------------------------------------------------------------------------------------
  // What is stored, whatever arrives
  // ---------------------------------------------------------------------------------------------------------------

  predicate IsData(d: seq<byte>) {
    |d| >= 2 && d[..2] == Be16(DATA)
  }

  /** What a datagram carries: at most 512 bytes, and nothing when it is not a data packet. */
  function Carried(d: seq<byte>): seq<byte> {
    if IsData(d) then Payload(d[..Min(|d|, PKTSIZE)]) else []
  }

  function AllCarried(ds: seq<seq<byte>>): (r: seq<seq<byte>>)
    ensures |r| == |ds|
  {
    seq(|ds|, i requires 0 <= i < |ds| => Carried(ds[i]))
  }

  lemma WrittenIsCarried(data: seq<byte>, under: seq<byte>)
    requires data != [] && |under| == PKTSIZE
    ensures Written(Overlay(data, under), Min(|data|, PKTSIZE)) == Carried(data)
  {
    var buf, n := Overlay(data, under), Min(|data|, PKTSIZE);
    if n > 4 {
      assert buf[0] == data[0] && buf[1] == data[1];
      assert OpOf(buf) == DATA <==> data[..2] == Be16(DATA);
      assert buf[4..n] == data[..n][4..];
    }
  }

  lemma OnceTakes(limit: nat, under: seq<byte>, blk: uint16, run: bool, script: Script) returns (k: nat)
    requires |under| == PKTSIZE
    ensures var r := GetOnce(limit, under, blk, run, script);
            k <= 1 && k <= |Datagrams(script)| && r.written == Flatten(AllCarried(Datagrams(script)[..k]))
            && Datagrams(script)[k..] == Datagrams(r.rest)
            && (k == 0 ==> r.ret == Some(-10))
            && (r.ret == Some(0) ==> |Datagrams(script)[0]| < PKTSIZE)
            && (r.ret == None ==> |Datagrams(script)[0]| >= PKTSIZE && r.written == Flatten(AllCarried(Datagrams(script)[..1])))
  {
    WaitTakes(limit, script, run, 0);
    var w := Wait(limit, script, run, 0);
    k := if w.Arrived? then 1 else 0;
    if w.Arrived? {
      WrittenIsCarried(w.data, under);
      assert Datagrams(script)[..1] == [w.data];
      assert AllCarried([w.data]) == [Carried(w.data)];
      assert Flatten([Carried(w.data)]) == Carried(w.data) + [];
    }
  }

  /**
   * A transfer has taken k of the datagrams: the file is what these carry, repeated blocks included, and there is one for
   * each packet sent. All but the last are of full size, and success takes a short one, of whatever kind.
   */
  ghost predicate Stores(g: Got, ds: seq<seq<byte>>, k: nat) {
    && k <= |ds| && g.written == Flatten(AllCarried(ds[..k]))
    && (k == |g.blks| || (k == |g.blks| - 1 && g.ret == -10))
    && (forall i :: 0 <= i < |g.blks| - 1 ==> |ds[i]| >= PKTSIZE)
    && (g.ret == 0 ==> k > 0 && |ds[k - 1]| < PKTSIZE) && (g.ret == 0 || g.ret == -10)
  }

  lemma CarriedSplit(ds: seq<seq<byte>>, m: nat)
    requires 1 + m <= |ds|
    ensures Flatten(AllCarried(ds[..1 + m])) == Flatten(AllCarried(ds[..1])) + Flatten(AllCarried(ds[1..][..m]))
  {
    assert ds[..1 + m] == ds[..1] + ds[1..][..m];
    assert AllCarried(ds[..1 + m]) == AllCarried(ds[..1]) + AllCarried(ds[1..][..m]);
    FlattenAppend(AllCarried(ds[..1]), AllCarried(ds[1..][..m]));
  }

  lemma StoresAfter(b: uint16, written: seq<byte>, g: Got, ds: seq<seq<byte>>, m: nat)
    requires ds != [] && |ds[0]| >= PKTSIZE && written == Flatten(AllCarried(ds[..1]))
    requires Stores(g, ds[1..], m)
    ensures Stores(After(b, written, g), ds, 1 + m)
  {
    CarriedSplit(ds, m);
    forall i | 0 <= i < |g.blks|
      ensures |ds[i]| >= PKTSIZE
    {
      assert i > 0 ==> ds[i] == ds[1..][i - 1];
    }
  }

  /** The first turn of a transfer: either its last one, or one full datagram. */
  lemma FirstTurn(job: Job, first: bool, blk: uint16, run: bool, script: Script) returns (step: GetStep, k: nat)
    ensures step.ret.Some? ==> Stores(GetFrom(job, first, blk, run, script), Datagrams(script), k)
    ensures step.ret.None? ==>
              var ds := Datagrams(script);
              && |step.rest| < |script| && ds != [] && |ds[0]| >= PKTSIZE
              && step.written == Flatten(AllCarried(ds[..1])) && Datagrams(step.rest) == ds[1..]
              && GetFrom(job, first, blk, run, script)
                 == After(Number(first, blk), step.written, GetFrom(job, false, step.blk, step.run, step.rest))
  {
    step := GetOnce(job.limit, Under(job, first), blk, run, script);
    k := OnceTakes(job.limit, Under(job, first), blk, run, script);
  }

  lemma {:induction false} StoresFrom(job: Job, first: bool, blk: uint16, run: bool, script: Script) returns (k: nat)
    ensures Stores(GetFrom(job, first, blk, run, script), Datagrams(script), k)
    decreases |script|
  {
    var step;
    step, k := FirstTurn(job, first, blk, run, script);
    if step.ret.None? {
      k := StoresFrom(job, false, step.blk, step.run, step.rest);
      StoresAfter(Number(first, blk), step.written, GetFrom(job, false, step.blk, step.run, step.rest), Datagrams(script), k);
      k := 1 + k;
    }
  }

  /** Whatever arrives, the file is what the first k datagrams carry, and nothing else. */
  lemma StoresCarried(job: Job, script: Script) returns (k: nat)
    ensures var (sent, file, ret) := Get(job, script);
            var ds := Datagrams(script);
            k <= |ds| && file == Flatten(AllCarried(ds[..k]))
            && (k == |sent| || (k == |sent| - 1 && ret == -10))
            && (forall i :: 0 <= i < |sent| - 1 ==> |ds[i]| >= 516)
            && (ret == 0 ==> k > 0 && |ds[k - 1]| < 516) && (ret == 0 || ret == -10)
  {
    k := StoresFrom(job, true, 1, true, script);
  }

  /** What a datagram carries, byte by byte. */
  lemma CarriedBytes(d: seq<byte>)
    ensures Carried(d) == if |d| > 4 && d[0] == 0 && d[1] == 3 then d[4..Min(|d|, 516)] else []
  {
    if |d| >= 2 {
      assert d[..2] == [d[0], d[1]];
    }
  }

  // ---------------------------------------------------------------------------------------------------------------
  // What is acknowledged, whatever arrives
  // ---------------------------------------------------------------------------------------------------------------

  /** The number acknowledged after a full datagram: that of the next block, when it is that block. */
  function Acknowledged(a: uint16, d: seq<byte>): uint16 {
    if |d| >= 4 && d[0] == 0 && d[1] == 3 && 256 * d[2] as int + d[3] as int == a + 1 then a + 1 else a
  }

  lemma NextIsAcknowledged(data: seq<byte>, under: seq<byte>, blk: uint16)
    requires |under| == PKTSIZE && |data| >= PKTSIZE
    ensures NextBlk(Overlay(data, under), blk) == Acknowledged(blk, data)
  {
    var buf := Overlay(data, under);
    assert buf[0] == data[0] && buf[1] == data[1] && buf[2] == data[2] && buf[3] == data[3];
  }

  /** The block counter after the first turn, when it is not the last one. */
  lemma FirstCounter(job: Job, first: bool, blk: uint16, run: bool, script: Script) returns (step: GetStep)
    ensures step == GetOnce(job.limit, Under(job, first), blk, run, script)
    ensures step.ret.None? ==> Datagrams(script) != [] && step.blk == Acknowledged(blk, Datagrams(script)[0])
                               && Datagrams(step.rest) == Datagrams(script)[1..] && |step.rest| < |script|
  {
    step := GetOnce(job.limit, Under(job, first), blk, run, script);
    WaitTakes(job.limit, script, run, 0);
    var w := Wait(job.limit, script, run, 0);
    if w.Arrived? && |w.data| >= PKTSIZE {
      NextIsAcknowledged(w.data, Under(job, first), blk);
    }
  }

  lemma {:induction false} CountersFrom(job: Job, first: bool, blk: uint16, run: bool, script: Script) returns (as': seq<uint16>)
    ensures var blks, ds := GetFrom(job, first, blk, run, script).blks, Datagrams(script);
            && |as'| == |blks| <= |ds| + 1 && as'[0] == blk && blks[0] == Number(first, blk)
            && (forall i :: 0 < i < |blks| ==> blks[i] == as'[i] && as'[i] == Acknowledged(as'[i - 1], ds[i - 1]))
    decreases |script|
  {
    var step := FirstCounter(job, first, blk, run, script);
    if step.ret.Some? {
      as' := [blk];
    } else {
      var more := CountersFrom(job, false, step.blk, step.run, step.rest);
      as' := [blk] + more;
      CountersBefore(blk, more, Datagrams(script), GetFrom(job, false, step.blk, step.run, step.rest).blks, step.blk,
        GetFrom(job, first, blk, run, script).blks, Number(first, blk));
    }
  }

  lemma CountersBefore(blk: uint16, more: seq<uint16>, ds: seq<seq<byte>>, rest: seq<uint16>, next: uint16, all: seq<uint16>, b: uint16)
    requires ds != [] && next == Acknowledged(blk, ds[0]) && all == [b] + rest
    requires |more| == |rest| <= |ds[1..]| + 1 && more != [] && more[0] == next && rest[0] == next
    requires forall i :: 0 < i < |rest| ==> rest[i] == more[i] && more[i] == Acknowledged(more[i - 1], ds[1..][i - 1])
    ensures var as' := [blk] + more;
            forall i :: 0 < i < |all| ==> all[i] == as'[i] && as'[i] == Acknowledged(as'[i - 1], ds[i - 1])
  {
    var as' := [blk] + more;
    forall i | 0 < i < |all|
      ensures all[i] == as'[i] && as'[i] == Acknowledged(as'[i - 1], ds[i - 1])
    {
      if i > 1 {
        assert ds[1..][i - 2] == ds[i - 1] && as'[i - 1] == more[i - 2];
      }
    }
  }

  /**
   * Whatever arrives: the request goes out first, and after every full datagram an acknowledgement. It is of the block that
   * has just come when that is the next one, and otherwise once more of the last one; it starts at 1.
   */
  lemma GetAnswers(job: Job, script: Script) returns (as': seq<uint16>)
    ensures var sent, ds := Get(job, script).0, Datagrams(script);
            && |as'| == |sent| <= |ds| + 1 && as'[0] == 1 && sent[0] == [0, 1] + job.name + [0] + job.mode + [0]
            && (forall i :: 0 < i < |sent| ==>
                  && as'[i] == Acknowledged(as'[i - 1], ds[i - 1]) && as'[i] > 0
                  && sent[i] == [0, 4, as'[i] / 256, as'[i] % 256])
  {
    as' := CountersFrom(job, true, 1, true, script);
    var blks := GetFrom(job, true, 1, true, script).blks;
    PacketBytes(job.name, job.mode, 0, []);
    forall i | 0 < i < |blks|
      ensures as'[i] > 0
    {
      CountersPositive(as', Datagrams(script), i);
    }
    forall i | 0 < i < |blks|
      ensures GetPackets(job, blks)[i] == [0, 4, as'[i] / 256, as'[i] % 256]
    {
      PacketBytes(job.name, job.mode, as'[i], []);
    }
  }

  lemma {:induction false} CountersPositive(as': seq<uint16>, ds: seq<seq<byte>>, i: nat)
    requires i < |as'| <= |ds| + 1 && as'[0] > 0
    requires forall k :: 0 < k < |as'| ==> as'[k] == Acknowledged(as'[k - 1], ds[k - 1])
    ensures as'[i] > 0
  {
    if i > 0 {
      CountersPositive(as', ds, i - 1);
    }
  }

  /** A first datagram that is short ends the transfer in success, also when it is an error packet and nothing is stored. */
  lemma ShortDatagramSucceeds(job: Job, delay: nat, d: seq<byte>, rest: Script)
    requires d != [] && delay <= job.limit
    ensures Get(job, Nothing(delay) + [d] + rest) == ([Request(RRQ, job.name, job.mode)], Carried(d), 0) <==> |d| < 516
  {
    var script := Nothing(delay) + [d] + rest;
    ArrivesInTime(job.limit, delay, d, rest, 0);
    WrittenIsCarried(d, RequestBuffer(job));
    var g := GetFrom(job, true, 1, true, script);
    if |d| < PKTSIZE {
      assert GetPackets(job, g.blks) == [GetPacket(job, 0)];
    }
  }

  // ---------------------------------------------------------------------------------------------------------------
  // A server that sends every block once and in order
  // ---------------------------------------------------------------------------------------------------------------

  /** Blocks b, b + 1, ... of a file, numbered modulo 2 to the 16, with so many empty polls in front of each. */
  function DataScript(file: seq<byte>, delays: seq<nat>, b: nat): Script
    requires b >= 1
  {
    if delays == [] then []
    else Nothing(delays[0]) + [DataPacket(b % 0x1_0000, Segment(file, b))] + DataScript(file, delays[1..], b + 1)
  }

  /** The block counter after block b: it stops at 65535, because the wrapped number 0 is never its successor. */
  function BlkAfter(b: nat): uint16 {
    if b == 0 then 1 else Min(b, 0xFFFF)
  }

  lemma DataReceived(b: uint16, payload: seq<byte>, under: seq<byte>)
    requires |under| == PKTSIZE && |payload| <= SEGSIZE
    ensures var p := DataPacket(b, payload);
            var buf := Overlay(p, under);
            p != [] && |p| == |payload| + 4 && OpOf(buf) == DATA && BlockOf(buf) == b && Written(buf, |p|) == payload
  {
    var p := DataPacket(b, payload);
    var buf := Overlay(p, under);
    DataPacketParts(b, payload);
    assert buf[0] == p[0] && buf[1] == p[1] && buf[2] == p[2] && buf[3] == p[3];
    assert buf[4..|p|] == p[4..];
  }

  lemma OnceArrived(limit: nat, under: seq<byte>, blk: uint16, script: Script, b: uint16, payload: seq<byte>, rest: Script)
    requires |under| == PKTSIZE && |payload| <= SEGSIZE
    requires Wait(limit, script, true, 0).Arrived? && Wait(limit, script, true, 0).data == DataPacket(b, payload)
    requires var w := Wait(limit, script, true, 0); !w.expired && w.run && w.rest == rest
    ensures GetOnce(limit, under, blk, true, script)
            == GetStep(payload, if b == blk + 1 then b else blk, if |payload| == SEGSIZE then None else Some(0), true, rest)
  {
    DataReceived(b, payload, under);
  }

  lemma BlkCounts(b: nat)
    requires b >= 1
    ensures (if b % 0x1_0000 == BlkAfter(b - 1) + 1 then b % 0x1_0000 else BlkAfter(b - 1)) == BlkAfter(b)
  {
  }

  lemma OncePrompt(limit: nat, under: seq<byte>, blk: uint16, delay: nat, b: uint16, payload: seq<byte>, rest: Script)
    requires |under| == PKTSIZE && |payload| <= SEGSIZE && delay <= limit
    ensures GetOnce(limit, under, blk, true, Nothing(delay) + [DataPacket(b, payload)] + rest)
            == GetStep(payload, if b == blk + 1 then b else blk, if |payload| == SEGSIZE then None else Some(0), true, rest)
  {
    assert DataPacket(b, payload)[0] == 0;
    ArrivesInTime(limit, delay, DataPacket(b, payload), rest, 0);
    OnceArrived(limit, under, blk, Nothing(delay) + [DataPacket(b, payload)] + rest, b, payload, rest);
  }

  /** Acknowledgements of the blocks b, ..., b + m - 1. */
  function Acks(b: nat, m: nat): (r: seq<uint16>)
    ensures |r| == m
    ensures forall i :: 0 <= i < m ==> r[i] == BlkAfter(b + i)
    decreases m
  {
    if m == 0 then [] else [BlkAfter(b)] + Acks(b + 1, m - 1)
  }

  type Rest = (bool, uint16, Script) -> Got

  /** The transfer with its run flag up, as a function of its state and the script. */
  function Running(job: Job): Rest {
    (first: bool, blk: uint16, script: Script) => GetFrom(job, first, blk, true, script)
  }

  /** What block b, arriving in time, does in terms of the rest of the transfer. */
  function Block(rest: Rest, a: uint16, payload: seq<byte>, b: nat, script: Script): Got {
    if |payload| == SEGSIZE then After(a, payload, rest(false, BlkAfter(b), script)) else Got([a], payload, 0)
  }

  /** The first block is in time; the other arguments say which round that is about. */
  ghost predicate InTime(limit: nat, first: bool, delays: seq<nat>, b: nat, rest: Script) {
    b >= 1 && delays != [] && delays[0] <= limit
  }

  ghost predicate Rounds(g: Rest, limit: nat, file: seq<byte>) {
    forall first: bool, delays: seq<nat>, b: nat, rest: Script {:trigger InTime(limit, first, delays, b, rest)} ::
      InTime(limit, first, delays, b, rest) ==>
        g(first, BlkAfter(b - 1), DataScript(file, delays, b) + rest)
        == Block(g, Number(first, BlkAfter(b - 1)), Segment(file, b), b, DataScript(file, delays[1..], b + 1) + rest)
  }

  lemma GetRound(job: Job, file: seq<byte>, first: bool, delays: seq<nat>, b: nat, rest: Script)
    requires InTime(job.limit, first, delays, b, rest)
    ensures var g := Running(job);
            g(first, BlkAfter(b - 1), DataScript(file, delays, b) + rest)
            == Block(g, Number(first, BlkAfter(b - 1)), Segment(file, b), b, DataScript(file, delays[1..], b + 1) + rest)
  {
    var later := DataScript(file, delays[1..], b + 1) + rest;
    var p := DataPacket(b % 0x1_0000, Segment(file, b));
    assert DataScript(file, delays, b) + rest == Nothing(delays[0]) + [p] + later;
    BlkCounts(b);
    OncePrompt(job.limit, Under(job, first), BlkAfter(b - 1), delays[0], b % 0x1_0000, Segment(file, b), later);
  }

  lemma GetRounds(job: Job, file: seq<byte>)
    ensures Rounds(Running(job), job.limit, file)
  {
    var g := Running(job);
    forall first: bool, delays: seq<nat>, b: nat, rest: Script | InTime(job.limit, first, delays, b, rest)
      ensures g(first, BlkAfter(b - 1), DataScript(file, delays, b) + rest)
              == Block(g, Number(first, BlkAfter(b - 1)), Segment(file, b), b, DataScript(file, delays[1..], b + 1) + rest)
    {
      GetRound(job, file, first, delays, b, rest);
    }
  }

  lemma {:induction false} BlocksStored(g: Rest, limit: nat, first: bool, file: seq<byte>, delays: seq<nat>, b: nat, rest: Script)
    requires Rounds(g, limit, file)
    requires 1 <= b && |delays| == Blocks(|file|) + 1 - b > 0
    requires forall i :: 0 <= i < |delays| ==> delays[i] <= limit
    ensures g(first, BlkAfter(b - 1), DataScript(file, delays, b) + rest) == InOrder(Number(first, BlkAfter(b - 1)), file, b)
    decreases |delays|
  {
    if |delays| > 1 {
      BlocksStored(g, limit, false, file, delays[1..], b + 1, rest);
    }
    RoundInOrder(g, limit, first, file, delays, b, rest);
  }

  /** One round in front of those that are in order. */
  lemma RoundInOrder(g: Rest, limit: nat, first: bool, file: seq<byte>, delays: seq<nat>, b: nat, rest: Script)
    requires Rounds(g, limit, file) && InTime(limit, first, delays, b, rest) && |delays| == Blocks(|file|) + 1 - b
    requires |delays| > 1 ==>
               g(false, BlkAfter(b), DataScript(file, delays[1..], b + 1) + rest) == InOrder(BlkAfter(b), file, b + 1)
    ensures g(first, BlkAfter(b - 1), DataScript(file, delays, b) + rest) == InOrder(Number(first, BlkAfter(b - 1)), file, b)
  {
    if |delays| == 1 {
      LastInOrder(Number(first, BlkAfter(b - 1)), file, b);
    } else {
      BlockInOrder(Number(first, BlkAfter(b - 1)), file, b);
    }
  }

  /** Packet a and the acknowledgements of the blocks from b up to the last but one; the file from block b. */
  function InOrder(a: uint16, file: seq<byte>, b: nat): Got
    requires 1 <= b <= Blocks(|file|)
  {
    Got([a] + Acks(b, Blocks(|file|) - b), file[(b - 1) * SEGSIZE..], 0)
  }

  lemma BlockInOrder(a: uint16, file: seq<byte>, b: nat)
    requires 1 <= b < Blocks(|file|)
    ensures |Segment(file, b)| == SEGSIZE
    ensures After(a, Segment(file, b), InOrder(BlkAfter(b), file, b + 1)) == InOrder(a, file, b)
  {
    assert file[(b - 1) * SEGSIZE..] == Segment(file, b) + file[b * SEGSIZE..];
  }

  lemma LastInOrder(a: uint16, file: seq<byte>, b: nat)
    requires b == Blocks(|file|)
    ensures |Segment(file, b)| < SEGSIZE && Got([a], Segment(file, b), 0) == InOrder(a, file, b)
  {
  }

  /** Section 6 of RFC 1350: the request, then an acknowledgement of every block, the last one included, modulo 2 to the 16. */
  function StandardPacket(job: Job, i: nat): seq<byte> {
    if i == 0 then Request(RRQ, job.name, job.mode) else AckPacket(i % 0x1_0000)
  }

  function Standard(job: Job, len: nat): (r: seq<seq<byte>>)
    ensures |r| == Blocks(len) + 1
    ensures forall i :: 0 <= i < |r| ==> r[i] == StandardPacket(job, i)
  {
    seq(Blocks(len) + 1, i requires 0 <= i => StandardPacket(job, i))
  }

  lemma InOrderAt(file: seq<byte>, i: nat)
    requires i < Blocks(|file|)
    ensures var blks := InOrder(0, file, 1).blks;
            |blks| == Blocks(|file|) && blks[i] == if i == 0 then 0 else Min(i, 0xFFFF)
  {
  }

  lemma NumberedPacket(job: Job, i: uint16)
    ensures GetPacket(job, i) == StandardPacket(job, i)
  {
    assert i % 0x1_0000 == i;
  }

  lemma InOrderPacketAt(job: Job, file: seq<byte>, i: nat)
    requires i < Blocks(|file|) && i < 0x1_0000
    ensures GetPackets(job, InOrder(0, file, 1).blks)[i] == StandardPacket(job, i)
  {
    InOrderAt(file, i);
    NumberedPacket(job, i);
    assert GetPackets(job, InOrder(0, file, 1).blks)[i] == GetPacket(job, i);
  }

  lemma WrappedPacket(job: Job, file: seq<byte>)
    requires Blocks(|file|) > 0x1_0000
    ensures GetPackets(job, InOrder(0, file, 1).blks)[0x1_0000] != StandardPacket(job, 0x1_0000)
  {
    InOrderAt(file, 0x1_0000);
    AckPacketParts(0xFFFF);
    AckPacketParts(0);
    assert StandardPacket(job, 0x1_0000) == AckPacket(0);
  }

  /** The packets of a transfer in order, against the standard's without its last one. */
  lemma InOrderPackets(job: Job, file: seq<byte>)
    ensures GetPackets(job, InOrder(0, file, 1).blks) == Standard(job, |file|)[..Blocks(|file|)] <==> |file| < 0x1_0000 * SEGSIZE
  {
    var sent, n := GetPackets(job, InOrder(0, file, 1).blks), Blocks(|file|);
    var standard := Standard(job, |file|);
    if n <= 0x1_0000 {
      forall i | 0 <= i < n
        ensures sent[i] == standard[..n][i]
      {
        InOrderPacketAt(job, file, i);
      }
    } else {
      WrappedPacket(job, file);
      assert standard[..n][0x1_0000] == StandardPacket(job, 0x1_0000);
    }
  }

  /**
   * When every block arrives once, in order and in time, a file of any length is stored exactly and the transfer succeeds.
   * The last acknowledgement that the standard asks for is never sent. The packets before it are the standard's if and
   * only if the file is shorter than 65536 * 512 bytes.
   */
  lemma GetCompletes(job: Job, file: seq<byte>, delays: seq<nat>, rest: Script)
    requires |delays| == Blocks(|file|) && forall i :: 0 <= i < |delays| ==> delays[i] <= job.limit
    ensures var (sent, stored, ret) := Get(job, DataScript(file, delays, 1) + rest);
            var standard := Standard(job, |file|);
            stored == file && ret == 0 && |sent| == |standard| - 1 && sent != standard
            && (sent == standard[..|standard| - 1] <==> |file| < 65536 * 512)
  {
    GetRounds(job, file);
    BlocksStored(Running(job), job.limit, true, file, delays, 1, rest);
    InOrderPackets(job, file);
    assert file[0..] == file;
  }

  /** A datagram that comes with the last poll is still stored, but the transfer fails. */
  lemma LateDatagramFails(job: Job, d: seq<byte>, rest: Script)
    requires d != []
    ensures Get(job, Nothing(job.limit + 2) + [d] + rest) == ([Request(RRQ, job.name, job.mode)], Carried(d), -10)
  {
    var script := Nothing(job.limit + 2) + [d] + rest;
    ArrivesExactly(job.limit, job.limit + 2, d, rest, 0);
    WrittenIsCarried(d, RequestBuffer(job));
    var g := GetFrom(job, true, 1, true, script);
    assert GetPackets(job, g.blks) == [GetPacket(job, 0)];
  }

  /** Nothing at all gives one request and a failure. */
  lemma SilenceFails(job: Job)
    ensures Get(job, []) == ([Request(RRQ, job.name, job.mode)], [], -10)
  {
    TimesOutExactly(job.limit, [], 0);
    var g := GetFrom(job, true, 1, true, []);
    assert GetPackets(job, g.blks) == [GetPacket(job, 0)];
  }
}
