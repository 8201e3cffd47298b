/** The packets of RFC 1350, section 5, and how the client builds and reads them on either kind of machine. */
module TftpPackets {
  import opened Bytes

  const SEGSIZE := 512
  const PKTSIZE := 516
  const RRQ := 1
  const WRQ := 2
  const DATA := 3
  const ACK := 4
  const ERROR := 5

  /** The machine's htons and ntohs. */
  function Htons(little: bool, v: uint16): uint16 {
    if little then v % 256 * 256 + v / 256 else v
  }

  /** Big-endian, as the wire has it. */
  function Be16(v: uint16): (r: seq<byte>)
    ensures |r| == 2
  {
    [v / 256, v % 256]
  }

  function FromBe16(b: seq<byte>): uint16
    requires |b| == 2
  {
    var x: int, y: int := b[0], b[1];
    256 * x + y
  }

  lemma Swapped(lo: byte, hi: byte)
    ensures (lo * 256 + hi) % 256 == hi && (lo * 256 + hi) / 256 == lo
  {
  }

  lemma NetworkOrder(little: bool, v: uint16, b: seq<byte>)
    requires |b| == 2
    ensures Store16(little, Htons(little, v)) == Be16(v) && Htons(little, Load16(little, b)) == FromBe16(b)
    ensures Htons(little, Htons(little, v)) == v && FromBe16(Be16(v)) == v
    ensures v != 0 ==> Htons(little, v) != 0
  {
    Swapped(v % 256, v / 256);
    Swapped(b[1], b[0]);
  }

  function Request(op: uint16, name: seq<byte>, mode: seq<byte>): seq<byte> {
    Be16(op) + name + [0] + mode + [0]
  }

  function DataPacket(b: uint16, payload: seq<byte>): seq<byte> {
    Be16(DATA) + Be16(b) + payload
  }

  /** The part of a data packet behind its opcode and block number. */
  function Payload(packet: seq<byte>): seq<byte> {
    if |packet| > 4 then packet[4..] else []
  }

  function Payloads(packets: seq<seq<byte>>): (r: seq<seq<byte>>)
    ensures |r| == |packets|
  {
    seq(|packets|, i requires 0 <= i < |packets| => Payload(packets[i]))
  }

  function AckPacket(b: uint16): seq<byte> {
    Be16(ACK) + Be16(b)
  }

  /** A byte of the zeroed receive buffer after a datagram. */
  function At(data: seq<byte>, i: nat): byte {
    if i < |data| then data[i] else 0
  }

  function OpOf(data: seq<byte>): uint16 {
    var x: int, y: int := At(data, 0), At(data, 1);
    256 * x + y
  }

  function BlockOf(data: seq<byte>): uint16 {
    var x: int, y: int := At(data, 2), At(data, 3);
    256 * x + y
  }

  /** How many bytes of a file of `len` bytes block b has. */
  function BlockSize(len: nat, b: nat): (r: nat)
    requires b >= 1
    ensures r <= SEGSIZE
  {
    if (b - 1) * SEGSIZE >= len then 0 else Min(SEGSIZE, len - (b - 1) * SEGSIZE)
  }

  /** Block b of a file: the bytes from (b - 1) * 512 up to b * 512 or the end of the file. */
  function Segment(file: seq<byte>, b: nat): (r: seq<byte>)
    requires b >= 1
    ensures |r| == BlockSize(|file|, b)
  {
    var lo := (b - 1) * SEGSIZE;
    if lo >= |file| then [] else file[lo..Min(lo + SEGSIZE, |file|)]
  }

  /** The zeroed receive buffer after a datagram. */
  function Received(data: seq<byte>, size: nat): (r: seq<byte>)
    ensures |r| == size
    ensures forall i :: 0 <= i < size ==> r[i] == At(data, i)
  {
    if |data| >= size then data[..size] else data + Zeros(size - |data|)
  }

  lemma DataPacketParts(b: uint16, payload: seq<byte>)
    ensures var p := DataPacket(b, payload);
            p[..2] == Be16(DATA) && p[2..4] == Be16(b) && FromBe16(p[2..4]) == b && Payload(p) == payload && p[4..] == payload
  {
  }

  lemma AckPacketParts(k: uint16)
    ensures AckPacket(k) != [] && OpOf(AckPacket(k)) == ACK && BlockOf(AckPacket(k)) == k
  {
  }

  /** How many data packets a file takes: the last one is short, possibly empty. */
  function Blocks(len: nat): (n: nat)
    ensures n >= 1 && (n - 1) * SEGSIZE <= len < n * SEGSIZE
  {
    len / SEGSIZE + 1
  }

  function Segments(file: seq<byte>, m: nat): (r: seq<seq<byte>>)
    ensures |r| == m
  {
    seq(m, i requires 0 <= i < m => Segment(file, i + 1))
  }

  lemma {:induction false} SegmentsArePrefix(file: seq<byte>, m: nat)
    requires m <= Blocks(|file|)
    ensures Flatten(Segments(file, m)) == file[..Min(m * SEGSIZE, |file|)]
  {
    if m > 0 {
      SegmentsArePrefix(file, m - 1);
      assert Segments(file, m) == Segments(file, m - 1) + [Segment(file, m)];
      FlattenAppend(Segments(file, m - 1), [Segment(file, m)]);
      assert Flatten([Segment(file, m)]) == Segment(file, m);
    }
  }

  /** The packets byte by byte. */
  lemma PacketBytes(name: seq<byte>, mode: seq<byte>, b: uint16, payload: seq<byte>)
    ensures Request(RRQ, name, mode) == [0, 1] + name + [0] + mode + [0]
    ensures Request(WRQ, name, mode) == [0, 2] + name + [0] + mode + [0]
    ensures DataPacket(b, payload) == [0, 3, b / 256, b % 256] + payload
    ensures AckPacket(b) == [0, 4, b / 256, b % 256]
    ensures ACK == 4 && ERROR == 5
  {
  }

  /** How a datagram is read into a zeroed buffer. */
  lemma ReadBytes(d: seq<byte>)
    ensures |d| >= 2 ==> OpOf(d) == 256 * d[0] as int + d[1] as int
    ensures |d| >= 4 ==> BlockOf(d) == 256 * d[2] as int + d[3] as int
    ensures |d| < 2 ==> OpOf(d) == if |d| == 1 then 256 * d[0] as int else 0
    ensures |d| < 4 ==> BlockOf(d) == if |d| == 3 then 256 * d[2] as int else 0
  {
  }

  /** Blocks are 512 bytes of the file, one after the other; the last one is shorter, or empty. */
  lemma SegmentBytes(file: seq<byte>, b: nat)
    requires b >= 1
    ensures Segment(file, b) == if 512 * (b - 1) > |file| then [] else if 512 * b > |file| then file[512 * (b - 1)..]
                                else file[512 * (b - 1)..512 * b]
    ensures Blocks(|file|) == |file| / 512 + 1
  {
  }
}
