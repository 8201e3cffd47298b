/** The DDP header codec. Fields are little-endian on the wire whatever the machine's byte order is. */
module Header {
  import opened Bytes

  const IPV4_FLAG := 4
  const IPV6_FLAG := 6

  const IDENT_OFFSET := 0
  const SEQ_OFFSET := 2
  const OPCODE_OFFSET := 4
  const MAC_OFFSET := 6
  const IP_OFFSET := 12
  const RETCODE_V4_OFFSET := 16
  const PVER_V4_OFFSET := 18
  const BDLEN_V4_OFFSET := 20
  const END_V4_OFFSET := 22
  const RETCODE_V6_OFFSET := 28
  const PVER_V6_OFFSET := 30
  const BDLEN_V6_OFFSET := 32
  const END_V6_OFFSET := 34

  /** `ip` holds the four or sixteen bytes of the address union that the IP version gives a meaning. */
  datatype Header = Header(
    ipVer: nat, identifier: uint16, seqNo: uint16, opcode: uint16, mac: seq<byte>, ip: seq<byte>,
    retCode: uint16, protoVer: uint16, bodyLen: uint16)
  {
    predicate WellSized() {
      |mac| == 6 && |ip| == if ipVer == IPV4_FLAG then 4 else 16
    }
  }

  function End(ipVer: nat): nat {
    if ipVer == IPV4_FLAG then END_V4_OFFSET else END_V6_OFFSET
  }

  // ---------------------------------------------------------------------------------------------------------------
  // Byte order
  // ---------------------------------------------------------------------------------------------------------------

  function Load32(little: bool, b: seq<byte>): uint32
    requires |b| == 4
  {
    var x: int, y: int, z: int, w: int := b[0], b[1], b[2], b[3];
    if little then x + 0x100 * y + 0x1_0000 * z + 0x100_0000 * w
    else 0x100_0000 * x + 0x1_0000 * y + 0x100 * z + w
  }

  /** The source's DDP_HTONS and DDP_NTOHS: they swap on big-endian machines only. */
  function Swap16(little: bool, v: uint16): uint16 {
    if little then v else v % 256 * 256 + v / 256
  }

  function Swap32(little: bool, v: uint32): uint32 {
    if little then v
    else v % 0x100 * 0x100_0000 + v / 0x100 % 0x100 * 0x1_0000 + v / 0x1_0000 % 0x100 * 0x100 + v / 0x100_0000
  }

  function Le16(v: uint16): (r: seq<byte>)
    ensures |r| == 2
  {
    [v % 256, v / 256]
  }

  function FromLe16(b: seq<byte>): uint16
    requires |b| == 2
  {
    var x: int, y: int := b[0], b[1];
    x + 256 * y
  }

  function FromLe32(b: seq<byte>): uint32
    requires |b| == 4
  {
    var x: int, y: int, z: int, w: int := b[0], b[1], b[2], b[3];
    x + 0x100 * y + 0x1_0000 * z + 0x100_0000 * w
  }

  /** Swapping and storing puts little-endian bytes on the wire on either kind of machine, and back. */
  lemma WireOrder16(little: bool, v: uint16, b: seq<byte>)
    requires |b| == 2
    ensures Store16(little, Swap16(little, v)) == Le16(v)
    ensures Swap16(little, Load16(little, b)) == FromLe16(b)
    ensures FromLe16(Le16(v)) == v && Le16(FromLe16(b)) == b
  {
    var x: int, y: int, lo, hi := b[0], b[1], v % 256, v / 256;
    Quotient(lo * 256 + hi, 256, lo, hi);
    Quotient(256 * x + y, 256, x, y);
    Quotient(x + 256 * y, 256, y, x);
  }

  lemma WireOrder32(little: bool, b: seq<byte>)
    requires |b| == 4
    ensures Swap32(little, Load32(little, b)) == FromLe32(b)
  {
    if !little {
      var v := Load32(little, b);
      var x: int, y: int, z: int, w: int := b[0], b[1], b[2], b[3];
      Quotient(v, 0x100, 0x1_0000 * x + 0x100 * y + z, w);
      Quotient(0x1_0000 * x + 0x100 * y + z, 0x100, 0x100 * x + y, z);
      Quotient(v, 0x1_0000, 0x100 * x + y, 0x100 * z + w);
      Quotient(0x100 * x + y, 0x100, x, y);
      Quotient(v, 0x100_0000, x, 0x1_0000 * y + 0x100 * z + w);
    }
  }

  // ---------------------------------------------------------------------------------------------------------------
  // The wire format
  // ---------------------------------------------------------------------------------------------------------------

  function Wire(h: Header): (r: seq<byte>)
    requires h.WellSized()
    ensures |r| == End(h.ipVer)
  {
    Le16(h.identifier) + Le16(h.seqNo) + Le16(h.opcode) + h.mac + h.ip
    + Le16(h.retCode) + Le16(h.protoVer) + Le16(h.bodyLen)
  }

  /** The top four bits of the identifier tell the IP version. */
  function VersionOf(identifier: uint16): nat {
    if identifier / 0x1000 != 0 then IPV4_FLAG else IPV6_FLAG
  }

  predicate Holds(b: seq<byte>) {
    |b| >= END_V4_OFFSET && |b| >= End(VersionOf(FromLe16(b[..2])))
  }

  function Parse(b: seq<byte>): (h: Header)
    requires Holds(b)
    ensures h.WellSized()
  {
    var v := VersionOf(FromLe16(b[..2]));
    var e := End(v);
    Header(v, FromLe16(b[..2]), FromLe16(b[2..4]), FromLe16(b[4..6]), b[6..12], b[12..e - 6],
           FromLe16(b[e - 6..e - 4]), FromLe16(b[e - 4..e - 2]), FromLe16(b[e - 2..e]))
  }

  /** A header survives the wire exactly when its identifier says what its IP version says. */
  lemma ParseWire(h: Header, tail: seq<byte>)
    requires h.WellSized() && Holds(Wire(h) + tail)
    ensures Parse(Wire(h) + tail) == h <==> h.ipVer == VersionOf(h.identifier)
  {
    var w := Wire(h) + tail;
    assert w[..2] == Le16(h.identifier);
    if h.ipVer == VersionOf(h.identifier) {
      WireSlices(h, tail);
    }
  }

  lemma WireSlices(h: Header, tail: seq<byte>)
    requires h.WellSized()
    ensures var w, e := Wire(h) + tail, End(h.ipVer);
            && w[..2] == Le16(h.identifier) && w[2..4] == Le16(h.seqNo) && w[4..6] == Le16(h.opcode)
            && w[6..12] == h.mac && w[12..e - 6] == h.ip
            && w[e - 6..e - 4] == Le16(h.retCode) && w[e - 4..e - 2] == Le16(h.protoVer) && w[e - 2..e] == Le16(h.bodyLen)
            && w[e..] == tail
  {
  }

  /** Packing what was extracted reproduces the 22 or 34 bytes. */
  lemma WireParse(b: seq<byte>)
    requires Holds(b)
    ensures Wire(Parse(b)) == b[..End(Parse(b).ipVer)]
  {
    var e := End(Parse(b).ipVer);
    WireOrder16(true, 0, b[..2]);
    WireOrder16(true, 0, b[2..4]);
    WireOrder16(true, 0, b[4..6]);
    WireOrder16(true, 0, b[e - 6..e - 4]);
    WireOrder16(true, 0, b[e - 4..e - 2]);
    WireOrder16(true, 0, b[e - 2..e]);
  }

  // ---------------------------------------------------------------------------------------------------------------
  // The codec on buffers
  // ---------------------------------------------------------------------------------------------------------------

  /** A memcpy into the packet. */
  method Put(pkt: array<byte>, off: nat, bytes: seq<byte>)
    requires off + |bytes| <= pkt.Length
    modifies pkt
    ensures pkt[..off + |bytes|] == old(pkt[..off]) + bytes
    ensures forall i :: off + |bytes| <= i < pkt.Length ==> pkt[i] == old(pkt[i])
  {
    forall i | 0 <= i < |bytes| {
      pkt[off + i] := bytes[i];
    }
  }

  /** One 16-bit field through the reused temporary. */
  method Put16(little: bool, pkt: array<byte>, off: nat, v: uint16)
    requires off + 2 <= pkt.Length
    modifies pkt
    ensures pkt[..off + 2] == old(pkt[..off]) + Le16(v)
    ensures forall i :: off + 2 <= i < pkt.Length ==> pkt[i] == old(pkt[i])
  {
    var tmp := v;
    tmp := Swap16(little, tmp);
    WireOrder16(little, v, [0, 0]);
    Put(pkt, off, Store16(little, tmp));
  }

  /** The fields up to the address. */
  method PackFront(little: bool, pkt: array<byte>, hdr: Header)
    requires hdr.WellSized() && pkt.Length >= End(hdr.ipVer)
    modifies pkt
    ensures pkt[..End(hdr.ipVer) - 6] == Le16(hdr.identifier) + Le16(hdr.seqNo) + Le16(hdr.opcode) + hdr.mac + hdr.ip
    ensures forall i :: End(hdr.ipVer) - 6 <= i < pkt.Length ==> pkt[i] == old(pkt[i])
  {
    Put16(little, pkt, IDENT_OFFSET, hdr.identifier);
    Put16(little, pkt, SEQ_OFFSET, hdr.seqNo);
    Put16(little, pkt, OPCODE_OFFSET, hdr.opcode);
    Put(pkt, MAC_OFFSET, hdr.mac);
    Put(pkt, IP_OFFSET, hdr.ip);
  }

  method PackHeader(little: bool, pkt: array<byte>, hdr: Header)
    requires hdr.WellSized() && pkt.Length >= End(hdr.ipVer)
    modifies pkt
    ensures pkt[..End(hdr.ipVer)] == Wire(hdr)
    ensures forall i :: End(hdr.ipVer) <= i < pkt.Length ==> pkt[i] == old(pkt[i])
  {
    PackFront(little, pkt, hdr);
    if hdr.ipVer == IPV4_FLAG {
      Put16(little, pkt, RETCODE_V4_OFFSET, hdr.retCode);
      Put16(little, pkt, PVER_V4_OFFSET, hdr.protoVer);
      Put16(little, pkt, BDLEN_V4_OFFSET, hdr.bodyLen);
    } else {
      Put16(little, pkt, RETCODE_V6_OFFSET, hdr.retCode);
      Put16(little, pkt, PVER_V6_OFFSET, hdr.protoVer);
      Put16(little, pkt, BDLEN_V6_OFFSET, hdr.bodyLen);
    }
  }

  method Get16(little: bool, data: seq<byte>, off: nat) returns (v: uint16)
    requires off + 2 <= |data|
    ensures v == FromLe16(data[off..off + 2])
  {
    v := Load16(little, data[off..off + 2]);
    WireOrder16(little, 0, data[off..off + 2]);
    v := Swap16(little, v);
  }

  /**
   * Only packets shorter than a version 4 header are refused. A longer one with a version 6 identifier that is still
   * shorter than a version 6 header is accepted too, but its fields lie behind its end: it has no header here.
   */
  method ExtractHeader(little: bool, data: seq<byte>) returns (r: int, hdr: Option<Header>)
    ensures |data| < END_V4_OFFSET ==> r == -2 && hdr == None
    ensures |data| >= END_V4_OFFSET ==> r == 0 && hdr == if Holds(data) then Some(Parse(data)) else None
  {
    if |data| < END_V4_OFFSET {
      return -2, None;
    }
    var identifier := Get16(little, data, IDENT_OFFSET);
    var ipVer := if identifier / 0x1000 != 0 then IPV4_FLAG else IPV6_FLAG;
    var seqNo := Get16(little, data, SEQ_OFFSET);
    var opcode := Get16(little, data, OPCODE_OFFSET);
    var mac := data[MAC_OFFSET..IP_OFFSET];
    if ipVer == IPV4_FLAG {
      var ip := data[IP_OFFSET..RETCODE_V4_OFFSET];
      var retCode := Get16(little, data, RETCODE_V4_OFFSET);
      var protoVer := Get16(little, data, PVER_V4_OFFSET);
      var bodyLen := Get16(little, data, BDLEN_V4_OFFSET);
      hdr := Some(Header(ipVer, identifier, seqNo, opcode, mac, ip, retCode, protoVer, bodyLen));
    } else {
      if |data| < END_V6_OFFSET {
        return 0, None;
      }
      var ip := data[IP_OFFSET..RETCODE_V6_OFFSET];
      var retCode := Get16(little, data, RETCODE_V6_OFFSET);
      var protoVer := Get16(little, data, PVER_V6_OFFSET);
      var bodyLen := Get16(little, data, BDLEN_V6_OFFSET);
      hdr := Some(Header(ipVer, identifier, seqNo, opcode, mac, ip, retCode, protoVer, bodyLen));
    }
    r := 0;
  }

  /** Extracting an accepted packet reads inside it exactly when its second byte has a top nibble or it has 34 bytes. */
  lemma ReadsInside(data: seq<byte>)
    requires |data| >= END_V4_OFFSET
    ensures Holds(data) <==> data[1] / 16 != 0 || |data| >= END_V6_OFFSET
  {
    var x: int, y: int := data[0], data[1];
    assert data[..2] == [data[0], data[1]];
    Quotient(x + 256 * y, 0x1000, y / 16, y % 16 * 256 + x);
  }

  // ---------------------------------------------------------------------------------------------------------------
  // The header byte by byte
  // ---------------------------------------------------------------------------------------------------------------

  lemma WireBytes(h: Header)
    requires h.WellSized()
    ensures |Wire(h)| == if h.ipVer == 4 then 22 else 34
    ensures var w, e := Wire(h), |Wire(h)|;
            && w[..6] == [h.identifier % 256, h.identifier / 256, h.seqNo % 256, h.seqNo / 256, h.opcode % 256, h.opcode / 256]
            && w[6..12] == h.mac && w[12..e - 6] == h.ip
            && w[e - 6..] == [h.retCode % 256, h.retCode / 256, h.protoVer % 256, h.protoVer / 256, h.bodyLen % 256, h.bodyLen / 256]
  {
  }

  /** What a packet that is long enough says. */
  lemma ParsedBytes(b: seq<byte>)
    requires |b| >= 22 && (b[1] < 16 ==> |b| >= 34)
    ensures Holds(b)
    ensures var h := Parse(b);
            var e := if b[1] >= 16 then 22 else 34;
            && h.ipVer == (if b[1] >= 16 then 4 else 6)
            && h.identifier == b[0] as int + 256 * b[1] as int && h.seqNo == b[2] as int + 256 * b[3] as int
            && h.opcode == b[4] as int + 256 * b[5] as int && h.mac == b[6..12] && h.ip == b[12..e - 6]
            && h.retCode == b[e - 6] as int + 256 * b[e - 5] as int && h.protoVer == b[e - 4] as int + 256 * b[e - 3] as int
            && h.bodyLen == b[e - 2] as int + 256 * b[e - 1] as int
  {
    ReadsInside(b);
    var x: int, y: int := b[0], b[1];
    Quotient(x + 256 * y, 0x1000, y / 16, y % 16 * 256 + x);
  }
}
