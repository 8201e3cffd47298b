/**
 * Reboot, reset and factory reset requests: the shared decision between acting at once and arming an alarm, and the
 * message that the alarm later puts back into the queue as a new request.
 */
module DelayedCommand {
  import opened Bytes
  import opened Header
  import opened AlarmSpec
  import opened AlarmQueue

  const IPV4_REQ := 0xFDFD
  const IPV6_REQ := 0x0DFD
  const CREDENTIALS_LEN := 128      // user name and password, 64 bytes each
  const DELAY_LEN := 4
  const REQ_LEN := 132
  const MODE_UNICAST := 0x7777
  const RETCODE_FAIL := 1
  const RETCODE_AUTHEN_FAIL := 2

  /** The socket address of a message's sender: its family and the IP address. */
  datatype Address = Nowhere | V4(ip: seq<byte>) | V6(ip: seq<byte>)

  datatype Message = Message(sender: Address, ifindex: nat, payload: seq<byte>)

  // ---------------------------------------------------------------------------------------------------------------
  // The delayed message
  // ---------------------------------------------------------------------------------------------------------------

  function MacAll(): seq<byte> {
    [0xFF, 0xFF, 0xFF, 0xFF, 0xFF, 0xFF]
  }

  /** The header of the message that stands in for a delayed request. */
  function DelayedHeader(h: Header): (r: Header)
    requires h.WellSized()
    ensures r.WellSized() && r.ipVer == VersionOf(r.identifier) && End(r.ipVer) == End(h.ipVer)
  {
    var v4 := h.ipVer == IPV4_FLAG;
    Header(if v4 then IPV4_FLAG else IPV6_FLAG, if v4 then IPV4_REQ else IPV6_REQ,
           h.seqNo, h.opcode, MacAll(), h.ip, 0, h.protoVer, REQ_LEN)
  }

  function Body(h: Header, payload: seq<byte>): seq<byte>
    requires |payload| >= End(h.ipVer)
  {
    payload[End(h.ipVer)..]
  }

  function DelayedPayload(h: Header, payload: seq<byte>): seq<byte>
    requires h.WellSized() && |payload| >= End(h.ipVer) + CREDENTIALS_LEN
  {
    Wire(DelayedHeader(h)) + Body(h, payload)[..CREDENTIALS_LEN] + Zeros(DELAY_LEN)
  }

  /** The fields up to the address, written into a zeroed buffer. */
  method PutFront(little: bool, out: array<byte>, h: Header)
    requires h.WellSized() && out.Length >= End(h.ipVer)
    requires forall i :: 0 <= i < out.Length ==> out[i] == 0
    modifies out
    ensures var d := DelayedHeader(h);
            out[..End(h.ipVer) - 6] == Le16(d.identifier) + Le16(d.seqNo) + Le16(d.opcode) + d.mac + d.ip
    ensures forall i :: End(h.ipVer) - 6 <= i < out.Length ==> out[i] == 0
  {
    Put16(little, out, IDENT_OFFSET, if h.ipVer == IPV4_FLAG then IPV4_REQ else IPV6_REQ);
    Put16(little, out, SEQ_OFFSET, h.seqNo);
    Put16(little, out, OPCODE_OFFSET, h.opcode);
    Put(out, MAC_OFFSET, MacAll());
    Put(out, IP_OFFSET, h.ip);
  }

  /** The header of the message, written into a zeroed buffer. */
  method PutDelayedHeader(little: bool, out: array<byte>, h: Header)
    requires h.WellSized() && out.Length >= End(h.ipVer)
    requires forall i :: 0 <= i < out.Length ==> out[i] == 0
    modifies out
    ensures out[..End(h.ipVer)] == Wire(DelayedHeader(h))
    ensures forall i :: End(h.ipVer) <= i < out.Length ==> out[i] == 0
  {
    PutFront(little, out, h);
    var e := End(h.ipVer);
    assert out[..e - 4] == out[..e - 6] + Le16(0);      // the return code stays zero
    Put16(little, out, e - 4, h.protoVer);
    Put16(little, out, e - 2, REQ_LEN);
  }

  /** Builds the message field by field; the sender, the return code, the mode and the delay are left at zero. */
  method CreateDelayMsg(little: bool, ifindex: nat, h: Header, payload: seq<byte>) returns (msg: Message)
    requires h.WellSized() && |payload| >= End(h.ipVer) + CREDENTIALS_LEN
    ensures msg == Message(Nowhere, ifindex, DelayedPayload(h, payload))
  {
    var e := End(h.ipVer);
    var out := new byte[e + REQ_LEN](_ => 0);
    PutDelayedHeader(little, out, h);
    Put(out, e, payload[e..e + CREDENTIALS_LEN]);
    assert out[..] == out[..e + CREDENTIALS_LEN] + Zeros(DELAY_LEN);
    assert payload[e..e + CREDENTIALS_LEN] == Body(h, payload)[..CREDENTIALS_LEN];
    msg := Message(Nowhere, ifindex, out[..]);
  }

  /** Read back from the queue, the message is a request of the same kind, from the same user, without a delay. */
  lemma DelayedMessageParses(h: Header, payload: seq<byte>)
    requires h.WellSized() && |payload| >= End(h.ipVer) + CREDENTIALS_LEN
    ensures var again := DelayedPayload(h, payload);
            && Holds(again) && Parse(again) == DelayedHeader(h)
            && Body(Parse(again), again) == Body(h, payload)[..CREDENTIALS_LEN] + Zeros(DELAY_LEN)
  {
    var d := DelayedHeader(h);
    var tail := Body(h, payload)[..CREDENTIALS_LEN] + Zeros(DELAY_LEN);
    assert DelayedPayload(h, payload) == Wire(d) + tail;
    WireSlices(d, tail);
    ParseWire(d, tail);
  }

  // ---------------------------------------------------------------------------------------------------------------
  // The decision
  // ---------------------------------------------------------------------------------------------------------------

  type Failure = x: int | x != 0 witness -1

  /**
   * What the handlers ask of the rest of the daemon: the interfaces, the operation table, the user database, and the
   * platform, whose getter and setter return 0 when they succeed.
   */
  datatype Environment = Environment(
    interfaces: set<nat>, enabled: set<nat>, authenOn: bool, users: set<(seq<byte>, seq<byte>)>, badLogin: Failure,
    waitTime: int, setField: int)

  datatype Outcome = Reject | Arm(delay: nat, msg: Message) | Execute(replyFirst: bool)

  /** Reboot accepts longer bodies, and needs the platform's wait time for its reply. */
  predicate LengthOk(opcode: nat, bodyLen: nat) {
    if opcode == OP_REBOOT then bodyLen >= REQ_LEN else bodyLen == REQ_LEN
  }

  predicate Authentic(env: Environment, body: seq<byte>)
    requires |body| >= CREDENTIALS_LEN
  {
    !env.authenOn || (body[..64], body[64..CREDENTIALS_LEN]) in env.users
  }

  /** With authentication switched off the delay is looked for where the user name stands. */
  function DelayOf(env: Environment, body: seq<byte>): nat
    requires |body| >= REQ_LEN
  {
    var pos := if env.authenOn then CREDENTIALS_LEN else 0;
    FromLe32(body[pos..pos + DELAY_LEN])
  }

  function Decide(env: Environment, ifindex: nat, h: Header, payload: seq<byte>): Outcome
    requires h.WellSized() && |payload| >= End(h.ipVer) + h.bodyLen
  {
    var body := Body(h, payload);
    if !LengthOk(h.opcode, h.bodyLen) || !Authentic(env, body) || (h.opcode == OP_REBOOT && env.waitTime != 0) then Reject
    else if DelayOf(env, body) > 0 then Arm(DelayOf(env, body), Message(Nowhere, ifindex, DelayedPayload(h, payload)))
    else Execute(h.retCode == MODE_UNICAST)
  }

  /** The handlers' return codes; a bad length has another one when it is found again by the authentication. */
  function ReturnCode(env: Environment, h: Header, payload: seq<byte>): int
    requires h.WellSized() && |payload| >= End(h.ipVer) + h.bodyLen
  {
    var reboot := h.opcode == OP_REBOOT;
    if !LengthOk(h.opcode, h.bodyLen) then
      if reboot then (if env.authenOn then -2 else -1) else (if env.authenOn then -4 else -2)
    else if !Authentic(env, Body(h, payload)) then (if reboot then env.badLogin else -3)
    else if reboot && env.waitTime != 0 then env.waitTime
    else if DelayOf(env, Body(h, payload)) > 0 then 0
    else env.setField
  }

  /** A reply on its way, with the return code in its header. */
  datatype Reply = Reply(to: Address, code: uint16)

  /** The family is that of the sender, but the header's version says which of the two addresses is copied. */
  function ReplyTo(h: Header, sender: Address): Address {
    match sender
    case Nowhere => Nowhere
    case V4(ip) => V4(if h.ipVer == IPV4_FLAG then ip else Zeros(4))
    case V6(ip) => V6(if h.ipVer == IPV4_FLAG then Zeros(16) else ip)
  }

  /** Without an address family nothing is sent. */
  function Sendout(to: Address, code: uint16): seq<Reply> {
    if to == Nowhere then [] else [Reply(to, code)]
  }

  /** The replies that go out, in order. */
  function Replies(env: Environment, sender: Address, h: Header, payload: seq<byte>): seq<Reply>
    requires h.WellSized() && |payload| >= End(h.ipVer) + h.bodyLen
  {
    var to := ReplyTo(h, sender);
    match Decide(env, 0, h, payload)
    case Reject =>
      var known := LengthOk(h.opcode, h.bodyLen) && Authentic(env, Body(h, payload));
      Sendout(to, if env.authenOn && !known then RETCODE_AUTHEN_FAIL else RETCODE_FAIL)
    case Arm(_, _) => Sendout(to, 0)
    case Execute(first) => (if first then Sendout(to, 0) else []) + (if env.setField != 0 then Sendout(to, RETCODE_FAIL) else [])
  }

  /** The length check and the authentication; the return code that the reply would carry, and where the delay stands. */
  method Admit(env: Environment, h: Header, body: seq<byte>) returns (ret: int, outCode: uint16, pos: nat)
    requires |body| >= h.bodyLen
    ensures ret == 0 <==> LengthOk(h.opcode, h.bodyLen) && Authentic(env, body)
    ensures ret == 0 ==> outCode == 0 && pos == if env.authenOn then CREDENTIALS_LEN else 0
    ensures ret != 0 ==> outCode == if env.authenOn then RETCODE_AUTHEN_FAIL else RETCODE_FAIL
    ensures !LengthOk(h.opcode, h.bodyLen) ==>
              ret == if h.opcode == OP_REBOOT then (if env.authenOn then -2 else -1) else if env.authenOn then -4 else -2
    ensures LengthOk(h.opcode, h.bodyLen) && ret != 0 ==> ret == if h.opcode == OP_REBOOT then env.badLogin else -3
  {
    ret, outCode, pos := 0, 0, 0;
    if h.opcode == OP_REBOOT {
      if h.bodyLen < REQ_LEN {
        ret, outCode := -1, RETCODE_FAIL;
      }
    } else if h.bodyLen != REQ_LEN {
      ret, outCode := -2, RETCODE_FAIL;
    }
    if env.authenOn {
      if ret == 0 && h.bodyLen > 0 {
        if (body[..64], body[64..CREDENTIALS_LEN]) !in env.users {
          ret := if h.opcode == OP_REBOOT then env.badLogin else -3;
        }
      } else {
        ret := if h.opcode == OP_REBOOT then -2 else -4;
      }
      if ret != 0 {
        return ret, RETCODE_AUTHEN_FAIL, pos;
      }
      pos := CREDENTIALS_LEN;
    }
  }

  /** The handler proper, with the alarm slots it arms. */
  method Handle(little: bool, env: Environment, sender: Address, ifindex: nat, h: Header, payload: seq<byte>,
                alarms: AlarmSlots<Message>)
    returns (ret: int, outcome: Outcome, replies: seq<Reply>)
    requires ToIndex(h.opcode) >= 0
    requires h.WellSized() && |payload| >= End(h.ipVer) + h.bodyLen
    requires alarms.Valid()
    modifies alarms.slots
    ensures outcome == Decide(env, ifindex, h, payload)
    ensures ret == ReturnCode(env, h, payload) && replies == Replies(env, sender, h, payload)
    ensures outcome.Arm? ==> alarms.Value() == Add(old(alarms.Value()), h.opcode, outcome.delay, outcome.msg).0
    ensures !outcome.Arm? ==> alarms.Value() == old(alarms.Value())
  {
    var body := payload[End(h.ipVer)..];
    var to := ReplyTo(h, sender);
    var outCode, pos;
    ret, outCode, pos := Admit(env, h, body);
    if ret != 0 {
      return ret, Reject, Sendout(to, outCode);
    }
    var delay := Load32(little, body[pos..pos + DELAY_LEN]);
    WireOrder32(little, body[pos..pos + DELAY_LEN]);
    delay := Swap32(little, delay);
    if h.opcode == OP_REBOOT {
      ret := env.waitTime;
      if ret != 0 {
        return ret, Reject, Sendout(to, RETCODE_FAIL);
      }
    }
    if delay > 0 {
      var msg := CreateDelayMsg(little, ifindex, h, payload);
      var freed;
      ret, freed := alarms.Add(h.opcode, delay, msg);
      return ret, Arm(delay, msg), Sendout(to, outCode);
    }
    replies := if h.retCode == MODE_UNICAST then Sendout(to, outCode) else [];
    ret := env.setField;
    if ret != 0 {
      replies := replies + Sendout(to, RETCODE_FAIL);
    }
    outcome := Execute(h.retCode == MODE_UNICAST);
  }

  // ---------------------------------------------------------------------------------------------------------------
  // End to end
  // ---------------------------------------------------------------------------------------------------------------

  /** Handling the message that an accepted delayed request left behind. */
  function DecideAgain(env: Environment, ifindex: nat, h: Header, payload: seq<byte>): Outcome
    requires h.WellSized() && |payload| >= End(h.ipVer) + CREDENTIALS_LEN
  {
    DelayedMessageParses(h, payload);
    var again := DelayedPayload(h, payload);
    Decide(env, ifindex, Parse(again), again)
  }

  /** What the second pass reads: the same credentials, and no delay behind them. */
  lemma SecondBody(h: Header, payload: seq<byte>)
    requires h.WellSized() && |payload| >= End(h.ipVer) + REQ_LEN
    ensures var b, again := Body(h, payload), DelayedPayload(h, payload);
            && Holds(again) && |again| == End(DelayedHeader(h).ipVer) + REQ_LEN
            && var c := Body(DelayedHeader(h), again);
            && c[..64] == b[..64] && c[64..128] == b[64..128] && c[0..4] == b[0..4] && c[128..132] == Zeros(4)
            && c[..CREDENTIALS_LEN] == b[..CREDENTIALS_LEN]
  {
    DelayedMessageParses(h, payload);
  }

  /** A delayed message that were delayed again would stay the message it is. */
  lemma DelayedTwice(h: Header, payload: seq<byte>)
    requires h.WellSized() && |payload| >= End(h.ipVer) + REQ_LEN
    ensures var again := DelayedPayload(h, payload);
            |again| >= End(DelayedHeader(h).ipVer) + REQ_LEN && DelayedPayload(DelayedHeader(h), again) == again
  {
    SecondBody(h, payload);
    assert DelayedHeader(DelayedHeader(h)) == DelayedHeader(h);
  }

  /**
   * With authentication on, as the operation table has it for all three operations, the second pass acts at once and
   * sends no second reply. With authentication off it would arm the same delay again, and so for ever.
   */
  lemma SecondPass(env: Environment, ifindex: nat, h: Header, payload: seq<byte>)
    requires h.WellSized() && |payload| >= End(h.ipVer) + h.bodyLen
    requires Decide(env, ifindex, h, payload).Arm?
    ensures DecideAgain(env, ifindex, h, payload)
            == if env.authenOn then Execute(false) else Decide(env, ifindex, h, payload)
  {
    DelayedMessageParses(h, payload);
    SecondBody(h, payload);
    DelayedTwice(h, payload);
    assert FromLe32(Zeros(4)) == 0;
  }

  /**
   * The delayed message has no sender. So whoever asks for a delay gets one reply, which says that all is well, and never
   * hears of what the second pass comes to, in whatever environment that is.
   */
  lemma OneReply(env: Environment, sender: Address, ifindex: nat, h: Header, payload: seq<byte>, later: Environment)
    requires h.WellSized() && |payload| >= End(h.ipVer) + h.bodyLen
    requires Decide(env, ifindex, h, payload).Arm?
    ensures var msg := Decide(env, ifindex, h, payload).msg;
            && WellFormed(msg)
            && Replies(env, sender, h, payload) + Replies(later, msg.sender, Parse(msg.payload), msg.payload)
               == Sendout(ReplyTo(h, sender), 0)
  {
    DelayedMessageParses(h, payload);
  }

  /**
   * With authentication on, the second pass succeeds if and only if the user is still known, the platform can tell its wait
   * time for a reboot, and its setter succeeds.
   */
  lemma SecondPassSucceeds(env: Environment, ifindex: nat, h: Header, payload: seq<byte>, later: Environment)
    requires h.WellSized() && |payload| >= End(h.ipVer) + h.bodyLen
    requires Decide(env, ifindex, h, payload).Arm? && later.authenOn
    ensures var msg := Decide(env, ifindex, h, payload).msg;
            && WellFormed(msg)
            && (ReturnCode(later, Parse(msg.payload), msg.payload) == 0
                <==> Authentic(later, Body(h, payload)) && (h.opcode == OP_REBOOT ==> later.waitTime == 0) && later.setField == 0)
  {
    DelayedMessageParses(h, payload);
    SecondBody(h, payload);
    assert FromLe32(Zeros(4)) == 0;
  }

  /** A message whose header and body are as long as they say. */
  predicate WellFormed(msg: Message) {
    Holds(msg.payload) && |msg.payload| >= End(Parse(msg.payload).ipVer) + Parse(msg.payload).bodyLen
  }

  /** A request from nowhere, of the fixed length, in the mode that is not answered, with a delay of zero. */
  predicate Spent(msg: Message) {
    && WellFormed(msg) && msg.sender == Nowhere
    && var h := Parse(msg.payload);
       h.retCode == 0 && h.bodyLen == REQ_LEN && Body(h, msg.payload)[CREDENTIALS_LEN..REQ_LEN] == Zeros(DELAY_LEN)
  }

  /** What the processing thread makes of a message; none when it is dropped or none of these three handlers runs. */
  function Dispatch(env: Environment, msg: Message): Option<Outcome>
    requires WellFormed(msg)
  {
    var h := Parse(msg.payload);
    if msg.ifindex !in env.interfaces || ToIndex(h.opcode) < 0 || h.opcode !in env.enabled then None
    else Some(Decide(env, msg.ifindex, h, msg.payload))
  }

  /** The replies to a message that one of the handlers is given. */
  function Answers(env: Environment, msg: Message): seq<Reply>
    requires WellFormed(msg)
  {
    if Dispatch(env, msg) == None then [] else Replies(env, msg.sender, Parse(msg.payload), msg.payload)
  }

  /**
   * What an accepted delayed request leaves behind is spent, and stands for the same operation, interface and user. Of where
   * it came from only the IP address in the header stays.
   */
  lemma ArmLeavesSpent(env: Environment, ifindex: nat, h: Header, payload: seq<byte>)
    requires h.WellSized() && |payload| >= End(h.ipVer) + h.bodyLen
    requires Decide(env, ifindex, h, payload).Arm?
    ensures var Arm(d, msg) := Decide(env, ifindex, h, payload);
            && d > 0 && Spent(msg) && msg.ifindex == ifindex && Parse(msg.payload) == DelayedHeader(h)
            && Body(DelayedHeader(h), msg.payload)[..CREDENTIALS_LEN] == Body(h, payload)[..CREDENTIALS_LEN]
  {
    DelayedMessageParses(h, payload);
    SecondBody(h, payload);
  }

  /** Nobody ever gets a reply to a spent message. */
  lemma SpentIsSilent(env: Environment, msg: Message)
    requires Spent(msg)
    ensures Answers(env, msg) == []
  {
  }

  /** With authentication on, a spent message is never delayed: it acts at once or is rejected, whatever has changed since. */
  lemma SpentNeverArms(env: Environment, msg: Message)
    requires Spent(msg) && env.authenOn
    ensures var h := Parse(msg.payload);
            Dispatch(env, msg) == None
            || Dispatch(env, msg) == Some(if Authentic(env, Body(h, msg.payload)) && !(h.opcode == OP_REBOOT && env.waitTime != 0)
                                          then Execute(false) else Reject)
  {
    assert FromLe32(Zeros(4)) == 0;
  }

  // ---------------------------------------------------------------------------------------------------------------
  // A request byte by byte
  // ---------------------------------------------------------------------------------------------------------------

  /** A request: its header, the user name, the password, the delay and whatever else it carries. */
  function Request(h: Header, name: seq<byte>, pw: seq<byte>, b: seq<byte>, more: seq<byte>): (r: seq<byte>)
    requires h.WellSized()
  {
    Wire(h) + name + pw + b + more
  }

  lemma RequestParts(h: Header, name: seq<byte>, pw: seq<byte>, b: seq<byte>, more: seq<byte>)
    requires h.WellSized() && |name| == 64 && |pw| == 64 && |b| == 4
    ensures var c := Body(h, Request(h, name, pw, b, more));
            |c| == 132 + |more| && c[..64] == name && c[64..128] == pw && c[..128] == name + pw && c[128..132] == b && c[0..4] == name[0..4]
  {
    var w := Wire(h);
    assert Request(h, name, pw, b, more) == w + (name + pw + b + more);
    assert (w + (name + pw + b + more))[|w|..] == name + pw + b + more;
  }

  /**
   * A request of the right length with authentication on: it is rejected exactly when name and password are not those of a
   * user; otherwise its last four bytes, little-endian, are the delay, and without one it is executed at once. The return
   * code and the replies are those of the source.
   */
  lemma RequestHandled(env: Environment, sender: Address, ifindex: nat, h: Header, name: seq<byte>, pw: seq<byte>, b: seq<byte>,
                       more: seq<byte>)
    requires h.WellSized() && |name| == 64 && |pw| == 64 && |b| == 4
    requires h.opcode == 0x0103 || h.opcode == 0x00AA || h.opcode == 0x00AB
    requires h.bodyLen == 132 + |more| && (more != [] ==> h.opcode == 0x0103)
    requires env.authenOn && (h.opcode == 0x0103 ==> env.waitTime == 0)
    ensures var r := Request(h, name, pw, b, more);
            var x: int, y: int, z: int, w: int := b[0], b[1], b[2], b[3];
            var delay := x + 256 * y + 65536 * z + 16777216 * w;
            var to := ReplyTo(h, sender);
            && Decide(env, ifindex, h, r) == (if (name, pw) !in env.users then Reject
                                              else if delay > 0 then Arm(delay, Message(Nowhere, ifindex, DelayedPayload(h, r)))
                                              else Execute(h.retCode == 0x7777))
            && ReturnCode(env, h, r) == (if (name, pw) !in env.users then (if h.opcode == 0x0103 then env.badLogin else -3)
                                         else if delay > 0 then 0 else env.setField)
            && Replies(env, sender, h, r) == (if (name, pw) !in env.users then Sendout(to, 2)
                                              else if delay > 0 then Sendout(to, 0)
                                              else (if h.retCode == 0x7777 then Sendout(to, 0) else [])
                                                   + (if env.setField != 0 then Sendout(to, 1) else []))
  {
    RequestParts(h, name, pw, b, more);
  }

  /** With authentication off anybody is served, and the delay is looked for in the first four bytes of the user name. */
  lemma RequestUnchecked(env: Environment, sender: Address, ifindex: nat, h: Header, name: seq<byte>, pw: seq<byte>, b: seq<byte>,
                         more: seq<byte>)
    requires h.WellSized() && |name| == 64 && |pw| == 64 && |b| == 4
    requires h.opcode == 0x0103 || h.opcode == 0x00AA || h.opcode == 0x00AB
    requires h.bodyLen == 132 + |more| && (more != [] ==> h.opcode == 0x0103)
    requires !env.authenOn && (h.opcode == 0x0103 ==> env.waitTime == 0)
    ensures var r := Request(h, name, pw, b, more);
            var x: int, y: int, z: int, w: int := name[0], name[1], name[2], name[3];
            var delay := x + 256 * y + 65536 * z + 16777216 * w;
            && Decide(env, ifindex, h, r) == (if delay > 0 then Arm(delay, Message(Nowhere, ifindex, DelayedPayload(h, r)))
                                              else Execute(h.retCode == 0x7777))
            && ReturnCode(env, h, r) == (if delay > 0 then 0 else env.setField)
            && Replies(env, sender, h, r) == (if delay > 0 then Sendout(ReplyTo(h, sender), 0)
                                              else (if h.retCode == 0x7777 then Sendout(ReplyTo(h, sender), 0) else [])
                                                   + (if env.setField != 0 then Sendout(ReplyTo(h, sender), 1) else []))
  {
    RequestParts(h, name, pw, b, more);
  }

  /**
   * What is refused before anything else is looked at: a body that is not 132 bytes long, or for a reboot is shorter; and
   * what is refused last: a reboot for which the platform cannot tell its wait time.
   */
  lemma RequestRefused(env: Environment, sender: Address, ifindex: nat, h: Header, payload: seq<byte>)
    requires h.WellSized() && |payload| >= End(h.ipVer) + h.bodyLen
    requires h.opcode == 0x0103 || h.opcode == 0x00AA || h.opcode == 0x00AB
    ensures var bad := if h.opcode == 0x0103 then h.bodyLen < 132 else h.bodyLen != 132;
            && (bad ==>
                  && Decide(env, ifindex, h, payload) == Reject
                  && ReturnCode(env, h, payload) == (if h.opcode == 0x0103 then (if env.authenOn then -2 else -1)
                                                     else if env.authenOn then -4 else -2)
                  && Replies(env, sender, h, payload) == Sendout(ReplyTo(h, sender), if env.authenOn then 2 else 1))
            && (!bad && h.opcode == 0x0103 && env.waitTime != 0 && !env.authenOn ==>
                  && Decide(env, ifindex, h, payload) == Reject && ReturnCode(env, h, payload) == env.waitTime
                  && Replies(env, sender, h, payload) == Sendout(ReplyTo(h, sender), 1))
  {
  }

  lemma RebootRefused(env: Environment, sender: Address, ifindex: nat, h: Header, name: seq<byte>, pw: seq<byte>, b: seq<byte>,
                      more: seq<byte>)
    requires h.WellSized() && |name| == 64 && |pw| == 64 && |b| == 4 && h.opcode == 0x0103 && h.bodyLen == 132 + |more|
    requires env.authenOn && env.waitTime != 0
    ensures var r := Request(h, name, pw, b, more);
            && Decide(env, ifindex, h, r) == Reject
            && ReturnCode(env, h, r) == (if (name, pw) !in env.users then env.badLogin else env.waitTime)
            && Replies(env, sender, h, r) == Sendout(ReplyTo(h, sender), if (name, pw) !in env.users then 2 else 1)
  {
    RequestParts(h, name, pw, b, more);
  }

  /** The message that stands in for a delayed request, byte by byte behind its header. */
  lemma DelayedBytes(h: Header, name: seq<byte>, pw: seq<byte>, b: seq<byte>, more: seq<byte>)
    requires h.WellSized() && |name| == 64 && |pw| == 64 && |b| == 4
    ensures var v4 := h.ipVer == 4;
            var d := Header(if v4 then 4 else 6, if v4 then 0xFDFD else 0x0DFD, h.seqNo, h.opcode,
                            [255, 255, 255, 255, 255, 255], h.ip, 0, h.protoVer, 132);
            d.WellSized() && DelayedPayload(h, Request(h, name, pw, b, more)) == Wire(d) + name + pw + [0, 0, 0, 0]
  {
    RequestParts(h, name, pw, b, more);
    var d := DelayedHeader(h);
    assert Wire(d) + (name + pw) + Zeros(4) == Wire(d) + name + pw + [0, 0, 0, 0];
  }

  /** Where a reply goes, and when none does. */
  lemma ReplyGoes(h: Header, sender: Address, code: uint16)
    ensures Sendout(ReplyTo(h, sender), code) == [] <==> sender == Nowhere
    ensures sender.V4? && h.ipVer == 4 ==> Sendout(ReplyTo(h, sender), code) == [Reply(sender, code)]
    ensures sender.V6? && h.ipVer != 4 ==> Sendout(ReplyTo(h, sender), code) == [Reply(sender, code)]
    ensures sender.V4? && h.ipVer != 4 ==> Sendout(ReplyTo(h, sender), code) == [Reply(V4([0, 0, 0, 0]), code)]
    ensures sender.V6? && h.ipVer == 4 ==> Sendout(ReplyTo(h, sender), code) == [Reply(V6(seq(16, _ => 0)), code)]
  {
    assert Zeros(4) == [0, 0, 0, 0];
    assert Zeros(16) == seq(16, _ => 0);
  }

  /** Which messages get to these handlers. */
  lemma Dispatched(env: Environment, msg: Message)
    requires WellFormed(msg)
    ensures var op := Parse(msg.payload).opcode;
            Dispatch(env, msg).Some? <==> msg.ifindex in env.interfaces && op in env.enabled
                                          && (op == 0x0103 || op == 0x00AA || op == 0x00AB)
  {
  }
}
