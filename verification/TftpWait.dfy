/**
 * The receive loop that both directions of the built-in TFTP client share. The network is a script of polls: each takes
 * the next datagram, or nothing when the next entry is empty or the script is over.
 */
module TftpWait {
  import opened Bytes

  type Script = seq<seq<byte>>

  /** A poll limit of 50: ten seconds in steps of 200 milliseconds. */
  const DEFAULT_LIMIT := 10 * 1000 / 200

  /**
   * `expired` says that the run flag was already down when the datagram came, `run` what it is afterwards; `polls` counts
   * the calls to recvfrom.
   */
  datatype Reply =
    | Arrived(data: seq<byte>, expired: bool, run: bool, rest: Script, polls: nat)
    | TimedOut(rest: Script, polls: nat)
  {
    function Later(): Reply {
      this.(polls := polls + 1)
    }
  }

  function Head(script: Script): seq<byte> {
    if script == [] then [] else script[0]
  }

  function Tail(script: Script): (r: Script)
    ensures script != [] ==> |r| == |script| - 1
    ensures script == [] ==> r == []
  {
    if script == [] then [] else script[1..]
  }

  function Wait(limit: nat, script: Script, run: bool, count: nat): Reply
    requires count <= limit + 2 && (run ==> count <= limit + 1)
    decreases limit + 2 - count, script
  {
    if Head(script) != [] then Arrived(Head(script), !run, run && count <= limit, Tail(script), 1)
    else if !run then TimedOut(Tail(script), 1)
    else Wait(limit, Tail(script), count <= limit, count + 1).Later()
  }

  /** The loop: it polls until a datagram arrives or the run flag, which the counter takes down, is found down. */
  method WaitReply(limit: nat, script: Script, run: bool) returns (r: Reply)
    ensures r == Wait(limit, script, run, 0)
  {
    var s, alive, count, polls := script, run, 0, 0;
    while true
      invariant count <= limit + 2 && (alive ==> count <= limit + 1) && polls == count
      invariant Wait(limit, script, run, 0)
                == var w := Wait(limit, s, alive, count); w.(polls := w.polls + polls)
      decreases limit + 2 - count
    {
      var data := Head(s);
      s := Tail(s);
      polls := polls + 1;
      if !alive {
        return if data == [] then TimedOut(s, polls) else Arrived(data, true, false, s, polls);
      }
      if count > limit {
        alive := false;
      }
      count := count + 1;
      if data != [] {
        return Arrived(data, false, alive, s, polls);
      }
    }
  }

  /** Whatever the network does, a wait ends within limit + 3 polls: 53 with the defaults. */
  lemma {:induction false} PollsBounded(limit: nat, script: Script, run: bool, count: nat)
    requires count <= limit + 2 && (run ==> count <= limit + 1)
    ensures 1 <= Wait(limit, script, run, count).polls <= limit + 3 - count
    decreases limit + 2 - count
  {
    if Head(script) == [] && run {
      PollsBounded(limit, Tail(script), count <= limit, count + 1);
    }
  }

  /** With the default timeout and interval that is 53 polls. */
  lemma DefaultPolls(script: Script, run: bool)
    ensures 1 <= Wait(DEFAULT_LIMIT, script, run, 0).polls <= 53
  {
    PollsBounded(DEFAULT_LIMIT, script, run, 0);
  }

  /** The k-th poll of a script. */
  function Poll(script: Script, k: nat): seq<byte> {
    if k < |script| then script[k] else []
  }

  /** A wait that starts with the run flag up fails exactly when limit + 3 polls in a row bring nothing. */
  lemma {:induction false} TimesOutExactly(limit: nat, script: Script, count: nat)
    requires count <= limit + 1
    ensures Wait(limit, script, true, count).TimedOut? <==> forall k :: 0 <= k < limit + 3 - count ==> Poll(script, k) == []
    decreases limit + 1 - count
  {
    var rest := Tail(script);
    assert forall k :: 0 <= k ==> Poll(rest, k) == Poll(script, k + 1);
    assert Poll(script, 0) == Head(script);
    if Head(script) == [] {
      if count <= limit {
        TimesOutExactly(limit, rest, count + 1);
        if forall k :: 0 <= k < limit + 2 - count ==> Poll(rest, k) == [] {
          forall k | 0 <= k < limit + 3 - count
            ensures Poll(script, k) == []
          {
            assert k > 0 ==> Poll(rest, k - 1) == Poll(script, k);
          }
        }
      } else {
        assert Poll(script, 1) == Head(rest);
        assert Wait(limit, rest, false, count + 1).TimedOut? <==> Head(rest) == [];
      }
    }
  }

  function Nothing(n: nat): Script {
    if n == 0 then [] else [[]] + Nothing(n - 1)
  }

  /** A datagram within the first limit + 1 polls arrives, and leaves the run flag up. */
  lemma {:induction false} ArrivesInTime(limit: nat, delay: nat, data: seq<byte>, rest: Script, count: nat)
    requires count + delay <= limit && data != []
    ensures Wait(limit, Nothing(delay) + [data] + rest, true, count) == Arrived(data, false, true, rest, delay + 1)
  {
    var script := Nothing(delay) + [data] + rest;
    if delay == 0 {
      assert script[1..] == rest;
    } else {
      assert script[1..] == Nothing(delay - 1) + [data] + rest;
      ArrivesInTime(limit, delay - 1, data, rest, count + 1);
    }
  }

  /**
   * A datagram that comes within limit + 3 polls arrives. The run flag is still up when it comes within limit + 1; it is taken
   * down with the next one, and the last one finds it down.
   */
  lemma {:induction false} ArrivesExactly(limit: nat, delay: nat, data: seq<byte>, rest: Script, count: nat)
    requires count + delay <= limit + 2 && count <= limit + 1 && data != []
    ensures Wait(limit, Nothing(delay) + [data] + rest, true, count)
            == Arrived(data, count + delay == limit + 2, count + delay <= limit, rest, delay + 1)
    decreases delay
  {
    var script := Nothing(delay) + [data] + rest;
    if delay == 0 {
      assert script[1..] == rest;
    } else {
      assert script[1..] == Nothing(delay - 1) + [data] + rest;
      if count <= limit {
        ArrivesExactly(limit, delay - 1, data, rest, count + 1);
      } else {
        assert delay == 1 && script[1..] == [data] + rest && script[1..][1..] == rest;
      }
    }
  }

  /** A wait that finds the run flag down ends with its first poll, and fails whatever that brings. */
  lemma FlagIsDown(limit: nat, script: Script)
    ensures var w := Wait(limit, script, false, 0);
            if script == [] || script[0] == [] then w == TimedOut(Tail(script), 1)
            else w == Arrived(script[0], true, false, script[1..], 1)
  {
  }

  /** An arrived datagram has been taken off the script. */
  lemma {:induction false} ArrivedConsumes(limit: nat, script: Script, run: bool, count: nat)
    requires count <= limit + 2 && (run ==> count <= limit + 1)
    requires Wait(limit, script, run, count).Arrived?
    ensures |Wait(limit, script, run, count).rest| < |script|
    decreases limit + 2 - count
  {
    if Head(script) == [] {
      ArrivedConsumes(limit, Tail(script), count <= limit, count + 1);
    }
  }

  /** What n waits in a row bring, up to the first that fails. */
  function Heard(limit: nat, script: Script, run: bool, n: nat): (ds: seq<seq<byte>>)
    ensures |ds| <= n
    decreases n
  {
    if n == 0 then []
    else
      var w := Wait(limit, script, run, 0);
      if w.TimedOut? || w.expired then [] else [w.data] + Heard(limit, w.rest, w.run, n - 1)
  }

  /** The datagrams of a script in order of arrival. */
  function Datagrams(script: Script): seq<seq<byte>> {
    if script == [] then []
    else if script[0] == [] then Datagrams(script[1..])
    else [script[0]] + Datagrams(script[1..])
  }

  /** A wait takes the next datagram off the script, or none. */
  lemma {:induction false} WaitTakes(limit: nat, script: Script, run: bool, count: nat)
    requires count <= limit + 2 && (run ==> count <= limit + 1)
    ensures var w := Wait(limit, script, run, count);
            (if w.Arrived? then w.data != [] && Datagrams(script) == [w.data] + Datagrams(w.rest) else Datagrams(script) == Datagrams(w.rest))
    decreases limit + 2 - count
  {
    if Head(script) == [] && run {
      WaitTakes(limit, Tail(script), count <= limit, count + 1);
    }
  }
}
