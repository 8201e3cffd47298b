/**
 * What every operation and every run of the database keeps, and how a neighbour ages over a run. The sweep is ageing here;
 * when the sweep as it is written comes to that is shown in its own module.
 */
module NeighbourRuns {
  import opened Bytes
  import opened NeighbourSpec

  // ---------------------------------------------------------------------------------------------------------------
  // The invariant
  // ---------------------------------------------------------------------------------------------------------------

  ghost predicate Filed(s: seq<Neighbour>, port: nat) {
    forall n :: n in s ==> n.inIf == port && n.ttl <= UPDATE_TTL
  }

  lemma {:induction false} WithoutMacs(s: seq<Neighbour>, mac: Mac)
    ensures Macs(Without(s, mac)) == Macs(s) - {mac}
  {
    if s != [] {
      var rest := Without(s[1..], mac);
      WithoutMacs(s[1..], mac);
      MacsCons(s[0], s[1..]);
      MacsCons(s[0], rest);
      assert s == [s[0]] + s[1..];
      assert [] + rest == rest;
    }
  }

  lemma MacsCons(n: Neighbour, s: seq<Neighbour>)
    ensures Macs([n] + s) == {n.Mac()} + Macs(s)
  {
    forall m | m in {n.Mac()} + Macs(s)
      ensures m in Macs([n] + s)
    {
      var x :| (x == n || x in s) && x.Mac() == m;
      assert x in [n] + s;
    }
  }

  lemma {:induction false} WithoutKeeps(s: seq<Neighbour>, mac: Mac, port: nat)
    ensures Distinct(s) ==> Distinct(Without(s, mac))
    ensures Filed(s, port) ==> Filed(Without(s, mac), port)
  {
    if s != [] {
      WithoutKeeps(s[1..], mac, port);
      WithoutMacs(s[1..], mac);
      if Distinct(s) {
        forall n | n in Without(s[1..], mac)
          ensures n.Mac() != s[0].Mac()
        {
          assert n.Mac() in Macs(Without(s[1..], mac));
        }
      }
    }
  }

  lemma {:induction false} AgedKeeps(s: seq<Neighbour>, port: nat)
    ensures Macs(Aged(s)) <= Macs(s)
    ensures Distinct(s) ==> Distinct(Aged(s))
    ensures Filed(s, port) ==> Filed(Aged(s), port)
  {
    if s != [] {
      AgedKeeps(s[1..], port);
      MacsCons(s[0], s[1..]);
      assert s == [s[0]] + s[1..];
      if Distinct(s) {
        forall n | n in Aged(s[1..])
          ensures n.Mac() != s[0].Mac()
        {
          assert n.Mac() in Macs(s[1..]);
        }
      }
    }
  }

  lemma PurgeKeepsInv(db: Ports, mac: Mac)
    requires Inv(db)
    ensures Inv(PurgeFromDb(db, mac))
    ensures forall p :: 1 <= p <= PORT_NUMBER ==> mac !in Macs(PurgeFromDb(db, mac)[p])
  {
    forall p | 1 <= p <= PORT_NUMBER
      ensures Filed(PurgeFromDb(db, mac)[p], p)
      ensures Distinct(PurgeFromDb(db, mac)[p]) && Macs(PurgeFromDb(db, mac)[p]) == Macs(db[p]) - {mac}
    {
      WithoutKeeps(db[p], mac, p);
      WithoutMacs(db[p], mac);
    }
  }

  /** With distinct MACs, what one list loses is all the database loses. */
  lemma PurgeOneList(db: Ports, p: nat, after: seq<Neighbour>, mac: Mac, hit: int)
    requires Inv(db) && 1 <= p <= PORT_NUMBER && Removed(db[p], after, mac, hit)
    ensures if hit == -1 then mac !in Macs(db[p]) else PurgeFromDb(db, mac) == db[p := after]
  {
    if hit != -1 {
      RemovedIsWithout(db[p], after, mac, hit);
      assert db[p][hit].Mac() in Macs(db[p]);
      forall q | 1 <= q <= PORT_NUMBER && q != p
        ensures Without(db[q], mac) == db[q]
      {
        assert mac !in Macs(db[q]);
        WithoutAbsent(db[q], mac);
      }
      assert PurgeFromDb(db, mac) == db[p := after];
    }
  }

  /** A purge done list by list. */
  lemma PurgedLists(before: Ports, after: Ports, mac: Mac, hits: seq<int>)
    requires |hits| == PORT_NUMBER + 1 && after[0] == before[0]
    requires forall p :: 1 <= p <= PORT_NUMBER ==> Removed(before[p], after[p], mac, hits[p])
    ensures after == PurgeFromDb(before, mac)
  {
    forall p | 0 <= p <= PORT_NUMBER
      ensures after[p] == PurgeFromDb(before, mac)[p]
    {
      if p > 0 {
        RemovedIsWithout(before[p], after[p], mac, hits[p]);
      }
    }
  }

  lemma Regroups(a: seq<Neighbour>, b: seq<Neighbour>, c: seq<Neighbour>)
    ensures (a + b) + c == a + (b + c)
  {
  }

  lemma PurgeAbsent(db: Ports, mac: Mac)
    requires forall p :: 1 <= p <= PORT_NUMBER ==> mac !in Macs(db[p])
    ensures PurgeFromDb(db, mac) == db
  {
    forall p | 1 <= p <= PORT_NUMBER
      ensures Without(db[p], mac) == db[p]
    {
      WithoutAbsent(db[p], mac);
    }
  }

  lemma WithoutAbsent(s: seq<Neighbour>, mac: Mac)
    requires mac !in Macs(s)
    ensures Without(s, mac) == s
  {
    forall i | 0 <= i < |s|
      ensures s[i].Mac() != mac
    {
      assert s[i].Mac() in Macs(s);
    }
    RemovedIsWithout(s, s, mac, -1);
  }

  lemma UpdateTtlKeepsInv(db: Ports)
    requires Inv(db)
    ensures Inv(UpdateTtl(db))
  {
    forall p | 1 <= p <= PORT_NUMBER
      ensures Filed(UpdateTtl(db)[p], p)
      ensures Distinct(UpdateTtl(db)[p]) && Macs(UpdateTtl(db)[p]) <= Macs(db[p])
    {
      AgedKeeps(db[p], p);
    }
  }

  lemma YoungerKeepsInv(db: Ports, p: nat, i: nat)
    requires Inv(db) && 1 <= p <= PORT_NUMBER && i < |db[p]| && db[p][i].ttl > 0
    ensures Inv(db[p := db[p][i := Younger(db[p][i])]])
  {
    var s := db[p];
    var t := s[i := Younger(s[i])];
    assert forall k :: 0 <= k < |s| ==> t[k].Mac() == s[k].Mac();
    assert Macs(t) <= Macs(s) by {
      forall m | m in Macs(t)
        ensures m in Macs(s)
      {
        var k :| 0 <= k < |t| && t[k].Mac() == m;
        assert s[k] in s;
      }
    }
  }

  lemma DistinctAppend(s: seq<Neighbour>, n: Neighbour)
    requires Distinct(s)
    ensures Distinct(s + [n]) <==> n.Mac() !in Macs(s)
  {
    if n.Mac() in Macs(s) {
      var m :| m in s && m.Mac() == n.Mac();
      var i :| 0 <= i < |s| && s[i] == m;
      assert (s + [n])[i].Mac() == (s + [n])[|s|].Mac();
    } else {
      forall m | m in s
        ensures m.Mac() != n.Mac()
      {
        assert m.Mac() in Macs(s);
      }
    }
  }

  /** The MACs of the lists after an accepted insertion. */
  lemma InsertedMacs(db: Ports, port: nat, entry: Entry)
    requires Insert(db, port, entry).1 == Ok
    ensures forall q :: 1 <= q <= PORT_NUMBER ==>
              Macs(Insert(db, port, entry).0[q]) == Macs(db[q]) - {entry.mac} + (if q == port then {entry.mac} else {})
    ensures port == 0 ==> Macs(Insert(db, port, entry).0[0]) == Macs(db[0]) + {entry.mac}
  {
    var n := Neighbour(entry, port, UPDATE_TTL);
    forall q | 1 <= q <= PORT_NUMBER
      ensures Macs(Without(db[q], entry.mac)) == Macs(db[q]) - {entry.mac}
    {
      WithoutMacs(db[q], entry.mac);
    }
    MacsAppend(if port == 0 then db[0] else Without(db[port], entry.mac), n);
  }

  lemma MacsAppend(s: seq<Neighbour>, n: Neighbour)
    ensures Macs(s + [n]) == Macs(s) + {n.Mac()}
  {
    assert n in s + [n];
  }

  lemma InsertKeepsInv(db: Ports, port: nat, entry: Entry)
    requires Inv(db)
    ensures Inv(Insert(db, port, entry).0)
  {
    var purged := PurgeFromDb(db, entry.mac);
    PurgeKeepsInv(db, entry.mac);
    if Insert(db, port, entry).1 == Ok {
      InsertedMacs(db, port, entry);
      if port != 0 {
        DistinctAppend(purged[port], Neighbour(entry, port, UPDATE_TTL));
      }
    }
  }

  // ---------------------------------------------------------------------------------------------------------------
  // Runs
  // ---------------------------------------------------------------------------------------------------------------

  datatype Op = OpInsert(port: nat, entry: Entry) | OpPurge(mac: Mac) | OpTick

  function Step(db: Ports, op: Op): Ports {
    match op
    case OpInsert(port, entry) => Insert(db, port, entry).0
    case OpPurge(mac) => PurgeFromDb(db, mac)
    case OpTick => UpdateTtl(db)
  }

  function Run(db: Ports, ops: seq<Op>): Ports
    decreases |ops|
  {
    if ops == [] then db else Run(Step(db, ops[0]), ops[1..])
  }

  lemma StepKeepsInv(db: Ports, op: Op)
    requires Inv(db)
    ensures Inv(Step(db, op))
  {
    match op
    case OpInsert(port, entry) => InsertKeepsInv(db, port, entry);
    case OpPurge(mac) => PurgeKeepsInv(db, mac);
    case OpTick => UpdateTtlKeepsInv(db);
  }

  lemma {:induction false} RunKeepsInv(db: Ports, ops: seq<Op>)
    requires Inv(db)
    ensures Inv(Run(db, ops))
    decreases |ops|
  {
    if ops != [] {
      StepKeepsInv(db, ops[0]);
      RunKeepsInv(Step(db, ops[0]), ops[1..]);
    }
  }

  /** Whatever is inserted, purged or aged, on whatever port, the database keeps the invariant. */
  lemma ReachableInv(ops: seq<Op>)
    ensures Inv(Run(Empty(), ops))
  {
    RunKeepsInv(Empty(), ops);
  }

  // ---------------------------------------------------------------------------------------------------------------
  // What one insertion does
  // ---------------------------------------------------------------------------------------------------------------

  /** An entry for an existing port is refused exactly when six other devices are filed there already. */
  lemma InsertAccepts(db: Ports, port: nat, entry: Entry)
    requires Inv(db)
    ensures Insert(db, port, entry).1 == Ok <==>
              port <= PORT_NUMBER && (|db[port]| <= MAX_ENTRY || (port != 0 && entry.mac in Macs(db[port])))
  {
    if 1 <= port <= PORT_NUMBER {
      WithoutLength(db[port], entry.mac);
    }
  }

  /** Of distinct MACs a purge removes one neighbour or none. */
  lemma {:induction false} WithoutLength(s: seq<Neighbour>, mac: Mac)
    requires Distinct(s)
    ensures |Without(s, mac)| == if mac in Macs(s) then |s| - 1 else |s|
  {
    if s != [] {
      WithoutLength(s[1..], mac);
      MacsCons(s[0], s[1..]);
      assert s == [s[0]] + s[1..];
    }
  }

  /** Whatever the answer, all entries with other MACs keep their port, order and content. */
  lemma InsertKeepsOthers(db: Ports, port: nat, entry: Entry, q: nat)
    requires 1 <= q <= PORT_NUMBER
    ensures Without(Insert(db, port, entry).0[q], entry.mac) == Without(db[q], entry.mac)
  {
    WithoutTwice(db[q], entry.mac);
    WithoutAppend(Without(db[q], entry.mac), [Neighbour(entry, port, UPDATE_TTL)], entry.mac);
  }

  lemma {:induction false} WithoutTwice(s: seq<Neighbour>, mac: Mac)
    ensures Without(Without(s, mac), mac) == Without(s, mac)
  {
    if s != [] {
      var rest := Without(s[1..], mac);
      WithoutTwice(s[1..], mac);
      assert [] + rest == rest;
      assert ([s[0]] + rest)[1..] == rest;
    }
  }

  lemma {:induction false} WithoutAppend(a: seq<Neighbour>, b: seq<Neighbour>, mac: Mac)
    ensures Without(a + b, mac) == Without(a, mac) + Without(b, mac)
  {
    if a == [] {
      assert a + b == b;
      assert [] + Without(b, mac) == Without(b, mac);
    } else {
      var head := WithoutFirst(a, b, mac);
      WithoutAppend(a[1..], b, mac);
      Regroups(head, Without(a[1..], mac), Without(b, mac));
    }
  }

  lemma WithoutFirst(a: seq<Neighbour>, b: seq<Neighbour>, mac: Mac) returns (head: seq<Neighbour>)
    requires a != []
    ensures Without(a, mac) == head + Without(a[1..], mac)
    ensures Without(a + b, mac) == head + Without(a[1..] + b, mac)
  {
    head := if a[0].Mac() == mac then [] else [a[0]];
    assert (a + b)[1..] == a[1..] + b;
  }

  /**
   * Port 0 is accepted but never scanned. No MAC occurs twice over all thirteen lists after an accepted insertion
   * exactly when list 0 did not hold that MAC before.
   */
  lemma PortZeroDuplicates(db: Ports, port: nat, entry: Entry)
    requires Inv(db) && UniqueFrom(db, 0)
    requires Insert(db, port, entry).1 == Ok
    ensures UniqueFrom(Insert(db, port, entry).0, 0) <==> entry.mac !in Macs(db[0])
  {
    var n := Neighbour(entry, port, UPDATE_TTL);
    InsertKeepsInv(db, port, entry);
    InsertedMacs(db, port, entry);
    if port == 0 {
      DistinctAppend(db[0], n);
    } else {
      assert n in Insert(db, port, entry).0[port];
    }
  }

  /** What is filed under port 0 is never aged, purged or replaced: over any run its list only grows. */
  lemma {:induction false} PortZeroOnlyGrows(db: Ports, ops: seq<Op>)
    ensures db[0] <= Run(db, ops)[0]
    decreases |ops|
  {
    if ops != [] {
      assert db[0] <= Step(db, ops[0])[0];
      PortZeroOnlyGrows(Step(db, ops[0]), ops[1..]);
    }
  }

  // ---------------------------------------------------------------------------------------------------------------
  // The database as a map from MACs, and how its entries age
  // ---------------------------------------------------------------------------------------------------------------

  function LookupIn(s: seq<Neighbour>, mac: Mac): Option<Neighbour> {
    if s == [] then None else if s[0].Mac() == mac then Some(s[0]) else LookupIn(s[1..], mac)
  }

  /** The first match in scan order. */
  function LookupLists(lists: seq<seq<Neighbour>>, mac: Mac): Option<Neighbour> {
    if lists == [] then None
    else if LookupIn(lists[0], mac).Some? then LookupIn(lists[0], mac)
    else LookupLists(lists[1..], mac)
  }

  /** The lists 1 to 12, as the source's scans visit them. */
  function Lookup(db: Ports, mac: Mac): Option<Neighbour> {
    LookupLists(db[1..], mac)
  }

  lemma {:induction false} LookupInMacs(s: seq<Neighbour>, mac: Mac)
    ensures LookupIn(s, mac).Some? <==> mac in Macs(s)
    ensures LookupIn(s, mac).Some? ==> LookupIn(s, mac).value in s && LookupIn(s, mac).value.Mac() == mac
  {
    if s != [] {
      LookupInMacs(s[1..], mac);
      MacsCons(s[0], s[1..]);
      assert s == [s[0]] + s[1..];
    }
  }

  /** In a database that keeps the invariant, Lookup finds exactly the neighbours stored in the lists 1 to 12. */
  lemma LookupFinds(db: Ports, n: Neighbour)
    requires Inv(db)
    ensures Lookup(db, n.Mac()) == Some(n) <==> 1 <= n.inIf <= PORT_NUMBER && n in db[n.inIf]
  {
    if 1 <= n.inIf <= PORT_NUMBER && n in db[n.inIf] {
      LookupInDistinct(db[n.inIf], n);
      assert n.Mac() in Macs(db[n.inIf]);
      LookupListsHit(db[1..], n.Mac(), n.inIf - 1);
    } else if Lookup(db, n.Mac()) == Some(n) {
      var p := LookupListsSource(db[1..], n.Mac());
      LookupInMacs(db[p + 1], n.Mac());
    }
  }

  lemma {:induction false} LookupInDistinct(s: seq<Neighbour>, n: Neighbour)
    requires Distinct(s) && n in s
    ensures LookupIn(s, n.Mac()) == Some(n)
  {
    if s[0] != n {
      LookupInDistinct(s[1..], n);
    }
  }

  lemma {:induction false} LookupListsHit(lists: seq<seq<Neighbour>>, mac: Mac, q: nat)
    requires forall i, j :: 0 <= i < j < |lists| ==> Macs(lists[i]) !! Macs(lists[j])
    requires q < |lists| && mac in Macs(lists[q])
    ensures LookupLists(lists, mac) == LookupIn(lists[q], mac)
  {
    LookupInMacs(lists[0], mac);
    LookupInMacs(lists[q], mac);
    if q > 0 {
      LookupListsHit(lists[1..], mac, q - 1);
    }
  }

  lemma {:induction false} LookupListsSource(lists: seq<seq<Neighbour>>, mac: Mac) returns (q: nat)
    requires LookupLists(lists, mac).Some?
    ensures q < |lists| && LookupIn(lists[q], mac) == LookupLists(lists, mac)
  {
    if LookupIn(lists[0], mac).Some? {
      q := 0;
    } else {
      q := LookupListsSource(lists[1..], mac);
      q := q + 1;
    }
  }

  /** Lists that answer alike one by one answer alike together. */
  lemma {:induction false} LookupListsAgree(a: seq<seq<Neighbour>>, b: seq<seq<Neighbour>>, mac: Mac)
    requires |a| == |b| && forall q :: 0 <= q < |a| ==> LookupIn(a[q], mac) == LookupIn(b[q], mac)
    ensures LookupLists(a, mac) == LookupLists(b, mac)
  {
    if a != [] {
      LookupListsAgree(a[1..], b[1..], mac);
    }
  }

  lemma {:induction false} LookupListsMiss(lists: seq<seq<Neighbour>>, mac: Mac)
    requires forall q :: 0 <= q < |lists| ==> LookupIn(lists[q], mac) == None
    ensures LookupLists(lists, mac) == None
  {
    if lists != [] {
      LookupListsMiss(lists[1..], mac);
    }
  }

  /** What is left of a neighbour after `ticks` TTL sweeps. */
  function After(n: Option<Neighbour>, ticks: nat): Option<Neighbour> {
    if n.Some? && ticks <= n.value.ttl then Some(n.value.(ttl := n.value.ttl - ticks)) else None
  }

  lemma {:induction false} LookupInAged(s: seq<Neighbour>, mac: Mac, port: nat)
    requires Distinct(s) && Filed(s, port)
    ensures LookupIn(Aged(s), mac) == After(LookupIn(s, mac), 1)
  {
    if s != [] {
      LookupInAged(s[1..], mac, port);
      if s[0].Mac() == mac {
        LookupInMacs(s[1..], mac);
      }
    }
  }

  lemma {:induction false} LookupListsAged(lists: seq<seq<Neighbour>>, aged: seq<seq<Neighbour>>, mac: Mac)
    requires forall i, j :: 0 <= i < j < |lists| ==> Macs(lists[i]) !! Macs(lists[j])
    requires |aged| == |lists| && forall q :: 0 <= q < |lists| ==> LookupIn(aged[q], mac) == After(LookupIn(lists[q], mac), 1)
    ensures LookupLists(aged, mac) == After(LookupLists(lists, mac), 1)
  {
    if lists != [] {
      LookupListsAged(lists[1..], aged[1..], mac);
      if LookupIn(lists[0], mac).Some? && LookupLists(lists[1..], mac).Some? {
        var q := LookupListsSource(lists[1..], mac);
        LookupInMacs(lists[q + 1], mac);
        LookupInMacs(lists[0], mac);
      }
    }
  }

  /** A sweep takes one from every TTL and forgets the entries that were at 0. */
  lemma LookupAged(db: Ports, mac: Mac)
    requires Inv(db)
    ensures Lookup(UpdateTtl(db), mac) == After(Lookup(db, mac), 1)
  {
    forall p | 1 <= p <= PORT_NUMBER
      ensures LookupIn(UpdateTtl(db)[p], mac) == After(LookupIn(db[p], mac), 1)
    {
      LookupInAged(db[p], mac, p);
    }
    LookupListsAged(db[1..], UpdateTtl(db)[1..], mac);
  }

  lemma {:induction false} LookupInWithout(s: seq<Neighbour>, purged: Mac, mac: Mac)
    ensures LookupIn(Without(s, purged), mac) == if mac == purged then None else LookupIn(s, mac)
  {
    if s != [] {
      LookupInWithout(s[1..], purged, mac);
      assert [] + Without(s[1..], purged) == Without(s[1..], purged);
      assert ([s[0]] + Without(s[1..], purged))[1..] == Without(s[1..], purged);
    }
  }

  /** A purge removes its own MAC and leaves every other answer as it was. */
  lemma LookupPurged(db: Ports, purged: Mac, mac: Mac)
    ensures Lookup(PurgeFromDb(db, purged), mac) == if mac == purged then None else Lookup(db, mac)
  {
    forall p | 1 <= p <= PORT_NUMBER
      ensures LookupIn(PurgeFromDb(db, purged)[p], mac) == if mac == purged then None else LookupIn(db[p], mac)
    {
      LookupInWithout(db[p], purged, mac);
    }
    if mac == purged {
      LookupListsMiss(PurgeFromDb(db, purged)[1..], mac);
    } else {
      LookupListsAgree(PurgeFromDb(db, purged)[1..], db[1..], mac);
    }
  }

  /** An accepted insertion on a scanned port files a fresh entry; a refused move to a full port drops the device. */
  lemma LookupInserted(db: Ports, port: nat, entry: Entry, mac: Mac)
    requires Inv(db)
    ensures Lookup(Insert(db, port, entry).0, mac) ==
              if mac != entry.mac || port > PORT_NUMBER then Lookup(db, mac)
              else if Insert(db, port, entry).1 == Ok && port != 0 then Some(Neighbour(entry, port, UPDATE_TTL))
              else None
  {
    var purged := PurgeFromDb(db, entry.mac);
    var after := Insert(db, port, entry).0;
    LookupPurged(db, entry.mac, mac);
    if Insert(db, port, entry).1 == Ok {
      var n := Neighbour(entry, port, UPDATE_TTL);
      InsertKeepsInv(db, port, entry);
      if mac == entry.mac && port != 0 {
        assert after[port][|purged[port]|] == n;
        LookupFinds(after, n);
      } else if mac == entry.mac {
        LookupListsAgree(after[1..], purged[1..], mac);
      } else {
        forall q | 1 <= q <= PORT_NUMBER
          ensures LookupIn(after[q], mac) == LookupIn(purged[q], mac)
        {
          LookupInAppend(purged[q], n, mac);
        }
        LookupListsAgree(after[1..], purged[1..], mac);
      }
    }
  }

  lemma {:induction false} LookupInAppend(s: seq<Neighbour>, n: Neighbour, mac: Mac)
    requires n.Mac() != mac
    ensures LookupIn(s + [n], mac) == LookupIn(s, mac)
  {
    if s != [] {
      assert (s + [n])[1..] == s[1..] + [n];
      LookupInAppend(s[1..], n, mac);
    }
  }

  predicate Touches(op: Op, mac: Mac) {
    (op.OpInsert? && op.port <= PORT_NUMBER && op.entry.mac == mac) || (op.OpPurge? && op.mac == mac)
  }

  ghost predicate Untouched(ops: seq<Op>, mac: Mac) {
    forall op :: op in ops ==> !Touches(op, mac)
  }

  function Ticks(ops: seq<Op>): nat {
    if ops == [] then 0 else (if ops[0].OpTick? then 1 else 0) + Ticks(ops[1..])
  }

  lemma AgeingStep(db: Ports, op: Op, mac: Mac)
    requires Inv(db) && !Touches(op, mac)
    ensures Lookup(Step(db, op), mac) == After(Lookup(db, mac), if op.OpTick? then 1 else 0)
  {
    match op
    case OpInsert(port, entry) => LookupInserted(db, port, entry, mac);
    case OpPurge(purged) => LookupPurged(db, purged, mac);
    case OpTick => LookupAged(db, mac);
  }

  lemma AfterAfter(n: Option<Neighbour>, a: nat, b: nat)
    ensures After(After(n, a), b) == After(n, a + b)
  {
  }

  /** What is seen of a MAC ages by one with every sweep and does not change otherwise. */
  ghost predicate AgesByStep(sound: Ports -> bool, look: Ports -> Option<Neighbour>, mac: Mac) {
    forall db: Ports, op: Op {:trigger look(Step(db, op))} ::
      sound(db) && !Touches(op, mac) ==>
        sound(Step(db, op)) && look(Step(db, op)) == After(look(db), if op.OpTick? then 1 else 0)
  }

  lemma {:induction false} AgesByRun(sound: Ports -> bool, look: Ports -> Option<Neighbour>, db: Ports, ops: seq<Op>, mac: Mac)
    requires AgesByStep(sound, look, mac) && sound(db) && Untouched(ops, mac)
    ensures look(Run(db, ops)) == After(look(db), Ticks(ops))
    decreases |ops|
  {
    if ops != [] {
      var next, ticks := FirstStep(sound, look, db, ops, mac);
      AgesByRun(sound, look, next, ops[1..], mac);
      AfterAfter(look(db), ticks, Ticks(ops[1..]));
    }
  }

  lemma FirstStep(sound: Ports -> bool, look: Ports -> Option<Neighbour>, db: Ports, ops: seq<Op>, mac: Mac)
    returns (next: Ports, ticks: nat)
    requires AgesByStep(sound, look, mac) && sound(db) && Untouched(ops, mac) && ops != []
    ensures Run(db, ops) == Run(next, ops[1..]) && Ticks(ops) == ticks + Ticks(ops[1..])
    ensures sound(next) && look(next) == After(look(db), ticks)
  {
    assert !Touches(ops[0], mac);
    next, ticks := Step(db, ops[0]), if ops[0].OpTick? then 1 else 0;
    assert look(Step(db, ops[0])) == After(look(db), ticks);
  }

  /**
   * Over any run that neither inserts nor purges the MAC, and whatever it does to other MACs, an entry loses one from
   * its TTL a sweep and disappears with the sweep that finds it at 0.
   */
  lemma Ageing(db: Ports, ops: seq<Op>, mac: Mac)
    requires Inv(db) && Untouched(ops, mac)
    ensures Lookup(Run(db, ops), mac) == After(Lookup(db, mac), Ticks(ops))
  {
    var sound := (d: Ports) => Inv(d);
    var look := (d: Ports) => Lookup(d, mac);
    assert AgesByStep(sound, look, mac) by {
      forall d: Ports, op: Op | sound(d) && !Touches(op, mac)
        ensures sound(Step(d, op)) && look(Step(d, op)) == After(look(d), if op.OpTick? then 1 else 0)
      {
        StepKeepsInv(d, op);
        AgeingStep(d, op, mac);
      }
    }
    AgesByRun(sound, look, db, ops, mac);
  }

  /** What is seen of a MAC before and after a run. */
  lemma SeenAgeing(db: Ports, ops: seq<Op>, mac: Mac) returns (before: Option<Neighbour>, later: Option<Neighbour>)
    requires Inv(db) && Untouched(ops, mac)
    ensures before == Lookup(db, mac) && later == Lookup(Run(db, ops), mac) && later == After(before, Ticks(ops))
  {
    Ageing(db, ops, mac);
    before, later := Lookup(db, mac), Lookup(Run(db, ops), mac);
  }

  lemma FreshAfter(n: Neighbour, ticks: nat)
    requires n.ttl == UPDATE_TTL
    ensures After(Some(n), ticks) == if ticks <= 2 then Some(n.(ttl := 2 - ticks)) else None
  {
  }

  lemma LifetimeFrom(db: Ports, n: Neighbour, ops: seq<Op>) returns (later: Option<Neighbour>)
    requires Inv(db) && Untouched(ops, n.Mac()) && Lookup(db, n.Mac()) == Some(n) && n.ttl == UPDATE_TTL
    ensures later == Lookup(Run(db, ops), n.Mac())
    ensures later == if Ticks(ops) <= 2 then Some(n.(ttl := 2 - Ticks(ops))) else None
  {
    var before;
    before, later := SeenAgeing(db, ops, n.Mac());
    FreshAfter(n, Ticks(ops));
  }

  /** A reported device that is not heard of again survives two sweeps and is gone with the third. */
  lemma Lifetime(db: Ports, port: nat, entry: Entry, ops: seq<Op>)
    requires Inv(db) && Insert(db, port, entry).1 == Ok && port != 0
    requires Untouched(ops, entry.mac)
    ensures Lookup(Run(Insert(db, port, entry).0, ops), entry.mac)
            == if Ticks(ops) <= 2 then Some(Neighbour(entry, port, 2 - Ticks(ops))) else None
  {
    LookupInserted(db, port, entry, entry.mac);
    InsertKeepsInv(db, port, entry);
    var later := LifetimeFrom(Insert(db, port, entry).0, Neighbour(entry, port, UPDATE_TTL), ops);
  }

  // ---------------------------------------------------------------------------------------------------------------
  // An insertion, with the switch's numbers written out
  // ---------------------------------------------------------------------------------------------------------------

  /**
   * Ports 0 to 12 exist. An entry is refused when six neighbours are filed under its port already, none of them the same
   * device on a port that is scanned; otherwise it comes last in the list of its port, with a TTL of 2.
   */
  lemma InsertComesTo(db: Ports, port: nat, entry: Entry)
    requires Inv(db)
    ensures |db| == 13
    ensures var (after, code) := Insert(db, port, entry);
            && (port > 12 ==> code == ErrorInsertNode && after == db)
            && (port <= 12 ==>
                  code == if |db[port]| >= 6 && (port == 0 || forall n :: n in db[port] ==> n.entry.mac != entry.mac)
                          then ErrorMaxNodePerPkt else Ok)
            && (code == Ok ==>
                  && after[port] != [] && after[port][|after[port]| - 1] == Neighbour(entry, port, 2)
                  && (port != 0 ==> forall n :: n in after[port][..|after[port]| - 1] ==> n.entry.mac != entry.mac && n in db[port])
                  && (port == 0 ==> after[0][..|after[0]| - 1] == db[0]))
  {
    InsertAccepts(db, port, entry);
    if port <= 12 {
      assert entry.mac in Macs(db[port]) <==> exists n :: n in db[port] && n.Mac() == entry.mac;
      if port != 0 {
        WithoutOnly(db[port], entry.mac);
      }
    }
  }

  lemma {:induction false} WithoutOnly(s: seq<Neighbour>, mac: Mac)
    ensures forall n :: n in Without(s, mac) <==> n in s && n.Mac() != mac
  {
    if s != [] {
      WithoutOnly(s[1..], mac);
      assert s == [s[0]] + s[1..];
    }
  }

  /** A purge scans ports 1 to 12, all of them. */
  lemma PurgeComesTo(db: Ports, mac: Mac, p: nat, n: Neighbour)
    requires p <= 12
    ensures n in PurgeFromDb(db, mac)[p] <==> n in db[p] && (p == 0 || n.entry.mac != mac)
  {
    WithoutOnly(db[p], mac);
  }

  /** What each operation does to what is known of each MAC. */
  lemma StepLooks(db: Ports, op: Op, mac: Mac)
    requires Inv(db)
    ensures op.OpPurge? ==> Lookup(Step(db, op), mac) == if mac == op.mac then None else Lookup(db, mac)
    ensures op.OpTick? && Lookup(db, mac) == None ==> Lookup(Step(db, op), mac) == None
    ensures op.OpTick? && Lookup(db, mac).Some? ==>
              var n := Lookup(db, mac).value; Lookup(Step(db, op), mac) == if n.ttl == 0 then None else Some(n.(ttl := n.ttl - 1))
    ensures op.OpInsert? ==>
              Lookup(Step(db, op), mac) == if mac != op.entry.mac || op.port > 12 then Lookup(db, mac)
                                           else if Insert(db, op.port, op.entry).1 == Ok && op.port != 0
                                           then Some(Neighbour(op.entry, op.port, 2)) else None
  {
    match op
    case OpInsert(port, entry) => LookupInserted(db, port, entry, mac);
    case OpPurge(purged) => LookupPurged(db, purged, mac);
    case OpTick => LookupAged(db, mac);
  }
}
