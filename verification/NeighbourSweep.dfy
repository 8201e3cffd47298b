/**
 * The TTL sweep as it is written. It hands the purge a pointer to the MAC in the node under its cursor, which the purge
 * zeroes and frees; the model lets the freed bytes keep their zeros. Where that differs from ageing, and where not.
 */
module NeighbourSweep {
  import opened Bytes
  import opened NeighbourSpec
  import opened NeighbourRuns

  // ---------------------------------------------------------------------------------------------------------------
  // One purge through a pointer
  // ---------------------------------------------------------------------------------------------------------------

  ghost predicate ZeroBehind(db: Ports, p: nat, i: nat)
    requires 1 <= p <= PORT_NUMBER && i < |db[p]|
  {
    ZERO_MAC in Macs(db[p][i + 1..]) || exists q :: p < q <= PORT_NUMBER && ZERO_MAC in Macs(db[q])
  }

  lemma WithoutIsSame(s: seq<Neighbour>, mac: Mac)
    ensures Without(s, mac) == s <==> mac !in Macs(s)
  {
    WithoutMacs(s, mac);
    if mac !in Macs(s) {
      WithoutAbsent(s, mac);
    }
  }

  /** With distinct MACs the purge of the one at i leaves what is in front of it and what is behind. */
  lemma WithoutAt(s: seq<Neighbour>, i: nat)
    requires Distinct(s) && i < |s|
    ensures Without(s, s[i].Mac()) == s[..i] + s[i + 1..] && Without(s[..i], s[i].Mac()) == s[..i]
  {
    RemovedIsWithout(s, RemoveAt(s, i), s[i].Mac(), i);
    RemovedIsWithout(s[..i], s[..i], s[i].Mac(), -1);
  }

  /** What a purge through a pointer leaves of each list. */
  lemma ThroughIs(db: Ports, p: nat, i: nat, q: nat)
    requires Inv(db) && 1 <= p <= PORT_NUMBER && i < |db[p]| && q <= PORT_NUMBER
    ensures PurgeThrough(db, p, i)[q] ==
              if q < p then db[q] else if q == p then db[p][..i] + Without(db[p][i + 1..], ZERO_MAC) else Without(db[q], ZERO_MAC)
  {
    if 0 < q < p {
      assert db[p][i].Mac() in Macs(db[p]);
      KeptIsWithout(db[q], db[p][i].Mac());
      WithoutAbsent(db[q], db[p][i].Mac());
    } else if q == p {
      WithoutAt(db[p], i);
      KeptIsWithout(db[p][..i], db[p][i].Mac());
      KeptIsWithout(db[p][i + 1..], ZERO_MAC);
    } else if q > p {
      KeptIsWithout(db[q], ZERO_MAC);
    }
  }

  lemma SameBehind(a: seq<Neighbour>, b: seq<Neighbour>, c: seq<Neighbour>)
    ensures a + b == a + c <==> b == c
  {
    if a + b == a + c {
      assert (a + b)[|a|..] == b && (a + c)[|a|..] == c;
    }
  }

  lemma ThroughAt(db: Ports, p: nat, i: nat)
    requires Inv(db) && 1 <= p <= PORT_NUMBER && i < |db[p]|
    ensures PurgeThrough(db, p, i)[p] == Without(db[p], db[p][i].Mac()) <==> ZERO_MAC !in Macs(db[p][i + 1..])
  {
    var rest := db[p][i + 1..];
    ThroughIs(db, p, i, p);
    WithoutAt(db[p], i);
    WithoutIsSame(rest, ZERO_MAC);
    SameBehind(db[p][..i], Without(rest, ZERO_MAC), rest);
  }

  lemma ThroughElsewhere(db: Ports, p: nat, i: nat, q: nat)
    requires Inv(db) && 1 <= p <= PORT_NUMBER && 1 <= q <= PORT_NUMBER && p != q && i < |db[p]|
    ensures Without(db[q], db[p][i].Mac()) == db[q]
    ensures PurgeThrough(db, p, i)[q] == Without(db[q], db[p][i].Mac()) <==> q < p || ZERO_MAC !in Macs(db[q])
  {
    ThroughIs(db, p, i, q);
    assert db[p][i].Mac() in Macs(db[p]);
    WithoutAbsent(db[q], db[p][i].Mac());
    WithoutIsSame(db[q], ZERO_MAC);
  }

  /** Reading the MAC through the pointer makes no difference exactly when no neighbour behind the node has a MAC of zeros. */
  lemma AliasHarmless(db: Ports, p: nat, i: nat)
    requires Inv(db) && 1 <= p <= PORT_NUMBER && i < |db[p]|
    ensures PurgeThrough(db, p, i) == PurgeFromDb(db, db[p][i].Mac()) <==> !ZeroBehind(db, p, i)
  {
    ThroughAt(db, p, i);
    forall q | 1 <= q <= PORT_NUMBER && q != p
      ensures PurgeThrough(db, p, i)[q] == PurgeFromDb(db, db[p][i].Mac())[q] <==> q < p || ZERO_MAC !in Macs(db[q])
    {
      ThroughElsewhere(db, p, i, q);
    }
    SameLists(PurgeThrough(db, p, i), PurgeFromDb(db, db[p][i].Mac()));
  }

  lemma SameLists(a: Ports, b: Ports)
    ensures a == b <==> forall q :: 0 <= q <= PORT_NUMBER ==> a[q] == b[q]
  {
  }

  /** What a purge leaves of the rest of a list comes from there. */
  lemma WithoutSource(s: seq<Neighbour>, i: nat, mac: Mac, n: Neighbour) returns (k: nat)
    requires i < |s| && n in Without(s[i + 1..], mac)
    ensures i < k < |s| && s[k].Mac() == n.Mac()
  {
    var rest := s[i + 1..];
    WithoutMacs(rest, mac);
    assert n.Mac() in Macs(Without(rest, mac));
    var m :| m in rest && m.Mac() == n.Mac();
    var j :| 0 <= j < |rest| && rest[j] == m;
    k := i + 1 + j;
  }

  lemma DistinctJoin(s: seq<Neighbour>, i: nat, mac: Mac, port: nat)
    requires Distinct(s) && i < |s|
    ensures var t := s[..i] + Without(s[i + 1..], mac);
            Distinct(t) && Macs(t) <= Macs(s) && |t| <= |s| && (Filed(s, port) ==> Filed(t, port))
  {
    var w := Without(s[i + 1..], mac);
    var t := s[..i] + w;
    WithoutKeeps(s[i + 1..], mac, port);
    forall x, y | 0 <= x < y < |t|
      ensures t[x].Mac() != t[y].Mac()
    {
      if x < i <= y {
        var k := WithoutSource(s, i, mac, t[y]);
      }
    }
    forall m | m in Macs(t)
      ensures m in Macs(s)
    {
      var n :| n in t && n.Mac() == m;
      if n in w {
        var k := WithoutSource(s, i, mac, n);
        assert s[k] in s;
      } else {
        assert n in s;
      }
    }
  }

  lemma ThroughKeeps(db: Ports, p: nat, i: nat, q: nat)
    requires Inv(db) && 1 <= p <= PORT_NUMBER && i < |db[p]| && 1 <= q <= PORT_NUMBER
    ensures var t := PurgeThrough(db, p, i)[q];
            Distinct(t) && Macs(t) <= Macs(db[q]) && |t| <= |db[q]| && Filed(t, q)
  {
    ThroughIs(db, p, i, q);
    assert Filed(db[q], q);
    if q == p {
      DistinctJoin(db[p], i, ZERO_MAC, p);
    } else {
      WithoutKeeps(db[q], ZERO_MAC, q);
      WithoutMacs(db[q], ZERO_MAC);
    }
  }

  lemma ThroughKeepsInv(db: Ports, p: nat, i: nat)
    requires Inv(db) && 1 <= p <= PORT_NUMBER && i < |db[p]|
    ensures Inv(PurgeThrough(db, p, i))
  {
    var after := PurgeThrough(db, p, i);
    forall q | 1 <= q <= PORT_NUMBER
      ensures Distinct(after[q]) && Macs(after[q]) <= Macs(db[q]) && |after[q]| <= |db[q]| && Filed(after[q], q)
    {
      ThroughKeeps(db, p, i, q);
    }
    SmallerKeepsInv(db, after);
  }

  /** Lists that only lose MACs keep the invariant. */
  lemma SmallerKeepsInv(db: Ports, after: Ports)
    requires Inv(db) && after[0] == db[0]
    requires forall q :: 1 <= q <= PORT_NUMBER ==>
               Distinct(after[q]) && Macs(after[q]) <= Macs(db[q]) && |after[q]| <= |db[q]| && Filed(after[q], q)
    ensures Inv(after)
  {
    forall q, k | 0 <= q <= PORT_NUMBER && 0 <= k < |after[q]|
      ensures after[q][k].inIf == q && after[q][k].ttl <= UPDATE_TTL
    {
      if q > 0 {
        assert after[q][k] in after[q];
      }
    }
  }

  lemma {:induction false} KeptAll<T>(s: seq<Neighbour>, ts: seq<T>, mac: Mac)
    requires |ts| == |s| && mac !in Macs(s)
    ensures Kept(s, ts, mac) == ts
  {
    if s != [] {
      assert s[0] in s;
      forall m | m in Macs(s[1..])
        ensures m in Macs(s)
      {
        var n :| n in s[1..] && n.Mac() == m;
        assert n in s;
      }
      KeptAll(s[1..], ts[1..], mac);
    }
  }

  /** A pointer to a node that is gone looks for the MAC of zeros, and finds nothing more when there is none. */
  lemma ThroughNowhere<T>(db: Ports, ts: seq<seq<T>>)
    requires |ts| == |db| && forall q :: 0 <= q <= PORT_NUMBER ==> |ts[q]| == |db[q]|
    requires forall q :: 1 <= q <= PORT_NUMBER ==> ZERO_MAC !in Macs(db[q])
    ensures ThroughLists(db, ts, 0, 0) == ts
  {
    forall q | 0 <= q <= PORT_NUMBER
      ensures ThroughLists(db, ts, 0, 0)[q] == ts[q]
    {
      if q > 0 {
        KeptAll(db[q], ts[q], ZERO_MAC);
      }
    }
  }

  /** Of a node in a list, or of one that is gone when there is no MAC of zeros. */
  lemma ThroughBoth<T>(db: Ports, ts: seq<seq<T>>, p: nat, i: nat)
    requires Inv(db) && |ts| == |db| && forall q :: 0 <= q <= PORT_NUMBER ==> |ts[q]| == |db[q]|
    requires p <= PORT_NUMBER && if p == 0 then forall q :: 1 <= q <= PORT_NUMBER ==> ZERO_MAC !in Macs(db[q]) else i < |db[p]|
    ensures Inv(PurgeThrough(db, p, i))
    ensures p == 0 ==> PurgeThrough(db, p, i) == db && ThroughLists(db, ts, p, i) == ts
  {
    if p > 0 {
      ThroughKeepsInv(db, p, i);
    } else {
      ThroughNowhere(db, db);
      ThroughNowhere(db, ts);
      SameLists(PurgeThrough(db, p, i), ThroughLists(db, db, 0, 0));
    }
  }

  // ---------------------------------------------------------------------------------------------------------------
  // The sweep on values
  // ---------------------------------------------------------------------------------------------------------------

  function Purged(lists: seq<seq<Neighbour>>): (r: seq<seq<Neighbour>>)
    ensures |r| == |lists|
  {
    seq(|lists|, q requires 0 <= q < |lists| => Without(lists[q], ZERO_MAC))
  }

  /**
   * The sweep of one list, and whether it has purged. An expired neighbour's purge takes one with a MAC of zeros from the
   * rest, and when that was the very next one, the saved pointer leads to a node that is gone, whose own is null.
   */
  function Swept(s: seq<Neighbour>): (r: (seq<Neighbour>, bool))
    decreases |s|
  {
    if s == [] then ([], false)
    else if s[0].ttl == 0 || s[0].ttl > UPDATE_TTL then
      var rest := Without(s[1..], ZERO_MAC);
      if |s| > 1 && s[1].Mac() == ZERO_MAC then (rest, true) else (Swept(rest).0, true)
    else
      ([Younger(s[0])] + Swept(s[1..]).0, Swept(s[1..]).1)
  }

  /** List by list; a list that has purged has done so in those behind it too. */
  function SweptLists(lists: seq<seq<Neighbour>>): (r: seq<seq<Neighbour>>)
    ensures |r| == |lists|
    decreases |lists|
  {
    if lists == [] then []
    else [Swept(lists[0]).0] + SweptLists(if Swept(lists[0]).1 then Purged(lists[1..]) else lists[1..])
  }

  function SweepAll(db: Ports): Ports {
    [db[0]] + SweptLists(db[1..])
  }

  /** The database with this in the place of list p, when it has purged, or not. */
  function Spliced(db: Ports, p: nat, s: seq<Neighbour>, fired: bool): Ports {
    seq(PORT_NUMBER + 1, q requires 0 <= q <= PORT_NUMBER =>
      if q < p then db[q] else if q == p then s else if fired then Without(db[q], ZERO_MAC) else db[q])
  }

  ghost predicate ZeroFree(db: Ports) {
    forall q :: 1 <= q <= PORT_NUMBER ==> ZERO_MAC !in Macs(db[q])
  }

  /**
   * How far the sweep of list p has come, in a database that was `before`: what is aged, what is coming, whether the node
   * under the cursor is gone, and whether there was a purge.
   */
  datatype Course = Course(aged: seq<Neighbour>, rest: seq<Neighbour>, gone: bool, fired: bool)

  ghost predicate Along(before: Ports, p: nat, db: Ports, c: Course) {
    && 1 <= p <= PORT_NUMBER
    && db == Spliced(before, p, c.aged + c.rest, c.fired)
    && c.aged + (if c.gone then c.rest else Swept(c.rest).0) == Swept(before[p]).0
    && (c.fired || (!c.gone && Swept(c.rest).1) <==> Swept(before[p]).1)
    && (c.gone ==> c.fired && ZeroFree(db))
  }

  lemma AlongStarts(db: Ports, p: nat)
    requires 1 <= p <= PORT_NUMBER
    ensures Along(db, p, db, Course([], db[p], false, false))
  {
    SameLists(db, Spliced(db, p, [] + db[p], false));
  }

  lemma AlongEnds(before: Ports, p: nat, db: Ports, c: Course)
    requires Along(before, p, db, c) && (c.gone || c.rest == [])
    ensures db == Spliced(before, p, Swept(before[p]).0, Swept(before[p]).1)
  {
  }

  lemma AlongYounger(before: Ports, p: nat, db: Ports, c: Course, next: Ports)
    requires Along(before, p, db, c) && !c.gone && c.rest != [] && 0 < c.rest[0].ttl <= UPDATE_TTL
    requires next == db[p := (c.aged + c.rest)[|c.aged| := Younger(c.rest[0])]]
    ensures Along(before, p, next, Course(c.aged + [Younger(c.rest[0])], c.rest[1..], false, c.fired))
  {
    SplitStep(c.aged, c.rest, Younger(c.rest[0]));
    Regroups(c.aged, [Younger(c.rest[0])], Swept(c.rest[1..]).0);
    SameLists(next, Spliced(before, p, (c.aged + [Younger(c.rest[0])]) + c.rest[1..], c.fired));
  }

  /** What an expired neighbour's purge makes of all that. */
  function AfterPurge(c: Course): Course
    requires c.rest != []
  {
    Course(c.aged, Without(c.rest[1..], ZERO_MAC), |c.rest| > 1 && c.rest[1].Mac() == ZERO_MAC, true)
  }

  lemma PurgeSplices(before: Ports, p: nat, db: Ports, c: Course)
    requires Inv(db) && Along(before, p, db, c) && !c.gone && c.rest != []
    ensures |c.aged| < |db[p]|
    ensures PurgeThrough(db, p, |c.aged|) == Spliced(before, p, c.aged + Without(c.rest[1..], ZERO_MAC), true)
  {
    var i, after := |c.aged|, PurgeThrough(db, p, |c.aged|);
    forall q | 0 <= q <= PORT_NUMBER
      ensures after[q] == Spliced(before, p, c.aged + Without(c.rest[1..], ZERO_MAC), true)[q]
    {
      ThroughIs(db, p, i, q);
      if q == p {
        assert db[p][..i] == c.aged && db[p][i + 1..] == c.rest[1..];
      } else if q > p {
        WithoutTwice(before[q], ZERO_MAC);
      }
    }
    SameLists(after, Spliced(before, p, c.aged + Without(c.rest[1..], ZERO_MAC), true));
  }

  /** When the next one carries the MAC of zeros, it was the only one. */
  lemma ZeroGone(db: Ports, p: nat, i: nat)
    requires Inv(db) && 1 <= p <= PORT_NUMBER && i + 1 < |db[p]| && db[p][i + 1].Mac() == ZERO_MAC
    ensures ZeroFree(PurgeThrough(db, p, i))
  {
    assert ZERO_MAC in Macs(db[p]);
    forall q | 1 <= q <= PORT_NUMBER
      ensures ZERO_MAC !in Macs(PurgeThrough(db, p, i)[q])
    {
      ThroughIs(db, p, i, q);
      if q == p {
        WithoutMacs(db[p][i + 1..], ZERO_MAC);
        MacsJoin(db[p][..i], Without(db[p][i + 1..], ZERO_MAC));
        FrontApart(db[p], i, i + 1);
      } else {
        WithoutMacs(db[q], ZERO_MAC);
      }
    }
  }

  lemma FrontApart(s: seq<Neighbour>, i: nat, k: nat)
    requires Distinct(s) && i <= k < |s|
    ensures s[k].Mac() !in Macs(s[..i])
  {
  }

  lemma MacsJoin(a: seq<Neighbour>, b: seq<Neighbour>)
    ensures Macs(a + b) == Macs(a) + Macs(b)
  {
    forall m | m in Macs(a) + Macs(b)
      ensures m in Macs(a + b)
    {
      var n :| (n in a || n in b) && n.Mac() == m;
      assert n in a + b;
    }
  }

  lemma AlongPurge(before: Ports, p: nat, db: Ports, c: Course)
    requires Inv(db) && Along(before, p, db, c) && !c.gone && c.rest != []
    requires c.rest[0].ttl == 0 || c.rest[0].ttl > UPDATE_TTL
    ensures |c.aged| < |db[p]| && Along(before, p, PurgeThrough(db, p, |c.aged|), AfterPurge(c))
  {
    PurgeSplices(before, p, db, c);
    if AfterPurge(c).gone {
      assert db[p][|c.aged| + 1] == c.rest[1];
      ZeroGone(db, p, |c.aged|);
    }
  }

  lemma RestAt<T>(db: seq<T>, done: seq<T>, rest: seq<T>, q: nat)
    requires db == done + rest && |done| < q < |db|
    ensures db[q] == rest[1..][q - |done| - 1]
  {
  }

  /** The lists that are done, the one just swept, and the others. */
  lemma SplicedAt(db: Ports, p: nat, done: seq<seq<Neighbour>>, rest: seq<seq<Neighbour>>, s: seq<Neighbour>, fired: bool, q: nat)
    requires 1 <= p == |done| <= PORT_NUMBER && db == done + rest && q <= PORT_NUMBER
    ensures Spliced(db, p, s, fired)[q] ==
              if q < p then done[q] else if q == p then s else (if fired then Purged(rest[1..]) else rest[1..])[q - p - 1]
  {
    if q > p {
      RestAt(db, done, rest, q);
    }
  }

  lemma Listed<T>(done: seq<T>, s: T, more: seq<T>, q: nat)
    requires q < |done| + 1 + |more|
    ensures ((done + [s]) + more)[q] == if q < |done| then done[q] else if q == |done| then s else more[q - |done| - 1]
  {
  }

  lemma SplicedLists(db: Ports, p: nat, done: seq<seq<Neighbour>>, rest: seq<seq<Neighbour>>, s: seq<Neighbour>, fired: bool,
                     more: seq<seq<Neighbour>>, after: Ports)
    requires 1 <= p == |done| <= PORT_NUMBER && db == done + rest && more == if fired then Purged(rest[1..]) else rest[1..]
    requires after == (done + [s]) + more
    ensures Spliced(db, p, s, fired) == after
  {
    forall q | 0 <= q <= PORT_NUMBER
      ensures Spliced(db, p, s, fired)[q] == after[q]
    {
      SplicedAt(db, p, done, rest, s, fired, q);
      Listed(done, s, more, q);
    }
    SameLists(Spliced(db, p, s, fired), after);
  }

  lemma JoinedLists<T>(done: seq<T>, s: T, more: seq<T>)
    ensures (done + [s]) + more == done + ([s] + more)
  {
  }

  /** One list of the sweep. */
  lemma NextList(db: Ports, p: nat, done: seq<seq<Neighbour>>, rest: seq<seq<Neighbour>>)
    requires 1 <= p == |done| <= PORT_NUMBER && db == done + rest
    ensures var (s, fired) := Swept(rest[0]);
            var more := if fired then Purged(rest[1..]) else rest[1..];
            && Spliced(db, p, Swept(db[p]).0, Swept(db[p]).1) == (done + [s]) + more
            && (done + [s]) + SweptLists(more) == done + SweptLists(rest)
  {
    var (s, fired) := Swept(rest[0]);
    var more := if fired then Purged(rest[1..]) else rest[1..];
    assert db[p] == rest[0];
    SplicedLists(db, p, done, rest, s, fired, more, (done + [s]) + more);
    JoinedLists(done, s, SweptLists(more));
  }

  /** What stands beside the neighbours of the list, after such a purge. */
  lemma ThroughBeside<T>(s: seq<Neighbour>, ts: seq<T>, i: nat)
    requires Distinct(s) && |ts| == |s| && i < |s|
    ensures Through(s, ts, i, s[i].Mac()) == ts[..i] + Kept(s[i + 1..], ts[i + 1..], ZERO_MAC)
  {
    forall m | m in s[..i]
      ensures m.Mac() != s[i].Mac()
    {
    }
    KeptAll(s[..i], ts[..i], s[i].Mac());
  }

  lemma {:induction false} KeptOf<T>(s: seq<Neighbour>, ts: seq<T>, mac: Mac)
    requires |ts| == |s|
    ensures |Kept(s, ts, mac)| == |Without(s, mac)| && forall t :: t in Kept(s, ts, mac) ==> t in ts
  {
    if s != [] {
      KeptOf(s[1..], ts[1..], mac);
    }
  }

  /** The one in front of the rest, when it stays and when it goes. */
  lemma KeptFront<T>(s: seq<Neighbour>, ts: seq<T>, mac: Mac)
    requires |ts| == |s| && s != [] && forall i, j :: 0 <= i < j < |ts| ==> ts[i] != ts[j]
    ensures if s[0].Mac() == mac then ts[0] !in Kept(s, ts, mac) else Kept(s, ts, mac) != [] && Kept(s, ts, mac)[0] == ts[0]
  {
    KeptOf(s[1..], ts[1..], mac);
  }

  // ---------------------------------------------------------------------------------------------------------------
  // When the sweep ages
  // ---------------------------------------------------------------------------------------------------------------

  ghost predicate InTime(s: seq<Neighbour>) {
    forall n :: n in s ==> n.ttl <= UPDATE_TTL
  }

  ghost predicate AnyExpired(s: seq<Neighbour>) {
    exists n :: n in s && n.ttl == 0
  }

  lemma {:induction false} SweptFires(s: seq<Neighbour>)
    requires InTime(s)
    ensures Swept(s).1 <==> AnyExpired(s)
  {
    if s != [] {
      assert s[0] in s && InTime(s[1..]);
      if s[0].ttl > 0 {
        SweptFires(s[1..]);
        assert AnyExpired(s[1..]) <==> AnyExpired(s) by {
          assert s == [s[0]] + s[1..];
        }
      }
    }
  }

  lemma MacsRest(s: seq<Neighbour>)
    requires s != []
    ensures Macs(s) == {s[0].Mac()} + Macs(s[1..])
  {
    MacsCons(s[0], s[1..]);
    assert s == [s[0]] + s[1..];
  }

  /** Where no MAC is zeros the sweep ages. */
  lemma {:induction false} SweptIsAged(s: seq<Neighbour>)
    requires InTime(s) && ZERO_MAC !in Macs(s)
    ensures Swept(s).0 == Aged(s)
  {
    if s != [] {
      MacsRest(s);
      SweptIsAged(s[1..]);
      WithoutAbsent(s[1..], ZERO_MAC);
      if |s| > 1 {
        assert s[1..][0].Mac() in Macs(s[1..]);
      }
    }
  }

  lemma AgedDiffers(s: seq<Neighbour>)
    requires InTime(s) && s != []
    ensures Aged(s) != s
  {
    assert s[0] in s;
  }

  /** What ageing makes of a list without its z-th neighbour. */
  lemma {:induction false} AgedWithout(s: seq<Neighbour>, z: nat)
    requires InTime(s) && Distinct(s) && z < |s| && s[z].Mac() == ZERO_MAC
    ensures Aged(Without(s, ZERO_MAC)) == Aged(s) <==> s[z].ttl == 0
  {
    assert s[0] in s;
    if z == 0 {
      ZeroFirst(s);
    } else {
      var rest, t := Without(s[1..], ZERO_MAC), Without(s, ZERO_MAC);
      AgedWithout(s[1..], z - 1);
      assert t == [s[0]] + rest && t[1..] == rest;
      assert s[0].ttl > 0 ==> Aged(t) == [Younger(s[0])] + Aged(rest);
      SameBehind([Younger'(s[0])], Aged(rest), Aged(s[1..]));
    }
  }

  function Younger'(n: Neighbour): Neighbour {
    if n.ttl > 0 then Younger(n) else n
  }

  /** The neighbour with the MAC of zeros in front. */
  lemma ZeroFirst(s: seq<Neighbour>)
    requires InTime(s) && Distinct(s) && s != [] && s[0].Mac() == ZERO_MAC
    ensures ZERO_MAC !in Macs(s[1..]) && Without(s, ZERO_MAC) == s[1..] && Without(s[1..], ZERO_MAC) == s[1..]
    ensures Aged(s[1..]) == Aged(s) <==> s[0].ttl == 0
  {
    assert s[0] in s;
    assert ZERO_MAC !in Macs(s[1..]) by {
      forall n | n in s[1..]
        ensures n.Mac() != ZERO_MAC
      {
        var k :| 0 <= k < |s[1..]| && s[1..][k] == n;
        assert s[k + 1] == n;
      }
    }
    WithoutAbsent(s[1..], ZERO_MAC);
    assert [] + s[1..] == s[1..];
  }

  /** An expired neighbour stands in front of the one at z. */
  ghost predicate Fired(s: seq<Neighbour>, z: nat)
    requires z < |s|
  {
    exists i :: 0 <= i < z && s[i].ttl == 0
  }

  /** The first expired one stands directly in front of it, and something behind. */
  ghost predicate Short(s: seq<Neighbour>, z: nat)
    requires z < |s|
  {
    0 < z < |s| - 1 && s[z - 1].ttl == 0 && forall i :: 0 <= i < z - 1 ==> s[i].ttl > 0
  }

  lemma FiredRest(s: seq<Neighbour>, z: nat)
    requires 0 < z < |s| && s[0].ttl > 0
    ensures (Fired(s, z) <==> Fired(s[1..], z - 1)) && (Short(s, z) <==> Short(s[1..], z - 1))
  {
    if Fired(s, z) {
      var i :| 0 <= i < z && s[i].ttl == 0;
      assert s[1..][i - 1].ttl == 0;
    }
    if Fired(s[1..], z - 1) {
      var i :| 0 <= i < z - 1 && s[1..][i].ttl == 0;
      assert s[i + 1].ttl == 0;
    }
    if Short(s[1..], z - 1) {
      forall i | 0 <= i < z - 1
        ensures s[i].ttl > 0
      {
        if i > 0 {
          assert s[1..][i - 1].ttl > 0;
        }
      }
    }
  }

  lemma FiredFirst(s: seq<Neighbour>, z: nat)
    requires 0 < z < |s| && s[0].ttl == 0
    ensures Fired(s, z) && (Short(s, z) <==> z == 1 && |s| > 2)
  {
  }

  /** In the list of the neighbour with the MAC of zeros. */
  lemma {:induction false} SweptExactly(s: seq<Neighbour>, z: nat)
    requires InTime(s) && Distinct(s) && z < |s| && s[z].Mac() == ZERO_MAC
    ensures Swept(s).0 == Aged(s) <==> (Fired(s, z) ==> s[z].ttl == 0 && !Short(s, z))
    decreases z
  {
    assert s[0] in s;
    if z == 0 {
      ZeroFirst(s);
      SweptIsAged(s[1..]);
      if |s| > 1 {
        assert s[1..][0].Mac() in Macs(s[1..]);
      }
    } else if s[0].ttl > 0 {
      FiredRest(s, z);
      SweptExactly(s[1..], z - 1);
      SameBehind([Younger(s[0])], Swept(s[1..]).0, Aged(s[1..]));
    } else {
      FiredFirst(s, z);
      if z == 1 {
        NextExpires(s);
      } else {
        LaterExpires(s, z);
      }
    }
  }

  /** Dropping the first neighbour is not ageing, unless it has expired and is the last. */
  lemma DroppedIsAged(s: seq<Neighbour>)
    requires InTime(s) && Distinct(s) && s != [] && s[0].Mac() == ZERO_MAC
    ensures Without(s, ZERO_MAC) == Aged(s) <==> s[0].ttl == 0 && |s| == 1
  {
    var first, rest, more := AgedFirst(s);
    ZeroFirst(s);
    if rest != [] {
      AgedDiffers(rest);
      assert rest[0].Mac() in Macs(rest);
    }
  }

  lemma AgedFirst(s: seq<Neighbour>) returns (first: seq<Neighbour>, rest: seq<Neighbour>, more: seq<Neighbour>)
    requires InTime(s) && s != []
    ensures rest == s[1..] && more == Aged(rest) && InTime(rest)
    ensures Aged(s) == first + more
    ensures if s[0].ttl == 0 then first == [] else |first| == 1 && first[0].Mac() == s[0].Mac()
  {
    assert s[0] in s;
    rest := s[1..];
    more := Aged(rest);
    first := if s[0].ttl == 0 then [] else [Younger(s[0])];
    assert [] + more == more;
  }

  /** The sweep of a list whose first neighbour has expired. */
  lemma SweptFirst(s: seq<Neighbour>) returns (swept: seq<Neighbour>, rest: seq<Neighbour>, left: seq<Neighbour>)
    requires InTime(s) && Distinct(s) && |s| > 1 && s[0].ttl == 0
    ensures rest == s[1..] && left == Without(rest, ZERO_MAC) && swept == Swept(s).0
    ensures InTime(rest) && Distinct(rest) && InTime(left) && ZERO_MAC !in Macs(left)
    ensures swept == if s[1].Mac() == ZERO_MAC then left else Swept(left).0
    ensures Aged(s) == Aged(rest)
  {
    swept, rest := Swept(s).0, s[1..];
    left := Without(rest, ZERO_MAC);
    assert InTime(rest);
    WithoutMacs(rest, ZERO_MAC);
    WithoutTimes(rest, ZERO_MAC);
  }

  /** The first one is expired, and the next one carries the MAC of zeros. */
  lemma NextExpires(s: seq<Neighbour>)
    requires InTime(s) && Distinct(s) && |s| > 1 && s[0].ttl == 0 && s[1].Mac() == ZERO_MAC
    ensures Swept(s).0 == Aged(s) <==> s[1].ttl == 0 && |s| == 2
  {
    var swept, rest, left := SweptFirst(s);
    DroppedIsAged(rest);
  }

  /** A first one that is expired, and does not stand directly in front. */
  lemma LaterExpires(s: seq<Neighbour>, z: nat)
    requires InTime(s) && Distinct(s) && 1 < z < |s| && s[0].ttl == 0 && s[z].Mac() == ZERO_MAC
    ensures Swept(s).0 == Aged(s) <==> s[z].ttl == 0
  {
    var swept, rest, left := SweptFirst(s);
    assert rest[0].Mac() != ZERO_MAC;
    AgedWithout(rest, z - 1);
    SweptIsAged(left);
  }

  lemma {:induction false} WithoutTimes(s: seq<Neighbour>, mac: Mac)
    requires InTime(s)
    ensures InTime(Without(s, mac))
  {
    if s != [] {
      assert s[0] in s;
      WithoutTimes(s[1..], mac);
    }
  }

  ghost predicate NoneZero(lists: seq<seq<Neighbour>>) {
    forall q :: 0 <= q < |lists| ==> ZERO_MAC !in Macs(lists[q])
  }

  ghost predicate AllInTime(lists: seq<seq<Neighbour>>) {
    forall q :: 0 <= q < |lists| ==> InTime(lists[q])
  }

  /** Ageing list by list. */
  function AgedLists(lists: seq<seq<Neighbour>>): (r: seq<seq<Neighbour>>)
    ensures |r| == |lists|
  {
    seq(|lists|, q requires 0 <= q < |lists| => Aged(lists[q]))
  }

  lemma AgedListsFirst(lists: seq<seq<Neighbour>>)
    requires lists != []
    ensures AgedLists(lists) == [Aged(lists[0])] + AgedLists(lists[1..])
  {
  }

  lemma PurgedSame(lists: seq<seq<Neighbour>>)
    requires NoneZero(lists)
    ensures Purged(lists) == lists
  {
    forall q | 0 <= q < |lists|
      ensures Purged(lists)[q] == lists[q]
    {
      WithoutAbsent(lists[q], ZERO_MAC);
    }
  }

  lemma {:induction false} SweptListsAge(lists: seq<seq<Neighbour>>)
    requires NoneZero(lists) && AllInTime(lists)
    ensures SweptLists(lists) == AgedLists(lists)
  {
    if lists != [] {
      SweptIsAged(lists[0]);
      PurgedSame(lists[1..]);
      SweptListsAge(lists[1..]);
      AgedListsFirst(lists);
    }
  }

  /** The z-th neighbour of list k is the one with the MAC of zeros. */
  ghost predicate ZeroAt(lists: seq<seq<Neighbour>>, k: nat, z: nat) {
    && k < |lists| && z < |lists[k]| && lists[k][z].Mac() == ZERO_MAC && Distinct(lists[k])
    && forall q :: 0 <= q < |lists| && q != k ==> ZERO_MAC !in Macs(lists[q])
  }

  /** Some list in front of list k holds an expired neighbour. */
  ghost predicate FiredBefore(lists: seq<seq<Neighbour>>, k: nat)
    requires k <= |lists|
  {
    exists q :: 0 <= q < k && AnyExpired(lists[q])
  }

  /** No purge comes upon the one with the MAC of zeros while it is alive, or as the next one. */
  ghost predicate Spared(lists: seq<seq<Neighbour>>, k: nat, z: nat)
    requires k < |lists| && z < |lists[k]|
  {
    FiredBefore(lists, k) || Fired(lists[k], z) ==>
      lists[k][z].ttl == 0 && (FiredBefore(lists, k) || !Short(lists[k], z))
  }

  lemma SameFirst<T>(a: T, b: seq<T>, c: T, d: seq<T>)
    ensures [a] + b == [c] + d <==> a == c && b == d
  {
    if [a] + b == [c] + d {
      assert ([a] + b)[0] == ([c] + d)[0] && ([a] + b)[1..] == b && ([c] + d)[1..] == d;
    }
  }

  /** The first list holds the one with the MAC of zeros. */
  lemma ZeroInFirst(lists: seq<seq<Neighbour>>, z: nat)
    requires ZeroAt(lists, 0, z) && AllInTime(lists)
    ensures SweptLists(lists) == AgedLists(lists) <==> Spared(lists, 0, z)
  {
    var rest := lists[1..];
    SweptExactly(lists[0], z);
    PurgedSame(rest);
    SweptListsAge(rest);
    AgedListsFirst(lists);
    SameFirst(Swept(lists[0]).0, SweptLists(rest), Aged(lists[0]), AgedLists(rest));
  }

  /** A list in front has purged, so that the one with the MAC of zeros is gone when its list is swept. */
  lemma PurgedLater(lists: seq<seq<Neighbour>>, k: nat, z: nat)
    requires ZeroAt(lists, k, z) && AllInTime(lists)
    ensures SweptLists(Purged(lists)) == AgedLists(lists) <==> lists[k][z].ttl == 0
  {
    var purged := Purged(lists);
    forall q | 0 <= q < |lists|
      ensures ZERO_MAC !in Macs(purged[q]) && InTime(purged[q]) && (q != k ==> purged[q] == lists[q])
    {
      WithoutMacs(lists[q], ZERO_MAC);
      WithoutTimes(lists[q], ZERO_MAC);
      if q != k {
        WithoutAbsent(lists[q], ZERO_MAC);
      }
    }
    SweptListsAge(purged);
    AgedWithout(lists[k], z);
    assert AgedLists(purged)[k] == Aged(purged[k]) && AgedLists(lists)[k] == Aged(lists[k]);
    if lists[k][z].ttl == 0 {
      assert forall q :: 0 <= q < |lists| ==> AgedLists(purged)[q] == AgedLists(lists)[q];
    }
  }

  lemma SparedRest(lists: seq<seq<Neighbour>>, k: nat, z: nat)
    requires ZeroAt(lists, k, z) && k > 0
    ensures ZeroAt(lists[1..], k - 1, z)
    ensures if AnyExpired(lists[0]) then Spared(lists, k, z) <==> lists[k][z].ttl == 0
            else Spared(lists, k, z) <==> Spared(lists[1..], k - 1, z)
  {
    var rest := lists[1..];
    if FiredBefore(rest, k - 1) {
      var q :| 0 <= q < k - 1 && AnyExpired(rest[q]);
      assert AnyExpired(lists[q + 1]);
    }
    if FiredBefore(lists, k) && !AnyExpired(lists[0]) {
      var q :| 0 <= q < k && AnyExpired(lists[q]);
      assert AnyExpired(rest[q - 1]);
    }
  }

  lemma {:induction false} SweptListsExactly(lists: seq<seq<Neighbour>>, k: nat, z: nat)
    requires ZeroAt(lists, k, z) && AllInTime(lists)
    ensures SweptLists(lists) == AgedLists(lists) <==> Spared(lists, k, z)
    decreases k
  {
    if k == 0 {
      ZeroInFirst(lists, z);
    } else {
      var rest := lists[1..];
      SweptIsAged(lists[0]);
      SweptFires(lists[0]);
      AgedListsFirst(lists);
      SparedRest(lists, k, z);
      if AnyExpired(lists[0]) {
        PurgedLater(rest, k - 1, z);
        SameFirst(Swept(lists[0]).0, SweptLists(Purged(rest)), Aged(lists[0]), AgedLists(rest));
      } else {
        SweptListsExactly(rest, k - 1, z);
        SameFirst(Swept(lists[0]).0, SweptLists(rest), Aged(lists[0]), AgedLists(rest));
      }
    }
  }

  lemma SweepIsLists(db: Ports)
    ensures SweepAll(db) == UpdateTtl(db) <==> SweptLists(db[1..]) == AgedLists(db[1..])
  {
    var rest := db[1..];
    SameFirst(db[0], SweptLists(rest), db[0], AgedLists(rest));
    forall q | 0 <= q <= PORT_NUMBER
      ensures UpdateTtl(db)[q] == ([db[0]] + AgedLists(rest))[q]
    {
    }
    assert UpdateTtl(db) == [db[0]] + AgedLists(rest);
  }

  lemma InvLists(db: Ports)
    requires Inv(db)
    ensures AllInTime(db[1..])
    ensures forall p, z :: 1 <= p <= PORT_NUMBER && 0 <= z < |db[p]| && db[p][z].Mac() == ZERO_MAC ==> ZeroAt(db[1..], p - 1, z)
  {
    forall p, z | 1 <= p <= PORT_NUMBER && 0 <= z < |db[p]| && db[p][z].Mac() == ZERO_MAC
      ensures ZeroAt(db[1..], p - 1, z)
    {
      assert ZERO_MAC in Macs(db[p]);
    }
  }

  /**
   * The sweep ages the database exactly when no neighbour with a MAC of zeros suffers from a purge: when an expired one
   * stands in front of it, it must have expired too, and the first expired one must not stand directly in front of it in
   * a list that goes on behind it.
   */
  lemma SweepExactly(db: Ports)
    requires Inv(db)
    ensures SweepAll(db) == UpdateTtl(db)
            <==> forall p, z :: 1 <= p <= PORT_NUMBER && 0 <= z < |db[p]| && db[p][z].Mac() == ZERO_MAC ==> Spared(db[1..], p - 1, z)
  {
    SweepIsLists(db);
    InvLists(db);
    if p, z :| 1 <= p <= PORT_NUMBER && 0 <= z < |db[p]| && db[p][z].Mac() == ZERO_MAC {
      SweptListsExactly(db[1..], p - 1, z);
      forall q, y | 1 <= q <= PORT_NUMBER && 0 <= y < |db[q]| && db[q][y].Mac() == ZERO_MAC
        ensures q == p && y == z
      {
        assert ZERO_MAC in Macs(db[q]);
      }
    } else {
      forall q | 0 <= q < |db[1..]|
        ensures ZERO_MAC !in Macs(db[1..][q])
      {
        forall n | n in db[q + 1]
          ensures n.Mac() != ZERO_MAC
        {
        }
      }
      SweptListsAge(db[1..]);
    }
  }

  // ---------------------------------------------------------------------------------------------------------------
  // Runs with the sweep as it is written
  // ---------------------------------------------------------------------------------------------------------------

  /** t has come from s by losing neighbours and lifetime. */
  ghost predicate Smaller(t: seq<Neighbour>, s: seq<Neighbour>, port: nat) {
    && |t| <= |s| && Macs(t) <= Macs(s)
    && (Distinct(s) ==> Distinct(t)) && (Filed(s, port) ==> Filed(t, port))
  }

  lemma WithoutSmaller(s: seq<Neighbour>, mac: Mac, port: nat)
    ensures Smaller(Without(s, mac), s, port)
  {
    WithoutKeeps(s, mac, port);
    WithoutMacs(s, mac);
  }

  lemma RestSmaller(s: seq<Neighbour>, port: nat)
    requires s != []
    ensures Smaller(s[1..], s, port)
  {
    MacsRest(s);
  }

  lemma FrontSmaller(n: Neighbour, m: Neighbour, t: seq<Neighbour>, s: seq<Neighbour>, port: nat)
    requires Smaller(t, s, port) && n.Mac() == m.Mac() && n.inIf == m.inIf && n.ttl <= m.ttl
    ensures Smaller([n] + t, [m] + s, port)
  {
    MacsCons(n, t);
    MacsCons(m, s);
    if Distinct([m] + s) {
      assert ([m] + s)[1..] == s;
      forall x | x in t
        ensures x.Mac() != n.Mac()
      {
        assert x.Mac() in Macs(s);
        var y :| y in s && y.Mac() == x.Mac();
        var k :| 0 <= k < |s| && s[k] == y;
        assert ([m] + s)[k + 1] == y;
      }
    }
    if Filed([m] + s, port) {
      assert m in [m] + s;
      forall y | y in s
        ensures y.inIf == port && y.ttl <= UPDATE_TTL
      {
        assert y in [m] + s;
      }
    }
  }

  lemma SmallerTwice(a: seq<Neighbour>, b: seq<Neighbour>, c: seq<Neighbour>, port: nat)
    requires Smaller(a, b, port) && Smaller(b, c, port)
    ensures Smaller(a, c, port)
  {
  }

  lemma {:induction false} SweptSmaller(s: seq<Neighbour>, port: nat)
    ensures Smaller(Swept(s).0, s, port)
    decreases |s|
  {
    if s != [] {
      var rest := s[1..];
      if s[0].ttl == 0 || s[0].ttl > UPDATE_TTL {
        var left := Without(rest, ZERO_MAC);
        WithoutSmaller(rest, ZERO_MAC, port);
        RestSmaller(s, port);
        SmallerTwice(left, rest, s, port);
        SweptSmaller(left, port);
        SmallerTwice(Swept(left).0, left, s, port);
      } else {
        SweptSmaller(rest, port);
        FrontSmaller(Younger(s[0]), s[0], Swept(rest).0, rest, port);
        assert s == [s[0]] + rest;
      }
    }
  }

  lemma {:induction false} SweptListsSmaller(lists: seq<seq<Neighbour>>, q: nat, port: nat)
    requires q < |lists|
    ensures Smaller(SweptLists(lists)[q], lists[q], port)
    decreases q
  {
    var rest := lists[1..];
    if q == 0 {
      SweptSmaller(lists[0], port);
    } else if Swept(lists[0]).1 {
      SweptListsSmaller(Purged(rest), q - 1, port);
      WithoutSmaller(lists[q], ZERO_MAC, port);
      SmallerTwice(SweptLists(lists)[q], Purged(rest)[q - 1], lists[q], port);
    } else {
      SweptListsSmaller(rest, q - 1, port);
    }
  }

  lemma SweepKeepsInv(db: Ports)
    requires Inv(db)
    ensures Inv(SweepAll(db))
  {
    var after := SweepAll(db);
    forall q | 1 <= q <= PORT_NUMBER
      ensures Distinct(after[q]) && Macs(after[q]) <= Macs(db[q]) && |after[q]| <= |db[q]| && Filed(after[q], q)
    {
      SweptListsSmaller(db[1..], q - 1, q);
      assert after[q] == SweptLists(db[1..])[q - 1] && db[1..][q - 1] == db[q];
      assert Filed(db[q], q);
    }
    SmallerKeepsInv(db, after);
  }

  function StepAsWritten(db: Ports, op: Op): Ports {
    if op.OpTick? then SweepAll(db) else Step(db, op)
  }

  function RunAsWritten(db: Ports, ops: seq<Op>): Ports
    decreases |ops|
  {
    if ops == [] then db else RunAsWritten(StepAsWritten(db, ops[0]), ops[1..])
  }

  /** The invariant holds over the runs as they are written too. */
  lemma {:induction false} RunAsWrittenKeepsInv(db: Ports, ops: seq<Op>)
    requires Inv(db)
    ensures Inv(RunAsWritten(db, ops))
    decreases |ops|
  {
    if ops != [] {
      if ops[0].OpTick? {
        SweepKeepsInv(db);
      } else {
        StepKeepsInv(db, ops[0]);
      }
      RunAsWrittenKeepsInv(StepAsWritten(db, ops[0]), ops[1..]);
    }
  }

  predicate FilesZero(op: Op) {
    op.OpInsert? && 1 <= op.port <= PORT_NUMBER && op.entry.mac == ZERO_MAC
  }

  lemma StepKeepsZeroFree(db: Ports, op: Op)
    requires ZeroFree(db) && !FilesZero(op)
    ensures ZeroFree(Step(db, op))
  {
    match op
    case OpInsert(port, entry) =>
      if Insert(db, port, entry).1 == Ok {
        InsertedMacs(db, port, entry);
      } else {
        forall q | 1 <= q <= PORT_NUMBER
          ensures ZERO_MAC !in Macs(Without(db[q], entry.mac))
        {
          WithoutMacs(db[q], entry.mac);
        }
      }
    case OpPurge(mac) =>
      forall q | 1 <= q <= PORT_NUMBER
        ensures ZERO_MAC !in Macs(Without(db[q], mac))
      {
        WithoutMacs(db[q], mac);
      }
    case OpTick =>
      forall q | 1 <= q <= PORT_NUMBER
        ensures Macs(Aged(db[q])) <= Macs(db[q])
      {
        AgedKeeps(db[q], q);
      }
  }

  lemma FreeSweepAges(db: Ports)
    requires Inv(db) && ZeroFree(db)
    ensures SweepAll(db) == UpdateTtl(db)
  {
    assert forall p, z :: 1 <= p <= PORT_NUMBER && 0 <= z < |db[p]| ==> db[p][z].Mac() in Macs(db[p]);
    SweepExactly(db);
  }

  /** As long as nobody files a MAC of zeros on a scanned port, the runs are those with ageing for a sweep. */
  lemma {:induction false} RunsAlike(db: Ports, ops: seq<Op>)
    requires Inv(db) && ZeroFree(db) && forall op :: op in ops ==> !FilesZero(op)
    ensures RunAsWritten(db, ops) == Run(db, ops)
    decreases |ops|
  {
    if ops != [] {
      var next := FirstAlike(db, ops);
      RunsAlike(next, ops[1..]);
    }
  }

  lemma FirstAlike(db: Ports, ops: seq<Op>) returns (next: Ports)
    requires Inv(db) && ZeroFree(db) && ops != [] && forall op :: op in ops ==> !FilesZero(op)
    ensures Inv(next) && ZeroFree(next)
    ensures RunAsWritten(db, ops) == RunAsWritten(next, ops[1..]) && Run(db, ops) == Run(next, ops[1..])
  {
    FreeSweepAges(db);
    StepKeepsInv(db, ops[0]);
    StepKeepsZeroFree(db, ops[0]);
    next := Step(db, ops[0]);
  }

  /** In the database as it is written, a reported device that is not heard of again survives two sweeps, but not the third. */
  lemma LifetimeAsWritten(db: Ports, port: nat, entry: Entry, ops: seq<Op>)
    requires Inv(db) && ZeroFree(db) && Insert(db, port, entry).1 == Ok && port != 0 && entry.mac != ZERO_MAC
    requires Untouched(ops, entry.mac) && forall op :: op in ops ==> !FilesZero(op)
    ensures Lookup(RunAsWritten(Insert(db, port, entry).0, ops), entry.mac)
            == if Ticks(ops) <= 2 then Some(Neighbour(entry, port, 2 - Ticks(ops))) else None
  {
    StepKeepsInv(db, OpInsert(port, entry));
    StepKeepsZeroFree(db, OpInsert(port, entry));
    RunsAlike(Insert(db, port, entry).0, ops);
    Lifetime(db, port, entry, ops);
  }

  /** The database with one neighbour on port 1, reported some sweeps ago. */
  function Alone(a: Entry, ttl: nat): Ports {
    seq(PORT_NUMBER + 1, q requires 0 <= q => if q == 1 then [Neighbour(a, 1, ttl)] else [])
  }

  lemma AloneStep(a: Entry, ttl: nat)
    requires a.mac != ZERO_MAC && 0 < ttl <= UPDATE_TTL
    ensures Inv(Alone(a, ttl)) && ZeroFree(Alone(a, ttl)) && SweepAll(Alone(a, ttl)) == Alone(a, ttl - 1)
  {
    var db := Alone(a, ttl);
    FreeSweepAges(db);
    forall q | 0 <= q <= PORT_NUMBER
      ensures UpdateTtl(db)[q] == Alone(a, ttl - 1)[q]
    {
      if q == 1 {
        assert db[1][1..] == [];
      }
    }
    SameLists(UpdateTtl(db), Alone(a, ttl - 1));
  }

  /** After an entry has expired on port 1 and another with a MAC of zeros has been filed on port 2. */
  function Both(a: Entry, z: Entry): Ports {
    Alone(a, 0)[2 := [Neighbour(z, 2, UPDATE_TTL)]]
  }

  lemma RunFirst(db: Ports, op: Op, rest: seq<Op>, next: Ports)
    requires next == StepAsWritten(db, op)
    ensures RunAsWritten(db, [op] + rest) == RunAsWritten(next, rest)
  {
    assert ([op] + rest)[1..] == rest;
  }

  lemma BothFiled(a: Entry, z: Entry)
    ensures Step(Empty(), OpInsert(1, a)) == Alone(a, 2)
    ensures a.mac != ZERO_MAC && z.mac == ZERO_MAC ==> Step(Alone(a, 0), OpInsert(2, z)) == Both(a, z)
  {
    SameLists(Step(Empty(), OpInsert(1, a)), Alone(a, 2));
    SameLists(Step(Alone(a, 0), OpInsert(2, z)), Both(a, z));
  }

  lemma BothReached(a: Entry, z: Entry)
    requires a.mac != ZERO_MAC && z.mac == ZERO_MAC
    ensures RunAsWritten(Empty(), [OpInsert(1, a), OpTick, OpTick, OpInsert(2, z)]) == Both(a, z)
  {
    var o1, o4 := OpInsert(1, a), OpInsert(2, z);
    BothFiled(a, z);
    AloneStep(a, 2);
    AloneStep(a, 1);
    RunFirst(Empty(), o1, [OpTick] + ([OpTick] + ([o4] + [])), Alone(a, 2));
    RunFirst(Alone(a, 2), OpTick, [OpTick] + ([o4] + []), Alone(a, 1));
    RunFirst(Alone(a, 1), OpTick, [o4] + [], Alone(a, 0));
    RunFirst(Alone(a, 0), o4, [], Both(a, z));
    assert [o1] + ([OpTick] + ([OpTick] + ([o4] + []))) == [o1, OpTick, OpTick, o4];
  }

  lemma FiredOnOne(a: Entry, z: Entry)
    ensures FiredBefore(Both(a, z)[1..], 1)
  {
    var lists := Both(a, z)[1..];
    assert lists[0] == [Neighbour(a, 1, 0)];
    assert Neighbour(a, 1, 0) in lists[0];
    assert AnyExpired(lists[0]);
  }

  /** A reachable database in which the next sweep takes a neighbour that was reported just now. */
  lemma ZeroSuffers(a: Entry, z: Entry)
    requires a.mac != ZERO_MAC && z.mac == ZERO_MAC
    ensures var db := RunAsWritten(Empty(), [OpInsert(1, a), OpTick, OpTick, OpInsert(2, z)]);
            Lookup(db, ZERO_MAC) == Some(Neighbour(z, 2, UPDATE_TTL)) && SweepAll(db) != UpdateTtl(db)
  {
    var db := Both(a, z);
    BothReached(a, z);
    RunAsWrittenKeepsInv(Empty(), [OpInsert(1, a), OpTick, OpTick, OpInsert(2, z)]);
    assert db[2][0] in db[2];
    LookupFinds(db, Neighbour(z, 2, UPDATE_TTL));
    SweepExactly(db);
    FiredOnOne(a, z);
  }

  lemma StepsAsWritten(db: Ports, op: Op)
    ensures StepAsWritten(db, op) == if op.OpTick? then SweepAll(db) else Step(db, op)
    ensures RunAsWritten(db, [op]) == StepAsWritten(db, op) && Run(db, [op]) == Step(db, op)
  {
    assert [op][1..] == [];
  }
}
