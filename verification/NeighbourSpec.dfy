/** The neighbour database as a value: one sequence of neighbours per switch port. */
module NeighbourSpec {
  import opened Bytes

  const PORT_NUMBER := 12
  const UPDATE_TTL := 2
  const MAX_ENTRY := 5

  type Mac = seq<byte>

  datatype EntryFields = EntryFields(
    name: seq<byte>, category: seq<byte>, fwVersion: seq<byte>, mac: Mac, sysName: seq<byte>,
    ipv4: seq<byte>, mask: seq<byte>, ipv6: seq<byte>, portBitmap: seq<byte>)
  {
    predicate WellSized() {
      && |name| == 64 && |category| == 32 && |fwVersion| == 32 && |mac| == 6 && |sysName| == 64
      && |ipv4| == 4 && |mask| == 4 && |ipv6| == 16 && |portBitmap| == 8
    }
  }

  const ZERO_ENTRY := EntryFields(Zeros(64), Zeros(32), Zeros(32), Zeros(6), Zeros(64), Zeros(4), Zeros(4), Zeros(16), Zeros(8))

  type Entry = e: EntryFields | e.WellSized() witness ZERO_ENTRY

  datatype Neighbour = Neighbour(entry: Entry, inIf: nat, ttl: nat) {
    function Mac(): Mac { entry.mac }
  }

  function RemoveAt<T>(s: seq<T>, k: nat): (r: seq<T>)
    requires k < |s|
    ensures |r| == |s| - 1
    ensures forall i {:trigger r[i]} :: 0 <= i < k ==> r[i] == s[i]
    ensures forall i {:trigger r[i]} :: k <= i < |r| ==> r[i] == s[i + 1]
  {
    s[..k] + s[k + 1..]
  }

  lemma SplitStep<T>(a: seq<T>, b: seq<T>, x: T)
    requires b != []
    ensures RemoveAt(a + b, |a|) == a + b[1..]
    ensures (a + b)[|a| := x] == (a + [x]) + b[1..]
  {
  }

  ghost predicate Distinct(s: seq<Neighbour>) {
    forall i, j :: 0 <= i < j < |s| ==> s[i].Mac() != s[j].Mac()
  }

  /** `after` is `before` without the element at `hit`, the only one with the MAC; `hit` is -1 when none has it. */
  ghost predicate Removed(before: seq<Neighbour>, after: seq<Neighbour>, mac: Mac, hit: int) {
    && -1 <= hit < |before|
    && (forall i :: 0 <= i < |before| && i != hit ==> before[i].Mac() != mac)
    && (hit == -1 ==> after == before)
    && (hit != -1 ==> before[hit].Mac() == mac && after == RemoveAt(before, hit))
  }

  // ---------------------------------------------------------------------------------------------------------------
  // Operations on one list
  // ---------------------------------------------------------------------------------------------------------------

  /** The list without the neighbours that carry the MAC. */
  function Without(s: seq<Neighbour>, mac: Mac): (r: seq<Neighbour>)
    ensures |r| <= |s|
  {
    if s == [] then [] else (if s[0].Mac() == mac then [] else [s[0]]) + Without(s[1..], mac)
  }

  lemma {:induction false} RemovedIsWithout(before: seq<Neighbour>, after: seq<Neighbour>, mac: Mac, hit: int)
    requires Removed(before, after, mac, hit)
    ensures after == Without(before, mac)
  {
    if before != [] {
      if hit == 0 {
        RemovedIsWithout(before[1..], before[1..], mac, -1);
      } else {
        RemovedIsWithout(before[1..], after[1..], mac, if hit == -1 then -1 else hit - 1);
      }
    }
  }

  const ZERO_MAC: Mac := Zeros(6)

  /** Of what stands beside the neighbours of s, the part beside those that do not carry the MAC. */
  function Kept<T>(s: seq<Neighbour>, ts: seq<T>, mac: Mac): (r: seq<T>)
    requires |ts| == |s|
  {
    if s == [] then [] else (if s[0].Mac() == mac then [] else [ts[0]]) + Kept(s[1..], ts[1..], mac)
  }

  lemma {:induction false} KeptIsWithout(s: seq<Neighbour>, mac: Mac)
    ensures Kept(s, s, mac) == Without(s, mac)
  {
    if s != [] {
      KeptIsWithout(s[1..], mac);
    }
  }

  /**
   * The same for a purge that reads its MAC through a pointer to the neighbour at position i: that neighbour is zeroed when
   * it is unlinked, and what comes behind it is compared with a MAC of zeros. An i of -1 is a neighbour elsewhere.
   */
  function Through<T>(s: seq<Neighbour>, ts: seq<T>, i: int, mac: Mac): (r: seq<T>)
    requires |ts| == |s| && -1 <= i < |s|
  {
    if i < 0 then Kept(s, ts, mac) else Kept(s[..i], ts[..i], mac) + Kept(s[i + 1..], ts[i + 1..], ZERO_MAC)
  }

  /** One step of such a purge. */
  lemma ThroughStep<T>(s: seq<Neighbour>, ts: seq<T>, i: int, mac: Mac)
    requires |ts| == |s| && s != [] && -1 <= i < |s|
    ensures i == 0 ==> Through(s, ts, i, mac) == Through(s[1..], ts[1..], -1, ZERO_MAC)
    ensures i != 0 ==> var j := if i < 0 then -1 else i - 1;
                       Through(s, ts, i, mac)
                       == (if s[0].Mac() == mac then [] else [ts[0]]) + Through(s[1..], ts[1..], j, mac)
  {
    if i > 0 {
      assert s[..i][1..] == s[1..][..i - 1] && ts[..i][1..] == ts[1..][..i - 1];
      assert s[i + 1..] == s[1..][i..] && ts[i + 1..] == ts[1..][i..];
    }
  }

  function Younger(n: Neighbour): Neighbour
    requires n.ttl > 0
  {
    n.(ttl := n.ttl - 1)
  }

  /** One TTL sweep: entries that ran out go, the others lose one. */
  function Aged(s: seq<Neighbour>): (r: seq<Neighbour>)
    ensures |r| <= |s|
  {
    if s == [] then []
    else if s[0].ttl == 0 || s[0].ttl > UPDATE_TTL then Aged(s[1..])
    else [Younger(s[0])] + Aged(s[1..])
  }

  // ---------------------------------------------------------------------------------------------------------------
  // Operations on the whole database: lists 0 to 12, of which the scans visit 1 to 12
  // ---------------------------------------------------------------------------------------------------------------

  type Ports = db: seq<seq<Neighbour>> | |db| == PORT_NUMBER + 1 witness seq(PORT_NUMBER + 1, _ => [])

  datatype Code = Ok | ErrorInsertNode | ErrorMaxNodePerPkt | ErrorParameter

  function Empty(): Ports {
    seq(PORT_NUMBER + 1, _ => [])
  }

  function PurgeFromDb(db: Ports, mac: Mac): Ports {
    seq(PORT_NUMBER + 1, p requires 0 <= p <= PORT_NUMBER => if p == 0 then db[p] else Without(db[p], mac))
  }

  /**
   * What becomes of the lists in a purge through a pointer to the neighbour at position i of list p. A p of 0 is a pointer
   * to a neighbour that is in no list any more.
   */
  function ThroughLists<T>(db: Ports, ts: seq<seq<T>>, p: nat, i: nat): (r: seq<seq<T>>)
    requires |ts| == |db| && forall q :: 0 <= q <= PORT_NUMBER ==> |ts[q]| == |db[q]|
    requires p <= PORT_NUMBER && (p > 0 ==> i < |db[p]|)
    ensures |r| == |db|
  {
    seq(PORT_NUMBER + 1, q requires 0 <= q <= PORT_NUMBER =>
      if q == 0 then ts[q]
      else if q < p then Kept(db[q], ts[q], db[p][i].Mac())
      else if q == p then Through(db[p], ts[p], i, db[p][i].Mac())
      else Kept(db[q], ts[q], ZERO_MAC))
  }

  function PurgeThrough(db: Ports, p: nat, i: nat): Ports
    requires p <= PORT_NUMBER && (p > 0 ==> i < |db[p]|)
  {
    ThroughLists(db, db, p, i)
  }

  function UpdateTtl(db: Ports): Ports {
    seq(PORT_NUMBER + 1, p requires 0 <= p <= PORT_NUMBER => if p == 0 then db[p] else Aged(db[p]))
  }

  function Insert(db: Ports, port: nat, entry: Entry): (Ports, Code) {
    if port > PORT_NUMBER then (db, ErrorInsertNode)
    else
      var purged := PurgeFromDb(db, entry.mac);
      if |purged[port]| > MAX_ENTRY then (purged, ErrorMaxNodePerPkt)
      else (purged[port := purged[port] + [Neighbour(entry, port, UPDATE_TTL)]], Ok)
  }

  ghost function Macs(s: seq<Neighbour>): set<Mac> {
    set n | n in s :: n.Mac()
  }

  /** No MAC occurs twice in the lists from `low` to 12. */
  ghost predicate UniqueFrom(db: Ports, low: nat) {
    && (forall p :: low <= p <= PORT_NUMBER ==> Distinct(db[p]))
    && (forall p, q :: low <= p < q <= PORT_NUMBER ==> Macs(db[p]) !! Macs(db[q]))
  }

  /** At most six neighbours a list, filed under their own port, with a TTL of 0, 1 or 2. */
  ghost predicate Bounded(db: Ports) {
    && (forall p :: 0 <= p <= PORT_NUMBER ==> |db[p]| <= MAX_ENTRY + 1)
    && (forall p, i :: 0 <= p <= PORT_NUMBER && 0 <= i < |db[p]| ==> db[p][i].inIf == p && db[p][i].ttl <= UPDATE_TTL)
  }

  ghost predicate Inv(db: Ports) {
    UniqueFrom(db, 1) && Bounded(db)
  }
}
