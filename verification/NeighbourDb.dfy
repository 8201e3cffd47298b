/**
 * The neighbour database of the switch: thirteen port lists, of which the scans visit 1 to 12. Every method is tied to
 * the operation of the same name on values.
 */
module NeighbourDb {
  import Spec = NeighbourSpec
  import opened NeighbourSpec
  import opened NeighbourList
  import Runs = NeighbourRuns
  import Sweep = NeighbourSweep

  /** The lists 1 to p - 1 are purged, where `hits` says, and the others are as they were. */
  ghost predicate PurgedTo(p: nat, mac: Mac, hits: seq<int>, v0: Ports, v: Ports) {
    && 1 <= p == |hits| <= PORT_NUMBER + 1 && v[0] == v0[0]
    && (forall q :: p <= q <= PORT_NUMBER ==> v[q] == v0[q])
    && (forall q :: 1 <= q < p ==> Removed(v0[q], v[q], mac, hits[q]))
  }

  lemma PurgedNext(p: nat, mac: Mac, hits: seq<int>, v0: Ports, v: Ports, s: seq<Neighbour>, hit: int)
    requires PurgedTo(p, mac, hits, v0, v) && p <= PORT_NUMBER && Removed(v[p], s, mac, hit)
    ensures PurgedTo(p + 1, mac, hits + [hit], v0, v[p := s])
  {
  }

  /** In a purge through a pointer, the lists 0 to q - 1 are done and the others are as they were. */
  ghost predicate ThroughTo(q: nat, p: nat, i: nat, v0: Ports, v: Ports, c0: seq<seq<Node>>, c: seq<seq<Node>>)
    requires |c0| == |v0| && forall r :: 0 <= r <= PORT_NUMBER ==> |c0[r]| == |v0[r]|
    requires p <= PORT_NUMBER && (p > 0 ==> i < |v0[p]|)
  {
    && |c| == |c0| && 1 <= q <= PORT_NUMBER + 1
    && (forall r :: 0 <= r < q ==> v[r] == Spec.PurgeThrough(v0, p, i)[r] && c[r] == ThroughLists(v0, c0, p, i)[r])
    && (forall r :: q <= r <= PORT_NUMBER ==> v[r] == v0[r] && c[r] == c0[r])
  }

  lemma ThroughNext(q: nat, p: nat, i: nat, mac: Mac, v0: Ports, v: Ports, c0: seq<seq<Node>>, c: seq<seq<Node>>)
    requires |c0| == |v0| && forall r :: 0 <= r <= PORT_NUMBER ==> |c0[r]| == |v0[r]|
    requires p <= PORT_NUMBER && (p > 0 ==> i < |v0[p]|)
    requires ThroughTo(q, p, i, v0, v, c0, c) && q <= PORT_NUMBER
    requires mac == if q <= p then v0[p][i].Mac() else ZERO_MAC
    ensures var j := if q == p then i else -1;
            ThroughTo(q + 1, p, i, v0, v[q := Through(v[q], v[q], j, mac)], c0, c[q := Through(v[q], c[q], j, mac)])
  {
  }

  class Database {
    const lists: seq<PortList>            // the array of list records, allocated once
    ghost var view: Ports                 // what the lists store
    ghost var chains: seq<seq<Node>>      // the nodes of each list, in list order
    ghost var Repr: set<object>

    ghost predicate Shape()
      reads this, Repr
    {
      && this in Repr
      && |lists| == |chains| == PORT_NUMBER + 1
      && (forall p :: 0 <= p <= PORT_NUMBER ==> lists[p] in Repr && lists[p].port == p)
      && (forall p, i :: 0 <= p <= PORT_NUMBER && 0 <= i < |chains[p]| ==> chains[p][i] in Repr)
      && (forall p :: 0 <= p <= PORT_NUMBER ==> lists[p].nodes == chains[p] && lists[p].contents == view[p])
      && (forall p :: 0 <= p <= PORT_NUMBER ==> lists[p].Valid())
    }

    /** The same while list p runs ahead of what is recorded of it. */
    ghost predicate ShapeBut(p: nat)
      reads this, Repr
    {
      && this in Repr
      && |lists| == |chains| == PORT_NUMBER + 1 && p <= PORT_NUMBER
      && (forall q :: 0 <= q <= PORT_NUMBER ==> lists[q] in Repr && lists[q].port == q)
      && (forall q, i :: 0 <= q <= PORT_NUMBER && q != p && 0 <= i < |chains[q]| ==> chains[q][i] in Repr)
      && (forall i :: 0 <= i < |lists[p].nodes| ==> lists[p].nodes[i] in Repr)
      && (forall q :: 0 <= q <= PORT_NUMBER && q != p ==> lists[q].nodes == chains[q] && lists[q].contents == view[q])
      && (forall q :: 0 <= q <= PORT_NUMBER && q != p ==> lists[q].Valid())
      && lists[p].Valid()
    }

    ghost predicate Valid()
      reads this, Repr
    {
      Shape() && Inv(view)
    }

    /** Records what list p has come to. */
    ghost method Record(p: nat)
      requires ShapeBut(p)
      modifies this`view, this`chains
      ensures Shape()
      ensures view == old(view)[p := lists[p].contents] && chains == old(chains)[p := lists[p].nodes]
    {
      view := view[p := lists[p].contents];
      chains := chains[p := lists[p].nodes];
    }

    lemma At(p: nat, i: nat)
      requires Shape() && p <= PORT_NUMBER && i < |chains[p]|
      ensures |view[p]| == |chains[p]| && chains[p][i].entry == view[p][i].entry
      ensures chains[p][i].next == if i + 1 < |chains[p]| then chains[p][i + 1] else null
    {
      assert chains[p][i] == lists[p].nodes[i] && view[p][i] == lists[p].contents[i];
    }

    static method FreshLists() returns (all: seq<PortList>)
      ensures |all| == PORT_NUMBER + 1
      ensures forall q :: 0 <= q <= PORT_NUMBER ==> fresh(all[q]) && all[q].Valid() && all[q].port == q
      ensures forall q :: 0 <= q <= PORT_NUMBER ==> all[q].contents == [] && all[q].nodes == []
    {
      all := [];
      for p := 0 to PORT_NUMBER + 1
        invariant |all| == p
        invariant forall q :: 0 <= q < p ==> fresh(all[q]) && all[q].Valid() && all[q].port == q
        invariant forall q :: 0 <= q < p ==> all[q].contents == [] && all[q].nodes == []
      {
        var list := new PortList(p);
        all := all + [list];
      }
    }

    constructor ()
      ensures Valid() && fresh(Repr)
      ensures view == Empty()
    {
      var all := FreshLists();
      lists := all;
      view := Empty();
      chains := seq(PORT_NUMBER + 1, _ => []);
      Repr := {this} + (set q | 0 <= q < |all| :: all[q]);
    }

    /** What changes list p and its nodes alone leaves the other twelve lists in shape. */
    twostate lemma OthersKeep(p: nat)
      requires old(Shape()) && p <= PORT_NUMBER && unchanged(this)
      requires unchanged(Repr - {lists[p]} - (set n | n in old(lists[p].nodes)))
      requires lists[p].Valid() && forall n :: n in lists[p].nodes ==> n in Repr
      ensures ShapeBut(p)
    {
      forall q | 0 <= q <= PORT_NUMBER && q != p
        ensures unchanged(lists[q]) && lists[q].Valid()
      {
        assert forall n :: n in lists[q].nodes ==> n.inIf == q;
        assert unchanged(lists[q].nodes);
      }
    }

    /** One list's share of a purge, and that it leaves the other twelve lists alone. */
    method PurgeOne(p: nat, mac: Mac) returns (ghost hit: int)
      requires Shape() && p <= PORT_NUMBER && Distinct(view[p])
      modifies Repr
      ensures unchanged(this) && ShapeBut(p)
      ensures Removed(view[p], lists[p].contents, mac, hit)
    {
      hit := lists[p].PurgeMac(mac);
      OthersKeep(p);
    }

    method PurgeList(p: nat, mac: Mac) returns (ghost hit: int)
      requires Shape() && p <= PORT_NUMBER && Distinct(view[p])
      modifies Repr
      ensures Shape() && Repr == old(Repr)
      ensures view == old(view)[p := view[p]] && Removed(old(view)[p], view[p], mac, hit)
    {
      hit := PurgeOne(p, mac);
      Record(p);
    }

    /** One list's share of an insertion's search. */
    method FindOne(p: nat, mac: Mac) returns (found: bool, ghost hit: int)
      requires Shape() && p <= PORT_NUMBER && Distinct(view[p])
      modifies Repr
      ensures unchanged(this) && ShapeBut(p)
      ensures Removed(view[p], lists[p].contents, mac, hit) && (found <==> hit != -1)
    {
      found, hit := lists[p].PurgeFirst(mac);
      OthersKeep(p);
    }

    method FindList(p: nat, mac: Mac) returns (found: bool, ghost hit: int)
      requires Shape() && p <= PORT_NUMBER && Distinct(view[p])
      modifies Repr
      ensures Shape() && Repr == old(Repr)
      ensures view == old(view)[p := view[p]] && Removed(old(view)[p], view[p], mac, hit)
      ensures found <==> hit != -1
    {
      found, hit := FindOne(p, mac);
      Record(p);
    }

    /** One list's share of an insertion. */
    method AppendOne(p: nat, node: Node)
      requires Shape() && p <= PORT_NUMBER
      requires node !in Repr && node.inIf == p && node.ttl == UPDATE_TTL
      modifies Repr, node
      ensures unchanged(this`view, this`chains) && Repr == old(Repr) + {node} && ShapeBut(p)
      ensures lists[p].contents == view[p] + [Neighbour(old(node.entry), p, UPDATE_TTL)]
      ensures lists[p].nodes == chains[p] + [node]
    {
      lists[p].Append(node);
      Repr := Repr + {node};
    }

    method AppendList(p: nat, node: Node)
      requires Shape() && p <= PORT_NUMBER
      requires node !in Repr && node.inIf == p && node.ttl == UPDATE_TTL
      modifies Repr, node
      ensures Shape() && Repr == old(Repr) + {node}
      ensures view == old(view)[p := old(view)[p] + [Neighbour(old(node.entry), p, UPDATE_TTL)]]
    {
      AppendOne(p, node);
      Record(p);
    }

    /** Purges the MAC from the lists 1 to 12. */
    method PurgeFromDb(mac: Mac)
      requires Valid()
      modifies Repr
      ensures Valid() && Repr == old(Repr)
      ensures view == Spec.PurgeFromDb(old(view), mac)
    {
      ghost var v0, hits := view, [-1];
      for p := 1 to PORT_NUMBER + 1
        invariant Shape() && Repr == old(Repr)
        invariant PurgedTo(p, mac, hits, v0, view)
      {
        ghost var v := view;
        ghost var hit := PurgeList(p, mac);
        PurgedNext(p, mac, hits, v0, v, view[p], hit);
        hits := hits + [hit];
      }
      Runs.PurgedLists(v0, view, mac, hits);
      Runs.PurgeKeepsInv(v0, mac);
    }

    /** One list's share of a purge through a pointer. */
    method PurgeOneBy(q: nat, at: Node, ghost j: int)
      requires Shape() && q <= PORT_NUMBER && -1 <= j < |chains[q]| && (if j < 0 then at !in chains[q] else chains[q][j] == at)
      modifies Repr
      ensures unchanged(this) && ShapeBut(q)
      ensures |chains[q]| == |view[q]| && lists[q].contents == Through(view[q], view[q], j, old(at.entry.mac))
      ensures lists[q].nodes == Through(view[q], chains[q], j, old(at.entry.mac))
      ensures if j >= 0 then at.Cleared() else unchanged(at)
      ensures forall n :: n in chains[q] ==> n in lists[q].nodes || n.Cleared()
      ensures forall n: Node :: n in Repr && n !in chains[q] && old(n.Cleared()) ==> n.Cleared()
    {
      lists[q].PurgeBy(at, j);
      OthersKeep(q);
    }

    method PurgeListBy(q: nat, at: Node, ghost j: int)
      requires Shape() && q <= PORT_NUMBER && -1 <= j < |chains[q]| && (if j < 0 then at !in chains[q] else chains[q][j] == at)
      modifies Repr
      ensures Shape() && Repr == old(Repr) && |old(chains)[q]| == |old(view)[q]|
      ensures view == old(view)[q := Through(old(view)[q], old(view)[q], j, old(at.entry.mac))]
      ensures chains == old(chains)[q := Through(old(view)[q], old(chains)[q], j, old(at.entry.mac))]
      ensures if j >= 0 then at.Cleared() else unchanged(at)
      ensures forall n :: n in old(chains)[q] ==> n in chains[q] || n.Cleared()
      ensures forall n: Node :: n in Repr && n !in old(chains)[q] && old(n.Cleared()) ==> n.Cleared()
    {
      PurgeOneBy(q, at, j);
      Record(q);
    }

    /** Where the node of a purge through a pointer is, and what it stores: the i-th of list p, or nowhere any more. */
    ghost predicate PointsTo(at: Node, p: nat, i: nat)
      reads this, at
    {
      |chains| == PORT_NUMBER + 1 && p <= PORT_NUMBER && if p == 0 then at.Cleared() else i < |chains[p]| && chains[p][i] == at
    }

    /** A node of list p is in no other, and one that is cleared is in none of those scanned. */
    lemma Stored(at: Node, p: nat, i: nat, q: nat)
      requires Shape() && PointsTo(at, p, i) && 1 <= q <= PORT_NUMBER
      ensures q != p ==> at !in chains[q]
      ensures p > 0 ==> i < |view[p]| && at.entry == view[p][i].entry
      ensures forall n :: n in chains[q] ==> !n.Cleared()
    {
      assert forall n :: n in lists[q].nodes ==> n.inIf == q;
      if p > 0 {
        assert lists[p].nodes[i] == at && lists[p].contents[i] == view[p][i];
      }
    }

    /** The purge for a MAC that stands in the node pointed to, the i-th of list p; a p of 0 is a node that is gone. */
    method PurgeThrough(at: Node, ghost p: nat, ghost i: nat)
      requires Valid() && PointsTo(at, p, i)
      modifies Repr
      ensures Shape() && Repr == old(Repr) && forall r :: 0 <= r <= PORT_NUMBER ==> |old(chains)[r]| == |old(view)[r]|
      ensures p > 0 ==> i < |old(view)[p]|
      ensures view == Spec.PurgeThrough(old(view), p, i) && chains == ThroughLists(old(view), old(chains), p, i)
      ensures at.Cleared() && (p > 0 ==> AllGone(p, old(chains)))
    {
      ghost var v0, c0 := view, chains;
      SameLengths();
      for q := 1 to PORT_NUMBER + 1
        invariant Shape() && Repr == old(Repr)
        invariant ThroughTo(q, p, i, v0, view, c0, chains)
        invariant if q <= p then PointsTo(at, p, i) else at.Cleared()
        invariant 0 < p < q ==> AllGone(p, c0)
      {
        PurgeOneThrough(q, at, p, i, v0, c0);
      }
    }

    /** What has left list p is cleared. */
    ghost predicate AllGone(p: nat, c0: seq<seq<Node>>)
      reads this, Repr
    {
      && |chains| == |c0| && p < |c0|
      && forall k :: 0 <= k < |c0[p]| ==> c0[p][k] in Repr && (c0[p][k] in chains[p] || c0[p][k].Cleared())
    }

    /** One list of such a purge. */
    method PurgeOneThrough(q: nat, at: Node, ghost p: nat, ghost i: nat, ghost v0: Ports, ghost c0: seq<seq<Node>>)
      requires Shape() && 1 <= q <= PORT_NUMBER
      requires |c0| == |v0| && forall r :: 0 <= r <= PORT_NUMBER ==> |c0[r]| == |v0[r]|
      requires p <= PORT_NUMBER && (p > 0 ==> i < |v0[p]|)
      requires ThroughTo(q, p, i, v0, view, c0, chains)
      requires if q <= p then PointsTo(at, p, i) else at.Cleared()
      requires 0 < p < q ==> AllGone(p, c0)
      modifies Repr
      ensures Shape() && Repr == old(Repr)
      ensures ThroughTo(q + 1, p, i, v0, view, c0, chains)
      ensures if q + 1 <= p then PointsTo(at, p, i) else at.Cleared()
      ensures 0 < p <= q ==> AllGone(p, c0)
    {
      ghost var v, c, mac := view, chains, at.entry.mac;
      Stored(at, if q <= p then p else 0, i, q);
      ThroughNext(q, p, i, mac, v0, v, c0, c);
      PurgeListBy(q, at, if q == p then i else -1);
    }

    /** The insertion's search over the lists 1 to 12, which the first match ends. */
    method PurgeForInsert(mac: Mac)
      requires Valid()
      modifies Repr
      ensures Valid() && Repr == old(Repr)
      ensures view == Spec.PurgeFromDb(old(view), mac)
    {
      ghost var before := view;
      var found := false;
      var p := 1;
      while p <= PORT_NUMBER && !found
        invariant 1 <= p <= PORT_NUMBER + 1
        invariant Shape() && Repr == old(Repr)
        invariant if found then view == Spec.PurgeFromDb(before, mac)
                  else view == before && forall q :: 1 <= q < p ==> mac !in Macs(before[q])
        decreases PORT_NUMBER + 1 - p
      {
        ghost var hit;
        found, hit := FindList(p, mac);
        Runs.PurgeOneList(before, p, view[p], mac, hit);
        p := p + 1;
      }
      if !found {
        Runs.PurgeAbsent(before, mac);
      }
      Runs.PurgeKeepsInv(before, mac);
    }

    /**
     * Files an entry received on `port`: it is unlinked from wherever it was and appended to the port's list, unless
     * that list still holds more than five entries.
     */
    method Insert(port: nat, entry: Entry) returns (code: Code)
      requires Valid()
      modifies Repr
      ensures Valid() && fresh(Repr - old(Repr))
      ensures (view, code) == Spec.Insert(old(view), port, entry)
    {
      if port > PORT_NUMBER {
        return ErrorInsertNode;
      }
      var node := new Node(entry, port);
      if lists[port].totalNodes == 0 && lists[port].first != null {
        assert false;    // the recovery branch for an invalid count is dead
      }
      Runs.InsertKeepsInv(view, port, entry);
      PurgeForInsert(entry.mac);
      if lists[port].totalNodes > MAX_ENTRY {
        return ErrorMaxNodePerPkt;
      }
      AppendList(port, node);
      code := Ok;
    }

    /** One node's share of a sweep. */
    method DecrementOne(ghost p: nat, cur: Node, ghost i: nat)
      requires Shape() && 1 <= p <= PORT_NUMBER && i < |chains[p]| && chains[p][i] == cur && view[p][i].ttl > 0
      modifies Repr
      ensures unchanged(this) && ShapeBut(p)
      ensures lists[p].contents == view[p][i := Younger(view[p][i])] && lists[p].nodes == chains[p]
    {
      cur.ttl := cur.ttl - 1;
      lists[p].contents := lists[p].contents[i := Younger(lists[p].contents[i])];
      OthersKeep(p);
    }

    method DecrementTtl(ghost p: nat, cur: Node, ghost i: nat)
      requires Shape() && 1 <= p <= PORT_NUMBER && i < |chains[p]| && chains[p][i] == cur && view[p][i].ttl > 0
      modifies Repr
      ensures Shape() && Repr == old(Repr) && chains == old(chains)
      ensures view == old(view)[p := old(view)[p][i := Younger(old(view)[p][i])]]
    {
      DecrementOne(p, cur, i);
      Record(p);
      assert chains == old(chains);
    }

    /**
     * What the sweep does to the node under its cursor: the i-th of list p, or, for a p of 0, one that an earlier purge has
     * taken out. Its own purge may run over the whole database, and reads its MAC from the node.
     */
    method AgeNode(cur: Node, ghost p: nat, ghost i: nat)
      requires Valid() && PointsTo(cur, p, i) && (p == 0 ==> Sweep.ZeroFree(view))
      modifies Repr
      ensures Valid() && Repr == old(Repr) && forall q :: 0 <= q <= PORT_NUMBER ==> |old(chains)[q]| == |old(view)[q]|
      ensures p == 0 ==> view == old(view) && chains == old(chains) && cur.Cleared()
      ensures p > 0 ==> i < |old(view)[p]|
      ensures p > 0 && old(view)[p][i].ttl == 0 ==>
                && view == Spec.PurgeThrough(old(view), p, i) && chains == ThroughLists(old(view), old(chains), p, i)
                && AllGone(p, old(chains))
      ensures p > 0 && old(view)[p][i].ttl > 0 ==>
                view == old(view)[p := old(view)[p][i := Younger(old(view)[p][i])]] && chains == old(chains)
    {
      SameLengths();
      if p > 0 {
        assert cur == lists[p].nodes[i] && lists[p].contents[i] == view[p][i];
      }
      if cur.ttl == 0 || cur.ttl > UPDATE_TTL {
        PurgeExpired(cur, p, i);
      } else {
        DecrementTtl(p, cur, i);
        Runs.YoungerKeepsInv(old(view), p, i);
      }
    }

    /** The purge of an expired node, or for one that is in no list any more. */
    method PurgeExpired(cur: Node, ghost p: nat, ghost i: nat)
      requires Valid() && PointsTo(cur, p, i) && (p == 0 ==> Sweep.ZeroFree(view))
      modifies Repr
      ensures Valid() && Repr == old(Repr) && forall q :: 0 <= q <= PORT_NUMBER ==> |old(chains)[q]| == |old(view)[q]|
      ensures p > 0 ==> i < |old(view)[p]|
      ensures if p == 0 then view == old(view) && chains == old(chains)
              else view == Spec.PurgeThrough(old(view), p, i) && chains == ThroughLists(old(view), old(chains), p, i)
      ensures cur.Cleared() && (p > 0 ==> AllGone(p, old(chains)))
    {
      ghost var v, c := view, chains;
      SameLengths();
      Sweep.ThroughBoth(v, c, p, i);
      PurgeThrough(cur, p, i);
    }

    lemma SameLengths()
      requires Shape()
      ensures forall q :: 0 <= q <= PORT_NUMBER ==> |chains[q]| == |view[q]|
    {
      assert forall q :: 0 <= q <= PORT_NUMBER ==> lists[q].nodes == chains[q] && lists[q].contents == view[q];
    }

    /** The cursor in a list seen as what is behind it and what is coming; or on a node that is in no list any more. */
    ghost predicate CursorAt(p: nat, cur: Node?, c: Sweep.Course, kept: seq<Node>, coming: seq<Node>)
      reads this, cur
    {
      && |chains| == PORT_NUMBER + 1 && p <= PORT_NUMBER && |kept| == |c.aged| && |coming| == |c.rest|
      && chains[p] == kept + coming
      && if c.gone then cur != null ==> cur.Cleared() else cur == if coming == [] then null else coming[0]
    }

    /** The sweep of list p is as far as c says, and the cursor with it. */
    ghost predicate Sweeping(before: Ports, p: nat, cur: Node?, c: Sweep.Course, kept: seq<Node>, coming: seq<Node>)
      reads this, Repr, cur
    {
      Valid() && Sweep.Along(before, p, view, c) && CursorAt(p, cur, c, kept, coming)
    }

    /** How far the sweep has still to go. */
    ghost function Ahead(cur: Node?, c: Sweep.Course): nat {
      if cur == null then 0 else if c.gone then 1 else |c.rest| + 2
    }

    /** The nodes of the list after an expired neighbour's purge, and whether the next one is among them. */
    lemma AfterPurge(was: Ports, before: seq<seq<Node>>, p: nat, c: Sweep.Course, kept: seq<Node>, coming: seq<Node>)
      returns (coming': seq<Node>)
      requires Inv(was) && |before| == |was| && forall q :: 0 <= q <= PORT_NUMBER ==> |before[q]| == |was[q]|
      requires 1 <= p <= PORT_NUMBER && was[p] == c.aged + c.rest && before[p] == kept + coming
      requires |kept| == |c.aged| && |coming| == |c.rest| > 0
      requires forall x, y :: 0 <= x < y < |before[p]| ==> before[p][x] != before[p][y]
      ensures |c.aged| < |was[p]| && ThroughLists(was, before, p, |c.aged|)[p] == kept + coming'
      ensures |coming'| == |Without(c.rest[1..], ZERO_MAC)|
      ensures |coming| > 1 ==> if c.rest[1].Mac() == ZERO_MAC then coming[1] !in kept + coming'
                               else coming' != [] && coming'[0] == coming[1]
      ensures |coming| == 1 ==> coming' == []
    {
      var i := |c.aged|;
      coming' := Kept(c.rest[1..], coming[1..], ZERO_MAC);
      assert was[p][i + 1..] == c.rest[1..] && before[p][i + 1..] == coming[1..] && before[p][..i] == kept;
      Sweep.ThroughBeside(was[p], before[p], i);
      Sweep.KeptOf(c.rest[1..], coming[1..], ZERO_MAC);
      assert forall k :: 0 <= k < |coming| ==> coming[k] == before[p][i + k];
      assert forall k :: 0 <= k < |kept| ==> kept[k] == before[p][k];
      if |coming| > 1 {
        Sweep.KeptFront(c.rest[1..], coming[1..], ZERO_MAC);
      }
    }

    /** What the links say of the list under the cursor. */
    lemma ListNodes(p: nat, c: Sweep.Course, kept: seq<Node>, coming: seq<Node>)
      requires Shape() && p <= PORT_NUMBER && chains[p] == kept + coming && |kept| == |c.aged| && |coming| == |c.rest| > 0
      requires view[p] == c.aged + c.rest
      ensures chains[p][|kept|] == coming[0] && view[p][|kept|] == c.rest[0] && coming[0].ttl == c.rest[0].ttl
      ensures coming[0].next == if |coming| > 1 then coming[1] else null
      ensures forall x, y :: 0 <= x < y < |chains[p]| ==> chains[p][x] != chains[p][y]
      ensures forall q :: 0 <= q <= PORT_NUMBER ==> |chains[q]| == |view[q]|
    {
      SameLengths();
      assert lists[p].nodes[|kept|] == coming[0] && lists[p].contents[|kept|] == c.rest[0];
      assert |coming| > 1 ==> lists[p].nodes[|kept| + 1] == coming[1];
    }

    /** What a purge for the node under the cursor will come to. */
    lemma PlanExpired(p: nat, cur: Node, before: Ports, c: Sweep.Course, kept: seq<Node>, coming: seq<Node>)
      returns (d: Sweep.Course, coming': seq<Node>)
      requires Valid() && Sweep.Along(before, p, view, c) && CursorAt(p, cur, c, kept, coming) && !c.gone && c.rest[0].ttl == 0
      ensures PointsTo(cur, p, |kept|) && |kept| < |view[p]| && view[p][|kept|].ttl == 0
      ensures forall q :: 0 <= q <= PORT_NUMBER ==> |chains[q]| == |view[q]|
      ensures Sweep.Along(before, p, Spec.PurgeThrough(view, p, |kept|), d)
      ensures ThroughLists(view, chains, p, |kept|)[p] == kept + coming' && |kept| == |d.aged| && |coming'| == |d.rest| < |c.rest|
      ensures if d.gone then cur.next != null && cur.next in chains[p] && cur.next !in kept + coming'
              else cur.next == if coming' == [] then null else coming'[0]
    {
      ListNodes(p, c, kept, coming);
      coming' := AfterPurge(view, chains, p, c, kept, coming);
      Sweep.AlongPurge(before, p, view, c);
      d := Sweep.AfterPurge(c);
    }

    /** And what counting it down will come to. */
    lemma PlanYounger(p: nat, cur: Node, before: Ports, c: Sweep.Course, kept: seq<Node>, coming: seq<Node>)
      returns (d: Sweep.Course)
      requires Valid() && Sweep.Along(before, p, view, c) && CursorAt(p, cur, c, kept, coming) && !c.gone && c.rest[0].ttl > 0
      ensures PointsTo(cur, p, |kept|) && |kept| < |view[p]| && view[p][|kept|].ttl > 0
      ensures Sweep.Along(before, p, view[p := view[p][|kept| := Younger(view[p][|kept|])]], d)
      ensures chains[p] == (kept + [cur]) + coming[1..] && |kept| + 1 == |d.aged| && |coming| - 1 == |d.rest| == |c.rest| - 1
      ensures !d.gone && cur.next == if coming[1..] == [] then null else coming[1..][0]
    {
      ListNodes(p, c, kept, coming);
      SplitStep(kept, coming, cur);
      Sweep.AlongYounger(before, p, view, c, view[p := view[p][|kept| := Younger(view[p][|kept|])]]);
      d := Sweep.Course(c.aged + [Younger(c.rest[0])], c.rest[1..], false, c.fired);
    }

    /**
     * One round of the sweep. The next pointer is saved before the node under the cursor may go. A node that is in no list
     * any more finds nothing to purge, and its round is the last one.
     */
    method AgeNext(p: nat, cur: Node, ghost before: Ports, ghost c: Sweep.Course, ghost kept: seq<Node>, ghost coming: seq<Node>)
      returns (next: Node?, ghost d: Sweep.Course, ghost kept': seq<Node>, ghost coming': seq<Node>)
      requires Sweeping(before, p, cur, c, kept, coming)
      modifies Repr
      ensures Sweeping(before, p, next, d, kept', coming') && Repr == old(Repr)
      ensures Ahead(next, d) < Ahead(cur, c)
    {
      d, kept', coming' := c, kept, coming;
      if !c.gone {
        if c.rest[0].ttl == 0 {
          d, coming' := PlanExpired(p, cur, before, c, kept, coming);
        } else {
          d := PlanYounger(p, cur, before, c, kept, coming);
          kept', coming' := kept + [cur], coming[1..];
        }
      }
      next := cur.next;
      AgeNode(cur, if c.gone then 0 else p, |kept|);
    }

    /** The sweep over one list. */
    method AgeList(p: nat)
      requires Valid() && 1 <= p <= PORT_NUMBER
      modifies Repr
      ensures Valid() && Repr == old(Repr)
      ensures view == Sweep.Spliced(old(view), p, Sweep.Swept(old(view)[p]).0, Sweep.Swept(old(view)[p]).1)
    {
      ghost var before, c, kept, coming := view, Sweep.Course([], view[p], false, false), [], chains[p];
      Sweep.AlongStarts(before, p);
      SameLengths();
      var cur := lists[p].first;
      while cur != null
        invariant Sweeping(before, p, cur, c, kept, coming) && Repr == old(Repr)
        decreases Ahead(cur, c)
      {
        cur, c, kept, coming := AgeNext(p, cur, before, c, kept, coming);
      }
      Swept(before, p, c, kept, coming);
    }

    lemma Swept(before: Ports, p: nat, c: Sweep.Course, kept: seq<Node>, coming: seq<Node>)
      requires Sweeping(before, p, null, c, kept, coming)
      ensures Valid() && view == Sweep.Spliced(before, p, Sweep.Swept(before[p]).0, Sweep.Swept(before[p]).1)
    {
      Sweep.AlongEnds(before, p, view, c);
    }

    /** One TTL sweep over the lists 1 to 12. */
    method UpdateAllTtl()
      requires Valid()
      modifies Repr
      ensures Valid() && Repr == old(Repr)
      ensures view == Sweep.SweepAll(old(view))
    {
      ghost var done, rest := [view[0]], view[1..];
      for p := 1 to PORT_NUMBER + 1
        invariant Valid() && Repr == old(Repr)
        invariant |done| == p && view == done + rest
        invariant done + Sweep.SweptLists(rest) == Sweep.SweepAll(old(view))
      {
        Sweep.NextList(view, p, done, rest);
        done, rest := done + [Sweep.Swept(rest[0]).0], if Sweep.Swept(rest[0]).1 then Sweep.Purged(rest[1..]) else rest[1..];
        AgeList(p);
      }
    }

    /** Whatever is asked of the database, in whatever order. */
    method Execute(ops: seq<Runs.Op>)
      requires Valid()
      modifies Repr
      ensures Valid() && fresh(Repr - old(Repr))
      ensures view == Sweep.RunAsWritten(old(view), ops)
    {
      for i := 0 to |ops|
        invariant Valid() && fresh(Repr - old(Repr))
        invariant Sweep.RunAsWritten(view, ops[i..]) == Sweep.RunAsWritten(old(view), ops)
      {
        assert ops[i..][0] == ops[i] && ops[i..][1..] == ops[i + 1..];
        Perform(ops[i]);
      }
      assert ops[|ops|..] == [];
    }

    method Perform(op: Runs.Op)
      requires Valid()
      modifies Repr
      ensures Valid() && fresh(Repr - old(Repr))
      ensures view == Sweep.StepAsWritten(old(view), op)
    {
      match op
      case OpInsert(port, entry) =>
        var _ := Insert(port, entry);
      case OpPurge(mac) =>
        PurgeFromDb(mac);
      case OpTick =>
        UpdateAllTtl();
    }
  }
}
