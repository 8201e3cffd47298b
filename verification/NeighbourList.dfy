/** One port's neighbour list: a heap-allocated doubly linked list with first and tail pointers and a count. */
module NeighbourList {
  import opened NeighbourSpec

  class Node {
    var inIf: nat
    var ttl: nat
    var entry: Entry
    var pre: Node?
    var next: Node?

    constructor (entry: Entry, inIf: nat)
      ensures this.entry == entry && this.inIf == inIf && ttl == UPDATE_TTL
    {
      this.entry := entry;
      this.inIf := inIf;
      ttl := UPDATE_TTL;
      pre, next := null, null;
    }

    ghost predicate Cleared()
      reads this
    {
      inIf == 0 && ttl == 0 && entry == ZERO_ENTRY && pre == null && next == null
    }

    /** memset to zero, before the node is freed */
    method Clear()
      modifies this
      ensures Cleared()
    {
      inIf, ttl, entry, pre, next := 0, 0, ZERO_ENTRY, null, null;
    }
  }

  /**
   * How far a purge through a pointer has come: what it has kept, what is coming, and where among that the node pointed to
   * is, or -1.
   */
  datatype Course = Course(kept: seq<Neighbour>, coming: seq<Neighbour>, front: seq<Node>, rest: seq<Node>, j: int)
  {
    ghost predicate Valid() {
      |front| == |kept| && |rest| == |coming| && -1 <= j < |coming|
    }

    /** It will end with these contents and nodes. */
    ghost predicate Yields(mac: Mac, contents: seq<Neighbour>, nodes: seq<Node>) {
      Valid() && kept + Through(coming, coming, j, mac) == contents && front + Through(coming, rest, j, mac) == nodes
    }
  }

  /** A course d is one node further than c; the node under the cursor is gone, or not. */
  ghost predicate Further(c: Course, d: Course, gone: bool) {
    && c.Valid() && d.Valid() && c.rest != [] && d.rest == c.rest[1..]
    && d.kept + d.coming == (if gone then RemoveAt(c.kept + c.coming, |c.kept|) else c.kept + c.coming)
    && d.front + d.rest == (if gone then RemoveAt(c.front + c.rest, |c.front|) else c.front + c.rest)
    && (if c.j <= 0 then d.j < 0 else d.j >= 0 && d.rest[d.j] == c.rest[c.j])
  }

  /** One node further, with this MAC behind the pointer. */
  lemma OneFurther(c: Course, mac: Mac, contents: seq<Neighbour>, nodes: seq<Node>) returns (d: Course)
    requires c.Yields(mac, contents, nodes) && c.coming != [] && (c.j == 0 ==> c.coming[0].Mac() == mac)
    ensures Further(c, d, c.coming[0].Mac() == mac)
    ensures d.Yields(if c.j == 0 then ZERO_MAC else mac, contents, nodes)
  {
    var kept := OneSide(c.coming, c.kept, c.coming, c.j, mac, contents);
    var front := OneSide(c.coming, c.front, c.rest, c.j, mac, nodes);
    d := Course(kept, c.coming[1..], front, c.rest[1..], if c.j <= 0 then -1 else c.j - 1);
  }

  lemma OneSide<T>(s: seq<Neighbour>, front: seq<T>, rest: seq<T>, j: int, mac: Mac, all: seq<T>) returns (front': seq<T>)
    requires |rest| == |s| && s != [] && -1 <= j < |s| && (j == 0 ==> s[0].Mac() == mac)
    requires front + Through(s, rest, j, mac) == all
    ensures |front'| == if s[0].Mac() == mac then |front| else |front| + 1
    ensures front' + rest[1..] == if s[0].Mac() == mac then RemoveAt(front + rest, |front|) else front + rest
    ensures front' + Through(s[1..], rest[1..], if j <= 0 then -1 else j - 1, if j == 0 then ZERO_MAC else mac) == all
  {
    ThroughStep(s, rest, j, mac);
    var more := Through(s[1..], rest[1..], if j <= 0 then -1 else j - 1, if j == 0 then ZERO_MAC else mac);
    if s[0].Mac() == mac {
      front' := front;
      SplitStep(front, rest, rest[0]);
      Joins(front, [], more);
    } else {
      front' := front + [rest[0]];
      Shifts(front, rest);
      Joins(front, [rest[0]], more);
    }
  }

  lemma Shifts<T>(a: seq<T>, b: seq<T>)
    requires b != []
    ensures (a + [b[0]]) + b[1..] == a + b
  {
  }

  lemma StartYields(s: seq<Neighbour>, ns: seq<Node>, i: int, mac: Mac)
    requires |ns| == |s| && -1 <= i < |s|
    ensures Course([], s, [], ns, i).Yields(mac, Through(s, s, i, mac), Through(s, ns, i, mac))
  {
  }

  lemma EndYields(c: Course, mac: Mac, contents: seq<Neighbour>, nodes: seq<Node>)
    requires c.Yields(mac, contents, nodes) && c.rest == []
    ensures c.kept + c.coming == contents && c.front + c.rest == nodes
  {
  }

  lemma Joins<T>(a: seq<T>, b: seq<T>, c: seq<T>)
    ensures a + (b + c) == (a + b) + c && (b == [] ==> a + b == a && b + c == c)
  {
  }

  class PortList {
    var totalNodes: nat
    var first: Node?
    var tail: Node?

    ghost const port: nat
    ghost var nodes: seq<Node>            // the nodes in list order
    ghost var contents: seq<Neighbour>    // what they store

    /** first, tail, next and pre form one acyclic doubly linked list that visits exactly `nodes`. */
    ghost predicate Linked()
      reads this, nodes
    {
      && totalNodes == |nodes|
      && first == (if nodes == [] then null else nodes[0])
      && tail == (if nodes == [] then null else nodes[|nodes| - 1])
      && (forall i, j :: 0 <= i < j < |nodes| ==> nodes[i] != nodes[j])
      && (nodes != [] ==> nodes[|nodes| - 1].next == null && nodes[0].pre == null)
      && (forall i {:trigger nodes[i].next} :: 0 <= i < |nodes| - 1 ==> nodes[i].next == nodes[i + 1])
      && (forall i {:trigger nodes[i].pre} :: 1 <= i < |nodes| ==> nodes[i].pre == nodes[i - 1])
    }

    /** `contents` is what the nodes store. */
    ghost predicate Stores()
      reads this, nodes
    {
      && |nodes| == |contents|
      && (forall i {:trigger contents[i]} :: 0 <= i < |nodes| ==>
            && contents[i].inIf == port
            && nodes[i].entry == contents[i].entry
            && nodes[i].ttl == contents[i].ttl)
    }

    ghost predicate Valid()
      reads this, nodes
    {
      && Linked() && Stores()
      && (forall i :: 0 <= i < |nodes| ==> nodes[i].inIf == port)
    }

    constructor (port: nat)
      ensures Valid() && nodes == [] && contents == [] && this.port == port
    {
      this.port := port;
      totalNodes, first, tail := 0, null, null;
      nodes, contents := [], [];
    }

    /**
     * The unlinking code, which the source has twice word for word, seen from `cur` and its two neighbours alone.
     * The special cases are the source's own, in its order: only node, first node, second node, tail, node before
     * the tail, and then the general relinking.
     */
    method Splice(cur: Node)
      requires first != null && tail != null
      requires cur.pre == null <==> cur == first
      requires cur.next == null <==> cur == tail
      requires cur.pre != null ==> cur.pre.next == cur && cur.pre != cur && cur.pre != cur.next
      requires cur.next != null ==> cur.next.pre == cur && cur.next != cur
      modifies `first, `tail, `totalNodes, cur, cur.pre, cur.next
      ensures old(cur.pre) != null ==> old(cur.pre).next == old(cur.next)
      ensures old(cur.next) != null ==> old(cur.next).pre == old(cur.pre)
      ensures first == if old(cur.pre) == null then old(cur.next) else old(first)
      ensures tail == if old(cur.next) == null then old(cur.pre) else old(tail)
      ensures totalNodes == if old(cur.pre) == null && old(cur.next) == null then 0 else old(totalNodes)
      ensures old(cur.pre) != null ==> old(cur.pre).pre == old(cur.pre.pre)
      ensures old(cur.next) != null ==> old(cur.next).next == old(cur.next.next)
      ensures forall n: Node :: n == old(cur.pre) || n == old(cur.next) ==>
                n.entry == old(n.entry) && n.ttl == old(n.ttl) && n.inIf == old(n.inIf)
    {
      if cur.pre == null && cur.next == null {
        if first != null {
          first.next := null;
          first.pre := null;
        }
        if tail != null {
          tail.next := null;
          tail.pre := null;
        }
        first := null;
        tail := null;
        totalNodes := 0;
        return;
      }
      if first != null {
        if cur == first {
          first.pre := null;
          first := cur.next;
          if first != null {
            first.pre := null;
          }
        }
        if cur.pre == first {
          first.next := cur.next;
          if cur.next != null {
            cur.next.pre := first;
          }
        }
      }
      if tail != null {
        if cur == tail {
          tail.next := null;
          tail := tail.pre;
          if tail != null {
            tail.next := null;
          }
        }
        if cur.next == tail {
          tail.pre := cur.pre;
          if tail.pre != null {
            tail.pre.next := tail;
          }
        }
      }
      if cur.next != null {
        cur.next.pre := cur.pre;
      }
      if cur.pre != null {
        cur.pre.next := cur.next;
      }
    }

    /** Takes `cur` out of the list, zeroes it and frees it; the other nodes keep what they store. */
    method Drop(cur: Node, ghost k: nat)
      requires Linked() && k < |nodes| && nodes[k] == cur
      modifies this, nodes
      ensures Linked() && contents == old(contents) && cur.Cleared()
      ensures nodes == RemoveAt(old(nodes), k)
      ensures forall n: Node :: n in old(nodes) && n != cur ==>
                n.entry == old(n.entry) && n.ttl == old(n.ttl) && n.inIf == old(n.inIf)
    {
      ghost var a, b := cur.pre, cur.next;
      assert a == (if k == 0 then null else nodes[k - 1]) && b == (if k + 1 < |nodes| then nodes[k + 1] else null);
      Splice(cur);
      cur.Clear();
      if totalNodes > 0 {
        totalNodes := totalNodes - 1;
      }
      ghost var after := RemoveAt(nodes, k);
      assert forall i, j :: 0 <= i < j < |after| ==> after[i] != after[j];
      nodes := after;
    }

    method Unlink(cur: Node, ghost k: nat)
      requires Valid() && k < |nodes| && nodes[k] == cur
      modifies this, nodes
      ensures Valid() && cur.Cleared()
      ensures nodes == RemoveAt(old(nodes), k)
      ensures contents == RemoveAt(old(contents), k)
      ensures forall n: Node :: n in old(nodes) && n != cur ==> n.entry == old(n.entry) && n.inIf == old(n.inIf)
    {
      Drop(cur, k);
      contents := RemoveAt(contents, k);
    }

    /** The pointer part of an insertion behind the tail. */
    method Attach(node: Node)
      requires first == null <==> tail == null
      requires node != tail && node != first
      requires first != null && first.next == null ==> first == tail && first.pre == null
      modifies `first, `tail, `totalNodes, node`pre, node`next, tail
      ensures node.next == null && node.pre == old(tail) && tail == node
      ensures old(tail) != null ==> old(tail).next == node && old(tail).pre == old(tail.pre)
      ensures first == if old(first) == null then node else old(first)
      ensures totalNodes == if old(first) == null then 1 else old(totalNodes) + 1
      ensures old(tail) != null ==>
                old(tail).entry == old(tail.entry) && old(tail).ttl == old(tail.ttl) && old(tail).inIf == old(tail.inIf)
    {
      node.next := null;
      if first == null {
        node.pre := null;
        first := node;
        tail := node;
        totalNodes := 1;
      } else {
        node.pre := tail;
        if first.next == null {
          first.next := node;
          first.pre := null;
        }
        tail := node;
        if tail.pre != null {
          tail.pre.next := node;
        }
        totalNodes := totalNodes + 1;
      }
    }

    /** Links a new node in behind the tail. */
    method Append(node: Node)
      requires Valid() && node !in nodes
      requires node.inIf == port && node.ttl == UPDATE_TTL
      modifies this, nodes, node
      ensures Valid()
      ensures nodes == old(nodes) + [node]
      ensures contents == old(contents) + [Neighbour(old(node.entry), port, UPDATE_TTL)]
    {
      Attach(node);
      contents := contents + [Neighbour(node.entry, port, UPDATE_TTL)];
      nodes := nodes + [node];
    }

    /** The purge's inner loop: it scans the whole list and unlinks whatever carries the MAC. */
    method PurgeMac(mac: Mac) returns (ghost hit: int)
      requires Valid() && Distinct(contents)
      modifies this, nodes
      ensures Valid()
      ensures Removed(old(contents), contents, mac, hit)
      ensures nodes == if hit == -1 then old(nodes) else RemoveAt(old(nodes), hit)
    {
      var cur := first;
      ghost var done := 0;      // how many nodes of the old list are behind the cursor
      hit := -1;                // where the MAC was found
      while cur != null
        invariant 0 <= done <= |old(nodes)| && -1 <= hit < done
        invariant Valid()
        invariant forall i :: 0 <= i < done && i != hit ==> old(contents)[i].Mac() != mac
        invariant if hit == -1 then
                    nodes == old(nodes) && contents == old(contents)
                  else
                    && old(contents)[hit].Mac() == mac
                    && nodes == RemoveAt(old(nodes), hit) && contents == RemoveAt(old(contents), hit)
        invariant cur == if done < |old(nodes)| then old(nodes)[done] else null
        decreases |old(nodes)| - done
      {
        ghost var at := if hit == -1 then done else done - 1;
        assert cur == nodes[at] && contents[at] == old(contents)[done];
        var tmp := cur.next;
        if cur.entry.mac == mac {
          Unlink(cur, at);
          hit := done;
        }
        done := done + 1;
        cur := tmp;
      }
    }

    /** One round of the loop below: `cur` goes if it carries the MAC that stands where `at` points. */
    method PurgeOneBy(cur: Node, at: Node, ghost k: nat) returns (next: Node?, gone: bool)
      requires Valid() && k < |nodes| && nodes[k] == cur
      modifies this, nodes
      ensures Valid() && next == old(cur.next)
      ensures gone <==> old(cur.entry.mac) == old(at.entry.mac)
      ensures nodes == if gone then RemoveAt(old(nodes), k) else old(nodes)
      ensures contents == if gone then RemoveAt(old(contents), k) else old(contents)
      ensures if at == cur then at.Cleared() && at !in nodes else at.entry == old(at.entry)
      ensures forall n :: n in nodes ==> n in old(nodes)
      ensures gone ==> cur.Cleared()
    {
      next := cur.next;
      gone := cur.entry.mac == at.entry.mac;
      if gone {
        Unlink(cur, k);
      }
    }

    /** The list is as far as a purge through `at` has come. */
    ghost predicate Going(at: Node, c: Course)
      reads this, nodes
    {
      && Valid() && c.Valid() && contents == c.kept + c.coming && nodes == c.front + c.rest
      && (if c.j < 0 then at !in nodes else c.rest[c.j] == at)
    }

    /** The node under the cursor. */
    lemma Cursor(at: Node, c: Course)
      requires Going(at, c) && c.rest != []
      ensures nodes[|c.front|] == c.rest[0] && c.rest[0].entry == c.coming[0].entry
      ensures c.rest[0].next == if c.rest[1..] == [] then null else c.rest[1..][0]
      ensures c.j == 0 <==> at == c.rest[0]
    {
      assert contents[|c.kept|] == c.coming[0];
      assert forall j :: 0 <= j < |c.rest| ==> nodes[|c.front| + j] == c.rest[j];
    }

    method PurgeNextBy(cur: Node, at: Node, ghost c: Course, ghost d: Course) returns (next: Node?)
      requires Going(at, c) && c.rest != [] && c.rest[0] == cur && Further(c, d, c.coming[0].Mac() == at.entry.mac)
      modifies this, nodes
      ensures Going(at, d)
      ensures if c.j == 0 then c.coming[0].Mac() == old(at.entry.mac) && at.Cleared() else at.entry == old(at.entry)
      ensures next == if d.rest == [] then null else d.rest[0]
      ensures forall k :: 0 <= k < |nodes| ==> nodes[k] in old(nodes)
      ensures forall n :: n in old(nodes) ==> n in nodes || n.Cleared()
    {
      Cursor(at, c);
      var gone;
      next, gone := PurgeOneBy(cur, at, |c.front|);
    }

    /** One round of the loop below, which will end with these contents and nodes. */
    method PurgeStepBy(cur: Node, at: Node, ghost c: Course, ghost s: seq<Neighbour>, ghost ns: seq<Node>)
      returns (next: Node?, ghost d: Course)
      requires UnderWay(at, c, s, ns, cur)
      modifies this, nodes
      ensures UnderWay(at, d, s, ns, next) && |d.rest| == |c.rest| - 1
      ensures d.j < 0 && (c.j < 0 ==> old(at.Cleared())) ==> at.Cleared()
      ensures forall k :: 0 <= k < |nodes| ==> nodes[k] in old(nodes)
      ensures forall n :: n in old(nodes) ==> n in nodes || n.Cleared()
    {
      Cursor(at, c);
      d := OneFurther(c, at.entry.mac, s, ns);
      next := PurgeNextBy(cur, at, c, d);
    }

    /** The purge's inner loop for a MAC that stands in the node pointed to, which may be the i-th of this list. */
    method PurgeBy(at: Node, ghost i: int)
      requires Valid() && -1 <= i < |nodes| && (if i < 0 then at !in nodes else nodes[i] == at)
      modifies this, nodes
      ensures Valid()
      ensures contents == Through(old(contents), old(contents), i, old(at.entry.mac))
      ensures nodes == Through(old(contents), old(nodes), i, old(at.entry.mac))
      ensures i >= 0 ==> at.Cleared()
      ensures forall k :: 0 <= k < |nodes| ==> nodes[k] in old(nodes)
      ensures forall n :: n in old(nodes) ==> n in nodes || n.Cleared()
    {
      StartYields(contents, nodes, i, at.entry.mac);
      PurgeRest(first, at, Course([], contents, [], nodes, i), Through(contents, contents, i, at.entry.mac),
        Through(contents, nodes, i, at.entry.mac));
    }

    method PurgeRest(start: Node?, at: Node, ghost course: Course, ghost s: seq<Neighbour>, ghost ns: seq<Node>)
      requires Going(at, course) && course.Yields(at.entry.mac, s, ns)
      requires start == if course.rest == [] then null else course.rest[0]
      modifies this, nodes
      ensures Valid() && contents == s && nodes == ns
      ensures course.j >= 0 ==> at.Cleared()
      ensures forall k :: 0 <= k < |nodes| ==> nodes[k] in old(nodes)
      ensures forall n :: n in old(nodes) ==> n in nodes || n.Cleared()
    {
      var cur := start;
      ghost var c := course;
      while cur != null
        invariant UnderWay(at, c, s, ns, cur)
        invariant forall k :: 0 <= k < |nodes| ==> nodes[k] in old(nodes)
        invariant c.j < 0 && course.j >= 0 ==> at.Cleared()
        invariant forall n :: n in old(nodes) ==> n in nodes || n.Cleared()
        decreases |c.rest|
      {
        cur, c := PurgeStepBy(cur, at, c, s, ns);
      }
      Arrived(at, c, s, ns);
    }

    /** The cursor is at the first node still to come, and the purge will end with these contents and nodes. */
    ghost predicate UnderWay(at: Node, c: Course, s: seq<Neighbour>, ns: seq<Node>, cur: Node?)
      reads this, nodes, at
    {
      Going(at, c) && c.Yields(at.entry.mac, s, ns) && cur == if c.rest == [] then null else c.rest[0]
    }

    lemma Arrived(at: Node, c: Course, s: seq<Neighbour>, ns: seq<Node>)
      requires UnderWay(at, c, s, ns, null)
      ensures Valid() && contents == s && nodes == ns
    {
      EndYields(c, at.entry.mac, s, ns);
    }

    /** The insertion's inner loop: it unlinks the first node that carries the MAC and stops. */
    method PurgeFirst(mac: Mac) returns (found: bool, ghost hit: int)
      requires Valid() && Distinct(contents)
      modifies this, nodes
      ensures Valid()
      ensures Removed(old(contents), contents, mac, hit) && (found <==> hit != -1)
      ensures nodes == if hit == -1 then old(nodes) else RemoveAt(old(nodes), hit)
    {
      var cur := first;
      hit := -1;
      ghost var done := 0;
      while cur != null
        invariant 0 <= done <= |nodes|
        invariant Valid() && nodes == old(nodes) && contents == old(contents)
        invariant forall i :: 0 <= i < done ==> contents[i].Mac() != mac
        invariant cur == if done < |nodes| then nodes[done] else null
        decreases |nodes| - done
      {
        assert contents[done].entry == cur.entry;
        var tmp := cur.next;
        if cur.entry.mac == mac {
          Unlink(cur, done);
          return true, done;
        }
        done := done + 1;
        cur := tmp;
      }
      found := false;
    }
  }
}
