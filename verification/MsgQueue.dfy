/**
 * The thread-safe queue: a singly linked list with head and tail pointers, and the message queue's drain over it. One
 * call is one lock region, so an interleaving of producers and consumers is a sequence of calls.
 */
module MsgQueue {
  import opened Bytes

  const UNLIMITED := -1
  const LEN_DEFAULT := 100

  class Node<T> {
    var data: T
    var next: Node?<T>

    constructor (data: T)
      ensures this.data == data && next == null
    {
      this.data := data;
      next := null;
    }
  }

  class Queue<T> {
    var head: Node?<T>
    var tail: Node?<T>
    var maxLength: int
    var curLength: int

    ghost var nodes: seq<Node<T>>
    ghost var contents: seq<T>
    ghost var Repr: set<object>

    ghost predicate Valid()
      reads this, Repr
    {
      && this in Repr
      && curLength == |nodes| == |contents|
      && head == (if nodes == [] then null else nodes[0])
      && tail == (if nodes == [] then null else nodes[|nodes| - 1])
      && (forall i :: 0 <= i < |nodes| ==> nodes[i] in Repr)
      && (forall i, j :: 0 <= i < j < |nodes| ==> nodes[i] != nodes[j])
      && (nodes != [] ==> nodes[|nodes| - 1].next == null)
      && (forall i {:trigger nodes[i].next} :: 0 <= i < |nodes| - 1 ==> nodes[i].next == nodes[i + 1])
      && (forall i {:trigger nodes[i].data} :: 0 <= i < |nodes| ==> nodes[i].data == contents[i])
    }

    /** The abstract queue. */
    ghost function State(): QState<T>
      reads this
    {
      QState(contents, maxLength)
    }

    constructor ()
      ensures Valid() && fresh(Repr)
      ensures State() == QState([], 100)
    {
      head, tail := null, null;
      maxLength, curLength := LEN_DEFAULT, 0;
      nodes, contents := [], [];
      Repr := {this};
    }

    method SetLength(len: int) returns (r: int)
      requires Valid()
      modifies this
      ensures Valid() && Repr == old(Repr)
      ensures (State(), r) == QSetLength(old(State()), len)
    {
      if len == 0 {
        return -2;
      }
      maxLength := len;
      r := 0;
    }

    method Insert(data: Option<T>) returns (r: int)
      requires Valid()
      modifies Repr
      ensures Valid() && fresh(Repr - old(Repr))
      ensures (State(), r) == QInsert(old(State()), data)
    {
      if data == None {
        return -1;
      }
      var node := new Node(data.value);
      if maxLength != UNLIMITED && curLength >= maxLength {
        return -3;
      }
      if head == null && tail == null {
        head := node;
      } else {
        tail.next := node;
      }
      tail := node;
      curLength := curLength + 1;
      nodes := nodes + [node];
      contents := contents + [data.value];
      Repr := Repr + {node};
      r := 0;
    }

    method Remove() returns (r: Option<T>)
      requires Valid()
      modifies Repr
      ensures Valid() && Repr == old(Repr)
      ensures (State(), r) == QRemove(old(State()))
    {
      if head == null && tail == null {
        return None;
      }
      if head == tail {
        tail := null;
      }
      var node := head;
      assert node == nodes[0];
      head := head.next;
      if curLength > 0 {
        curLength := curLength - 1;
      }
      r := Some(node.data);
      nodes := nodes[1..];
      contents := contents[1..];
    }

    /** The drain in front of the release: it ends, and hands out what was queued, in order, and nothing else. */
    method Drain() returns (removed: seq<T>)
      requires Valid()
      modifies Repr
      ensures Valid() && Repr == old(Repr)
      ensures removed == old(contents) && contents == [] && head == null && tail == null
    {
      removed := [];
      while true
        invariant Valid() && Repr == old(Repr)
        invariant removed + contents == old(contents)
        decreases |contents|
      {
        var node := Remove();
        if node == None {
          break;
        }
        removed := removed + [node.value];
      }
    }
  }

  // ---------------------------------------------------------------------------------------------------------------
  // The queue as a value, and any interleaving of its users
  // ---------------------------------------------------------------------------------------------------------------

  datatype QState<T> = QState(contents: seq<T>, maxLength: int)

  function QSetLength<T>(q: QState<T>, len: int): (QState<T>, int) {
    if len == 0 then (q, -2) else (q.(maxLength := len), 0)
  }

  function QInsert<T>(q: QState<T>, data: Option<T>): (QState<T>, int) {
    if data == None then (q, -1)
    else if q.maxLength != UNLIMITED && |q.contents| >= q.maxLength then (q, -3)
    else (q.(contents := q.contents + [data.value]), 0)
  }

  function QRemove<T>(q: QState<T>): (QState<T>, Option<T>) {
    if q.contents == [] then (q, None) else (q.(contents := q.contents[1..]), Some(q.contents[0]))
  }

  datatype QOp<T> = QPut(data: Option<T>) | QTake

  /** The queue after a run, the data its accepted insertions put in, and the data its removals handed out. */
  function QRun<T>(q: QState<T>, ops: seq<QOp<T>>): (QState<T>, seq<T>, seq<T>)
    decreases |ops|
  {
    if ops == [] then (q, [], [])
    else
      match ops[0]
      case QPut(data) =>
        var (q', r) := QInsert(q, data);
        var (end, accepted, removed) := QRun(q', ops[1..]);
        (end, if r == 0 then [data.value] + accepted else accepted, removed)
      case QTake =>
        var (q', r) := QRemove(q);
        var (end, accepted, removed) := QRun(q', ops[1..]);
        (end, accepted, if r.Some? then [r.value] + removed else removed)
  }

  /** First in, first out, with nothing lost or doubled: what was accepted is what came out and what is still there. */
  lemma {:induction false} QueueConserves<T>(q: QState<T>, ops: seq<QOp<T>>)
    ensures var (end, accepted, removed) := QRun(q, ops); q.contents + accepted == removed + end.contents
    decreases |ops|
  {
    if ops != [] {
      match ops[0]
      case QPut(data) =>
        var (q', r) := QInsert(q, data);
        QueueConserves(q', ops[1..]);
        var (end, accepted, removed) := QRun(q', ops[1..]);
        if r == 0 {
          assert q.contents + ([data.value] + accepted) == q'.contents + accepted;
        }
      case QTake =>
        var (q', r) := QRemove(q);
        QueueConserves(q', ops[1..]);
        var (end, accepted, removed) := QRun(q', ops[1..]);
        if r.Some? {
          assert q.contents + accepted == [r.value] + (q'.contents + accepted);
          assert [r.value] + (removed + end.contents) == ([r.value] + removed) + end.contents;
        }
    }
  }

  /** A positive limit set before use is never passed. */
  lemma {:induction false} QueueStaysBounded<T>(q: QState<T>, ops: seq<QOp<T>>)
    requires 0 < q.maxLength && |q.contents| <= q.maxLength
    ensures QRun(q, ops).0.maxLength == q.maxLength && |QRun(q, ops).0.contents| <= q.maxLength
    decreases |ops|
  {
    if ops != [] {
      match ops[0]
      case QPut(data) => QueueStaysBounded(QInsert(q, data).0, ops[1..]);
      case QTake => QueueStaysBounded(QRemove(q).0, ops[1..]);
    }
  }

  function Puts<T>(ops: seq<QOp<T>>): seq<T> {
    if ops == [] then []
    else (if ops[0].QPut? && ops[0].data.Some? then [ops[0].data.value] else []) + Puts(ops[1..])
  }

  /** Without a limit every insertion of data is accepted. */
  lemma {:induction false} UnlimitedAcceptsAll<T>(q: QState<T>, ops: seq<QOp<T>>)
    requires q.maxLength == UNLIMITED
    ensures QRun(q, ops).1 == Puts(ops) && QRun(q, ops).0.maxLength == UNLIMITED
    decreases |ops|
  {
    if ops != [] {
      match ops[0]
      case QPut(data) => UnlimitedAcceptsAll(QInsert(q, data).0, ops[1..]);
      case QTake => UnlimitedAcceptsAll(QRemove(q).0, ops[1..]);
    }
  }

  /** What an insertion comes to: only nothing at all, or a limit that is reached, is refused. */
  lemma InsertComesTo<T>(q: QState<T>, data: Option<T>)
    ensures var (after, r) := QInsert(q, data);
            && (r == 0 <==> data.Some? && (q.maxLength == -1 || |q.contents| < q.maxLength))
            && (r == 0 ==> after.contents == q.contents + [data.value] && after.maxLength == q.maxLength)
            && (r != 0 ==> after == q && r == if data == None then -1 else -3)
  {
  }

  /** A removal takes the first item, when there is one. */
  lemma RemoveComesTo<T>(q: QState<T>)
    ensures var (after, r) := QRemove(q);
            if |q.contents| == 0 then r == None && after == q
            else r == Some(q.contents[0]) && after.contents == q.contents[1..] && after.maxLength == q.maxLength
  {
  }

  /** A run below a positive limit is accepted in full. */
  lemma {:induction false} BelowLimitAcceptsAll<T>(q: QState<T>, ops: seq<QOp<T>>)
    requires q.maxLength > 0 && |q.contents| + |Puts(ops)| <= q.maxLength
    ensures QRun(q, ops).1 == Puts(ops)
    decreases |ops|
  {
    if ops != [] {
      match ops[0]
      case QPut(data) => BelowLimitAcceptsAll(QInsert(q, data).0, ops[1..]);
      case QTake => BelowLimitAcceptsAll(QRemove(q).0, ops[1..]);
    }
  }

  lemma SetLengthComesTo<T>(q: QState<T>, len: int)
    ensures var (after, r) := QSetLength(q, len);
            after.contents == q.contents && if len == 0 then r == -2 && after.maxLength == q.maxLength else r == 0 && after.maxLength == len
  {
  }
}
