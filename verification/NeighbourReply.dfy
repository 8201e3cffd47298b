/** The reply to a neighbour query: a count byte and as many whole fields of the first five entries as fit. */
module NeighbourReply {
  import opened Bytes
  import opened NeighbourSpec
  import opened NeighbourList
  import opened NeighbourDb

  const ENTRY_LEN := 230
  const REPLY_LEN := ENTRY_LEN * MAX_ENTRY      // the length the caller passes
  const WIDTHS: seq<nat> := [64, 32, 32, 6, 64, 4, 4, 16, 8]

  // ---------------------------------------------------------------------------------------------------------------
  // What a reply should be
  // ---------------------------------------------------------------------------------------------------------------

  /** The fields of an entry in wire order. */
  function Fields(e: Entry): (r: seq<seq<byte>>)
    ensures Match(r, WIDTHS)
  {
    [e.name, e.category, e.fwVersion, e.mac, e.sysName, e.ipv4, e.mask, e.ipv6, e.portBitmap]
  }

  function AllFields(s: seq<Neighbour>): (r: seq<seq<byte>>)
    ensures |r| == 9 * |s|
  {
    if s == [] then [] else Fields(s[0].entry) + AllFields(s[1..])
  }

  /** The longest prefix of the fields that fits into `room` bytes; nothing follows the first field that does not. */
  function Fit(fields: seq<seq<byte>>, room: int): (r: seq<seq<byte>>)
    ensures r <= fields
    ensures room >= 0 ==> |Flatten(r)| <= room
    ensures |r| < |fields| ==> |Flatten(r)| + |fields[|r|]| > room
  {
    if fields == [] || |fields[0]| > room then [] else
      var rest := Fit(fields[1..], room - |fields[0]|);
      assert ([fields[0]] + rest)[1..] == rest;
      [fields[0]] + rest
  }

  function Listed(s: seq<Neighbour>): seq<Neighbour> {
    if |s| <= MAX_ENTRY then s else s[..MAX_ENTRY]
  }

  /** The count is that of the whole list, even when only five entries follow. */
  function Reply(s: seq<Neighbour>, len: int): seq<byte> {
    [|s| % 256] + Flatten(Fit(AllFields(Listed(s)), len - 1))
  }

  predicate Match(fields: seq<seq<byte>>, widths: seq<nat>) {
    |fields| == |widths| && forall i :: 0 <= i < |fields| ==> |fields[i]| == widths[i]
  }

  /** Fit is the only prefix that fits and that the next field would overrun. */
  lemma {:induction false} FitIs(fields: seq<seq<byte>>, k: nat, room: int)
    requires k <= |fields|
    requires k > 0 ==> |Flatten(fields[..k])| <= room
    requires k < |fields| ==> |Flatten(fields[..k])| + |fields[k]| > room
    ensures Fit(fields, room) == fields[..k]
  {
    if k > 0 {
      var rest := FrontOf(fields, k);
      FitIs(rest, k - 1, room - |fields[0]|);
    }
  }

  lemma FrontOf(fields: seq<seq<byte>>, k: nat) returns (rest: seq<seq<byte>>)
    requires 0 < k <= |fields|
    ensures rest == fields[1..]
    ensures fields[..k] == [fields[0]] + rest[..k - 1]
    ensures Flatten(fields[..k]) == fields[0] + Flatten(rest[..k - 1])
  {
    rest := fields[1..];
    assert fields[..k][1..] == rest[..k - 1];
  }

  // ---------------------------------------------------------------------------------------------------------------
  // The serialiser
  // ---------------------------------------------------------------------------------------------------------------

  /** The size check and memcpy that the source repeats for each field. */
  method PutField(msg: array<byte>, off: nat, len: nat, field: seq<byte>) returns (ok: bool)
    requires len <= msg.Length
    modifies msg
    ensures ok <==> off + |field| <= len
    ensures ok ==> msg[..off + |field|] == old(msg[..off]) + field
    ensures ok ==> forall i :: off + |field| <= i < msg.Length ==> msg[i] == old(msg[i])
    ensures !ok ==> msg[..] == old(msg[..])
  {
    if off + |field| > len {
      return false;
    }
    forall i | 0 <= i < |field| {
      msg[off + i] := field[i];
    }
    ok := true;
  }

  /** An entry's fields one after the other, up to the first that does not fit; `n` of them were written. */
  method PutFields(msg: array<byte>, off: nat, len: nat, fields: seq<seq<byte>>)
    returns (ok: bool, off': nat, ghost n: nat)
    requires off <= msg.Length && len <= msg.Length
    modifies msg
    ensures n <= |fields| && (ok <==> n == |fields|)
    ensures n < |fields| ==> off' + |fields[n]| > len
    ensures n > 0 ==> off' <= len
    ensures off' == off + |Flatten(fields[..n])| <= msg.Length
    ensures msg[..off'] == old(msg[..off]) + Flatten(fields[..n])
    ensures forall i :: off' <= i < msg.Length ==> msg[i] == old(msg[i])
  {
    off' := off;
    for k := 0 to |fields|
      invariant off <= off' <= msg.Length
      invariant k > 0 ==> off' <= len
      invariant off' == off + |Flatten(fields[..k])|
      invariant msg[..off'] == old(msg[..off]) + Flatten(fields[..k])
      invariant forall i :: off' <= i < msg.Length ==> msg[i] == old(msg[i])
    {
      FlattenSnoc(fields, k);
      ok := PutField(msg, off', len, fields[k]);
      if !ok {
        return ok, off', k;
      }
      off' := off' + |fields[k]|;
    }
    ok, n := true, |fields|;
  }

  lemma FlattenSnoc(fields: seq<seq<byte>>, k: nat)
    requires k < |fields|
    ensures Flatten(fields[..k + 1]) == Flatten(fields[..k]) + fields[k]
  {
    assert fields[..k + 1] == fields[..k] + [fields[k]];
    FlattenAppend(fields[..k], [fields[k]]);
    assert Flatten([fields[k]]) == fields[k] + Flatten([]);
  }

  /** The fields of the entry at `c` stand at 9c in the list of all fields. */
  lemma {:induction false} AllFieldsAt(s: seq<Neighbour>, c: nat, n: nat)
    requires c < |s| && n <= 9
    ensures AllFields(s)[..9 * c + n] == AllFields(s)[..9 * c] + Fields(s[c].entry)[..n]
  {
    var f, r := Fields(s[0].entry), AllFields(s[1..]);
    if c > 0 {
      AllFieldsAt(s[1..], c - 1, n);
      StillBehind(f, r, 9 * (c - 1), Fields(s[c].entry)[..n]);
    } else {
      assert (f + r)[..n] == f[..n];
    }
  }

  /** What follows the first k fields of `r` still follows them behind `f`. */
  lemma StillBehind(f: seq<seq<byte>>, r: seq<seq<byte>>, k: nat, g: seq<seq<byte>>)
    requires k + |g| <= |r| && r[..k + |g|] == r[..k] + g
    ensures (f + r)[..|f| + k + |g|] == (f + r)[..|f| + k] + g
  {
    assert (f + r)[..|f| + k] == f + r[..k];
    assert (f + r)[..|f| + k + |g|] == f + (r[..k] + g);
  }

  lemma {:induction false} FieldAt(s: seq<Neighbour>, c: nat, n: nat)
    requires c < |s| && n < 9
    ensures AllFields(s)[9 * c + n] == Fields(s[c].entry)[n]
  {
    if c > 0 {
      var rest := RestOf(s);
      FieldAt(rest, c - 1, n);
      assert AllFields(s)[9 + (9 * (c - 1) + n)] == AllFields(rest)[9 * (c - 1) + n];
    }
  }

  lemma RestOf(s: seq<Neighbour>) returns (rest: seq<Neighbour>)
    requires s != []
    ensures rest == s[1..]
    ensures forall i :: 0 <= i < |AllFields(rest)| ==> AllFields(s)[9 + i] == AllFields(rest)[i]
  {
    rest := s[1..];
  }

  /** How far a reply has come: `taken` whole fields stand behind the count byte. */
  ghost predicate Written(reply: seq<byte>, count: byte, fields: seq<seq<byte>>, taken: nat, len: nat) {
    && taken <= |fields|
    && reply == [count] + Flatten(fields[..taken])
    && (taken > 0 ==> |reply| <= len)
  }

  /** One round of the serialiser's loop, over the entries `s`. */
  method PutNext(msg: array<byte>, off: nat, len: nat, cur: Node,
                 ghost s: seq<Neighbour>, ghost counter: nat, ghost count: byte)
    returns (ok: bool, off': nat, ghost taken: nat)
    requires off <= msg.Length && len <= msg.Length
    requires counter < |s| && cur.entry == s[counter].entry
    requires Written(msg[..off], count, AllFields(s), 9 * counter, len)
    modifies msg
    ensures off <= off' <= msg.Length && Written(msg[..off'], count, AllFields(s), taken, len)
    ensures if ok then taken == 9 * (counter + 1)
            else taken < |AllFields(s)| && off' + |AllFields(s)[taken]| > len
    ensures forall i :: off' <= i < msg.Length ==> msg[i] == old(msg[i])
  {
    ghost var before, n := msg[..off], 0;
    ok, off', n := PutFields(msg, off, len, Fields(cur.entry));
    ghost var fields := FieldsNext(s, counter, n);
    WrittenStep(before, msg[..off'], count, fields, 9 * counter, n, Fields(cur.entry)[..n], len);
    taken := 9 * counter + n;
  }

  /** The first n fields of the entry at c. */
  lemma FieldsNext(s: seq<Neighbour>, c: nat, n: nat) returns (fields: seq<seq<byte>>)
    requires c < |s| && n <= 9
    ensures fields == AllFields(s) && |fields| == 9 * |s| && (n < 9 ==> fields[9 * c + n] == Fields(s[c].entry)[n])
    ensures Flatten(fields[..9 * c + n]) == Flatten(fields[..9 * c]) + Flatten(Fields(s[c].entry)[..n])
  {
    fields := AllFields(s);
    if n < 9 {
      FieldAt(s, c, n);
    }
    FlatNext(s, c, n);
  }

  lemma WrittenStep(before: seq<byte>, after: seq<byte>, count: byte, fields: seq<seq<byte>>, taken: nat, n: nat,
                    more: seq<seq<byte>>, len: nat)
    requires Written(before, count, fields, taken, len) && taken + n <= |fields| && |more| == n
    requires Flatten(fields[..taken + n]) == Flatten(fields[..taken]) + Flatten(more)
    requires after == before + Flatten(more) && (n > 0 ==> |after| <= len)
    ensures Written(after, count, fields, taken + n, len)
  {
    Behind(count, Flatten(fields[..taken]), Flatten(more));
  }

  lemma {:induction false} FlatNext(s: seq<Neighbour>, c: nat, n: nat)
    requires c < |s| && n <= 9
    ensures Flatten(AllFields(s)[..9 * c + n]) == Flatten(AllFields(s)[..9 * c]) + Flatten(Fields(s[c].entry)[..n])
  {
    AllFieldsAt(s, c, n);
    FlattenAppend(AllFields(s)[..9 * c], Fields(s[c].entry)[..n]);
  }

  lemma Behind(count: byte, a: seq<byte>, b: seq<byte>)
    ensures [count] + a + b == [count] + (a + b)
  {
  }

  lemma {:induction false} WrittenIsReply(reply: seq<byte>, s: seq<Neighbour>, taken: nat, len: nat)
    requires Written(reply, |s| % 256, AllFields(Listed(s)), taken, len)
    requires taken < |AllFields(Listed(s))| ==> |reply| + |AllFields(Listed(s))[taken]| > len
    ensures reply == Reply(s, len)
  {
    FitIs(AllFields(Listed(s)), taken, len - 1);
  }

  /**
   * Where the loop is after `counter` nodes of the port's list: at the next one with all their fields written, or at a field
   * that has no room.
   */
  ghost predicate Filling(db: Database, port: nat, cur: Node?, ok: bool, counter: nat, fields: seq<seq<byte>>, taken: nat,
                          off: nat, len: nat)
    reads db, db.Repr
    requires db.Valid() && port <= PORT_NUMBER
  {
    && |db.chains[port]| == |db.view[port]| && counter <= |Listed(db.view[port])|
    && fields == AllFields(Listed(db.view[port]))
    && if ok then taken == 9 * counter && cur == (if counter < |db.chains[port]| then db.chains[port][counter] else null)
       else taken < |fields| && off + |fields[taken]| > len
  }

  /** The same round over one port's list, with the step to the next node. */
  method FillNext(db: Database, port: nat, msg: array<byte>, off: nat, len: nat, cur: Node, counter: nat,
                  ghost fields: seq<seq<byte>>, ghost was: nat)
    returns (ok: bool, off': nat, next: Node?, counter': nat, ghost taken: nat)
    requires db.Valid() && msg !in db.Repr && port <= PORT_NUMBER
    requires off <= msg.Length && len <= msg.Length && counter < MAX_ENTRY
    requires Filling(db, port, cur, true, counter, fields, was, off, len)
    requires Written(msg[..off], |db.view[port]| % 256, fields, was, len)
    modifies msg
    ensures off <= off' <= msg.Length && counter' <= MAX_ENTRY && (ok ==> counter' > counter) && counter' >= counter
    ensures Filling(db, port, next, ok, counter', fields, taken, off', len)
    ensures Written(msg[..off'], |db.view[port]| % 256, fields, taken, len)
    ensures forall i :: off' <= i < msg.Length ==> msg[i] == old(msg[i])
  {
    db.At(port, counter);
    ok, off', taken := PutNext(msg, off, len, cur, Listed(db.view[port]), counter, |db.view[port]| % 256);
    next, counter' := cur, counter;
    if ok {
      next, counter' := cur.next, counter + 1;
    }
  }

  /** The count byte and the loop over the first five nodes. */
  method FillList(db: Database, port: nat, msg: array<byte>, len: nat) returns (off: nat)
    requires db.Valid() && msg !in db.Repr && port <= PORT_NUMBER
    requires len <= msg.Length && 0 < msg.Length
    modifies msg
    ensures off <= msg.Length && (len > 0 ==> off <= len) && msg[..off] == Reply(db.view[port], len)
    ensures forall i :: off <= i < msg.Length ==> msg[i] == old(msg[i])
  {
    ghost var fields, taken: nat := AllFields(Listed(db.view[port])), 0;      // how many fields have been written
    db.SameLengths();
    var cur := db.lists[port].first;
    msg[0] := db.lists[port].totalNodes % 256;
    off := 1;
    var counter := 0;
    var ok := true;
    while counter < MAX_ENTRY && cur != null && ok
      invariant counter <= MAX_ENTRY && 1 <= off <= msg.Length
      invariant Filling(db, port, cur, ok, counter, fields, taken, off, len)
      invariant Written(msg[..off], |db.view[port]| % 256, fields, taken, len)
      invariant forall i :: off <= i < msg.Length ==> msg[i] == old(msg[i])
      decreases MAX_ENTRY - counter, ok
    {
      ok, off, cur, counter, taken := FillNext(db, port, msg, off, len, cur, counter, fields, taken);
    }
    WrittenIsReply(msg[..off], db.view[port], taken, len);
  }

  method ClearMessage(msg: array<byte>, len: nat)
    requires len <= msg.Length
    modifies msg
    ensures forall i :: 0 <= i < msg.Length ==> msg[i] == if i < len then 0 else old(msg[i])
  {
    forall i | 0 <= i < len {
      msg[i] := 0;
    }
  }

  /**
   * Serialises one port's list into `msg`. `len` is the room the caller gives, and the length of the reply comes back.
   * The count byte is written whatever `len` is.
   */
  method FillQueryNeighbours(db: Database, port: nat, msg: array<byte>, len: nat) returns (code: Code, len': nat)
    requires db.Valid() && msg !in db.Repr
    requires len <= msg.Length && 0 < msg.Length
    modifies msg
    ensures code == if port > 12 || len > 1151 then ErrorParameter else Ok
    ensures code != Ok ==> len' == len && msg[..] == old(msg[..])
    ensures code == Ok && len > 0 ==> len' <= len && msg[..len'] == Reply(db.view[port], len)
    ensures code == Ok ==> forall i :: |Reply(db.view[port], len)| <= i < msg.Length ==>
                msg[i] == if i < len then 0 else old(msg[i])
  {
    if port > PORT_NUMBER || len > REPLY_LEN + 1 {
      return ErrorParameter, len;
    }
    ClearMessage(msg, len);
    var off := FillList(db, port, msg, len);
    len' := len;
    if off < len {
      len' := off;
    }
    code := Ok;
  }

  // ---------------------------------------------------------------------------------------------------------------
  // Reading a reply back
  // ---------------------------------------------------------------------------------------------------------------

  function Split(b: seq<byte>, widths: seq<nat>): (r: seq<seq<byte>>)
    ensures |r| == |widths|
    decreases |widths|, |b|
  {
    if widths == [] then []
    else
      var w := Min(widths[0], |b|);
      [b[..w]] + Split(b[w..], widths[1..])
  }

  lemma {:induction false} SplitFlatten(fields: seq<seq<byte>>, widths: seq<nat>, tail: seq<byte>)
    requires Match(fields, widths)
    ensures Split(Flatten(fields) + tail, widths) == fields
    decreases |widths|
  {
    if widths != [] {
      var rest := Flatten(fields[1..]) + tail;
      assert Flatten(fields) + tail == fields[0] + rest;
      SplitFlatten(fields[1..], widths[1..], tail);
      assert (fields[0] + rest)[..|fields[0]|] == fields[0];
      assert (fields[0] + rest)[|fields[0]|..] == rest;
      assert fields == [fields[0]] + fields[1..];
    }
  }

  /** An entry from its 230 bytes. */
  function ReadEntry(b: seq<byte>): Option<Entry> {
    var f := Split(b, WIDTHS);
    if Match(f, WIDTHS) then Some(EntryFields(f[0], f[1], f[2], f[3], f[4], f[5], f[6], f[7], f[8])) else None
  }

  function Slot(b: seq<byte>, i: nat): seq<byte>
    requires ENTRY_LEN * (i + 1) <= |b|
  {
    b[ENTRY_LEN * i..ENTRY_LEN * (i + 1)]
  }

  /** A reader that takes the count byte at its word: so many entries of 230 bytes, and nothing else. */
  ghost predicate ReadsAs(reply: seq<byte>, entries: seq<Entry>) {
    && reply != [] && reply[0] == |entries| && |reply| == 1 + ENTRY_LEN * |entries|
    && forall i :: 0 <= i < |entries| ==> ReadEntry(Slot(reply[1..], i)) == Some(entries[i])
  }

  function Entries(s: seq<Neighbour>): (r: seq<Entry>) {
    seq(|s|, i requires 0 <= i < |s| => s[i].entry)
  }

  lemma FieldsFlat(e: Entry)
    ensures |Flatten(Fields(e))| == ENTRY_LEN
  {
    var f := Fields(e);
    Flatten3(f[0], f[1], f[2]);
    Flatten3(f[3], f[4], f[5]);
    Flatten3(f[6], f[7], f[8]);
    var a, b, c := [f[0], f[1], f[2]], [f[3], f[4], f[5]], [f[6], f[7], f[8]];
    assert f == (a + b) + c;
    FlattenAppend(a, b);
    FlattenAppend(a + b, c);
  }

  lemma Flatten3(x: seq<byte>, y: seq<byte>, z: seq<byte>)
    ensures |Flatten([x, y, z])| == |x| + |y| + |z|
  {
    assert [x, y, z][1..] == [y, z] && [y, z][1..] == [z] && [z][1..] == [];
    assert Flatten([z]) == z + Flatten([]) && Flatten([y, z]) == y + Flatten([z]);
  }

  lemma {:induction false} FlatLength(s: seq<Neighbour>)
    ensures |Flatten(AllFields(s))| == ENTRY_LEN * |s|
  {
    if s != [] {
      FlatLength(s[1..]);
      FlattenAppend(Fields(s[0].entry), AllFields(s[1..]));
      FieldsFlat(s[0].entry);
    }
  }

  lemma {:induction false} SlotAt(s: seq<Neighbour>, i: nat)
    requires i < |s|
    ensures |Flatten(AllFields(s))| == ENTRY_LEN * |s|
    ensures Slot(Flatten(AllFields(s)), i) == Flatten(Fields(s[i].entry))
  {
    var f, rest := Flatten(Fields(s[0].entry)), Flatten(AllFields(s[1..]));
    FlatLength(s);
    FlattenAppend(Fields(s[0].entry), AllFields(s[1..]));
    FieldsFlat(s[0].entry);
    if i > 0 {
      SlotAt(s[1..], i - 1);
      assert Slot(f + rest, i) == Slot(rest, i - 1);
    }
  }

  lemma ReadEntryBack(e: Entry)
    ensures ReadEntry(Flatten(Fields(e))) == Some(e)
  {
    var f := Fields(e);
    SplitFlatten(f, WIDTHS, []);
    assert Flatten(f) + [] == Flatten(f);
  }

  lemma FitAll(fields: seq<seq<byte>>, room: int)
    requires |Flatten(fields)| <= room
    ensures Fit(fields, room) == fields
  {
    assert fields[..|fields|] == fields;
    FitIs(fields, |fields|, room);
  }

  lemma FitAllButLast(fields: seq<seq<byte>>, k: nat, room: int)
    requires |fields| == k + 1 && |Flatten(fields)| - |fields[k]| <= room < |Flatten(fields)|
    ensures Fit(fields, room) == fields[..k] && |Flatten(fields[..k])| == |Flatten(fields)| - |fields[k]|
  {
    FlattenSnoc(fields, k);
    assert fields[..k + 1] == fields;
    if k > 0 {
      FitIs(fields, k, room);
    }
  }

  lemma ConsTail(x: byte, tail: seq<byte>)
    ensures ([x] + tail)[0] == x && ([x] + tail)[1..] == tail
  {
  }

  /** Entries that fit are sent whole. */
  lemma {:induction false} ShortReply(s: seq<Neighbour>, len: nat)
    requires ENTRY_LEN * |Listed(s)| < len
    ensures Reply(s, len)[0] == |s| % 256 && Reply(s, len)[1..] == Flatten(AllFields(Listed(s)))
    ensures |Reply(s, len)| == 1 + ENTRY_LEN * |Listed(s)|
  {
    FlatLength(Listed(s));
    FitAll(AllFields(Listed(s)), len - 1);
    ConsTail(|s| % 256, Flatten(Fit(AllFields(Listed(s)), len - 1)));
  }

  lemma {:induction false} LongReply(s: seq<Neighbour>)
    requires |s| >= MAX_ENTRY
    ensures |Reply(s, REPLY_LEN)| == 1 + ENTRY_LEN * MAX_ENTRY - 8
  {
    var l := Listed(s);
    FlatLength(l);
    FieldAt(l, 4, 8);
    FitAllButLast(AllFields(l), 44, REPLY_LEN - 1);
  }

  lemma {:induction false} WholeReadsAs(reply: seq<byte>, s: seq<Neighbour>)
    requires reply != [] && reply[0] == |s| && reply[1..] == Flatten(AllFields(s))
    ensures ReadsAs(reply, Entries(s))
  {
    FlatLength(s);
    forall i | 0 <= i < |s|
      ensures ReadEntry(Slot(reply[1..], i)) == Some(s[i].entry)
    {
      SlotAt(s, i);
      ReadEntryBack(s[i].entry);
    }
  }

  /**
   * With the caller's length, and for every list the database can hold, the reply reads back as the list exactly when
   * the list has at most four entries: the fifth loses its last field to the missing byte for the count.
   */
  lemma {:induction false} ReplyReadsBack(s: seq<Neighbour>)
    requires |s| <= MAX_ENTRY + 1
    ensures ReadsAs(Reply(s, REPLY_LEN), Entries(s)) <==> |s| <= 4
  {
    if |s| <= 4 {
      ShortReply(s, REPLY_LEN);
      WholeReadsAs(Reply(s, REPLY_LEN), s);
    } else {
      LongReply(s);
    }
  }

  // ---------------------------------------------------------------------------------------------------------------
  // A reply byte by byte
  // ---------------------------------------------------------------------------------------------------------------

  /** The 230 bytes of an entry. */
  function EntryBytes(e: Entry): (r: seq<byte>)
    ensures |r| == 230
  {
    e.name + e.category + e.fwVersion + e.mac + e.sysName + e.ipv4 + e.mask + e.ipv6 + e.portBitmap
  }

  lemma FourMore(f: seq<seq<byte>>, k: nat)
    requires k + 4 <= |f|
    ensures Flatten(f[..k + 4]) == Flatten(f[..k]) + f[k] + f[k + 1] + f[k + 2] + f[k + 3]
  {
    FlattenSnoc(f, k);
    FlattenSnoc(f, k + 1);
    FlattenSnoc(f, k + 2);
    FlattenSnoc(f, k + 3);
  }

  lemma EntryFront(e: Entry)
    ensures Flatten(Fields(e)[..8]) == e.name + e.category + e.fwVersion + e.mac + e.sysName + e.ipv4 + e.mask + e.ipv6
  {
    var f := Fields(e);
    FourMore(f, 0);
    FourMore(f, 4);
    assert f[..0] == [];
    assert [] + f[0] == f[0];
  }

  lemma EntryIsFields(e: Entry)
    ensures Flatten(Fields(e)) == EntryBytes(e)
    ensures Flatten(Fields(e)[..8]) == EntryBytes(e)[..222]
  {
    var f := Fields(e);
    EntryFront(e);
    FlattenSnoc(f, 8);
    assert f[..9] == f;
  }

  /** The first k entries one after the other. */
  function FirstEntries(s: seq<Neighbour>, k: nat): (r: seq<byte>)
    requires k <= |s|
    ensures |r| == 230 * k
  {
    if k == 0 then [] else FirstEntries(s, k - 1) + EntryBytes(s[k - 1].entry)
  }

  lemma {:induction false} AllFieldsFirst(s: seq<Neighbour>, k: nat)
    requires k <= |s|
    ensures Flatten(AllFields(s)[..9 * k]) == FirstEntries(s, k)
  {
    if k > 0 {
      var fields := EntryNext(s, k - 1);
      AllFieldsFirst(s, k - 1);
    } else {
      assert AllFields(s)[..0] == [];
    }
  }

  lemma EntryNext(s: seq<Neighbour>, c: nat) returns (fields: seq<seq<byte>>)
    requires c < |s|
    ensures fields == AllFields(s) && |fields| == 9 * |s|
    ensures Flatten(fields[..9 * (c + 1)]) == Flatten(fields[..9 * c]) + EntryBytes(s[c].entry)
  {
    fields := FieldsNext(s, c, 9);
    EntryIsFields(s[c].entry);
    assert Fields(s[c].entry)[..9] == Fields(s[c].entry);
    assert 9 * c + 9 == 9 * (c + 1);
  }

  /** The first five neighbours of the list, in the order of the list, are those a reply is about. */
  lemma ListedFirst(s: seq<Neighbour>, k: nat)
    requires k <= |s| && k <= 5
    ensures k <= |Listed(s)| && FirstEntries(Listed(s), k) == FirstEntries(s, k) && |Listed(s)| == Min(|s|, 5)
  {
    FirstOf(s, Listed(s), k);
  }

  lemma {:induction false} FirstOf(s: seq<Neighbour>, l: seq<Neighbour>, k: nat)
    requires k <= |l| <= |s| && l == s[..|l|]
    ensures FirstEntries(l, k) == FirstEntries(s, k)
  {
    if k > 0 {
      FirstOf(s, l, k - 1);
    }
  }

  /** Up to four neighbours are sent whole, in the order of the list. */
  lemma {:induction false} ReplyOfFew(s: seq<Neighbour>)
    requires |s| <= 4
    ensures Reply(s, 1150) == [|s|] + FirstEntries(s, |s|)
  {
    AllFieldsFirst(s, |s|);
    FlatLength(s);
    assert AllFields(s)[..9 * |s|] == AllFields(s);
    FitAll(AllFields(s), 1149);
  }

  /**
   * Of five or more, the first four are sent whole and the fifth without its last field, in the order of the list, behind
   * the number of all.
   */
  lemma {:induction false} ReplyOfMany(s: seq<Neighbour>)
    requires 5 <= |s| < 256
    ensures Reply(s, 1150) == [|s|] + FirstEntries(s, 4) + EntryBytes(s[4].entry)[..222]
  {
    var l := Listed(s);
    var fields := AllFields(l);
    FlatLength(l);
    FieldAt(l, 4, 8);
    FitAllButLast(fields, 44, 1149);
    FlatNext(l, 4, 8);
    AllFieldsFirst(l, 4);
    EntryIsFields(l[4].entry);
    ListedFirst(s, 4);
    Behind(|s|, FirstEntries(s, 4), EntryBytes(s[4].entry)[..222]);
  }

  /** For every length, what follows the count is a beginning of the first five entries in the order of the list. */
  lemma {:induction false} ReplyIsBeginning(s: seq<Neighbour>, len: int)
    ensures Reply(s, len)[0] == |s| % 256
    ensures Reply(s, len)[1..] <= FirstEntries(s, Min(|s|, 5))
  {
    var l := Listed(s);
    var fields := AllFields(l);
    var fit := Fit(fields, len - 1);
    ListedFirst(s, Min(|s|, 5));
    AllFieldsFirst(l, |l|);
    assert fields[..9 * |l|] == fields;
    assert fields == fit + fields[|fit|..];
    FlattenAppend(fit, fields[|fit|..]);
    ConsTail(|s| % 256, Flatten(fit));
  }

  lemma SlotFront(a: seq<byte>, b: seq<byte>, i: nat)
    requires ENTRY_LEN * (i + 1) <= |a|
    ensures Slot(a + b, i) == Slot(a, i)
  {
  }

  lemma ManyTail(s: seq<Neighbour>) returns (tail: seq<byte>, four: seq<byte>, rest: seq<byte>)
    requires 5 <= |s| < 256
    ensures tail == Reply(s, 1150)[1..] == four + rest && four == FirstEntries(s, 4) && |rest| == 222 && |Reply(s, 1150)| == 1143
  {
    ReplyOfMany(s);
    four, rest := FirstEntries(s, 4), EntryBytes(s[4].entry)[..222];
    tail := four + rest;
    Behind(|s|, four, rest);
    ConsTail(|s|, tail);
  }

  /** A reader of 230-byte entries has the first four of a longer list. */
  lemma {:induction false} ManyReadBack(s: seq<Neighbour>, i: nat)
    requires 5 <= |s| < 256 && i < 4
    ensures |Reply(s, 1150)| == 1143 && ReadEntry(Slot(Reply(s, 1150)[1..], i)) == Some(s[i].entry)
  {
    var tail, four, rest := ManyTail(s);
    SlotFront(four, rest, i);
    FirstAt(s, 4, i);
    EntryIsFields(s[i].entry);
    ReadEntryBack(s[i].entry);
  }

  lemma {:induction false} FirstAt(s: seq<Neighbour>, k: nat, i: nat)
    requires i < k <= |s|
    ensures Slot(FirstEntries(s, k), i) == EntryBytes(s[i].entry)
  {
    var front, last := FirstEntries(s, k - 1), EntryBytes(s[k - 1].entry);
    if i < k - 1 {
      FirstAt(s, k - 1, i);
      assert Slot(front + last, i) == Slot(front, i);
    } else {
      assert Slot(front + last, i) == last;
    }
  }
}
