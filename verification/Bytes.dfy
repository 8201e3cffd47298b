/** Bytes and the few sequence helpers every other module needs. */
module Bytes {
  type byte = x: int | 0 <= x < 256

  type uint16 = x: int | 0 <= x < 0x1_0000

  type uint32 = x: int | 0 <= x < 0x1_0000_0000

  datatype Option<+T> = None | Some(value: T)

  function Min(a: int, b: int): (r: int)
    ensures r <= a && r <= b && (r == a || r == b)
  {
    if a < b then a else b
  }

  /** What memset(.., 0, n) leaves behind. */
  function Zeros(n: nat): (r: seq<byte>)
    ensures |r| == n
    ensures forall i :: 0 <= i < n ==> r[i] == 0
  {
    seq(n, _ => 0)
  }

  /** All chunks one after the other. */
  function Flatten(chunks: seq<seq<byte>>): (r: seq<byte>)
  {
    if chunks == [] then [] else chunks[0] + Flatten(chunks[1..])
  }

  lemma {:induction false} FlattenAppend(a: seq<seq<byte>>, b: seq<seq<byte>>)
    ensures Flatten(a + b) == Flatten(a) + Flatten(b)
  {
    if a == [] {
      assert a + b == b;
    } else {
      assert (a + b)[1..] == a[1..] + b;
      FlattenAppend(a[1..], b);
    }
  }

  lemma Multiples(d: int, p: int, q: int)
    requires d > 0
    ensures p < q ==> d * p + d <= d * q
  {
    if p < q {
      assert d * (p + 1) <= d * q;
    }
  }

  lemma Quotient(x: int, d: int, q: int, r: int)
    requires d > 0 && 0 <= r < d && x == d * q + r
    ensures x / d == q && x % d == r
  {
    assert x == d * (x / d) + x % d;
    Multiples(d, x / d, q);
    Multiples(d, q, x / d);
  }

  /** How a machine keeps a 16-bit value in memory. */
  function Store16(little: bool, v: uint16): (r: seq<byte>)
    ensures |r| == 2
  {
    if little then [v % 256, v / 256] else [v / 256, v % 256]
  }

  function Load16(little: bool, b: seq<byte>): uint16
    requires |b| == 2
  {
    var x: int, y: int := b[0], b[1];
    if little then x + 256 * y else 256 * x + y
  }
}
