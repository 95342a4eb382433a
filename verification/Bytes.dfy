/** Byte strings, the little-endian length field, and flattening of chunk lists. */
module Bytes {

  newtype byte = x: int | 0 <= x < 0x100

  type Bytes = seq<byte>

  datatype Option<+T> = None | Some(value: T)

  datatype Result<+T, +E> = Ok(value: T) | Err(error: E)

  function Min(a: int, b: int): int {
    if a <= b then a else b
  }

  function Zeros(n: nat): (z: Bytes)
    ensures |z| == n && forall i :: 0 <= i < n ==> z[i] == 0
  {
    seq(n, _ => 0 as byte)
  }

  // ----- the u32 little-endian length field

  function ToU32Le(n: nat): (b: Bytes)
    ensures |b| == 4
  {
    [(n % 0x100) as byte, (n / 0x100 % 0x100) as byte, (n / 0x1_0000 % 0x100) as byte, (n / 0x100_0000 % 0x100) as byte]
  }

  function FromU32Le(b: Bytes): (n: nat)
    requires |b| == 4
    ensures n < 0x1_0000_0000
  {
    b[0] as int + 0x100 * b[1] as int + 0x1_0000 * b[2] as int + 0x100_0000 * b[3] as int
  }

  lemma SplitDigit(n: nat, low: nat, high: nat)
    requires low < 0x100
    ensures n == low + 0x100 * high <==> low == n % 0x100 && high == n / 0x100
  {
  }

  /** The length field is a bijection between four bytes and the u32 values. */
  lemma U32LeBijection(n: nat, b: Bytes)
    requires n < 0x1_0000_0000 && |b| == 4
    ensures ToU32Le(n) == b <==> n == FromU32Le(b)
  {
    var n1, n2 := n / 0x100, n / 0x1_0000;
    assert n2 == n1 / 0x100 && n / 0x100_0000 == n2 / 0x100;
    var h2 := b[2] as int + 0x100 * b[3] as int;
    var h1 := b[1] as int + 0x100 * h2;
    SplitDigit(n, b[0] as int, h1);
    SplitDigit(n1, b[1] as int, h2);
    SplitDigit(n2, b[2] as int, b[3] as int);
    var e := ToU32Le(n);
    assert e == b <==> e[0] == b[0] && e[1] == b[1] && e[2] == b[2] && e[3] == b[3];
  }

  // ----- chunk lists

  function Flatten(chunks: seq<Bytes>): Bytes {
    if chunks == [] then [] else chunks[0] + Flatten(chunks[1..])
  }

  lemma {:induction false} FlattenConcat(a: seq<Bytes>, b: seq<Bytes>)
    ensures Flatten(a + b) == Flatten(a) + Flatten(b)
  {
    if a == [] {
      assert a + b == b;
    } else {
      FlattenConcat(a[1..], b);
      assert (a + b)[0] == a[0] && (a + b)[1..] == a[1..] + b;
      calc {
        Flatten(a + b);
        a[0] + Flatten(a[1..] + b);
        a[0] + (Flatten(a[1..]) + Flatten(b));
        a[0] + Flatten(a[1..]) + Flatten(b);
        Flatten(a) + Flatten(b);
      }
    }
  }

  lemma FlattenSnoc(chunks: seq<Bytes>, last: Bytes)
    ensures Flatten(chunks + [last]) == Flatten(chunks) + last
  {
    FlattenConcat(chunks, [last]);
    assert Flatten([last]) == last + Flatten([]);
  }
}
