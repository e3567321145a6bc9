/** Bytes, ASCII and the small sequence facts that every other module uses. */
module Bytes {

  type byte = x: int | 0 <= x < 256

  datatype Option<+T> = None | Some(value: T)

  /** ASCII BEL, the SLCAN negative reply. */
  const BELL: byte := 7
  /** ASCII CR, the SLCAN terminator and positive reply. */
  const CR: byte := 13
  const LF: byte := 10

  /** 2^32, the modulus of the firmware's `u32` arithmetic. */
  const U32: nat := 0x1_0000_0000

  type u32 = x: int | 0 <= x < 0x1_0000_0000

  /** The bytes of an ASCII literal. */
  function Ascii(s: string): (r: seq<byte>)
    requires forall i :: 0 <= i < |s| ==> s[i] as int < 128
  {
    seq(|s|, i requires 0 <= i < |s| => s[i] as int)
  }

  function Zeros(n: nat): (z: seq<byte>)
  {
    seq(n, _ => 0)
  }

  /** `s` holds neither CR, LF nor BEL: it can stand inside one protocol line. */
  predicate Printable(s: seq<byte>)
  {
    forall i :: 0 <= i < |s| ==> s[i] != CR && s[i] != LF && s[i] != BELL
  }

  /** A slice of a slice. */
  lemma Within(c: seq<byte>, at: nat, n: nat, i: nat, j: nat)
    requires i <= j <= n && at + n <= |c|
    ensures c[at + i..at + j] == c[at..at + n][i..j]
  {
    var x, y := c[at + i..at + j], c[at..at + n][i..j];
    forall k | 0 <= k < j - i ensures x[k] == y[k] {
    }
  }

  /** The pieces one after the other. */
  function Flat(parts: seq<seq<byte>>): seq<byte>
  {
    if parts == [] then [] else parts[0] + Flat(parts[1..])
  }

  lemma FlatCons(a: seq<byte>, more: seq<seq<byte>>)
    ensures Flat([a] + more) == a + Flat(more)
  {
    assert ([a] + more)[1..] == more;
  }

  lemma {:induction false} FlatConcat(a: seq<seq<byte>>, b: seq<seq<byte>>)
    ensures Flat(a + b) == Flat(a) + Flat(b)
  {
    if a == [] {
      assert a + b == b;
    } else {
      FlatConcat(a[1..], b);
      assert (a + b)[1..] == a[1..] + b && (a + b)[0] == a[0];
      assert a[0] + (Flat(a[1..]) + Flat(b)) == a[0] + Flat(a[1..]) + Flat(b);
    }
  }
}
