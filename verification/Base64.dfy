/** `base64_decode` of src/http.rs: a truncating 32-bit accumulator, proved against the
    group-of-four decoding of section 4 of RFC 4648 and its encoder. */
module Base64 {
  import opened Bytes

  type sextet = x: int | 0 <= x < 64

  const PAD: byte := '=' as int

  function Value(c: byte): Option<sextet>
  {
    if 'A' as int <= c <= 'Z' as int then Some(c - 'A' as int)
    else if 'a' as int <= c <= 'z' as int then Some(c - 'a' as int + 26)
    else if '0' as int <= c <= '9' as int then Some(c - '0' as int + 52)
    else if c == '+' as int then Some(62)
    else if c == '/' as int then Some(63)
    else None
  }

  function Letter(v: sextet): (c: byte)
    ensures Value(c) == Some(v) && c != PAD
  {
    if v < 26 then 'A' as int + v
    else if v < 52 then 'a' as int + v - 26
    else if v < 62 then '0' as int + v - 52
    else if v == 62 then '+' as int else '/' as int
  }

  /** The text before the first `=`. */
  function Stem(s: seq<byte>): (t: seq<byte>)
    ensures PAD !in t && t <= s && (|t| < |s| ==> s[|t|] == PAD)
  {
    if s == [] || s[0] == PAD then [] else [s[0]] + Stem(s[1..])
  }

  predicate AllLetters(s: seq<byte>)
  {
    forall i :: 0 <= i < |s| ==> Value(s[i]).Some?
  }

  function Values(s: seq<byte>): (v: seq<sextet>)
    requires AllLetters(s)
    ensures |v| == |s|
  {
    seq(|s|, i requires 0 <= i < |s| => Value(s[i]).value)
  }

  /** What the last of `vs` adds to the decoded bytes: the second, third and fourth letter of
      a group complete a byte with bits of the letter before. */
  function Emit(vs: seq<sextet>): seq<byte>
    requires vs != []
  {
    var n := |vs| - 1;
    if n % 4 == 0 then []
    else
      var before: int, last: int := vs[n - 1], vs[n];
      if n % 4 == 1 then [before * 4 + last / 16]
      else if n % 4 == 2 then [before % 16 * 16 + last / 4]
      else [before % 4 * 64 + last]
  }

  function Decoded(vs: seq<sextet>): seq<byte>
  {
    if vs == [] then [] else Decoded(vs[..|vs| - 1]) + Emit(vs)
  }

  /** n letters give 6n/8 bytes. */
  lemma {:induction false} DecodedLength(vs: seq<sextet>)
    ensures |Decoded(vs)| == 6 * |vs| / 8
  {
    if vs != [] {
      DecodedLength(vs[..|vs| - 1]);
      LengthStep(|vs| - 1);
    }
  }

  lemma LengthStep(n: nat)
    ensures 6 * (n + 1) / 8 == 6 * n / 8 + (if n % 4 == 0 then 0 else 1)
  {
    var q, r := n / 4, n % 4;
    assert n == 4 * q + r;
    assert 6 * n == 8 * (3 * q) + 6 * r;
  }

  /** How many pending bits the accumulator holds after `n` letters, and which. */
  function PendingBits(n: nat): nat
  {
    if n % 4 == 0 then 0 else if n % 4 == 1 then 6 else if n % 4 == 2 then 4 else 2
  }

  predicate Pending(acc: nat, vs: seq<sextet>)
  {
    var n := |vs|;
    && (n % 4 == 1 ==> acc % 64 == vs[n - 1])
    && (n % 4 == 2 ==> acc % 16 == vs[n - 1] % 16)
    && (n % 4 == 3 ==> acc % 4 == vs[n - 1] % 4)
  }

  /** `(acc << 6) | v` in 32 bits. */
  function Shifted(acc: nat, v: sextet): nat
  {
    (acc * 64) % U32 + v
  }

  lemma ShiftedParts(acc: nat, v: sextet)
    ensures var a := acc % 0x400_0000;
            && Shifted(acc, v) == 64 * a + v
            && a % 64 == acc % 64 && a % 16 == acc % 16 && a % 4 == acc % 4
  {
    var q := acc / 0x400_0000;
    assert acc * 64 == q * U32 + 64 * (acc % 0x400_0000);
  }

  lemma ByteOut(acc: nat, v: sextet)
    ensures Shifted(acc, v) / 16 % 256 == acc % 64 * 4 + v / 16
    ensures Shifted(acc, v) / 4 % 256 == acc % 16 * 16 + v / 4
    ensures Shifted(acc, v) % 256 == acc % 4 * 64 + v
    ensures Shifted(acc, v) % 64 == v && Shifted(acc, v) % 16 == v % 16 && Shifted(acc, v) % 4 == v % 4
  {
    ShiftedParts(acc, v);
    Split(acc % 0x400_0000, v);
  }

  lemma Split(a: nat, v: nat)
    requires v < 64
    ensures (64 * a + v) / 16 % 256 == a % 64 * 4 + v / 16
    ensures (64 * a + v) / 4 % 256 == a % 16 * 16 + v / 4
    ensures (64 * a + v) % 256 == a % 4 * 64 + v
    ensures (64 * a + v) % 64 == v && (64 * a + v) % 16 == v % 16 && (64 * a + v) % 4 == v % 4
  {
    SplitAt16(a, v);
    SplitAt4(a, v);
    SplitAt1(a, v);
  }

  lemma SplitAt16(a: nat, v: nat)
    requires v < 64
    ensures (64 * a + v) / 16 % 256 == a % 64 * 4 + v / 16
  {
    var q, r := a / 64, a % 64;
    assert (64 * a + v) / 16 == 256 * q + (4 * r + v / 16);
  }

  lemma SplitAt4(a: nat, v: nat)
    requires v < 64
    ensures (64 * a + v) / 4 % 256 == a % 16 * 16 + v / 4
  {
    var q, r := a / 16, a % 16;
    assert (64 * a + v) / 4 == 256 * q + (16 * r + v / 4);
  }

  lemma SplitAt1(a: nat, v: nat)
    requires v < 64
    ensures (64 * a + v) % 256 == a % 4 * 64 + v
    ensures (64 * a + v) % 64 == v && (64 * a + v) % 16 == v % 16 && (64 * a + v) % 4 == v % 4
  {
    var q, r := a / 4, a % 4;
    assert 64 * a + v == 256 * q + (64 * r + v);
    LowBits(a, v);
  }

  lemma LowBits(a: nat, v: nat)
    requires v < 64
    ensures (64 * a + v) % 64 == v && (64 * a + v) % 16 == v % 16 && (64 * a + v) % 4 == v % 4
  {
    Low16(a, v);
    Low4(a, v);
  }

  lemma Low16(a: nat, v: nat)
    ensures (64 * a + v) % 16 == v % 16
  {
    assert 64 * a + v == 16 * (4 * a + v / 16) + v % 16;
  }

  lemma Low4(a: nat, v: nat)
    ensures (64 * a + v) % 4 == v % 4
  {
    assert 64 * a + v == 4 * (16 * a + v / 4) + v % 4;
  }

  lemma NextMod(n: nat)
    ensures (n + 1) % 4 == if n % 4 == 3 then 0 else n % 4 + 1
  {
  }

  lemma PendingNext(acc: nat, vs: seq<sextet>, v: sextet)
    requires Pending(acc, vs)
    ensures Pending(Shifted(acc, v), vs + [v])
    ensures var n := |vs|;
            && (n % 4 == 0 ==> Emit(vs + [v]) == [] && PendingBits(n + 1) == 6)
            && (n % 4 != 0 ==> PendingBits(n) + 6 == PendingBits(n + 1) + 8)
            && (n % 4 != 0 ==> Emit(vs + [v]) == [Shifted(acc, v) / Pow2(PendingBits(n + 1)) % 256])
  {
    hide Shifted, Pow2;
    var ws, n := vs + [v], |vs|;
    assert ws[n] == v && (n > 0 ==> ws[n - 1] == vs[n - 1]);
    NextMod(n);
    ByteOut(acc, v);
    Pow2Values();
    assert Shifted(acc, v) / 1 == Shifted(acc, v);
  }

  function Pow2(n: nat): (p: nat)
    ensures p > 0
  {
    if n == 0 then 1 else 2 * Pow2(n - 1)
  }

  lemma Pow2Values()
    ensures Pow2(0) == 1 && Pow2(2) == 4 && Pow2(4) == 16
  {
    assert Pow2(1) == 2;
    assert Pow2(3) == 8;
  }

  /** The value `base64_decode` returns, as a function: the bytes, if all letters before the
      first `=` are valid and the result fits. */
  function DecodeText(src: seq<byte>, capacity: nat): Option<seq<byte>>
  {
    var t := Stem(src);
    if AllLetters(t) && 6 * |t| / 8 <= capacity then Some(Decoded(Values(t))) else None
  }

  /** `base64_decode`: succeeds exactly when every letter before the first `=` is valid and the
      6n/8 bytes fit; then `dst` starts with the decoded bytes and is otherwise untouched. */
  method Decode(src: seq<byte>, dst: array<byte>) returns (r: Option<nat>)
    modifies dst
    ensures r.Some? <==> AllLetters(Stem(src)) && 6 * |Stem(src)| / 8 <= dst.Length
    ensures r.Some? ==> r.value == 6 * |Stem(src)| / 8 && dst[..r.value] == Decoded(Values(Stem(src)))
    ensures r.Some? ==> forall j :: r.value <= j < dst.Length ==> dst[j] == old(dst[j])
  {
    hide Pending, PendingBits, Decoded, Shifted, Pow2, Value, Stem, Values;
    ghost var t := Stem(src);
    var acc: nat, bits: nat, di: nat := 0, 0, 0;
    var i := 0;
    Begin();
    assert t[..0] == [] && Values(t[..0]) == [];
    while i < |src| && src[i] != PAD
      invariant i <= |t| && (i < |src| && src[i] != PAD ==> i < |t|)
      invariant AllLetters(t[..i]) && Pending(acc, Values(t[..i]))
      invariant bits == PendingBits(i) && di == 6 * i / 8 <= dst.Length
      invariant dst[..di] == Decoded(Values(t[..i]))
      invariant forall j :: di <= j < dst.Length ==> dst[j] == old(dst[j])
    {
      assert src[i] == t[i];
      var v := Value(src[i]);
      if v.None? {
        return None;
      }
      ghost var vs := Values(t[..i]);
      ValuesSnoc(t, i);
      NextLetter(acc, vs, v.value);
      acc := Shifted(acc, v.value);
      bits := bits + 6;
      if bits >= 8 {
        bits := bits - 8;
        if di >= dst.Length {
          LengthMonotone(i + 1, |t|);
          return None;
        }
        dst[di] := acc / Pow2(bits) % 256;
        di := di + 1;
        assert dst[..di] == dst[..di - 1] + [dst[di - 1]];
      }
      i := i + 1;
    }
    assert t[..i] == t;
    return Some(di);
  }

  /** Everything one more letter changes. */
  lemma NextLetter(acc: nat, vs: seq<sextet>, v: sextet)
    requires Pending(acc, vs)
    ensures Pending(Shifted(acc, v), vs + [v])
    ensures var n, more := |vs|, PendingBits(|vs|) + 6 >= 8;
            && PendingBits(n + 1) == PendingBits(n) + 6 - (if more then 8 else 0)
            && 6 * (n + 1) / 8 == 6 * n / 8 + (if more then 1 else 0)
            && Decoded(vs + [v]) == Decoded(vs) + (if more then [Shifted(acc, v) / Pow2(PendingBits(n + 1)) % 256] else [])
  {
    hide Pending, Emit, Decoded, Shifted, Pow2;
    PendingNext(acc, vs, v);
    LengthStep(|vs|);
    DecodedSnoc(vs, v);
  }

  lemma ValuesSnoc(t: seq<byte>, i: nat)
    requires i < |t| && AllLetters(t[..i]) && Value(t[i]).Some?
    ensures AllLetters(t[..i + 1]) && Values(t[..i + 1]) == Values(t[..i]) + [Value(t[i]).value]
  {
    assert t[..i + 1] == t[..i] + [t[i]];
  }

  lemma Begin()
    ensures Pending(0, []) && PendingBits(0) == 0 && Decoded([]) == []
  {
  }

  lemma DecodedSnoc(vs: seq<sextet>, v: sextet)
    ensures Decoded(vs + [v]) == Decoded(vs) + Emit(vs + [v])
  {
    assert (vs + [v])[..|vs|] == vs;
  }

  lemma LengthMonotone(m: nat, n: nat)
    requires m <= n
    ensures 6 * m / 8 <= 6 * n / 8
  {
  }

  // ---- The encoder, and the round trip --------------------------------------------------------

  /** The letters' values for `p`, three bytes at a time. */
  function Encoded(p: seq<byte>): seq<sextet>
  {
    if |p| == 0 then []
    else if |p| == 1 then [p[0] / 4, p[0] % 4 * 16]
    else if |p| == 2 then [p[0] / 4, p[0] % 4 * 16 + p[1] / 16, p[1] % 16 * 4]
    else Group(p[0], p[1], p[2]) + Encoded(p[3..])
  }

  function Group(a: byte, b: byte, c: byte): seq<sextet>
  {
    [a / 4, a % 4 * 16 + b / 16, b % 16 * 4 + c / 64, c % 64]
  }

  function Letters(vs: seq<sextet>): (s: seq<byte>)
    ensures |s| == |vs| && AllLetters(s) && PAD !in s
  {
    seq(|vs|, i requires 0 <= i < |vs| => Letter(vs[i]))
  }

  /** The encoded text with `pad` padding characters (any number is accepted). */
  function EncodeText(p: seq<byte>, pad: nat): seq<byte>
  {
    Letters(Encoded(p)) + seq(pad, _ => PAD)
  }

  lemma {:induction false} DecodedConcat(vs: seq<sextet>, ws: seq<sextet>)
    requires |vs| % 4 == 0
    ensures Decoded(vs + ws) == Decoded(vs) + Decoded(ws)
  {
    hide Emit;
    if ws == [] {
      assert vs + ws == vs;
    } else {
      var n := |ws| - 1;
      DecodedConcat(vs, ws[..n]);
      assert (vs + ws)[..|vs| + n] == vs + ws[..n];
      EmitConcat(vs, ws);
    }
  }

  lemma EmitConcat(vs: seq<sextet>, ws: seq<sextet>)
    requires |vs| % 4 == 0 && ws != []
    ensures Emit(vs + ws) == Emit(ws)
  {
    var n := |ws| - 1;
    assert (|vs| + n) % 4 == n % 4;
    assert (vs + ws)[|vs| + n] == ws[n];
    if n > 0 {
      assert (vs + ws)[|vs| + n - 1] == ws[n - 1];
    }
  }

  lemma DecodedFour(a: sextet, b: sextet, c: sextet, d: sextet)
    ensures Decoded([a]) == []
    ensures Decoded([a, b]) == [a * 4 + b / 16]
    ensures Decoded([a, b, c]) == [a * 4 + b / 16, b % 16 * 16 + c / 4]
    ensures Decoded([a, b, c, d]) == [a * 4 + b / 16, b % 16 * 16 + c / 4, c % 4 * 64 + d]
  {
    hide Emit;
    EmitFour(a, b, c, d);
    assert Decoded([]) == [];
    assert [a][..0] == [] && [a, b][..1] == [a] && [a, b, c][..2] == [a, b] && [a, b, c, d][..3] == [a, b, c];
  }

  lemma EmitFour(a: sextet, b: sextet, c: sextet, d: sextet)
    ensures Emit([a]) == [] && Emit([a, b]) == [a * 4 + b / 16]
    ensures Emit([a, b, c]) == [b % 16 * 16 + c / 4]
    ensures Emit([a, b, c, d]) == [c % 4 * 64 + d]
  {
  }

  lemma DecodedGroup(a: byte, b: byte, c: byte)
    ensures Decoded(Group(a, b, c)) == [a, b, c]
    ensures Decoded([a / 4, a % 4 * 16 + b / 16, b % 16 * 4]) == [a, b]
    ensures Decoded([a / 4, a % 4 * 16]) == [a]
  {
    hide Decoded;
    GroupOfThree(a, b, c);
    GroupOfThree(a, b, 0);
    GroupOfThree(a, 0, 0);
    DecodedFour(a / 4, a % 4 * 16 + b / 16, b % 16 * 4 + c / 64, c % 64);
    DecodedFour(a / 4, a % 4 * 16 + b / 16, b % 16 * 4, 0);
    DecodedFour(a / 4, a % 4 * 16, 0, 0);
  }

  lemma {:induction false} DecodeEncoded(p: seq<byte>)
    ensures Decoded(Encoded(p)) == p
  {
    hide Decoded, Group;
    if |p| == 0 {
      Begin();
    } else {
      DecodedGroup(p[0], if |p| > 1 then p[1] else 0, if |p| > 2 then p[2] else 0);
      if |p| > 2 {
        DecodeEncoded(p[3..]);
        GroupLength(p[0], p[1], p[2]);
        DecodedConcat(Group(p[0], p[1], p[2]), Encoded(p[3..]));
        assert p == [p[0], p[1], p[2]] + p[3..];
      }
    }
  }

  lemma GroupLength(a: byte, b: byte, c: byte)
    ensures |Group(a, b, c)| == 4
  {
  }

  lemma GroupOfThree(a: byte, b: byte, c: byte)
    ensures a / 4 * 4 + (a % 4 * 16 + b / 16) / 16 == a
    ensures (a % 4 * 16 + b / 16) % 16 * 16 + (b % 16 * 4 + c / 64) / 4 == b
    ensures (b % 16 * 4 + c / 64) % 4 * 64 + c % 64 == c
  {
  }

  lemma {:induction false} StemOfPadded(s: seq<byte>, pad: nat)
    requires PAD !in s
    ensures Stem(s + seq(pad, _ => PAD)) == s
  {
    var t := s + seq(pad, _ => PAD);
    if s == [] {
      assert pad > 0 ==> t[0] == PAD;
    } else {
      StemOfPadded(s[1..], pad);
      assert t[1..] == s[1..] + seq(pad, _ => PAD);
    }
  }

  /** Every payload that fits is recovered from its encoding, padded or not. */
  lemma RoundTrip(p: seq<byte>, pad: nat, capacity: nat)
    requires |p| <= capacity
    ensures DecodeText(EncodeText(p, pad), capacity) == Some(p)
  {
    hide Encoded, Decoded;
    var vs := Encoded(p);
    StemOfPadded(Letters(vs), pad);
    assert Values(Letters(vs)) == vs;
    DecodeEncoded(p);
    DecodedLength(vs);
  }

  // ---- Against the standard -------------------------------------------------------------------

  /** The alphabet of section 4 of RFC 4648: three runs of consecutive characters, then `+` and `/`. */
  lemma Alphabet(v: nat)
    requires v < 63
    ensures Letter(0) == 'A' as int && Letter(25) == 'Z' as int && Letter(26) == 'a' as int && Letter(51) == 'z' as int
    ensures Letter(52) == '0' as int && Letter(61) == '9' as int && Letter(62) == '+' as int && Letter(63) == '/' as int
    ensures v != 25 && v != 51 && v != 61 && v != 62 ==> Letter(v + 1) == Letter(v) + 1
  {
  }

  /** Letters are the only characters with a value. */
  lemma ValueIsLetter(c: byte)
    ensures Value(c).Some? ==> Letter(Value(c).value) == c
  {
  }

  /** Four letters and the three bytes they decode to are the same 24-bit number. */
  lemma GroupIsNumber(a: sextet, b: sextet, c: sextet, d: sextet)
    ensures var p := Decoded([a, b, c, d]);
            && |p| == 3
            && (p[0] as int) * 0x1_0000 + (p[1] as int) * 0x100 + (p[2] as int)
               == (a as int) * 0x4_0000 + (b as int) * 0x1000 + (c as int) * 0x40 + (d as int)
  {
    hide Decoded;
    DecodedFour(a, b, c, d);
  }

  /** A test vector of section 10 of RFC 4648. */
  lemma KnownText()
    ensures DecodeText(Ascii("Zm9vYg=="), 128) == Some(Ascii("foob"))
  {
    hide DecodeText, Decoded;
    var p := Ascii("foob");
    RoundTrip(p, 2, 128);
    assert p[3..] == Ascii("b");
    assert Encoded(p[3..]) == [24, 32];
    assert Encoded(p) == [25, 38, 61, 47, 24, 32];
    assert EncodeText(p, 2) == Ascii("Zm9vYg==");
  }
}
