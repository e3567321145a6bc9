/** Hexadecimal digits: `nibble`, `hex_digit` and `parse_hex` of src/slcan.rs, and the
    two-way relation between digit strings and the numbers and bytes they print. */
module Hex {
  import opened Bytes

  function Nibble(c: byte): Option<nat>
  {
    if '0' as int <= c <= '9' as int then Some(c - '0' as int)
    else if 'a' as int <= c <= 'f' as int then Some(c - 'a' as int + 10)
    else if 'A' as int <= c <= 'F' as int then Some(c - 'A' as int + 10)
    else None
  }

  function HexDigit(v: nat): byte
  {
    if v % 16 < 10 then '0' as int + v % 16 else 'A' as int + v % 16 - 10
  }

  predicate IsHex(c: byte) { Nibble(c).Some? }

  predicate AllHex(s: seq<byte>)
  {
    forall i :: 0 <= i < |s| ==> IsHex(s[i])
  }

  /** A lower-case hex digit becomes upper-case; every other byte is unchanged. */
  function Upper(c: byte): byte
  {
    if 'a' as int <= c <= 'f' as int then c - 32 else c
  }

  function UpperAll(s: seq<byte>): (u: seq<byte>)
  {
    seq(|s|, i requires 0 <= i < |s| => Upper(s[i]))
  }

  function Pow16(n: nat): (p: nat)
    ensures p >= 1
  {
    if n == 0 then 1 else 16 * Pow16(n - 1)
  }

  /** The number a digit string denotes, most significant digit first. */
  function HexValue(s: seq<byte>): nat
    requires AllHex(s)
  {
    if s == [] then 0 else HexValue(s[..|s| - 1]) * 16 + Nibble(s[|s| - 1]).value
  }

  /** The low `n` hex digits of `v`, most significant first. */
  function HexN(v: nat, n: nat): (s: seq<byte>)
    ensures |s| == n
  {
    if n == 0 then [] else HexN(v / 16, n - 1) + [HexDigit(v)]
  }

  /** Two digits for every byte. */
  function HexBytes(d: seq<byte>): (s: seq<byte>)
    ensures |s| == 2 * |d|
  {
    if d == [] then [] else HexBytes(d[..|d| - 1]) + [HexDigit(d[|d| - 1] / 16), HexDigit(d[|d| - 1])]
  }

  /** The bytes an even-length digit string denotes. */
  function UnhexBytes(s: seq<byte>): (d: seq<byte>)
    requires AllHex(s) && |s| % 2 == 0
    ensures 2 * |d| == |s|
  {
    if s == [] then []
    else
      var hi, lo := Nibble(s[|s| - 2]).value, Nibble(s[|s| - 1]).value;
      UnhexBytes(s[..|s| - 2]) + [hi * 16 + lo]
  }

  lemma DigitNibble(v: nat)
    ensures Nibble(HexDigit(v)) == Some(v % 16)
    ensures Upper(HexDigit(v)) == HexDigit(v)
  {
  }

  lemma NibbleDigit(c: byte)
    requires IsHex(c)
    ensures Nibble(c).value < 16 && HexDigit(Nibble(c).value) == Upper(c)
  {
  }

  /** The digits themselves. */
  lemma DigitTable(v: nat, c: byte)
    requires v < 16
    ensures HexDigit(v) == "0123456789ABCDEF"[v] as int
    ensures Nibble(c) == Some(v) <==> c == "0123456789ABCDEF"[v] as int || c == "0123456789abcdef"[v] as int
  {
  }

  /** Printing then reading a number that fits gives it back. */
  lemma {:induction false} ValueOfPrinted(v: nat, n: nat)
    requires v < Pow16(n)
    ensures AllHex(HexN(v, n)) && HexValue(HexN(v, n)) == v
    ensures UpperAll(HexN(v, n)) == HexN(v, n)
  {
    if n > 0 {
      ValueOfPrinted(v / 16, n - 1);
      DigitNibble(v);
      var s := HexN(v, n);
      assert s[..n - 1] == HexN(v / 16, n - 1);
      assert UpperAll(s) == UpperAll(s[..n - 1]) + [Upper(s[n - 1])];
    }
  }

  /** Reading then printing a digit string gives its upper-case form, and the value fits. */
  lemma {:induction false} PrintedOfValue(s: seq<byte>)
    requires AllHex(s)
    ensures HexValue(s) < Pow16(|s|) && HexN(HexValue(s), |s|) == UpperAll(s)
  {
    if s != [] {
      var t := s[..|s| - 1];
      PrintedOfValue(t);
      NibbleDigit(s[|s| - 1]);
      assert HexValue(s) / 16 == HexValue(t) && HexValue(s) % 16 == Nibble(s[|s| - 1]).value;
      assert UpperAll(s) == UpperAll(t) + [Upper(s[|s| - 1])];
    }
  }

  lemma ByteDigits(b: byte, hi: byte, lo: byte)
    requires hi == HexDigit(b / 16) && lo == HexDigit(b)
    ensures IsHex(hi) && IsHex(lo) && Upper(hi) == hi && Upper(lo) == lo
    ensures Nibble(hi).value * 16 + Nibble(lo).value == b
  {
    DigitNibble(b / 16);
    DigitNibble(b);
    assert (b / 16) % 16 == b / 16;
  }

  lemma DigitsByte(hi: byte, lo: byte)
    requires IsHex(hi) && IsHex(lo)
    ensures var b := Nibble(hi).value * 16 + Nibble(lo).value;
            b < 256 && HexDigit(b / 16) == Upper(hi) && HexDigit(b) == Upper(lo)
  {
    NibbleDigit(hi);
    NibbleDigit(lo);
    var h, l := Nibble(hi).value, Nibble(lo).value;
    assert (h * 16 + l) / 16 == h && (h * 16 + l) % 16 == l;
  }

  lemma UpperAllConcat(s: seq<byte>, t: seq<byte>)
    ensures UpperAll(s + t) == UpperAll(s) + UpperAll(t)
  {
  }

  lemma UpperPair(hi: byte, lo: byte)
    ensures UpperAll([hi, lo]) == [Upper(hi), Upper(lo)]
  {
  }

  lemma {:induction false} HexBytesSnoc(e: seq<byte>, b: byte)
    ensures HexBytes(e + [b]) == HexBytes(e) + [HexDigit(b / 16), HexDigit(b)]
  {
    assert (e + [b])[..|e|] == e;
  }

  lemma {:induction false} UnhexSnoc(t: seq<byte>, hi: byte, lo: byte)
    requires AllHex(t) && |t| % 2 == 0 && IsHex(hi) && IsHex(lo)
    ensures AllHex(t + [hi, lo])
    ensures UnhexBytes(t + [hi, lo]) == UnhexBytes(t) + [Nibble(hi).value * 16 + Nibble(lo).value]
  {
    var s := t + [hi, lo];
    assert s[..|s| - 2] == t && s[|s| - 2] == hi && s[|s| - 1] == lo;
  }

  lemma AppendDigits(e: seq<byte>, s: seq<byte>, b: byte, hi: byte, lo: byte)
    requires AllHex(s) && |s| % 2 == 0 && UnhexBytes(s) == e && UpperAll(s) == s
    requires IsHex(hi) && IsHex(lo) && Upper(hi) == hi && Upper(lo) == lo
    requires Nibble(hi).value * 16 + Nibble(lo).value == b
    ensures var t := s + [hi, lo];
            AllHex(t) && |t| % 2 == 0 && UnhexBytes(t) == e + [b] && UpperAll(t) == t
  {
    hide Nibble, Upper, UnhexBytes;
    UnhexSnoc(s, hi, lo);
    UpperAllConcat(s, [hi, lo]);
  }

  lemma EmptyHex()
    ensures UnhexBytes([]) == [] && HexBytes([]) == [] && UpperAll([]) == []
  {
  }

  lemma {:induction false} UnhexOfHex(d: seq<byte>)
    ensures AllHex(HexBytes(d)) && UnhexBytes(HexBytes(d)) == d
    ensures UpperAll(HexBytes(d)) == HexBytes(d)
  {
    hide HexDigit, Nibble, Upper, UnhexBytes, UpperAll;
    if d != [] {
      var e, b := d[..|d| - 1], d[|d| - 1];
      var hi, lo := HexDigit(b / 16), HexDigit(b);
      UnhexOfHex(e);
      ByteDigits(b, hi, lo);
      AppendDigits(e, HexBytes(e), b, hi, lo);
      assert d == e + [b];
    } else {
      EmptyHex();
    }
  }

  lemma {:induction false} HexOfUnhex(s: seq<byte>)
    requires AllHex(s) && |s| % 2 == 0
    ensures HexBytes(UnhexBytes(s)) == UpperAll(s)
  {
    hide HexDigit, Nibble, Upper, HexBytes, UpperAll;
    if s != [] {
      var t, hi, lo := s[..|s| - 2], s[|s| - 2], s[|s| - 1];
      assert s == t + [hi, lo];
      HexOfUnhex(t);
      UnhexSnoc(t, hi, lo);
      DigitsByte(hi, lo);
      HexBytesSnoc(UnhexBytes(t), Nibble(hi).value * 16 + Nibble(lo).value);
      UpperAllConcat(t, [hi, lo]);
      UpperPair(hi, lo);
    } else {
      EmptyHex();
    }
  }

  lemma HexIsPrintable(s: seq<byte>)
    requires AllHex(s)
    ensures Printable(s)
  {
    forall i | 0 <= i < |s| ensures s[i] != CR && s[i] != LF && s[i] != BELL {
      assert IsHex(s[i]);
    }
  }

  lemma ShiftIn(h: nat, n: nat)
    requires n < 16
    ensures ((h % U32) * 16) % U32 + n == (h * 16 + n) % U32
  {
    var q, r := h / 0x1000_0000, h % 0x1000_0000;
    assert h == q * 0x1000_0000 + r;
    assert (h * 16 + n) == q * U32 + (r * 16 + n);
    assert ((h % U32) * 16) % U32 == r * 16;
  }

  lemma HexValueSnoc(t: seq<byte>, c: byte)
    requires AllHex(t) && IsHex(c)
    ensures AllHex(t + [c]) && HexValue(t + [c]) == HexValue(t) * 16 + Nibble(c).value
  {
    assert (t + [c])[..|t|] == t;
  }

  /** `parse_hex`: the accumulator is a `u32`, so only the value modulo 2^32 survives. */
  method ParseHex(s: seq<byte>) returns (r: Option<nat>)
    ensures r.Some? <==> AllHex(s)
    ensures r.Some? ==> r.value == HexValue(s) % U32
  {
    var v := 0;
    for i := 0 to |s|
      invariant AllHex(s[..i]) && v == HexValue(s[..i]) % U32
    {
      match Nibble(s[i]) {
        case None => return None;
        case Some(n) =>
          assert s[..i + 1] == s[..i] + [s[i]];
          HexValueSnoc(s[..i], s[i]);
          ShiftIn(HexValue(s[..i]), n);
          v := (v * 16) % U32 + n;
      }
    }
    assert s[..|s|] == s;
    return Some(v);
  }
}
